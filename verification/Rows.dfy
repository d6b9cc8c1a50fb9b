/** Emitting one canonical row of merged edges per node into the builder. */
module RowSpecs {
  import opened Prelude
  import opened Automata
  import opened Builders
  import opened Signatures

  /** The edges of one row. */
  ghost function SpecsOf(s: nat, m: seq<Entry>): seq<EdgeSpec> {
    if m == [] then [] else SpecsOf(s, m[..|m| - 1]) + [EdgeSpec(s, m[|m| - 1].key, m[|m| - 1].tokens)]
  }

  /** The edges of all rows, node by node. */
  ghost function AllSpecs(rows: seq<seq<Entry>>): seq<EdgeSpec> {
    if rows == [] then [] else AllSpecs(rows[..|rows| - 1]) + SpecsOf(|rows| - 1, rows[|rows| - 1])
  }

  lemma {:induction false} SpecsAt(s: nat, m: seq<Entry>)
    ensures |SpecsOf(s, m)| == |m|
    ensures forall k :: 0 <= k < |m| ==> SpecsOf(s, m)[k] == EdgeSpec(s, m[k].key, m[k].tokens)
  {
    if m != [] {
      SpecsAt(s, m[..|m| - 1]);
    }
  }

  lemma {:induction false} EdgesOfConcat(es: seq<EdgeSpec>, b: nat, m: seq<Entry>, s: nat)
    ensures EdgesOf(es + SpecsOf(b, m), s) == EdgesOf(es, s) + (if s == b then SpecsOf(b, m) else [])
  {
    if m == [] {
      assert es + [] == es;
    } else {
      var init, last := SpecsOf(b, m[..|m| - 1]), EdgeSpec(b, m[|m| - 1].key, m[|m| - 1].tokens);
      EdgesOfConcat(es, b, m[..|m| - 1], s);
      assert es + (init + [last]) == (es + init) + [last];
      EdgesOfAppend(es + init, last, s);
    }
  }

  /** Each node's edges are its row. */
  lemma {:induction false} AllSpecsRow(rows: seq<seq<Entry>>, s: nat)
    ensures EdgesOf(AllSpecs(rows), s) == if s < |rows| then SpecsOf(s, rows[s]) else []
  {
    if rows != [] {
      var n := |rows| - 1;
      AllSpecsRow(rows[..n], s);
      EdgesOfConcat(AllSpecs(rows[..n]), n, rows[n], s);
    }
  }

  lemma SpecMember(rows: seq<seq<Entry>>, e: EdgeSpec)
    ensures e in AllSpecs(rows) <==> e.src < |rows| && exists k :: 0 <= k < |rows[e.src]| && rows[e.src][k] == Entry(e.dst, e.tokens)
  {
    hide AllSpecs, SpecsOf, EdgesOf;
    EdgesOfMember(AllSpecs(rows), e.src, e);
    AllSpecsRow(rows, e.src);
    if e.src < |rows| {
      SpecsAt(e.src, rows[e.src]);
      var own := SpecsOf(e.src, rows[e.src]);
      if e in own {
        var k :| 0 <= k < |own| && own[k] == e;
        assert rows[e.src][k] == Entry(e.dst, e.tokens);
      }
      if k :| 0 <= k < |rows[e.src]| && rows[e.src][k] == Entry(e.dst, e.tokens) {
        assert own[k] == e;
      }
    }
  }

  /** Canonical rows over nodes below `n` and tokens below `vocab`. */
  ghost predicate RowsOk(rows: seq<seq<Entry>>, vocab: nat) {
    forall b :: 0 <= b < |rows| ==> RowOk(rows[b], |rows|, vocab)
  }

  ghost predicate RowOk(m: seq<Entry>, n: nat, vocab: nat) {
    Canon(m) && forall c: nat, t: nat :: Reach(m, c, t) ==> c < n && t < vocab
  }

  /** No token of a row leads to two nodes. */
  ghost predicate Deterministic(m: seq<Entry>) {
    forall c: nat, d: nat, t: nat :: Reach(m, c, t) && Reach(m, d, t) ==> c == d
  }

  lemma RowEdges(m: seq<Entry>, n: nat, vocab: nat, s: nat, k: nat)
    requires RowOk(m, n, vocab) && k < |m| && s < n
    ensures EdgeOk(EdgeSpec(s, m[k].key, m[k].tokens), n, vocab)
  {
    assert Reach(m, m[k].key, m[k].tokens[0]);
    forall t | t in m[k].tokens ensures t < vocab {
      assert Reach(m, m[k].key, t);
    }
  }

  lemma OneHolder(own: seq<EdgeSpec>, i: nat, j: nat, t: nat)
    requires NodeOk(own) && i < |own| && j < |own| && t in own[i].tokens && t in own[j].tokens
    ensures i == j
  {
    hide NodeOk;
    if i < j {
      DisjointAt(own, i, j);
    } else if j < i {
      DisjointAt(own, j, i);
    }
  }

  lemma DisjointAt(own: seq<EdgeSpec>, i: nat, j: nat)
    requires NodeOk(own) && i < j < |own|
    ensures TokenDisjoint(own[i], own[j])
  {
  }

  /** A canonical row passes the per-node checks exactly when it is deterministic. */
  lemma RowNodeOk(m: seq<Entry>, s: nat)
    requires Canon(m)
    ensures forall i, j :: 0 <= i < j < |SpecsOf(s, m)| ==> SpecsOf(s, m)[i].dst != SpecsOf(s, m)[j].dst
    ensures NodeOk(SpecsOf(s, m)) <==> Deterministic(m)
  {
    hide SpecsOf;
    var own := SpecsOf(s, m);
    SpecsAt(s, m);
    forall i, j | 0 <= i < j < |own| ensures own[i].dst != own[j].dst {
      assert own[i].dst == m[i].key && own[j].dst == m[j].key;
    }
    if Deterministic(m) {
      forall i, j, t | 0 <= i < j < |own| && t in own[i].tokens ensures t !in own[j].tokens {
        assert own[i].tokens == m[i].tokens && own[j].tokens == m[j].tokens;
        assert Reach(m, m[i].key, t);
        assert t in m[j].tokens ==> Reach(m, m[j].key, t);
      }
    }
    if NodeOk(own) {
      forall c: nat, d: nat, t: nat | Reach(m, c, t) && Reach(m, d, t) ensures c == d {
        var i :| 0 <= i < |m| && m[i].key == c && t in m[i].tokens;
        var j :| 0 <= j < |m| && m[j].key == d && t in m[j].tokens;
        assert t in own[i].tokens && t in own[j].tokens;
        OneHolder(own, i, j, t);
      }
    }
  }

  /** The builder accepts the rows exactly when every row is deterministic. */
  lemma RowsBuildable(rows: seq<seq<Entry>>, vocab: nat, start: nat)
    requires RowsOk(rows, vocab) && start < |rows|
    ensures Buildable(|rows|, vocab, start, AllSpecs(rows)) <==> forall b :: 0 <= b < |rows| ==> Deterministic(rows[b])
  {
    hide EdgeOk, NodeOk, Deterministic, AllSpecs, RowOk, Canon;
    EdgesInRange(rows, vocab);
    forall b | 0 <= b < |rows| ensures NodeOk(EdgesOf(AllSpecs(rows), b)) <==> Deterministic(rows[b]) {
      AllSpecsRow(rows, b);
      RowCanon(rows[b], |rows|, vocab);
      RowNodeOk(rows[b], b);
    }
  }

  lemma RowCanon(m: seq<Entry>, n: nat, vocab: nat)
    requires RowOk(m, n, vocab)
    ensures Canon(m)
  {
  }

  lemma EdgesInRange(rows: seq<seq<Entry>>, vocab: nat)
    requires RowsOk(rows, vocab)
    ensures forall e :: e in AllSpecs(rows) ==> EdgeOk(e, |rows|, vocab)
  {
    hide EdgeOk, AllSpecs, RowOk;
    forall e | e in AllSpecs(rows) ensures EdgeOk(e, |rows|, vocab) {
      SpecMember(rows, e);
      var k :| 0 <= k < |rows[e.src]| && rows[e.src][k] == Entry(e.dst, e.tokens);
      RowEdges(rows[e.src], |rows|, vocab, e.src, k);
    }
  }

  /** The only refusal canonical rows can meet is a token leading one node to two places. */
  lemma RowsRefusal(rows: seq<seq<Entry>>, vocab: nat, start: nat, err: FaError)
    requires RowsOk(rows, vocab) && start < |rows| && Truthful(err, |rows|, vocab, start, AllSpecs(rows))
    ensures err.DuplicateEdgeToken?
  {
    hide AllSpecs, RowOk, EdgesOf, Canon;
    EdgesInRange(rows, vocab);
    if err.DuplicatePair? {
      AllSpecsRow(rows, err.node);
      RowCanon(rows[err.node], |rows|, vocab);
      RowNodeOk(rows[err.node], err.node);
    }
  }

  /** The refused token leads its node to two places. */
  lemma RowsRefusedToken(rows: seq<seq<Entry>>, vocab: nat, start: nat, err: FaError)
    requires err.DuplicateEdgeToken? && Truthful(err, |rows|, vocab, start, AllSpecs(rows)) && RowsOk(rows, vocab)
    ensures err.node < |rows| && exists c: nat, d: nat :: c != d && Reach(rows[err.node], c, err.token) && Reach(rows[err.node], d, err.token)
  {
    hide AllSpecs, EdgesOf, RowOk, Canon;
    var m := rows[err.node];
    AllSpecsRow(rows, err.node);
    SpecsAt(err.node, m);
    RowCanon(m, |rows|, vocab);
    var own := EdgesOf(AllSpecs(rows), err.node);
    var i, j :| 0 <= i < j < |own| && err.token in own[i].tokens && err.token in own[j].tokens;
    CanonKeys(m, i, j);
    assert Reach(m, m[i].key, err.token) && Reach(m, m[j].key, err.token);
  }

  lemma CanonKeys(m: seq<Entry>, i: nat, j: nat)
    requires Canon(m) && i < j < |m|
    ensures m[i].key < m[j].key
  {
  }

  /** The edges of every node come in the order of their destinations. */
  ghost predicate EdgesAscend(a: Automaton)
    requires a.Shape()
  {
    forall s, e, f :: 0 <= s < a.nNodes && a.OutLo(s) <= e < f < a.OutHi(s) ==> a.edgeDst[e] < a.edgeDst[f]
  }

  lemma RowsAscend(a: Automaton, rows: seq<seq<Entry>>, vocab: nat)
    requires a.Valid() && Represents(a, AllSpecs(rows)) && a.nNodes == |rows| && RowsOk(rows, vocab)
    ensures EdgesAscend(a)
  {
    hide AllSpecs, EdgesOf, RowOk, Canon, Automaton.EdgeValid, Automaton.NodeValid, Row;
    forall s, e, f | 0 <= s < a.nNodes && a.OutLo(s) <= e < f < a.OutHi(s) ensures a.edgeDst[e] < a.edgeDst[f] {
      AllSpecsRow(rows, s);
      RowCanon(rows[s], |rows|, vocab);
      RowAscends(a, s, rows[s], e - a.OutLo(s), f - a.OutLo(s));
    }
  }

  lemma RowAscends(a: Automaton, s: nat, m: seq<Entry>, i: nat, j: nat)
    requires a.Shape() && s < a.nNodes && Canon(m) && Row(a, s, SpecsOf(s, m)) && i < j < a.OutHi(s) - a.OutLo(s)
    ensures a.edgeDst[a.OutLo(s) + i] < a.edgeDst[a.OutLo(s) + j]
  {
    hide Canon, SpecsOf;
    SpecsAt(s, m);
    var own := SpecsOf(s, m);
    assert RowEdge(a, a.OutLo(s) + i, own[i]) && RowEdge(a, a.OutLo(s) + j, own[j]);
    CanonKeys(m, i, j);
  }

  /** What was built steps exactly as the rows say. */
  lemma RowsStep(a: Automaton, rows: seq<seq<Entry>>, s: nat, t: nat, d: nat)
    requires a.Valid() && Represents(a, AllSpecs(rows)) && s < a.nNodes == |rows|
    ensures a.Next(s, t) == Some(d) <==> Reach(rows[s], d, t)
  {
    hide AllSpecs, Automaton.Valid, Automaton.Next, Represents;
    NextOfEdges(a, AllSpecs(rows), s, t, d);
    if e :| e in AllSpecs(rows) && e.src == s && e.dst == d && t in e.tokens {
      SpecMember(rows, e);
    }
    if Reach(rows[s], d, t) {
      var k :| 0 <= k < |rows[s]| && rows[s][k].key == d && t in rows[s][k].tokens;
      SpecMember(rows, EdgeSpec(s, d, rows[s][k].tokens));
    }
  }

  /** Adds one row to the builder. */
  method AddRow(ab: AutomatonBuilder, s: nat, m: seq<Entry>)
    modifies ab`edges
    ensures ab.edges == old(ab.edges) + SpecsOf(s, m)
  {
    for k := 0 to |m|
      invariant ab.edges == old(ab.edges) + SpecsOf(s, m[..k])
    {
      assert m[..k + 1][..k] == m[..k];
      ab.AddEdge(s, m[k].key, m[k].tokens);
    }
    assert m[..|m|] == m;
  }
}
