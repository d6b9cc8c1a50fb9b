/** `minimize_with_stats`: trim, refine, rebuild; what a success preserves, when it is refused, and minimality. */
module Minimizer {
  import opened Prelude
  import opened Automata
  import opened Builders
  import opened Dfas
  import opened Signatures
  import opened Refinement
  import opened Trimming
  import opened Relabelling
  import opened RowSpecs

  datatype MinimizeStats = MinimizeStats(nodesIn: nat, edgesIn: nat, nodesOut: nat, edgesOut: nat)

  // ---- the rows of the rebuilt automaton ----

  /** Some member of block `b` goes by `t` into block `c`. */
  ghost predicate MemberReach(d: Dfa, block: seq<nat>, b: nat, c: nat, t: nat)
    requires d.Valid() && |block| == |d.accept|
  {
    exists p: nat :: p < |block| && block[p] == b && d.Target(block, p, t) == Some(c)
  }

  /** `m` is the merged row of block `b`. */
  ghost predicate BlockRow(d: Dfa, block: seq<nat>, b: nat, m: seq<Entry>)
    requires d.Valid() && |block| == |d.accept|
  {
    Canon(m) && forall c: nat, t: nat :: Reach(m, c, t) <==> MemberReach(d, block, b, c, t)
  }

  lemma ArcsReachConcat(xs: seq<Arc>, ys: seq<Arc>, block: seq<nat>, b: nat, t: nat)
    ensures ArcsReach(xs + ys, block, b, t) <==> ArcsReach(xs, block, b, t) || ArcsReach(ys, block, b, t)
  {
    var all := xs + ys;
    if k :| 0 <= k < |xs| && ArcHits(xs[k], block, b, t) { assert all[k] == xs[k]; }
    if k :| 0 <= k < |ys| && ArcHits(ys[k], block, b, t) { assert all[|xs| + k] == ys[k]; }
    if k :| 0 <= k < |all| && ArcHits(all[k], block, b, t) {
      if k < |xs| { assert ArcHits(xs[k], block, b, t); } else { assert ArcHits(ys[k - |xs|], block, b, t); }
    }
  }

  ghost predicate ListReach(out: seq<seq<Arc>>, block: seq<nat>, members: seq<nat>, b: nat, t: nat)
    requires forall i :: 0 <= i < |members| ==> members[i] < |out|
  {
    exists i :: 0 <= i < |members| && ArcsReach(out[members[i]], block, b, t)
  }

  lemma ListReachStep(out: seq<seq<Arc>>, block: seq<nat>, members: seq<nat>, k: nat, b: nat, t: nat)
    requires k < |members| && forall i :: 0 <= i < |members| ==> members[i] < |out|
    ensures ListReach(out, block, members[..k + 1], b, t) <==>
            ListReach(out, block, members[..k], b, t) || ArcsReach(out[members[k]], block, b, t)
  {
    hide ArcsReach;
    if i :| 0 <= i < |members[..k]| && ArcsReach(out[members[..k][i]], block, b, t) {
      assert members[..k + 1][i] == members[i];
    }
    if ArcsReach(out[members[k]], block, b, t) {
      assert members[..k + 1][k] == members[k];
    }
    if ListReach(out, block, members[..k + 1], b, t) {
      var i :| 0 <= i < |members[..k + 1]| && ArcsReach(out[members[..k + 1][i]], block, b, t);
      assert i < k ==> members[..k][i] == members[i];
    }
  }

  /** Merges the out-edges of all members of one block. */
  method MergeMembers(out: seq<seq<Arc>>, block: seq<nat>, members: seq<nat>) returns (m: seq<Entry>)
    requires |block| == |out| && forall p :: 0 <= p < |out| ==> ArcsOk(out[p], |block|)
    requires forall i :: 0 <= i < |members| ==> members[i] < |out|
    ensures Canon(m)
    ensures forall c: nat, t: nat :: Reach(m, c, t) <==> ListReach(out, block, members, c, t)
  {
    hide Reach, ArcsReach, ListReach, Canon, ArcsOk;
    var merged: seq<Entry> := [];
    ghost var done: seq<Arc> := [];
    MergeStart(out, block, members);
    for k := 0 to |members|
      invariant DistinctKeys(merged) && NonEmptyTokens(merged) && Records(merged, done, block)
      invariant forall c: nat, t: nat :: ArcsReach(done, block, c, t) <==> ListReach(out, block, members[..k], c, t)
    {
      merged := MergeInto(merged, done, out[members[k]], block);
      forall c: nat, t: nat
        ensures ArcsReach(done + out[members[k]], block, c, t) <==> ListReach(out, block, members[..k + 1], c, t)
      {
        ArcsReachConcat(done, out[members[k]], block, c, t);
        ListReachStep(out, block, members, k, c, t);
      }
      done := done + out[members[k]];
    }
    assert members[..|members|] == members;
    CanonicalizeCanon(merged);
    m := Canonicalize(merged);
  }

  lemma MergeStart(out: seq<seq<Arc>>, block: seq<nat>, members: seq<nat>)
    requires forall i :: 0 <= i < |members| ==> members[i] < |out|
    ensures DistinctKeys([]) && NonEmptyTokens([]) && Records([], [], block)
    ensures forall c: nat, t: nat :: ArcsReach([], block, c, t) <==> ListReach(out, block, members[..0], c, t)
  {
  }

  /** The members of block `b`. */
  ghost predicate MembersOf(block: seq<nat>, b: nat, members: seq<nat>) {
    forall p: nat :: p in members <==> p < |block| && block[p] == b
  }

  lemma MembersRow(accept: seq<bool>, out: seq<seq<Arc>>, block: seq<nat>, b: nat, members: seq<nat>, m: seq<Entry>)
    requires Lists(accept, out) && |block| == |out| && DfaOf(accept, out).Valid() && DfaOf(accept, out).accept == accept
    requires MembersOf(block, b, members) && forall i :: 0 <= i < |members| ==> members[i] < |out|
    requires Canon(m) && forall c: nat, t: nat :: Reach(m, c, t) <==> ListReach(out, block, members, c, t)
    ensures BlockRow(DfaOf(accept, out), block, b, m)
  {
    hide Canon, Reach, ArcsReach, DfaOf, Dfa.Target, Lists;
    ListsShape(accept, out);
    var d := DfaOf(accept, out);
    forall c: nat, t: nat ensures ListReach(out, block, members, c, t) <==> MemberReach(d, block, b, c, t) {
      if i :| 0 <= i < |members| && ArcsReach(out[members[i]], block, c, t) {
        assert members[i] in members;
        TargetIsReach(accept, out, block, members[i], t, c);
      }
      if p: nat :| p < |block| && block[p] == b && d.Target(block, p, t) == Some(c) {
        TargetIsReach(accept, out, block, p, t, c);
        assert p in members;
        var i :| 0 <= i < |members| && members[i] == p;
      }
    }
  }

  lemma MembersExtend(block: seq<nat>, k: nat)
    requires k < |block|
    ensures forall b: nat, members :: MembersOf(block[..k], b, members) ==>
              MembersOf(block[..k + 1], b, if b == block[k] then members + [k] else members)
  {
  }

  /** Acceptance flag and members of every block. */
  method GroupBlocks(accept: seq<bool>, block: seq<nat>, n: nat, ghost d: Dfa)
    returns (blockAccept: seq<bool>, members: seq<seq<nat>>)
    requires d.Valid() && d.accept == accept && d.AcceptUniform(block) && d.Labels(block, n)
    ensures |blockAccept| == n == |members|
    ensures forall p :: 0 <= p < |block| ==> blockAccept[block[p]] == accept[p]
    ensures forall b :: 0 <= b < n ==> MembersOf(block, b, members[b])
  {
    blockAccept := seq(n, _ => false);
    members := seq(n, _ => []);
    for node := 0 to |block|
      invariant |blockAccept| == n == |members|
      invariant forall p :: 0 <= p < node ==> blockAccept[block[p]] == accept[p]
      invariant forall b :: 0 <= b < n ==> MembersOf(block[..node], b, members[b])
    {
      var b := block[node];
      MembersExtend(block, node);
      blockAccept := blockAccept[b := accept[node]];
      members := members[b := members[b] + [node]];
    }
    assert block[..|block|] == block;
  }

  /** The rebuild: one node per block, its merged edges added through the checked builder. */
  method Rebuild(accept: seq<bool>, out: seq<seq<Arc>>, block: seq<nat>, n: nat, vocab: nat, start: nat)
    returns (r: Result<Automaton, FaError>, edgesOut: nat, ghost rows: seq<seq<Entry>>)
    requires Lists(accept, out) && DfaOf(accept, out).Valid() && DfaOf(accept, out).accept == accept
    requires Progress(DfaOf(accept, out), block, n) && |block| == |out|
    ensures |rows| == n && forall b :: 0 <= b < n ==> BlockRow(DfaOf(accept, out), block, b, rows[b])
    ensures r.Ok? <==> Buildable(n, vocab, start, AllSpecs(rows))
    ensures r.Err? ==> Truthful(r.error, n, vocab, start, AllSpecs(rows))
    ensures r.Ok? ==> r.value.Valid() && Represents(r.value, AllSpecs(rows))
    ensures r.Ok? ==>
              && r.value.nNodes == n && r.value.vocab == vocab && r.value.start == start && r.value.NEdges() == edgesOut
              && |r.value.accept| == n
              && forall p :: 0 <= p < |block| ==> block[p] < n && r.value.accept[block[p]] == accept[p]
  {
    hide DfaOf, Progress, BlockRow, SpecsOf, AllSpecs, Buildable, Truthful, Represents, Canon, MembersOf, Automaton.Valid;
    ghost var d := DfaOf(accept, out);
    RebuildReady(accept, out, d, block, n);
    var blockAccept, members := GroupBlocks(accept, block, n, d);
    var ab := new AutomatonBuilder(n, vocab, start);
    for b := 0 to n
      invariant ab.nNodes == n && ab.vocab == vocab && ab.start == start && ab.edges == [] && |ab.accept| == n
      invariant forall c :: 0 <= c < n ==> ab.accept[c] == (c < b && blockAccept[c])
    {
      if blockAccept[b] {
        ab.Accept(b);
      }
    }
    edgesOut, rows := 0, [];
    AllSpecsEmpty();
    for b := 0 to n
      invariant ab.nNodes == n && ab.vocab == vocab && ab.start == start && |ab.accept| == n
      invariant forall c :: 0 <= c < n ==> ab.accept[c] == blockAccept[c]
      invariant |rows| == b && ab.edges == AllSpecs(rows) && |ab.edges| == edgesOut
      invariant forall c :: 0 <= c < b ==> BlockRow(d, block, c, rows[c])
    {
      MembersInRange(block, b, members[b]);
      var m := MergeMembers(out, block, members[b]);
      MembersRow(accept, out, block, b, members[b], m);
      AddRow(ab, b, m);
      edgesOut := edgesOut + |m|;
      AllSpecsExtend(rows, m);
      rows := rows + [m];
    }
    r := ab.Build();
  }

  lemma RebuildReady(accept: seq<bool>, out: seq<seq<Arc>>, d: Dfa, block: seq<nat>, n: nat)
    requires Lists(accept, out) && d == DfaOf(accept, out) && d.Valid() && Progress(d, block, n) && |block| == |out|
    ensures d.AcceptUniform(block) && d.Labels(block, n) && forall p :: 0 <= p < |block| ==> block[p] < n
    ensures forall p :: 0 <= p < |out| ==> ArcsOk(out[p], |block|)
  {
  }

  lemma MembersInRange(block: seq<nat>, b: nat, members: seq<nat>)
    requires MembersOf(block, b, members)
    ensures forall i :: 0 <= i < |members| ==> members[i] < |block|
  {
    forall i | 0 <= i < |members| ensures members[i] < |block| { assert members[i] in members; }
  }

  lemma AllSpecsEmpty()
    ensures AllSpecs([]) == []
  {
  }

  lemma AllSpecsExtend(rows: seq<seq<Entry>>, m: seq<Entry>)
    ensures AllSpecs(rows + [m]) == AllSpecs(rows) + SpecsOf(|rows|, m) && |SpecsOf(|rows|, m)| == |m|
  {
    assert (rows + [m])[..|rows|] == rows;
    SpecsAt(|rows|, m);
  }

  // ---- when the rebuild succeeds, and what it is then ----

  ghost predicate BlockRows(d: Dfa, block: seq<nat>, n: nat, rows: seq<seq<Entry>>)
    requires d.Valid() && |block| == |d.accept|
  {
    |rows| == n && forall b :: 0 <= b < n ==> BlockRow(d, block, b, rows[b])
  }

  /** With uniform tokens and acceptance, the rows are deterministic exactly when the partition is stable. */
  lemma StableIsDeterministic(d: Dfa, block: seq<nat>, n: nat, rows: seq<seq<Entry>>)
    requires d.Valid() && Progress(d, block, n) && |block| == |d.accept| && BlockRows(d, block, n, rows)
    ensures d.Stable(block) <==> forall b :: 0 <= b < n ==> Deterministic(rows[b])
  {
    hide Progress, Canon, Reach, Dfa.Target, Dfa.SameTokens;
    if d.Stable(block) {
      forall b | 0 <= b < n ensures Deterministic(rows[b]) {
        StableRow(d, block, b, rows[b]);
      }
    }
    if forall b :: 0 <= b < n ==> Deterministic(rows[b]) {
      forall p: nat, q: nat | p < |block| && q < |block| && block[p] == block[q] ensures d.SameSig(block, p, q) {
        BlockInRange(d, block, n, p);
        DeterministicSame(d, block, n, rows[block[p]], p, q);
      }
    }
  }

  lemma BlockInRange(d: Dfa, block: seq<nat>, n: nat, p: nat)
    requires d.Valid() && Progress(d, block, n) && p < |block|
    ensures block[p] < n
  {
  }

  lemma StableRow(d: Dfa, block: seq<nat>, b: nat, m: seq<Entry>)
    requires d.Valid() && |block| == |d.accept| && d.Stable(block) && BlockRow(d, block, b, m)
    ensures Deterministic(m)
  {
    hide Canon, Reach, Dfa.Target;
    forall c: nat, e: nat, t: nat | Reach(m, c, t) && Reach(m, e, t) ensures c == e {
      var p: nat :| p < |block| && block[p] == b && d.Target(block, p, t) == Some(c);
      var q: nat :| q < |block| && block[q] == b && d.Target(block, q, t) == Some(e);
      assert d.SameSig(block, p, q);
    }
  }

  lemma DeterministicSame(d: Dfa, block: seq<nat>, n: nat, m: seq<Entry>, p: nat, q: nat)
    requires d.Valid() && Progress(d, block, n) && |block| == |d.accept| && p < |block| && q < |block| && block[p] == block[q]
    requires BlockRow(d, block, block[p], m) && Deterministic(m)
    ensures d.SameSig(block, p, q)
  {
    hide Canon, Reach, Dfa.BlocksSeparated;
    assert d.SameTokens(p, q);
    forall t: nat ensures d.Target(block, p, t) == d.Target(block, q, t) {
      assert d.next(p, t).Some? == d.next(q, t).Some?;
      if d.next(p, t).Some? {
        var c, e := d.Target(block, p, t).value, d.Target(block, q, t).value;
        assert MemberReach(d, block, block[p], c, t) && MemberReach(d, block, block[p], e, t);
        assert Reach(m, c, t) && Reach(m, e, t);
      }
    }
  }

  /** The rebuilt automaton steps as the blocks do. */
  lemma QuotientStep(d: Dfa, block: seq<nat>, n: nat, rows: seq<seq<Entry>>, m: Automaton, p: nat, t: nat)
    requires d.Valid() && Progress(d, block, n) && |block| == |d.accept| && d.Stable(block) && BlockRows(d, block, n, rows)
    requires m.Valid() && Represents(m, AllSpecs(rows)) && m.nNodes == n && p < |block|
    ensures block[p] < n && m.Next(block[p], t) == d.Target(block, p, t)
  {
    hide Progress, Canon, Reach, Dfa.Target, Automaton.Valid, Automaton.Next, Represents, AllSpecs;
    BlockInRange(d, block, n, p);
    var b := block[p];
    forall c: nat ensures m.Next(b, t) == Some(c) <==> d.Target(block, p, t) == Some(c) {
      RowsStep(m, rows, b, t, c);
      if MemberReach(d, block, b, c, t) {
        var q: nat :| q < |block| && block[q] == b && d.Target(block, q, t) == Some(c);
        assert d.SameSig(block, p, q);
      }
    }
    SameOption(m.Next(b, t), d.Target(block, p, t));
  }

  lemma SameOption(x: Option<nat>, y: Option<nat>)
    requires forall c: nat :: x == Some(c) <==> y == Some(c)
    ensures x == y
  {
    if x.Some? { assert x == Some(x.value); }
    if y.Some? { assert y == Some(y.value); }
  }

  lemma {:induction false} QuotientLanguage(d: Dfa, block: seq<nat>, m: Automaton, p: nat, x: seq<nat>)
    requires d.Valid() && |block| == |d.accept| && m.Valid() && p < |block|
    requires forall q :: 0 <= q < |block| ==> block[q] < m.nNodes && m.accept[block[q]] == d.accept[q]
    requires forall q: nat, t: nat :: q < |block| ==> m.Next(block[q], t) == d.Target(block, q, t)
    ensures m.Accepts(block[p], x) <==> d.Accepts(p, x)
    decreases |x|
  {
    hide Automaton.Valid, Automaton.Next;
    if x != [] {
      assert m.Next(block[p], x[0]) == d.Target(block, p, x[0]);
      if d.next(p, x[0]).Some? {
        var e := d.next(p, x[0]).value;
        QuotientLanguage(d, block, m, e, x[1..]);
        assert m.Accepts(block[p], x) == m.Accepts(block[e], x[1..]);
      }
    }
  }

  // ---- the result ----

  ghost predicate SameLanguage(a: Automaton, s: nat, m: Automaton, b: nat)
    requires a.Valid() && m.Valid()
  {
    s < a.nNodes && b < m.nNodes && forall x :: a.Accepts(s, x) == m.Accepts(b, x)
  }

  ghost predicate NodesSeparated(m: Automaton)
    requires m.Valid()
  {
    forall b: nat, c: nat :: b < m.nNodes && c < m.nNodes && b != c ==> NodeSeparated(m, b, c)
  }

  /** Some sequence is accepted from exactly one of the two nodes. */
  ghost predicate NodeSeparated(m: Automaton, b: nat, c: nat)
    requires m.Valid() && b < m.nNodes && c < m.nNodes
  {
    exists x :: m.Accepts(b, x) != m.Accepts(c, x)
  }

  ghost predicate HasMember(a: Automaton, blockOf: seq<nat>, b: nat)
    requires a.Valid()
  {
    exists s: nat :: s < |blockOf| && Kept(a, s) && blockOf[s] == b
  }

  /** `m` is the minimized `a`, kept node `s` becoming node `blockOf[s]`. */
  ghost predicate Quotient(a: Automaton, m: Automaton, blockOf: seq<nat>) {
    && a.Valid() && m.Valid() && |blockOf| == a.nNodes && m.vocab == a.vocab && m.start == blockOf[a.start]
    && (forall s: nat :: s < a.nNodes && Kept(a, s) ==> SameLanguage(a, s, m, blockOf[s]))
    && (forall b: nat :: b < m.nNodes ==> HasMember(a, blockOf, b))
    && NodesSeparated(m)
  }

  /** Nodes are numbered in the order of their first kept member. */
  ghost predicate ByFirstMember(a: Automaton, blockOf: seq<nat>)
    requires a.Valid()
  {
    forall s :: 0 <= s < |blockOf| && Kept(a, s) ==> OldOrNextBlock(a, blockOf, s)
  }

  ghost predicate OldOrNextBlock(a: Automaton, blockOf: seq<nat>, s: nat)
    requires a.Valid() && s < |blockOf|
  {
    || (exists q :: 0 <= q < s && Kept(a, q) && blockOf[q] == blockOf[s])
    || (forall q :: 0 <= q < s && Kept(a, q) ==> blockOf[q] < blockOf[s])
  }

  lemma NumberedByFirst(a: Automaton, keep: seq<bool>, relabel: seq<nat>, olds: seq<nat>, block: seq<nat>, blockOf: seq<nat>)
    requires a.Valid() && |keep| == a.nNodes && Dense(keep, relabel, olds) && StrictlySorted(olds)
    requires forall s :: 0 <= s < a.nNodes ==> (keep[s] <==> Kept(a, s))
    requires |block| == |olds| && InOrder(block)
    requires |blockOf| == a.nNodes && forall s :: 0 <= s < a.nNodes && keep[s] ==> blockOf[s] == block[relabel[s]]
    ensures ByFirstMember(a, blockOf)
  {
    hide Automaton.Valid, Kept;
    forall s | 0 <= s < |blockOf| && Kept(a, s) ensures OldOrNextBlock(a, blockOf, s) {
      var p := relabel[s];
      assert OldOrNext(block, p);
      if j :| 0 <= j < p && block[j] == block[p] {
        assert olds[j] < olds[p] && blockOf[olds[j]] == blockOf[s];
      } else {
        forall q | 0 <= q < s && Kept(a, q) ensures blockOf[q] < blockOf[s] {
          assert olds[relabel[q]] == q && olds[p] == s;
          assert relabel[q] < p;
        }
      }
    }
  }

  lemma QuotientParts(a: Automaton, m: Automaton, blockOf: seq<nat>)
    requires Quotient(a, m, blockOf)
    ensures a.Valid() && m.Valid() && |blockOf| == a.nNodes && m.vocab == a.vocab && m.start == blockOf[a.start]
    ensures a.start < a.nNodes && m.start < m.nNodes
    ensures forall s: nat :: s < a.nNodes && Kept(a, s) ==> SameLanguage(a, s, m, blockOf[s])
    ensures forall b: nat :: b < m.nNodes ==> HasMember(a, blockOf, b)
    ensures NodesSeparated(m)
  {
  }

  /** Assembles the result's properties from the quotient of the mirror. */
  lemma QuotientOfMirror(a: Automaton, keep: seq<bool>, relabel: seq<nat>, olds: seq<nat>, d: Dfa, block: seq<nat>, m: Automaton,
                         blockOf: seq<nat>)
    requires a.Valid() && |keep| == a.nNodes && Dense(keep, relabel, olds) && keep[a.start]
    requires forall s :: 0 <= s < a.nNodes ==> (keep[s] <==> Kept(a, s))
    requires d.Valid() && Mirrors(a, d, olds) && |block| == |d.accept| && Progress(d, block, m.nNodes) && m.Valid()
    requires m.vocab == a.vocab && m.start == block[relabel[a.start]]
    requires forall q :: 0 <= q < |block| ==> block[q] < m.nNodes
    requires forall q: nat, x :: q < |block| ==> m.Accepts(block[q], x) == d.Accepts(q, x)
    requires |blockOf| == a.nNodes && forall s :: 0 <= s < a.nNodes && keep[s] ==> blockOf[s] == block[relabel[s]]
    ensures Quotient(a, m, blockOf)
  {
    hide Automaton.Valid, Mirrors, Kept, Dfa.TokenUniform, Dfa.AcceptUniform;
    StartInRange(a);
    MirrorShape(a, d, olds);
    forall s: nat | s < a.nNodes && Kept(a, s) ensures SameLanguage(a, s, m, blockOf[s]) {
      assert keep[s];
      forall x ensures a.Accepts(s, x) == m.Accepts(blockOf[s], x) {
        MirrorLanguage(a, d, olds, relabel[s], x);
      }
    }
    forall b: nat | b < m.nNodes ensures HasMember(a, blockOf, b) {
      assert d.Used(block, b);
      var p :| 0 <= p < |block| && block[p] == b;
      assert blockOf[olds[p]] == b && Kept(a, olds[p]);
    }
    forall b: nat, c: nat | b < m.nNodes && c < m.nNodes && b != c ensures NodeSeparated(m, b, c) {
      assert d.Used(block, b) && d.Used(block, c);
      var p :| 0 <= p < |block| && block[p] == b;
      var q :| 0 <= q < |block| && block[q] == c;
      assert d.Separated(p, q);
      var x :| d.Accepts(p, x) != d.Accepts(q, x);
      assert m.Accepts(b, x) != m.Accepts(c, x);
    }
  }

  lemma StartInRange(a: Automaton)
    requires a.Valid()
    ensures a.start < a.nNodes
  {
  }

  /** Every state's blocks stay in range, so the rows do too. */
  lemma BlockRowsOk(a: Automaton, d: Dfa, olds: seq<nat>, block: seq<nat>, n: nat, rows: seq<seq<Entry>>)
    requires a.Valid() && d.Valid() && Mirrors(a, d, olds) && |block| == |d.accept|
    requires Progress(d, block, n) && BlockRows(d, block, n, rows)
    ensures RowsOk(rows, a.vocab)
  {
    hide Automaton.Valid, Canon, Reach, Kept, Dfa.BlocksSeparated, Dfa.TokenUniform, Dfa.AcceptUniform;
    forall b, c: nat, t: nat | 0 <= b < n && Reach(rows[b], c, t) ensures c < n && t < a.vocab {
      var p: nat :| p < |block| && block[p] == b && d.Target(block, p, t) == Some(c);
      assert MirrorsStep(a, d, olds, p, t);
    }
  }

  /** The state's useful tokens are those of the first kept state. */
  ghost predicate LikeFirst(a: Automaton, s: nat)
    requires a.Valid()
  {
    exists q: nat :: Kept(a, q) && SameUseful(a, s, q) && forall h: nat :: h < q ==> !Kept(a, h)
  }

  /** What the refusal names: a token on which two kept states with equal useful tokens fork, and their group, which is 0 for
      the useful tokens of the first kept state and 1 for the others. */
  ghost predicate NamesFork(a: Automaton, node: nat, t: nat)
    requires a.Valid()
  {
    node <= 1 && exists s: nat, r: nat :: Forks(a, s, r, t) && (node == 0 <==> LikeFirst(a, s))
  }

  lemma ForkNamed(a: Automaton, d: Dfa, olds: seq<nat>, block: seq<nat>, rows: seq<seq<Entry>>, node: nat, t: nat)
    requires a.Valid() && d.Valid() && Mirrors(a, d, olds) && |block| == |d.accept| && Progress(d, block, 2) && InOrder(block)
    requires d.StopsEarly() && BlockRows(d, block, 2, rows) && node < |rows| && StrictlySorted(olds)
    requires forall s: nat :: Kept(a, s) ==> s in olds
    requires exists c: nat, e: nat :: c != e && Reach(rows[node], c, t) && Reach(rows[node], e, t)
    ensures NamesFork(a, node, t)
  {
    hide Automaton.Valid, Mirrors, Kept, SameUseful, Dfa.SameTokens, Forks, Progress, Dfa.StopsEarly, InOrder, BlockRows, Reach, LikeFirst;
    MirrorShape(a, d, olds);
    var p, q := ForkStates(d, block, rows, node, t);
    MirrorForks(a, d, olds, p, q, t);
    FirstBlock(d, block);
    BlocksAreTokens(d, block, p, 0);
    MirrorSame(a, d, olds, p, 0);
    FirstKept(a, olds, olds[p]);
  }

  lemma FirstKept(a: Automaton, olds: seq<nat>, s: nat)
    requires a.Valid() && StrictlySorted(olds) && olds != [] && Kept(a, olds[0]) && forall s: nat :: Kept(a, s) ==> s in olds
    ensures LikeFirst(a, s) <==> SameUseful(a, s, olds[0])
  {
    hide Automaton.Valid, Kept, SameUseful;
    forall h: nat | h < olds[0] ensures !Kept(a, h) {}
  }

  /** Two members of the refused block that the token leads to different blocks. */
  lemma ForkStates(d: Dfa, block: seq<nat>, rows: seq<seq<Entry>>, node: nat, t: nat) returns (p: nat, q: nat)
    requires d.Valid() && |block| == |d.accept| && Progress(d, block, 2) && d.StopsEarly() && BlockRows(d, block, 2, rows) && node < |rows|
    requires exists c: nat, e: nat :: c != e && Reach(rows[node], c, t) && Reach(rows[node], e, t)
    ensures p < |block| && q < |block| && block[p] == node && node <= 1 && d.Diverges(p, q, t)
  {
    hide Dfa.SameTokens, Reach, Canon, Progress, Dfa.StopsEarly;
    var c: nat, e: nat :| c != e && Reach(rows[node], c, t) && Reach(rows[node], e, t);
    assert BlockRow(d, block, node, rows[node]);
    assert MemberReach(d, block, node, c, t) && MemberReach(d, block, node, e, t);
    p :| p < |block| && block[p] == node && d.Target(block, p, t) == Some(c);
    q :| q < |block| && block[q] == node && d.Target(block, q, t) == Some(e);
    BlocksAreTokens(d, block, d.next(p, t).value, d.next(q, t).value);
    BlocksAreTokens(d, block, p, q);
  }

  /** With the ids in order the first state is in block 0. */
  lemma FirstBlock(d: Dfa, block: seq<nat>)
    requires d.Valid() && Progress(d, block, 2) && InOrder(block) && |block| == |d.accept|
    ensures |block| > 0 && block[0] == 0
  {
    hide Dfa.BlocksSeparated, Dfa.AcceptUniform, Dfa.TokenUniform;
    assert d.Used(block, 0);
    var p :| 0 <= p < |block| && block[p] == 0;
    ZeroFirst(block, p);
  }

  lemma {:induction false} ZeroFirst(block: seq<nat>, p: nat)
    requires InOrder(block) && p < |block| && block[p] == 0
    ensures block[0] == 0
  {
    assert OldOrNext(block, p);
    if j :| 0 <= j < p && block[j] == block[p] {
      ZeroFirst(block, j);
    }
  }

  /** When the refinement stops early its two blocks are the two token sets. */
  lemma BlocksAreTokens(d: Dfa, block: seq<nat>, p: nat, q: nat)
    requires d.Valid() && Progress(d, block, 2) && |block| == |d.accept| && d.StopsEarly() && p < |block| && q < |block|
    ensures block[p] == block[q] <==> d.SameTokens(p, q)
  {
    hide Dfa.BlocksSeparated, Dfa.AcceptUniform, Dfa.SameTokens;
    var x: nat, y: nat :| x < |d.accept| && y < |d.accept| && !d.SameTokens(x, y) && d.EitherTokens(x, y);
    TokensAlike(d, p, q);
    TokensAlike(d, p, x);
    TokensAlike(d, p, y);
    TokensAlike(d, q, x);
    TokensAlike(d, q, y);
    TokensAlike(d, x, y);
    assert block[x] != block[y];
    assert block[p] == block[x] || block[p] == block[y];
    assert block[q] == block[x] || block[q] == block[y];
    if d.SameTokens(p, q) {
      SameThrough(d, x, p, q, y);
    }
  }

  lemma TokensAlike(d: Dfa, p: nat, q: nat)
    requires d.Valid() && p < |d.accept| && q < |d.accept|
    ensures d.SameTokens(p, q) == d.SameTokens(q, p)
  {
  }

  lemma SameThrough(d: Dfa, x: nat, p: nat, q: nat, y: nat)
    requires d.Valid() && x < |d.accept| && p < |d.accept| && q < |d.accept| && y < |d.accept| && d.SameTokens(p, q)
    ensures d.SameTokens(x, p) && d.SameTokens(q, y) ==> d.SameTokens(x, y)
    ensures d.SameTokens(y, p) && d.SameTokens(q, x) ==> d.SameTokens(x, y)
  {
  }

  /** Which outcome an input has: a dead start, a success, or the duplicate token of the early stop. */
  ghost predicate Outcome(a: Automaton, r: Result<(Automaton, MinimizeStats), FaError>)
    requires a.Valid()
  {
    && (r == Err(DeadStart(a.start)) <==> !CanAccept(a, a.start))
    && (r.Ok? <==> CanAccept(a, a.start) && !EarlyStop(a))
    && (r.Err? && CanAccept(a, a.start) ==> r.error.DuplicateEdgeToken? && NamesFork(a, r.error.node, r.error.token))
  }

  /** The minimizer. It refuses exactly when nothing is accepted from the start, or on the early-stop family. */
  method MinimizeWithStats(a: Automaton) returns (r: Result<(Automaton, MinimizeStats), FaError>, ghost blockOf: seq<nat>)
    requires a.Valid()
    ensures Outcome(a, r)
    ensures r.Ok? ==> Quotient(a, r.value.0, blockOf) && ByFirstMember(a, blockOf) && EdgesAscend(r.value.0)
    ensures r.Ok? ==>
              && r.value.0.vocab == a.vocab
              && r.value.1 == MinimizeStats(a.nNodes, a.NEdges(), r.value.0.nNodes, r.value.0.NEdges())
  {
    hide Automaton.Valid, DfaOf, Progress, BlockRow, AllSpecs, Buildable, Truthful, Represents, Lists, Mirrors, EarlyStop;
    hide NamesFork, EdgesAscend, Kept;
    hide InOrder, ByFirstMember, StrictlySorted, Dfa.Stable, Dfa.StopsEarly, Reachable, CanAccept, Quotient, RowsOk, Deterministic;
    StartInRange(a);
    StartReachable(a);
    blockOf := [];
    var keep := TrimMask(a);
    if !keep[a.start] {
      return Err(DeadStart(a.start)), [];
    }
    var relabel, accept;
    ghost var olds;
    relabel, accept, olds := Relabel(a, keep);
    var out := TrimmedEdges(a, keep, relabel, |accept|, olds);
    ListsMirror(a, keep, relabel, olds, accept, out);
    ghost var d := DfaOf(accept, out);
    MirrorLive(a, d, olds);
    MirrorEarly(a, d, olds);
    DfaAccept(accept, out);
    var block, n := Refine(accept, out);
    assert relabel[a.start] < |block|;
    BlockInRange(d, block, n, relabel[a.start]);
    var built, edgesOut;
    ghost var rows;
    built, edgesOut, rows := Rebuild(accept, out, block, n, a.vocab, block[relabel[a.start]]);
    BlockRowsOk(a, d, olds, block, n, rows);
    StableIsDeterministic(d, block, n, rows);
    RowsBuildable(rows, a.vocab, block[relabel[a.start]]);
    if built.Err? {
      RowsRefusal(rows, a.vocab, block[relabel[a.start]], built.error);
      RowsRefusedToken(rows, a.vocab, block[relabel[a.start]], built.error);
      KeptListed(a, keep, relabel, olds);
      ForkNamed(a, d, olds, block, rows, built.error.node, built.error.token);
      return Err(built.error), [];
    }
    blockOf := seq(a.nNodes, s requires 0 <= s < a.nNodes && |keep| == a.nNodes == |relabel| =>
      if keep[s] && relabel[s] < |block| then block[relabel[s]] else 0);
    RebuiltLanguage(d, block, n, rows, built.value);
    QuotientOfMirror(a, keep, relabel, olds, d, block, built.value, blockOf);
    QuotientParts(a, built.value, blockOf);
    RowsAscend(built.value, rows, a.vocab);
    NumberedByFirst(a, keep, relabel, olds, block, blockOf);
    return Ok((built.value, MinimizeStats(a.nNodes, a.NEdges(), n, edgesOut))), blockOf;
  }

  lemma KeptListed(a: Automaton, keep: seq<bool>, relabel: seq<nat>, olds: seq<nat>)
    requires a.Valid() && |keep| == a.nNodes && Dense(keep, relabel, olds)
    requires forall s :: 0 <= s < a.nNodes ==> (keep[s] <==> Kept(a, s))
    ensures forall s: nat :: Kept(a, s) ==> s in olds
  {
    hide Automaton.Valid;
    forall s: nat | Kept(a, s) ensures s in olds {
      assert s < a.nNodes && keep[s];
      assert olds[relabel[s]] == s;
    }
  }

  lemma StartReachable(a: Automaton)
    requires a.Valid()
    ensures Kept(a, a.start) <==> CanAccept(a, a.start)
  {
    assert a.Walk(a.start, []) == Some(a.start);
  }

  lemma RebuiltLanguage(d: Dfa, block: seq<nat>, n: nat, rows: seq<seq<Entry>>, m: Automaton)
    requires d.Valid() && Progress(d, block, n) && |block| == |d.accept| && d.Stable(block) && BlockRows(d, block, n, rows)
    requires m.Valid() && Represents(m, AllSpecs(rows)) && m.nNodes == n
    requires forall p :: 0 <= p < |block| ==> block[p] < n && m.accept[block[p]] == d.accept[p]
    ensures forall q: nat, x :: q < |block| ==> m.Accepts(block[q], x) == d.Accepts(q, x)
  {
    hide Automaton.Valid, Automaton.Next, Progress, Dfa.Stable, BlockRows, Represents, Dfa.Target;
    forall q: nat, t: nat | q < |block| ensures m.Next(block[q], t) == d.Target(block, q, t) {
      QuotientStep(d, block, n, rows, m, q, t);
    }
    forall q: nat, x | q < |block| ensures m.Accepts(block[q], x) == d.Accepts(q, x) {
      QuotientLanguage(d, block, m, q, x);
    }
  }
}
