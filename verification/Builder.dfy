/** The checked builder: edges accumulate unsorted, `Build` enforces the determinism invariants. */
module Builders {
  import opened Prelude
  import opened Automata

  datatype EdgeSpec = EdgeSpec(src: nat, dst: nat, tokens: seq<nat>)

  // ---- what a list of edges means, node by node ----

  /** The edges leaving `s`, in insertion order. */
  function EdgesOf(es: seq<EdgeSpec>, s: nat): seq<EdgeSpec> {
    if es == [] then []
    else if es[0].src == s then [es[0]] + EdgesOf(es[1..], s)
    else EdgesOf(es[1..], s)
  }

  lemma {:induction false} EdgesOfMember(es: seq<EdgeSpec>, s: nat, e: EdgeSpec)
    ensures e in EdgesOf(es, s) <==> e in es && e.src == s
  {
    if es != [] {
      assert e in es <==> e == es[0] || e in es[1..];
      EdgesOfMember(es[1..], s, e);
    }
  }

  ghost predicate EdgeOk(e: EdgeSpec, nNodes: nat, vocab: nat) {
    && e.src < nNodes && e.dst < nNodes
    && e.tokens != [] && Distinct(e.tokens)
    && forall t :: t in e.tokens ==> t < vocab
  }

  ghost predicate TokenDisjoint(a: EdgeSpec, b: EdgeSpec) {
    forall t :: t in a.tokens ==> t !in b.tokens
  }

  /** No two edges of one node share a token or a destination. */
  ghost predicate NodeOk(es: seq<EdgeSpec>) {
    && (forall i, j :: 0 <= i < j < |es| ==> TokenDisjoint(es[i], es[j]))
    && (forall i, j :: 0 <= i < j < |es| ==> es[i].dst != es[j].dst)
  }

  ghost predicate Buildable(nNodes: nat, vocab: nat, start: nat, es: seq<EdgeSpec>) {
    && start < nNodes
    && (forall e :: e in es ==> EdgeOk(e, nNodes, vocab))
    && (forall s :: 0 <= s < nNodes ==> NodeOk(EdgesOf(es, s)))
  }

  /** What each refusal claims about the edge list; every claim contradicts `Buildable`. */
  ghost predicate Truthful(err: FaError, nNodes: nat, vocab: nat, start: nat, es: seq<EdgeSpec>) {
    match err
    case BadStart(s) => s == start >= nNodes
    case NodeOutOfRange(v, n) => n == nNodes && v >= n && exists e :: e in es && (e.src == v || e.dst == v)
    case EmptyEdge(s, d) => exists e :: e in es && e == EdgeSpec(s, d, [])
    case TokenOutOfRange(t, v, s, d) =>
      v == vocab && t >= v && exists e :: e in es && e.src == s && e.dst == d && t in e.tokens
    case DuplicateTokenInEdge(s, d, t) =>
      exists e :: e in es && e.src == s && e.dst == d && !Distinct(e.tokens) && t in e.tokens
    case DuplicateEdgeToken(s, t) =>
      s < nNodes && var own := EdgesOf(es, s);
      exists i, j :: 0 <= i < j < |own| && t in own[i].tokens && t in own[j].tokens
    case DuplicatePair(s, d) =>
      s < nNodes && var own := EdgesOf(es, s);
      exists i, j :: 0 <= i < j < |own| && own[i].dst == d && own[j].dst == d
    case _ => false
  }

  /** The row of the built automaton that stands for a list of edges of one node. */
  ghost predicate Row(a: Automaton, s: nat, es: seq<EdgeSpec>)
    requires a.Shape() && s < a.nNodes
  {
    && a.OutHi(s) - a.OutLo(s) == |es|
    && forall k :: 0 <= k < |es| ==> RowEdge(a, a.OutLo(s) + k, es[k])
  }

  ghost predicate RowEdge(a: Automaton, e: nat, spec: EdgeSpec)
    requires a.Shape()
  {
    e < |a.edgeDst| && a.edgeDst[e] == spec.dst && a.EdgeTokens(e) == SortNats(spec.tokens)
  }

  /** The automaton's rows are exactly the added edges, in insertion order, with sorted tokens. */
  ghost predicate Represents(a: Automaton, es: seq<EdgeSpec>)
    requires a.Shape()
  {
    forall s :: 0 <= s < a.nNodes ==> Row(a, s, EdgesOf(es, s))
  }

  /** A represented automaton steps exactly along the added edges. */
  lemma NextOfEdges(a: Automaton, es: seq<EdgeSpec>, s: nat, t: nat, d: nat)
    requires a.Valid() && Represents(a, es) && s < a.nNodes
    ensures a.Next(s, t) == Some(d) <==> exists e :: e in es && e.src == s && e.dst == d && t in e.tokens
  {
    assert Row(a, s, EdgesOf(es, s));
    if e :| e in es && e.src == s && e.dst == d && t in e.tokens {
      EdgeSteps(a, es, e, t);
    }
    if a.Next(s, t) == Some(d) {
      var e := StepHasEdge(a, es, s, t);
    }
  }

  lemma EdgeSteps(a: Automaton, es: seq<EdgeSpec>, e: EdgeSpec, t: nat)
    requires a.Valid() && e.src < a.nNodes && Row(a, e.src, EdgesOf(es, e.src))
    requires e in es && t in e.tokens
    ensures a.Next(e.src, t) == Some(e.dst)
  {
    var f := RowEdgeOf(a, es, e);
    a.EdgeForUnique(e.src, t, f);
  }

  lemma RowEdgeOf(a: Automaton, es: seq<EdgeSpec>, e: EdgeSpec) returns (f: nat)
    requires a.Shape() && e.src < a.nNodes && Row(a, e.src, EdgesOf(es, e.src)) && e in es
    ensures a.OutLo(e.src) <= f < a.OutHi(e.src) && a.edgeDst[f] == e.dst
    ensures forall t :: t in e.tokens ==> t in a.EdgeTokens(f)
  {
    var own := EdgesOf(es, e.src);
    EdgesOfMember(es, e.src, e);
    var k :| 0 <= k < |own| && own[k] == e;
    f := a.OutLo(e.src) + k;
    assert RowEdge(a, f, own[k]);
    SortNatsMembers(e.tokens);
  }

  lemma StepHasEdge(a: Automaton, es: seq<EdgeSpec>, s: nat, t: nat) returns (e: EdgeSpec)
    requires a.Valid() && s < a.nNodes && Row(a, s, EdgesOf(es, s))
    requires a.Next(s, t).Some?
    ensures e in es && e.src == s && a.Next(s, t) == Some(e.dst) && t in e.tokens
  {
    var own := EdgesOf(es, s);
    var f := a.EdgeFor(s, t).value;
    var k := f - a.OutLo(s);
    e := own[k];
    assert RowEdge(a, a.OutLo(s) + k, own[k]);
    SortNatsMembers(e.tokens);
    EdgesOfMember(es, s, e);
  }

  // ---- the stable sort by source ----

  ghost predicate BySource(es: seq<EdgeSpec>) {
    forall i, j :: 0 <= i < j < |es| ==> es[i].src <= es[j].src
  }

  function InsertBySource(e: EdgeSpec, es: seq<EdgeSpec>): seq<EdgeSpec> {
    if es == [] || e.src <= es[0].src then [e] + es
    else [es[0]] + InsertBySource(e, es[1..])
  }

  function StableSort(es: seq<EdgeSpec>): seq<EdgeSpec> {
    if es == [] then [] else InsertBySource(es[0], StableSort(es[1..]))
  }

  lemma {:induction false} InsertPerm(e: EdgeSpec, es: seq<EdgeSpec>)
    ensures multiset(InsertBySource(e, es)) == multiset(es) + multiset{e}
  {
    if es != [] && es[0].src < e.src {
      InsertPerm(e, es[1..]);
      assert es == [es[0]] + es[1..];
    }
  }

  lemma {:induction false} InsertSorted(e: EdgeSpec, es: seq<EdgeSpec>)
    requires BySource(es)
    ensures BySource(InsertBySource(e, es))
  {
    if es != [] && es[0].src < e.src {
      InsertSorted(e, es[1..]);
      InsertPerm(e, es[1..]);
      var rest := InsertBySource(e, es[1..]);
      forall i | 0 <= i < |rest| ensures es[0].src <= rest[i].src {
        assert rest[i] in multiset(rest);
      }
    }
  }

  /** The sort by source is a permutation and orders the sources. */
  lemma {:induction false} StableSortSorts(es: seq<EdgeSpec>)
    ensures BySource(StableSort(es)) && multiset(StableSort(es)) == multiset(es)
  {
    if es != [] {
      StableSortSorts(es[1..]);
      InsertSorted(es[0], StableSort(es[1..]));
      InsertPerm(es[0], StableSort(es[1..]));
      assert es == [es[0]] + es[1..];
    }
  }

  lemma StableSortMembers(es: seq<EdgeSpec>)
    ensures |StableSort(es)| == |es|
    ensures forall f :: f in StableSort(es) <==> f in es
  {
    StableSortSorts(es);
    assert |multiset(StableSort(es))| == |multiset(es)|;
    assert forall f :: f in StableSort(es) <==> f in multiset(StableSort(es));
  }

  lemma {:induction false} InsertKeepsRows(e: EdgeSpec, es: seq<EdgeSpec>, s: nat)
    ensures EdgesOf(InsertBySource(e, es), s) ==
            if e.src == s then [e] + EdgesOf(es, s) else EdgesOf(es, s)
  {
    if es == [] || e.src <= es[0].src {
      assert ([e] + es)[1..] == es;
    } else {
      InsertKeepsRows(e, es[1..], s);
      var rest := InsertBySource(e, es[1..]);
      assert ([es[0]] + rest)[1..] == rest;
    }
  }

  /** Stability: sorting by source keeps every node's edges in insertion order. */
  lemma {:induction false} StableSortKeepsRows(es: seq<EdgeSpec>, s: nat)
    ensures EdgesOf(StableSort(es), s) == EdgesOf(es, s)
  {
    if es != [] {
      StableSortKeepsRows(es[1..], s);
      InsertKeepsRows(es[0], StableSort(es[1..]), s);
    }
  }

  /** How many edges leave a node below `s`: the CSR offset of `s` in a list sorted by source. */
  function CountBelow(es: seq<EdgeSpec>, s: nat): (r: nat)
    ensures r <= |es|
  {
    if es == [] then 0 else (if es[0].src < s then 1 else 0) + CountBelow(es[1..], s)
  }

  lemma {:induction false} CountBelowStep(es: seq<EdgeSpec>, s: nat)
    ensures CountBelow(es, s + 1) == CountBelow(es, s) + |EdgesOf(es, s)|
  {
    if es != [] { CountBelowStep(es[1..], s); }
  }

  lemma {:induction false} CountBelowAll(es: seq<EdgeSpec>, n: nat)
    requires forall e :: e in es ==> e.src < n
    ensures CountBelow(es, n) == |es| && CountBelow(es, 0) == 0
  {
    if es != [] {
      assert es[0] in es;
      assert forall e :: e in es[1..] ==> e in es;
      CountBelowAll(es[1..], n);
    }
  }

  /** In a list sorted by source, the edges of `s` are one contiguous slice. */
  lemma {:induction false} RowIsSlice(es: seq<EdgeSpec>, s: nat)
    requires BySource(es)
    ensures CountBelow(es, s) <= CountBelow(es, s + 1)
    ensures EdgesOf(es, s) == es[CountBelow(es, s)..CountBelow(es, s + 1)]
  {
    CountBelowStep(es, s);
    if es != [] {
      var rest := es[1..];
      RowIsSlice(rest, s);
      CountBelowStep(rest, s);
      var lo, hi := CountBelow(rest, s), CountBelow(rest, s + 1);
      if es[0].src < s {
        SliceShift(es, lo, hi);
      } else if es[0].src == s {
        AllAbove(rest, s);
        SliceShift(es, 0, hi);
        assert es[0..hi + 1] == [es[0]] + es[1..hi + 1];
      } else {
        AllAbove(rest, s);
        AllAbove(rest, s + 1);
      }
    }
  }

  lemma SliceShift(es: seq<EdgeSpec>, lo: nat, hi: nat)
    requires es != [] && lo <= hi < |es|
    ensures es[1..][lo..hi] == es[lo + 1..hi + 1]
  {
  }

  lemma {:induction false} AllAbove(es: seq<EdgeSpec>, s: nat)
    requires BySource(es) && (es != [] ==> es[0].src >= s)
    ensures CountBelow(es, s) == 0
  {
    if es != [] { AllAbove(es[1..], s); }
  }

  lemma {:induction false} EdgesOfAppend(es: seq<EdgeSpec>, e: EdgeSpec, s: nat)
    ensures EdgesOf(es + [e], s) == EdgesOf(es, s) + (if e.src == s then [e] else [])
  {
    if es == [] {
      assert (es + [e])[1..] == [];
    } else {
      assert (es + [e])[1..] == es[1..] + [e];
      EdgesOfAppend(es[1..], e, s);
    }
  }

  // ---- the builder ----

  /** `owner` marks exactly the claimed tokens. */
  ghost predicate Marks(owner: array<int>, claimed: set<nat>)
    reads owner
  {
    forall t: nat :: t < owner.Length ==> (owner[t] >= 0 <==> t in claimed)
  }

  /** The emission arrays spell out a list of token rows. */
  ghost predicate EmitRows(rows: seq<seq<nat>>, emitStart: seq<nat>, emitTokens: seq<nat>) {
    && |emitStart| == |rows| + 1 && emitStart[0] == 0 && emitStart[|rows|] == |emitTokens|
    && forall k :: 0 <= k < |rows| ==>
                     && emitStart[k + 1] == emitStart[k] + |rows[k]| <= |emitTokens|
                     && emitTokens[emitStart[k]..emitStart[k + 1]] == rows[k]
  }

  lemma EmitExtend(rows: seq<seq<nat>>, emitStart: seq<nat>, emitTokens: seq<nat>, toks: seq<nat>)
    requires EmitRows(rows, emitStart, emitTokens)
    ensures EmitRows(rows + [toks], emitStart + [|emitTokens + toks|], emitTokens + toks)
  {
    var st, em := emitStart + [|emitTokens + toks|], emitTokens + toks;
    forall k | 0 <= k < |rows| + 1
      ensures st[k + 1] == st[k] + |(rows + [toks])[k]| <= |em| && em[st[k]..st[k + 1]] == (rows + [toks])[k]
    {
      if k < |rows| {
        assert em[st[k]..st[k + 1]] == emitTokens[emitStart[k]..emitStart[k + 1]];
      } else {
        assert em[|emitTokens|..] == toks;
      }
    }
  }

  /** Non-empty rows make the offsets strictly increase. */
  lemma {:induction false} EmitIncreasing(rows: seq<seq<nat>>, emitStart: seq<nat>, emitTokens: seq<nat>, j: nat)
    requires EmitRows(rows, emitStart, emitTokens) && j <= |rows|
    requires forall k :: 0 <= k < |rows| ==> rows[k] != []
    ensures StrictlySorted(emitStart[..j + 1])
  {
    if j > 0 {
      EmitIncreasing(rows, emitStart, emitTokens, j - 1);
      assert emitStart[j - 1] < emitStart[j];
      assert forall i :: 0 <= i < j ==> emitStart[..j][i] == emitStart[i];
      assert forall i :: 0 <= i < j - 1 ==> emitStart[..j][i] < emitStart[..j][j - 1];
    }
  }

  lemma {:induction false} CountBelowAt(es: seq<EdgeSpec>, s: nat, k: nat)
    requires BySource(es) && k < |es|
    ensures k < CountBelow(es, s) <==> es[k].src < s
  {
    if k == 0 {
      if es[0].src >= s { AllAbove(es, s); }
    } else {
      CountBelowAt(es[1..], s, k - 1);
      if es[0].src >= s { AllAbove(es, s); }
    }
  }

  /** Two edges of one node, found anywhere in the sorted list, appear in that order in the node's row. */
  lemma PairInRow(es: seq<EdgeSpec>, j: nat, k: nat)
    requires BySource(es) && j < k < |es| && es[j].src == es[k].src
    ensures var s := es[j].src;
            var own := EdgesOf(es, s);
            var lo := CountBelow(es, s);
            lo <= j && k - lo < |own| && own[j - lo] == es[j] && own[k - lo] == es[k]
  {
    var s := es[j].src;
    RowIsSlice(es, s);
    CountBelowAt(es, s, j);
    CountBelowAt(es, s + 1, k);
  }

  /** The sorted token list of every edge. */
  function Rows(es: seq<EdgeSpec>): seq<seq<nat>> {
    seq(|es|, k requires 0 <= k < |es| => SortNats(es[k].tokens))
  }

  /** Every edge passes the per-edge checks; edges of one node share no token. */
  ghost predicate Checked(es: seq<EdgeSpec>, nNodes: nat, vocab: nat) {
    && (forall k :: 0 <= k < |es| ==> EdgeOk(es[k], nNodes, vocab))
    && (forall j, k :: 0 <= j < k < |es| && es[j].src == es[k].src ==> TokenDisjoint(es[j], es[k]))
  }

  /** `claimed` holds exactly the tokens of the edges from `lo` on. */
  ghost predicate ClaimedFrom(es: seq<EdgeSpec>, lo: nat, claimed: set<nat>) {
    && (forall k, t :: lo <= k < |es| && t in es[k].tokens ==> t in claimed)
    && (forall t :: t in claimed ==> exists k :: lo <= k < |es| && t in es[k].tokens)
  }

  /** `lo` is where the edges of the last source begin. */
  ghost predicate LastNode(es: seq<EdgeSpec>, lo: nat) {
    && lo <= |es|
    && (forall k :: lo <= k < |es| ==> es[k].src == es[|es| - 1].src)
    && (forall k :: 0 <= k < lo ==> es[k].src < es[|es| - 1].src)
  }

  lemma CheckedExtend(es: seq<EdgeSpec>, lo: nat, e: EdgeSpec, nNodes: nat, vocab: nat, claimed: set<nat>)
    requires Checked(es, nNodes, vocab) && BySource(es + [e])
    requires lo <= |es| && LastNode(es + [e], lo) && ClaimedFrom(es, lo, claimed)
    requires EdgeOk(e, nNodes, vocab) && forall t :: t in e.tokens ==> t !in claimed
    ensures Checked(es + [e], nNodes, vocab)
    ensures ClaimedFrom(es + [e], lo, claimed + set t | t in e.tokens)
  {
    var fs := es + [e];
    forall j, k | 0 <= j < k < |fs| && fs[j].src == fs[k].src ensures TokenDisjoint(fs[j], fs[k]) {
      if k == |es| {
        assert lo <= j;
        assert fs[j] == es[j];
      }
    }
    var all := claimed + set t | t in e.tokens;
    forall t | t in all ensures exists k :: lo <= k < |fs| && t in fs[k].tokens {
      if t in e.tokens {
        assert t in fs[|es|].tokens;
      } else {
        var k :| lo <= k < |es| && t in es[k].tokens;
        assert t in fs[k].tokens;
      }
    }
  }

  lemma NodeExtend(es: seq<EdgeSpec>, i: nat, lo: nat)
    requires BySource(es) && i < |es| && lo <= i
    requires if lo == i then i == 0 || es[i - 1].src != es[i].src else LastNode(es[..i], lo) && es[i - 1].src == es[i].src
    ensures LastNode(es[..i + 1], lo)
  {
    assert es[..i + 1] == es[..i] + [es[i]];
    forall k | 0 <= k < lo ensures es[k].src < es[i].src {
      if lo == i {
        assert es[k].src <= es[i - 1].src <= es[i].src;
      } else {
        assert es[..i][k].src < es[..i][i - 1].src;
      }
    }
  }

  ghost predicate Counts(es: seq<EdgeSpec>, nNodes: nat, outCounts: seq<nat>) {
    |outCounts| == nNodes && forall s :: 0 <= s < nNodes ==> outCounts[s] == |EdgesOf(es, s)|
  }

  lemma CountsExtend(es: seq<EdgeSpec>, e: EdgeSpec, nNodes: nat, outCounts: seq<nat>)
    requires Counts(es, nNodes, outCounts) && e.src < nNodes
    ensures Counts(es + [e], nNodes, outCounts[e.src := outCounts[e.src] + 1])
  {
    forall s | 0 <= s < nNodes
      ensures |EdgesOf(es + [e], s)| == |EdgesOf(es, s)| + if e.src == s then 1 else 0
    {
      EdgesOfAppend(es, e, s);
    }
  }

  /** The per-edge columns of the CSR form. */
  ghost predicate Columns(es: seq<EdgeSpec>, edgeDst: seq<nat>, emitStart: seq<nat>, emitTokens: seq<nat>) {
    && |edgeDst| == |es|
    && (forall k :: 0 <= k < |es| ==> edgeDst[k] == es[k].dst)
    && EmitRows(Rows(es), emitStart, emitTokens)
  }

  lemma ColumnsExtend(es: seq<EdgeSpec>, e: EdgeSpec, edgeDst: seq<nat>, emitStart: seq<nat>, emitTokens: seq<nat>)
    requires Columns(es, edgeDst, emitStart, emitTokens)
    ensures var toks := SortNats(e.tokens);
            Columns(es + [e], edgeDst + [e.dst], emitStart + [|emitTokens + toks|], emitTokens + toks)
  {
    var toks := SortNats(e.tokens);
    EmitExtend(Rows(es), emitStart, emitTokens, toks);
    assert Rows(es + [e]) == Rows(es) + [toks];
  }

  lemma ScanInit(es: seq<EdgeSpec>, nNodes: nat, vocab: nat)
    ensures es[..0] == [] && Checked([], nNodes, vocab) && LastNode([], 0) && ClaimedFrom([], 0, {})
    ensures Counts([], nNodes, seq(nNodes, _ => 0)) && Columns([], [], [0], [])
  {
    assert Rows([]) == [];
  }

  lemma NothingClaimed(es: seq<EdgeSpec>)
    ensures ClaimedFrom(es, |es|, {})
  {
  }

  lemma RangeRefused(es: seq<EdgeSpec>, i: nat, nNodes: nat, vocab: nat, start: nat)
    requires i < |es| && (es[i].src >= nNodes || es[i].dst >= nNodes)
    ensures var v := if es[i].src >= nNodes then es[i].src else es[i].dst;
            Truthful(NodeOutOfRange(v, nNodes), nNodes, vocab, start, es)
  {
    assert es[i] in es;
  }

  lemma EmptyRefused(es: seq<EdgeSpec>, i: nat, nNodes: nat, vocab: nat, start: nat)
    requires i < |es| && es[i].tokens == []
    ensures Truthful(EmptyEdge(es[i].src, es[i].dst), nNodes, vocab, start, es)
  {
    assert es[i] in es;
  }

  /** One accepted edge carries every loop fact over to the next position. */
  lemma ScanExtend(es: seq<EdgeSpec>, i: nat, lo: nat, nNodes: nat, vocab: nat, claimed: set<nat>,
                   outCounts: seq<nat>, edgeDst: seq<nat>, emitStart: seq<nat>, emitTokens: seq<nat>)
    requires BySource(es) && lo <= i < |es| && LastNode(es[..i + 1], lo)
    requires Checked(es[..i], nNodes, vocab) && ClaimedFrom(es[..i], lo, claimed)
    requires Counts(es[..i], nNodes, outCounts) && Columns(es[..i], edgeDst, emitStart, emitTokens)
    requires es[i].src < nNodes && es[i].dst < nNodes && es[i].tokens != []
    requires var toks := SortNats(es[i].tokens);
             Distinct(toks) && forall t :: t in toks ==> t < vocab && t !in claimed
    ensures var toks := SortNats(es[i].tokens);
            && Checked(es[..i + 1], nNodes, vocab)
            && ClaimedFrom(es[..i + 1], lo, claimed + set t | t in toks)
            && Counts(es[..i + 1], nNodes, outCounts[es[i].src := outCounts[es[i].src] + 1])
            && Columns(es[..i + 1], edgeDst + [es[i].dst], emitStart + [|emitTokens + toks|], emitTokens + toks)
  {
    var e := es[i];
    var toks := SortNats(e.tokens);
    assert es[..i + 1] == es[..i] + [e];
    SortNatsSorts(e.tokens);
    PermMembers(e.tokens, toks);
    DistinctPerm(toks, e.tokens);
    CheckedExtend(es[..i], lo, e, nNodes, vocab, claimed);
    assert (set t | t in toks) == set t | t in e.tokens;
    ColumnsExtend(es[..i], e, edgeDst, emitStart, emitTokens);
    CountsExtend(es[..i], e, nNodes, outCounts);
  }

  ghost predicate DstApart(es: seq<EdgeSpec>) {
    forall i, j :: 0 <= i < j < |es| ==> es[i].dst != es[j].dst
  }

  // ---- which refusal comes first ----

  /** The tokens an edge's node has claimed before the edge is scanned. */
  ghost function ClaimedBefore(es: seq<EdgeSpec>, i: nat): set<nat>
    requires i < |es|
  {
    set k, t | 0 <= k < i && es[k].src == es[i].src && t in es[k].tokens :: t
  }

  /** The check of one token of a sorted list. */
  ghost function TokenFault(e: EdgeSpec, toks: seq<nat>, j: nat, vocab: nat, claimed: set<nat>): Option<FaError>
    requires j < |toks|
  {
    if toks[j] >= vocab then Some(TokenOutOfRange(toks[j], vocab, e.src, e.dst))
    else if j > 0 && toks[j - 1] == toks[j] then Some(DuplicateTokenInEdge(e.src, e.dst, toks[j]))
    else if toks[j] in claimed then Some(DuplicateEdgeToken(e.src, toks[j]))
    else None
  }

  /** The first token of the list that fails its check. */
  ghost predicate FirstToken(e: EdgeSpec, toks: seq<nat>, vocab: nat, claimed: set<nat>, j: nat, err: FaError) {
    && j < |toks| && TokenFault(e, toks, j, vocab, claimed) == Some(err)
    && forall p: nat :: p < j ==> TokenFault(e, toks, p, vocab, claimed) == None
  }

  /** What the scan reports at an edge: its ends, then whether it is empty, then its tokens in order. */
  ghost predicate EdgeFault(es: seq<EdgeSpec>, i: nat, nNodes: nat, vocab: nat, err: FaError)
    requires i < |es|
  {
    var e := es[i];
    if e.src >= nNodes then err == NodeOutOfRange(e.src, nNodes)
    else if e.dst >= nNodes then err == NodeOutOfRange(e.dst, nNodes)
    else if e.tokens == [] then err == EmptyEdge(e.src, e.dst)
    else exists j: nat :: FirstToken(e, SortNats(e.tokens), vocab, ClaimedBefore(es, i), j, err)
  }

  /** The scan stops at the first edge that fails. */
  ghost predicate ScanFault(es: seq<EdgeSpec>, i: nat, nNodes: nat, vocab: nat, err: FaError) {
    i < |es| && Checked(es[..i], nNodes, vocab) && EdgeFault(es, i, nNodes, vocab, err)
  }

  /** The first two edges of a row, in lexicographic order, that share a destination. */
  ghost predicate PairFault(own: seq<EdgeSpec>, i: nat, j: nat) {
    && i < j < |own| && own[i].dst == own[j].dst
    && (forall p, q :: 0 <= p < i && p < q < |own| ==> own[p].dst != own[q].dst)
    && forall q :: i < q < j ==> own[i].dst != own[q].dst
  }

  ghost predicate RowFault(es: seq<EdgeSpec>, s: nat, nNodes: nat, err: FaError) {
    && s < nNodes && (forall r: nat :: r < s ==> DstApart(EdgesOf(es, r)))
    && exists i: nat, j: nat :: PairFault(EdgesOf(es, s), i, j) && err == DuplicatePair(s, EdgesOf(es, s)[i].dst)
  }

  /** The first check that fails: the start, then the edges by source, then the pairs node by node. */
  ghost predicate FirstFault(nNodes: nat, vocab: nat, start: nat, es: seq<EdgeSpec>, err: FaError) {
    if start >= nNodes then err == BadStart(start)
    else if Checked(es, nNodes, vocab) then exists s: nat :: RowFault(es, s, nNodes, err)
    else exists i: nat :: ScanFault(es, i, nNodes, vocab, err)
  }

  lemma FirstTokenUnique(e: EdgeSpec, toks: seq<nat>, vocab: nat, claimed: set<nat>, j: nat, err: FaError, j2: nat, err2: FaError)
    requires FirstToken(e, toks, vocab, claimed, j, err) && FirstToken(e, toks, vocab, claimed, j2, err2)
    ensures err == err2
  {
    assert !(j < j2) && !(j2 < j);
  }

  lemma CheckedUnclaimed(es: seq<EdgeSpec>, i: nat, nNodes: nat, vocab: nat)
    requires i < |es| && Checked(es[..i + 1], nNodes, vocab)
    ensures EdgeOk(es[i], nNodes, vocab) && forall t :: t in es[i].tokens ==> t !in ClaimedBefore(es, i)
  {
    var fs := es[..i + 1];
    assert fs[i] == es[i] && forall k :: 0 <= k < i ==> fs[k] == es[k];
    forall k | 0 <= k < i && es[k].src == es[i].src ensures TokenDisjoint(es[k], es[i]) {
      assert TokenDisjoint(fs[k], fs[i]);
    }
  }

  /** An edge with a fault is not among the checked ones. */
  lemma FaultUnchecked(es: seq<EdgeSpec>, i: nat, nNodes: nat, vocab: nat, err: FaError)
    requires i < |es| && EdgeFault(es, i, nNodes, vocab, err)
    ensures !Checked(es[..i + 1], nNodes, vocab)
  {
    hide Checked, ClaimedBefore;
    if Checked(es[..i + 1], nNodes, vocab) {
      var e := es[i];
      CheckedUnclaimed(es, i, nNodes, vocab);
      var toks := SortNats(e.tokens);
      SortNatsSorts(e.tokens);
      PermMembers(e.tokens, toks);
      DistinctPerm(e.tokens, toks);
      forall j: nat | j < |toks| ensures TokenFault(e, toks, j, vocab, ClaimedBefore(es, i)) == None {
        assert toks[j] in e.tokens;
      }
      assert false;
    }
  }

  lemma CheckedPrefix(es: seq<EdgeSpec>, i: nat, j: nat, nNodes: nat, vocab: nat)
    requires i <= j <= |es| && Checked(es[..j], nNodes, vocab)
    ensures Checked(es[..i], nNodes, vocab)
  {
    assert forall k :: 0 <= k < i ==> es[..i][k] == es[..j][k];
  }

  lemma ScanFaultUnique(es: seq<EdgeSpec>, i: nat, err: FaError, i2: nat, err2: FaError, nNodes: nat, vocab: nat)
    requires ScanFault(es, i, nNodes, vocab, err) && ScanFault(es, i2, nNodes, vocab, err2)
    ensures err == err2
  {
    if i == i2 {
      var e := es[i];
      if e.src < nNodes && e.dst < nNodes && e.tokens != [] {
        var toks, claimed := SortNats(e.tokens), ClaimedBefore(es, i);
        var j: nat :| FirstToken(e, toks, vocab, claimed, j, err);
        var j2: nat :| FirstToken(e, toks, vocab, claimed, j2, err2);
        FirstTokenUnique(e, toks, vocab, claimed, j, err, j2, err2);
      }
    } else if i < i2 {
      CheckedPrefix(es, i + 1, i2, nNodes, vocab);
      FaultUnchecked(es, i, nNodes, vocab, err);
    } else {
      CheckedPrefix(es, i2 + 1, i, nNodes, vocab);
      FaultUnchecked(es, i2, nNodes, vocab, err2);
    }
  }

  lemma RowFaultUnique(es: seq<EdgeSpec>, s: nat, err: FaError, s2: nat, err2: FaError, nNodes: nat)
    requires RowFault(es, s, nNodes, err) && RowFault(es, s2, nNodes, err2)
    ensures err == err2
  {
    var i: nat, j: nat :| PairFault(EdgesOf(es, s), i, j) && err == DuplicatePair(s, EdgesOf(es, s)[i].dst);
    var i2: nat, j2: nat :| PairFault(EdgesOf(es, s2), i2, j2) && err2 == DuplicatePair(s2, EdgesOf(es, s2)[i2].dst);
    assert !DstApart(EdgesOf(es, s)) && !DstApart(EdgesOf(es, s2));
    assert s == s2;
    assert i == i2;
  }

  /** The scan order determines the refusal. */
  lemma FirstFaultUnique(nNodes: nat, vocab: nat, start: nat, es: seq<EdgeSpec>, err: FaError, err2: FaError)
    requires FirstFault(nNodes, vocab, start, es, err) && FirstFault(nNodes, vocab, start, es, err2)
    ensures err == err2
  {
    hide Checked, ScanFault, RowFault;
    if start < nNodes {
      if Checked(es, nNodes, vocab) {
        var s: nat :| RowFault(es, s, nNodes, err);
        var s2: nat :| RowFault(es, s2, nNodes, err2);
        RowFaultUnique(es, s, err, s2, err2, nNodes);
      } else {
        var i: nat :| ScanFault(es, i, nNodes, vocab, err);
        var i2: nat :| ScanFault(es, i2, nNodes, vocab, err2);
        ScanFaultUnique(es, i, err, i2, err2, nNodes, vocab);
      }
    }
  }

  /** The marks of the current node are the tokens claimed before the edge. */
  lemma ClaimedIs(es: seq<EdgeSpec>, lo: nat, i: nat, claimed: set<nat>)
    requires lo <= i < |es| && LastNode(es[..i + 1], lo) && ClaimedFrom(es[..i], lo, claimed)
    ensures claimed == ClaimedBefore(es, i)
  {
    assert es[..i + 1][i] == es[i];
    forall t | t in claimed ensures t in ClaimedBefore(es, i) {
      var k :| lo <= k < i && t in es[..i][k].tokens;
      assert es[..i + 1][k] == es[k];
    }
    forall t | t in ClaimedBefore(es, i) ensures t in claimed {
      var k :| 0 <= k < i && es[k].src == es[i].src && t in es[k].tokens;
      assert es[..i + 1][k] == es[k] && es[..i][k] == es[k];
    }
  }

  lemma ScanFaultAt(es: seq<EdgeSpec>, i: nat, nNodes: nat, vocab: nat, err: FaError)
    requires ScanFault(es, i, nNodes, vocab, err)
    ensures !Checked(es, nNodes, vocab)
  {
    if Checked(es, nNodes, vocab) {
      assert es[..|es|] == es;
      CheckedPrefix(es, i + 1, |es|, nNodes, vocab);
      FaultUnchecked(es, i, nNodes, vocab, err);
    }
  }

  /** Sorting changes neither what is buildable nor what a refusal may claim. */
  lemma SameClaims(edges: seq<EdgeSpec>, es: seq<EdgeSpec>, nNodes: nat, vocab: nat, start: nat)
    requires es == StableSort(edges)
    ensures Buildable(nNodes, vocab, start, es) == Buildable(nNodes, vocab, start, edges)
    ensures forall err :: Truthful(err, nNodes, vocab, start, es) ==> Truthful(err, nNodes, vocab, start, edges)
  {
    StableSortMembers(edges);
    forall s: nat ensures EdgesOf(es, s) == EdgesOf(edges, s) {
      StableSortKeepsRows(edges, s);
    }
  }

  lemma TruthRefutes(err: FaError, nNodes: nat, vocab: nat, start: nat, es: seq<EdgeSpec>)
    requires Truthful(err, nNodes, vocab, start, es)
    ensures !Buildable(nNodes, vocab, start, es)
  {
    match err
    case DuplicateEdgeToken(s, t) =>
      var own := EdgesOf(es, s);
      var i, j :| 0 <= i < j < |own| && t in own[i].tokens && t in own[j].tokens;
      assert !TokenDisjoint(own[i], own[j]);
      assert !NodeOk(own);
    case DuplicatePair(s, d) =>
      assert !NodeOk(EdgesOf(es, s));
    case _ =>
  }

  lemma CheckedBuildable(es: seq<EdgeSpec>, nNodes: nat, vocab: nat, start: nat)
    requires BySource(es) && start < nNodes && Checked(es, nNodes, vocab)
    requires forall s :: 0 <= s < nNodes ==> DstApart(EdgesOf(es, s))
    ensures Buildable(nNodes, vocab, start, es)
  {
    forall s | 0 <= s < nNodes ensures NodeOk(EdgesOf(es, s)) {
      RowIsSlice(es, s);
      var own, lo := EdgesOf(es, s), CountBelow(es, s);
      forall i, j | 0 <= i < j < |own| ensures TokenDisjoint(own[i], own[j]) {
        EdgesOfMember(es, s, own[i]);
        EdgesOfMember(es, s, own[j]);
        assert own[i] == es[lo + i] && own[j] == es[lo + j];
      }
    }
  }

  /** The CSR arrays computed from a checked list form a valid automaton whose rows are that list's rows. */
  lemma Assembled(a: Automaton, es: seq<EdgeSpec>)
    requires BySource(es) && Buildable(a.nNodes, a.vocab, a.start, es)
    requires |a.accept| == a.nNodes && Columns(es, a.edgeDst, a.emitStart, a.emitTokens)
    requires |a.outStart| == a.nNodes + 1
    requires forall s :: 0 <= s <= a.nNodes ==> a.outStart[s] == CountBelow(es, s)
    ensures a.Valid() && Represents(a, es)
  {
    AssembledShape(a, es);
    forall s | 0 <= s < a.nNodes ensures Row(a, s, EdgesOf(es, s)) {
      RowIsSlice(es, s);
      var own := EdgesOf(es, s);
      forall k | 0 <= k < |own| ensures RowEdge(a, a.OutLo(s) + k, own[k]) {
        assert own[k] == es[a.OutLo(s) + k];
      }
    }
    forall e | 0 <= e < |es| ensures a.EdgeValid(e) {
      assert EdgeOk(es[e], a.nNodes, a.vocab);
      SortNatsSorts(es[e].tokens);
      PermMembers(es[e].tokens, SortNats(es[e].tokens));
      DistinctPerm(es[e].tokens, SortNats(es[e].tokens));
    }
    forall s | 0 <= s < a.nNodes ensures a.NodeValid(s) {
      RowApart(a, s, EdgesOf(es, s));
    }
  }

  lemma RowApart(a: Automaton, s: nat, own: seq<EdgeSpec>)
    requires a.Shape() && s < a.nNodes && Row(a, s, own) && NodeOk(own)
    ensures a.NodeValid(s)
  {
    var lo := a.OutLo(s);
    forall e, f | lo <= e < f < a.OutHi(s) ensures a.Apart(e, f) {
      assert RowEdge(a, lo + (e - lo), own[e - lo]) && RowEdge(a, lo + (f - lo), own[f - lo]);
      SortNatsMembers(own[e - lo].tokens);
      SortNatsMembers(own[f - lo].tokens);
      assert TokenDisjoint(own[e - lo], own[f - lo]);
    }
  }

  lemma AssembledShape(a: Automaton, es: seq<EdgeSpec>)
    requires BySource(es) && Buildable(a.nNodes, a.vocab, a.start, es)
    requires |a.accept| == a.nNodes && Columns(es, a.edgeDst, a.emitStart, a.emitTokens)
    requires |a.outStart| == a.nNodes + 1
    requires forall s :: 0 <= s <= a.nNodes ==> a.outStart[s] == CountBelow(es, s)
    ensures a.Shape()
  {
    forall k | 0 <= k < |es| ensures Rows(es)[k] != [] {
      assert es[k] in es;
      SortNatsMembers(es[k].tokens);
    }
    EmitIncreasing(Rows(es), a.emitStart, a.emitTokens, |es|);
    assert a.emitStart[..|es| + 1] == a.emitStart;
    CountBelowAll(es, a.nNodes);
    forall i, j | 0 <= i < j < |a.outStart| ensures a.outStart[i] <= a.outStart[j] {
      CountBelowMonotone(es, i, j);
    }
  }

  lemma {:induction false} CountBelowMonotone(es: seq<EdgeSpec>, i: nat, j: nat)
    requires i <= j
    ensures CountBelow(es, i) <= CountBelow(es, j)
  {
    if es != [] { CountBelowMonotone(es[1..], i, j); }
  }

  // ---- the 32-bit casts ----

  const WORDS: nat := 0x1_0000_0000

  lemma {:induction false} StrictlyAbove(s: seq<nat>, k: nat)
    requires StrictlySorted(s) && k < |s|
    ensures s[k] >= k
  {
    if k > 0 { StrictlyAbove(s, k - 1); }
  }

  /** A 32-bit two's complement cast. */
  function AsI32(i: nat): int {
    var w := i % WORDS;
    if w < WORDS / 2 then w else w - WORDS
  }

  /** With at most 2^32 nodes and fewer than 2^32 tokens no cast of a destination, a count or an offset loses anything. The
      signed edge index kept in an owner mark stays what it is, and tells a mark from none, exactly below 2^31. */
  lemma CastsExact(a: Automaton)
    requires a.Valid() && a.nNodes <= WORDS && |a.emitTokens| < WORDS
    ensures forall e :: 0 <= e < |a.edgeDst| ==> a.edgeDst[e] % WORDS == a.edgeDst[e]
    ensures forall s :: 0 <= s <= a.nNodes ==> a.outStart[s] % WORDS == a.outStart[s]
    ensures forall e :: 0 <= e <= |a.edgeDst| ==> a.emitStart[e] % WORDS == a.emitStart[e]
    ensures forall e: nat :: e < |a.edgeDst| ==> (AsI32(e) == e <==> e < WORDS / 2) && (AsI32(e) >= 0 <==> e < WORDS / 2)
  {
    StrictlyAbove(a.emitStart, |a.edgeDst|);
    forall e | 0 <= e < |a.edgeDst| ensures a.edgeDst[e] < WORDS { assert a.EdgeValid(e); }
    forall s | 0 <= s <= a.nNodes ensures a.outStart[s] < WORDS {
      assert s < a.nNodes ==> a.outStart[s] <= a.outStart[a.nNodes];
    }
    forall e | 0 <= e <= |a.edgeDst| ensures a.emitStart[e] < WORDS {
      assert e < |a.edgeDst| ==> a.emitStart[e] < a.emitStart[|a.edgeDst|];
    }
  }

  class AutomatonBuilder {
    var nNodes: nat
    var vocab: nat
    var start: nat
    var accept: seq<bool>
    var edges: seq<EdgeSpec>

    constructor (n: nat, v: nat, s: nat)
      ensures nNodes == n && vocab == v && start == s && edges == []
      ensures accept == seq(n, _ => false)
    {
      nNodes, vocab, start := n, v, s;
      accept := seq(n, _ => false);
      edges := [];
    }

    /** Marks one node accepting; repeat calls change nothing. */
    method Accept(node: nat)
      requires node < |accept|
      modifies this`accept
      ensures accept == old(accept)[node := true]
    {
      accept := accept[node := true];
    }

    method AddEdge(src: nat, dst: nat, tokens: seq<nat>)
      modifies this`edges
      ensures edges == old(edges) + [EdgeSpec(src, dst, tokens)]
    {
      edges := edges + [EdgeSpec(src, dst, tokens)];
    }

    /** Checks one edge's sorted tokens against the tokens already claimed by the node, and claims them. */
    method ClaimTokens(owner: array<int>, i: nat, e: EdgeSpec, toks: seq<nat>, ghost claimed: set<nat>)
      returns (err: Option<FaError>)
      requires Sorted(toks) && owner.Length == vocab && Marks(owner, claimed)
      modifies owner
      ensures err.None? ==> Distinct(toks) && Marks(owner, claimed + set t | t in toks)
      ensures err.None? ==> forall t :: t in toks ==> t < vocab && t !in claimed
      ensures err.Some? ==> exists j: nat :: FirstToken(e, toks, vocab, claimed, j, err.value)
    {
      var prev: Option<nat> := None;
      for j := 0 to |toks|
        invariant prev == if j == 0 then None else Some(toks[j - 1])
        invariant forall p, q :: 0 <= p < q < j ==> toks[p] != toks[q]
        invariant forall p :: 0 <= p < j ==> toks[p] < vocab && toks[p] !in claimed
        invariant Marks(owner, claimed + set p | 0 <= p < j :: toks[p])
        invariant forall p: nat :: p < j ==> TokenFault(e, toks, p, vocab, claimed) == None
      {
        var t := toks[j];
        assert TokenFault(e, toks, j, vocab, claimed).Some? ==>
            FirstToken(e, toks, vocab, claimed, j, TokenFault(e, toks, j, vocab, claimed).value);
        if t >= vocab {
          return Some(TokenOutOfRange(t, vocab, e.src, e.dst));
        }
        if prev == Some(t) {
          return Some(DuplicateTokenInEdge(e.src, e.dst, t));
        }
        assert forall p :: 0 <= p < j ==> toks[p] <= toks[j - 1];
        if owner[t] >= 0 {
          return Some(DuplicateEdgeToken(e.src, t));
        }
        owner[t] := i;
        prev := Some(t);
      }
      assert (set t | t in toks) == set p | 0 <= p < |toks| :: toks[p];
      return None;
    }

    /** Clears the marks of the previous node's edges. */
    method ClearMarks(owner: array<int>, es: seq<EdgeSpec>, ghost claimed: set<nat>)
      requires owner.Length == vocab && Marks(owner, claimed)
      requires forall t :: t in claimed ==> exists k :: 0 <= k < |es| && t in es[k].tokens
      requires forall k, t :: 0 <= k < |es| && t in es[k].tokens ==> t < vocab
      modifies owner
      ensures Marks(owner, {})
    {
      for k := 0 to |es|
        invariant forall t: nat :: t < vocab && owner[t] >= 0 ==> t in claimed
        invariant forall l, t: nat :: 0 <= l < k && t in es[l].tokens ==> owner[t] < 0
      {
        var toks := es[k].tokens;
        for j := 0 to |toks|
          invariant forall t: nat :: t < vocab && owner[t] >= 0 ==> t in claimed
          invariant forall l, t: nat :: 0 <= l < k && t in es[l].tokens ==> owner[t] < 0
          invariant forall t: nat :: t < vocab && t in toks[..j] ==> owner[t] < 0
        {
          assert toks[j] in es[k].tokens;
          owner[toks[j]] := -1;
        }
      }
    }

    /** The main pass over the edges sorted by source. */
    method Scan(es: seq<EdgeSpec>)
      returns (err: Option<FaError>, outCounts: seq<nat>, edgeDst: seq<nat>, emitStart: seq<nat>, emitTokens: seq<nat>)
      requires BySource(es)
      ensures err.None? ==> Checked(es, nNodes, vocab)
      ensures err.None? ==> Counts(es, nNodes, outCounts) && Columns(es, edgeDst, emitStart, emitTokens)
      ensures err.Some? ==> !err.value.BadStart? && Truthful(err.value, nNodes, vocab, start, es)
      ensures err.Some? ==> exists i: nat :: ScanFault(es, i, nNodes, vocab, err.value)
    {
      hide Truthful, Checked, ClaimedFrom, Columns, EdgesOf, SortNats, FirstToken, ClaimedBefore;
      ScanInit(es, nNodes, vocab);
      outCounts := seq(nNodes, _ => 0);
      edgeDst, emitStart, emitTokens := [], [0], [];
      var owner := new int[vocab](_ => -1);
      var nodeFirst: nat := 0;
      var prevSrc: Option<nat> := None;
      ghost var claimed: set<nat> := {};
      for i := 0 to |es|
        invariant owner.Length == vocab && fresh(owner) && Marks(owner, claimed) && (i == 0 ==> claimed == {})
        invariant Checked(es[..i], nNodes, vocab)
        invariant prevSrc == if i == 0 then None else Some(es[i - 1].src)
        invariant LastNode(es[..i], nodeFirst) && ClaimedFrom(es[..i], nodeFirst, claimed)
        invariant Counts(es[..i], nNodes, outCounts) && Columns(es[..i], edgeDst, emitStart, emitTokens)
      {
        var e := es[i];
        assert e in es;
        assert es[..i + 1] == es[..i] + [e];
        if e.src >= nNodes || e.dst >= nNodes {
          RangeRefused(es, i, nNodes, vocab, start);
          assert ScanFault(es, i, nNodes, vocab, NodeOutOfRange(if e.src >= nNodes then e.src else e.dst, nNodes));
          return Some(NodeOutOfRange(if e.src >= nNodes then e.src else e.dst, nNodes)), [], [], [], [];
        }
        if prevSrc != Some(e.src) {
          if prevSrc.Some? {
            ClearPrevious(owner, es[..i], nodeFirst, claimed);
          }
          claimed := {};
          NothingClaimed(es[..i]);
          prevSrc := Some(e.src);
          nodeFirst := i;
        }
        NodeExtend(es, i, nodeFirst);
        if e.tokens == [] {
          EmptyRefused(es, i, nNodes, vocab, start);
          assert ScanFault(es, i, nNodes, vocab, EmptyEdge(e.src, e.dst));
          return Some(EmptyEdge(e.src, e.dst)), [], [], [], [];
        }
        var toks := SortNats(e.tokens);
        SortNatsSorts(e.tokens);
        var bad := ClaimTokens(owner, i, e, toks, claimed);
        if bad.Some? {
          ClaimRefused(bad.value, es, nodeFirst, i, nNodes, vocab, start, claimed);
          ClaimedIs(es, nodeFirst, i, claimed);
          assert ScanFault(es, i, nNodes, vocab, bad.value);
          return bad, [], [], [], [];
        }
        ScanExtend(es, i, nodeFirst, nNodes, vocab, claimed, outCounts, edgeDst, emitStart, emitTokens);
        claimed := claimed + set t | t in toks;
        edgeDst := edgeDst + [e.dst];
        emitTokens := emitTokens + toks;
        emitStart := emitStart + [|emitTokens|];
        outCounts := outCounts[e.src := outCounts[e.src] + 1];
      }
      assert es[..|es|] == es;
      return None, outCounts, edgeDst, emitStart, emitTokens;
    }

    /** Counts to offsets. */
    method Offsets(es: seq<EdgeSpec>, outCounts: seq<nat>) returns (outStart: seq<nat>)
      requires Counts(es, nNodes, outCounts) && forall e :: e in es ==> e.src < nNodes
      ensures |outStart| == nNodes + 1 && forall s :: 0 <= s <= nNodes ==> outStart[s] == CountBelow(es, s)
    {
      CountBelowAll(es, nNodes);
      outStart := [0];
      for s := 0 to nNodes
        invariant |outStart| == s + 1 && forall r :: 0 <= r <= s ==> outStart[r] == CountBelow(es, r)
      {
        CountBelowStep(es, s);
        outStart := outStart + [outStart[s] + outCounts[s]];
      }
    }

    /** The second invariant: no two edges of one row share a destination. */
    method CheckPairs(es: seq<EdgeSpec>, outStart: seq<nat>, edgeDst: seq<nat>) returns (err: Option<FaError>)
      requires BySource(es) && |edgeDst| == |es| && forall k :: 0 <= k < |es| ==> edgeDst[k] == es[k].dst
      requires |outStart| == nNodes + 1 && forall s :: 0 <= s <= nNodes ==> outStart[s] == CountBelow(es, s)
      ensures err.None? ==> forall s :: 0 <= s < nNodes ==> DstApart(EdgesOf(es, s))
      ensures err.Some? ==> err.value.DuplicatePair? && Truthful(err.value, nNodes, vocab, start, es)
      ensures err.Some? ==> exists s: nat :: RowFault(es, s, nNodes, err.value)
    {
      for s := 0 to nNodes
        invariant forall r :: 0 <= r < s ==> DstApart(EdgesOf(es, r))
      {
        var a, b := outStart[s], outStart[s + 1];
        RowIsSlice(es, s);
        ghost var own := EdgesOf(es, s);
        for i := a to b
          invariant forall p, q :: 0 <= p < q < |own| && p < i - a ==> own[p].dst != own[q].dst
        {
          for j := i + 1 to b
            invariant forall q :: i - a < q < j - a ==> own[i - a].dst != own[q].dst
          {
            if edgeDst[i] == edgeDst[j] {
              assert i - a < j - a < |own|;
              assert own[i - a].dst == edgeDst[i] && own[j - a].dst == edgeDst[i];
              assert PairFault(own, i - a, j - a);
              assert RowFault(es, s, nNodes, DuplicatePair(s, edgeDst[i]));
              return Some(DuplicatePair(s, edgeDst[i]));
            }
          }
        }
      }
      return None;
    }

    /** Finalizes the edges into CSR form, or refuses with a true reason. */
    method Build() returns (r: Result<Automaton, FaError>)
      requires |accept| == nNodes
      ensures r.Ok? <==> Buildable(nNodes, vocab, start, edges)
      ensures r.Ok? ==>
                && r.value.Valid() && Represents(r.value, edges)
                && r.value.nNodes == nNodes && r.value.vocab == vocab
                && r.value.start == start && r.value.accept == accept
                && r.value.NEdges() == |edges|
      ensures r.Err? ==> Truthful(r.error, nNodes, vocab, start, edges)
      ensures r.Err? ==> FirstFault(nNodes, vocab, start, StableSort(edges), r.error)
    {
      if start >= nNodes {
        return Err(BadStart(start));
      }
      var es := StableSort(edges);
      StableSortSorts(edges);
      StableSortMembers(edges);
      SameClaims(edges, es, nNodes, vocab, start);
      var bad, outCounts, edgeDst, emitStart, emitTokens := Scan(es);
      if bad.Some? {
        TruthRefutes(bad.value, nNodes, vocab, start, edges);
        ghost var i: nat :| ScanFault(es, i, nNodes, vocab, bad.value);
        ScanFaultAt(es, i, nNodes, vocab, bad.value);
        return Err(bad.value);
      }
      assert forall e :: e in es ==> EdgeOk(e, nNodes, vocab);
      var outStart := Offsets(es, outCounts);
      bad := CheckPairs(es, outStart, edgeDst);
      if bad.Some? {
        TruthRefutes(bad.value, nNodes, vocab, start, edges);
        return Err(bad.value);
      }
      var a := Automaton(nNodes, vocab, start, accept, outStart, edgeDst, emitStart, emitTokens);
      CheckedBuildable(es, nNodes, vocab, start);
      Assembled(a, es);
      assert Represents(a, edges) by {
        forall s | 0 <= s < nNodes ensures Row(a, s, EdgesOf(edges, s)) {
          StableSortKeepsRows(edges, s);
        }
      }
      return Ok(a);
    }

    method ClearPrevious(owner: array<int>, es: seq<EdgeSpec>, lo: nat, ghost claimed: set<nat>)
      requires lo <= |es| && owner.Length == vocab && Marks(owner, claimed) && ClaimedFrom(es, lo, claimed)
      requires Checked(es, nNodes, vocab)
      modifies owner
      ensures Marks(owner, {})
    {
      forall t | t in claimed ensures exists k :: 0 <= k < |es[lo..]| && t in es[lo..][k].tokens {
        var k :| lo <= k < |es| && t in es[k].tokens;
        assert es[lo..][k - lo] == es[k];
      }
      ClearMarks(owner, es[lo..], claimed);
    }
  }

  /** A refusal by the claim step is true of the sorted list. */
  lemma ClaimRefused(err: FaError, es: seq<EdgeSpec>, lo: nat, i: nat, nNodes: nat, vocab: nat, start: nat,
                     claimed: set<nat>)
    requires BySource(es) && lo <= i < |es| && LastNode(es[..i + 1], lo) && ClaimedFrom(es[..i], lo, claimed)
    requires es[i].src < nNodes
    requires var e := es[i];
             exists j: nat :: FirstToken(e, SortNats(e.tokens), vocab, claimed, j, err)
    ensures !err.BadStart? && Truthful(err, nNodes, vocab, start, es)
  {
    var e := es[i];
    assert e in es;
    SortNatsMembers(e.tokens);
    var toks := SortNats(e.tokens);
    var j: nat :| FirstToken(e, toks, vocab, claimed, j, err);
    assert toks[j] in toks;
    match err
    case TokenOutOfRange(t, v, s, d) =>
    case DuplicateTokenInEdge(s, d, t) =>
      SortNatsSorts(e.tokens);
      if Distinct(e.tokens) {
        DistinctPerm(e.tokens, SortNats(e.tokens));
      }
    case DuplicateEdgeToken(s, t) =>
      var k :| lo <= k < i && t in es[..i][k].tokens;
      assert es[..i + 1][k] == es[k] && es[..i + 1][i] == e;
      PairInRow(es, k, i);
      var c := CountBelow(es, s);
      assert t in EdgesOf(es, s)[k - c].tokens && t in EdgesOf(es, s)[i - c].tokens;
  }
}
