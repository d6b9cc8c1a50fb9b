/** The segment-tree sampler as a function of its draws, and why it samples the same posterior. */
module TreeSpec {
  import opened Prelude
  import opened Sums
  import opened Automata
  import opened Posterior
  import opened SequentialSpec
  import opened Chains

  // ---- from edges to matrix entries ----

  /** The first edge to node `j` among the edges `[lo, hi)`. */
  function FirstTo(fa: Automaton, j: nat, lo: nat, hi: nat): (r: Option<nat>)
    requires fa.Shape() && lo <= hi <= fa.NEdges()
    ensures r.Some? ==> lo <= r.value < hi && fa.edgeDst[r.value] == j
    ensures r.None? ==> forall e :: lo <= e < hi ==> fa.edgeDst[e] != j
    decreases hi - lo
  {
    if lo == hi then None
    else if fa.edgeDst[lo] == j then Some(lo)
    else FirstTo(fa, j, lo + 1, hi)
  }

  /** The edge from `i` to `j`; at most one exists. */
  function PairEdge(fa: Automaton, i: nat, j: nat): (r: Option<nat>)
    requires fa.Shape() && i < fa.nNodes
    ensures r.Some? ==> fa.OutLo(i) <= r.value < fa.OutHi(i) && fa.edgeDst[r.value] == j
    ensures r.None? ==> forall e :: fa.OutLo(i) <= e < fa.OutHi(i) ==> fa.edgeDst[e] != j
  {
    FirstTo(fa, j, fa.OutLo(i), fa.OutHi(i))
  }

  lemma PairEdgeUnique(fa: Automaton, i: nat, e: nat)
    requires fa.Valid() && i < fa.nNodes && fa.OutLo(i) <= e < fa.OutHi(i)
    ensures PairEdge(fa, i, fa.edgeDst[e]) == Some(e)
  {
    var f := PairEdge(fa, i, fa.edgeDst[e]).value;
    assert fa.NodeValid(i);
    assert e < f ==> fa.Apart(e, f);
    assert f < e ==> fa.Apart(f, e);
  }

  function MassOf(b: Block, t: nat, e: Option<nat>): (r: real)
    requires b.Valid() && t < b.len && (e.Some? ==> e.value < b.fa.NEdges())
    ensures r >= 0.0
  {
    match e case None => 0.0 case Some(f) => b.EdgeMass(t, f)
  }

  function PairMass(b: Block, t: nat, i: nat, j: nat): (r: real)
    requires b.Valid() && t < b.len && i < b.fa.nNodes
    ensures r >= 0.0
  {
    MassOf(b, t, PairEdge(b.fa, i, j))
  }

  /** A leaf entry before scaling: the last real leaf keeps accepting destinations only. */
  function Raw(b: Block, t: nat, i: nat, j: nat): (r: real)
    requires b.Valid() && t < b.len && i < b.fa.nNodes && j < b.fa.nNodes
    ensures r >= 0.0
  {
    if t + 1 == b.len && !b.fa.accept[j] then 0.0 else PairMass(b, t, i, j)
  }

  /** The chain of leaf matrices of a block: each real leaf is scaled by a positive constant, padding is the identity. */
  ghost predicate LeavesOf(b: Block, c: Chain, scales: seq<real>)
    requires b.Valid()
  {
    && c.Valid() && c.n == b.fa.nNodes && |c.leaves| >= b.len == |scales|
    && (forall t :: 0 <= t < b.len ==> scales[t] > 0.0 && RealLeaf(b, c, t, scales[t]))
    && (forall t :: b.len <= t < |c.leaves| ==> PaddingLeaf(c, t))
  }

  ghost predicate RealLeaf(b: Block, c: Chain, t: nat, scale: real)
    requires b.Valid() && c.Valid() && c.n == b.fa.nNodes && t < b.len && t < |c.leaves|
  {
    forall i, j :: 0 <= i < c.n && 0 <= j < c.n ==> c.Leaf(t, i, j) == Times(Raw(b, t, i, j), scale)
  }

  ghost predicate PaddingLeaf(c: Chain, t: nat)
    requires c.Valid() && t < |c.leaves|
  {
    forall i, j :: 0 <= i < c.n && 0 <= j < c.n ==> c.Leaf(t, i, j) == if i == j then 1.0 else 0.0
  }

  function ScaleFrom(scales: seq<real>, t: nat): real
    requires t <= |scales|
    decreases |scales| - t
  {
    if t == |scales| then 1.0 else Times(ScaleFrom(scales, t + 1), scales[t])
  }

  lemma {:induction false} ScaleFromPositive(scales: seq<real>, t: nat)
    requires t <= |scales| && forall i :: 0 <= i < |scales| ==> scales[i] > 0.0
    ensures ScaleFrom(scales, t) > 0.0
    decreases |scales| - t
  {
    if t < |scales| {
      ScaleFromPositive(scales, t + 1);
      TimesPositive(ScaleFrom(scales, t + 1), scales[t]);
    }
  }

  // ---- summing a row over destinations instead of edges ----

  function PairShare(b: Block, t: nat, lo: nat, hi: nat, k: nat): real
    requires b.Valid() && t < b.len && lo <= hi <= b.fa.NEdges()
  {
    if k >= b.fa.nNodes then 0.0
    else Times(MassOf(b, t, FirstTo(b.fa, k, lo, hi)), b.Back(t + 1, k))
  }

  lemma PairShareStep(b: Block, t: nat, s: nat, lo: nat, k: nat)
    requires b.Valid() && t < b.len && s < b.fa.nNodes && b.fa.OutLo(s) <= lo < b.fa.OutHi(s) && k < b.fa.nNodes
    ensures PairShare(b, t, lo, b.fa.OutHi(s), k) ==
            PairShare(b, t, lo + 1, b.fa.OutHi(s), k) + if b.fa.edgeDst[lo] == k then b.Flow(t, lo) else 0.0
  {
    assert b.fa.NodeValid(s);
    var rest := FirstTo(b.fa, k, lo + 1, b.fa.OutHi(s));
    assert rest.Some? ==> b.fa.Apart(lo, rest.value);
  }

  lemma NoPairShare(b: Block, t: nat, lo: nat, k: nat)
    requires b.Valid() && t < b.len && lo <= b.fa.NEdges()
    ensures PairShare(b, t, lo, lo, k) == 0.0
  {
  }

  lemma NoFlows(b: Block, t: nat, lo: nat)
    requires b.Valid() && t < b.len && lo <= b.fa.NEdges()
    ensures Sum(b.FlowsOf(t, lo, lo)) == 0.0
  {
  }

  lemma {:induction false} PairRegroup(b: Block, t: nat, s: nat, lo: nat)
    requires b.Valid() && t < b.len && s < b.fa.nNodes && b.fa.OutLo(s) <= lo <= b.fa.OutHi(s)
    ensures SumTo(b.fa.nNodes, (k: nat) => PairShare(b, t, lo, b.fa.OutHi(s), k)) == Sum(b.FlowsOf(t, lo, b.fa.OutHi(s)))
    decreases b.fa.OutHi(s) - lo
  {
    hide PairShare, Block.Flow, Block.FlowsOf, Block.Back, Block.EdgeMass, Sum, Automaton.NodeValid;
    var hi := b.fa.OutHi(s);
    var here := (k: nat) => PairShare(b, t, lo, hi, k);
    if lo == hi {
      forall k: nat ensures here(k) == 0.0 { NoPairShare(b, t, lo, k); }
      SumToZero(b.fa.nNodes, here);
      NoFlows(b, t, lo);
    } else {
      PairRegroup(b, t, s, lo + 1);
      b.EdgeInRange(lo);
      var single := (k: nat) => if b.fa.edgeDst[lo] == k then b.Flow(t, lo) else 0.0;
      SumToSingle(b.fa.nNodes, single, b.fa.edgeDst[lo]);
      forall k: nat | k < b.fa.nNodes ensures here(k) == PairShare(b, t, lo + 1, hi, k) + single(k) {
        PairShareStep(b, t, s, lo, k);
      }
      SumToPlus(b.fa.nNodes, (k: nat) => PairShare(b, t, lo + 1, hi, k), single, here);
      b.FlowsHead(t, lo, hi);
    }
  }

  // ---- the root row adds up to the total weight ----

  /** Beyond the block every segment is the identity. */
  lemma {:induction false} PaddingSeg(b: Block, c: Chain, scales: seq<real>, t: nat, i: nat, j: nat)
    requires b.Valid() && LeavesOf(b, c, scales) && b.len <= t <= |c.leaves| && i < c.n && j < c.n
    ensures c.Seg(t, |c.leaves|, i, j) == if i == j then 1.0 else 0.0
    decreases |c.leaves| - t
  {
    if t < |c.leaves| {
      var f := c.Step(t, |c.leaves|, i, j);
      assert PaddingLeaf(c, t);
      forall k: nat | k < c.n ensures f(k) == if k == i then c.Seg(t + 1, |c.leaves|, k, j) else 0.0 {
      }
      SumToSingle(c.n, f, i);
      PaddingSeg(b, c, scales, t + 1, i, j);
    }
  }

  /** The total weight of a row of the segment from `t` to the end. */
  function RowSum(c: Chain, t: nat, s: nat): real
    requires c.Valid() && t <= |c.leaves|
  {
    SumTo(c.n, (f: nat) => c.Seg(t, |c.leaves|, s, f))
  }

  lemma RowStep(c: Chain, t: nat, s: nat, g: nat -> real)
    requires c.Valid() && t < |c.leaves|
    requires forall k: nat :: k < c.n ==> g(k) == Times(RowSum(c, t + 1, k), c.Leaf(t, s, k))
    ensures RowSum(c, t, s) == SumTo(c.n, g)
  {
    hide Chain.Leaf;
    var L := |c.leaves|;
    var f := (d: nat, k: nat) => Times(c.Seg(t + 1, L, k, d), c.Leaf(t, s, k));
    forall d: nat | d < c.n ensures c.Seg(t, L, s, d) == SumTo(c.n, (k: nat) => f(d, k)) {
      SumToExt(c.n, c.Step(t, L, s, d), (k: nat) => f(d, k));
    }
    SumToExt(c.n, (d: nat) => c.Seg(t, L, s, d), (d: nat) => SumTo(c.n, (k: nat) => f(d, k)));
    SumToSwap(c.n, c.n, f);
    forall k: nat | k < c.n ensures g(k) == SumTo(c.n, (d: nat) => f(d, k)) {
      SumToScale(c.n, (d: nat) => c.Seg(t + 1, L, k, d), c.Leaf(t, s, k), (d: nat) => f(d, k));
    }
    SumToExt(c.n, (k: nat) => SumTo(c.n, (d: nat) => f(d, k)), g);
  }

  lemma RowAtEnd(b: Block, c: Chain, scales: seq<real>, s: nat)
    requires b.Valid() && LeavesOf(b, c, scales) && s < c.n
    ensures RowSum(c, b.len, s) == 1.0
  {
    var f := (d: nat) => c.Seg(b.len, |c.leaves|, s, d);
    forall d: nat | d < c.n ensures f(d) == if d == s then 1.0 else 0.0 {
      PaddingSeg(b, c, scales, b.len, s, d);
    }
    SumToSingle(c.n, f, s);
  }

  /** One term of a row: the leaf entry times what completes after it. */
  lemma RowTerm(b: Block, c: Chain, scales: seq<real>, t: nat, s: nat, k: nat)
    requires b.Valid() && LeavesOf(b, c, scales) && t < b.len && s < c.n && k < c.n
    requires t + 1 < b.len ==> RowSum(c, t + 1, k) == Times(b.Back(t + 1, k), ScaleFrom(scales, t + 1))
    requires t + 1 == b.len ==> RowSum(c, t + 1, k) == 1.0
    ensures Times(RowSum(c, t + 1, k), c.Leaf(t, s, k)) ==
            Times(Times(PairMass(b, t, s, k), b.Back(t + 1, k)), ScaleFrom(scales, t))
  {
    hide Chain.Leaf, RowSum, PairMass;
    assert RealLeaf(b, c, t, scales[t]);
    var m := PairMass(b, t, s, k);
    if t + 1 == b.len {
      assert b.Back(t + 1, k) == if b.fa.accept[k] then 1.0 else 0.0;
      assert ScaleFrom(scales, t + 1) == 1.0;
    } else {
      hide Block.Back;
      FourFactors(b.Back(t + 1, k), ScaleFrom(scales, t + 1), m, scales[t]);
    }
  }

  lemma FourFactors(x: real, y: real, m: real, z: real)
    ensures Times(Times(x, y), Times(m, z)) == Times(Times(m, x), Times(y, z))
  {
  }

  /** The root row: up to the positive leaf scales it holds exactly the total weight. */
  lemma {:induction false} RowTotal(b: Block, c: Chain, scales: seq<real>, t: nat, s: nat)
    requires b.Valid() && LeavesOf(b, c, scales) && t < b.len && s < c.n
    ensures RowSum(c, t, s) == Times(b.Back(t, s), ScaleFrom(scales, t))
    decreases b.len - t
  {
    hide RowSum, Block.Back, PairMass, Chain.Leaf, RealLeaf, PaddingLeaf;
    var raw := (k: nat) => PairShare(b, t, b.fa.OutLo(s), b.fa.OutHi(s), k);
    var g := (k: nat) => if k < c.n then Times(RowSum(c, t + 1, k), c.Leaf(t, s, k)) else 0.0;
    forall k: nat | k < c.n ensures g(k) == Times(raw(k), ScaleFrom(scales, t)) {
      if t + 1 < b.len {
        RowTotal(b, c, scales, t + 1, k);
      } else {
        RowAtEnd(b, c, scales, k);
      }
      RowTerm(b, c, scales, t, s, k);
      RawShare(b, t, s, k);
    }
    RowStep(c, t, s, g);
    SumToScale(c.n, raw, ScaleFrom(scales, t), g);
    PairRegroup(b, t, s, b.fa.OutLo(s));
    BackSum(b, t, s);
  }

  lemma RawShare(b: Block, t: nat, s: nat, k: nat)
    requires b.Valid() && t < b.len && s < b.fa.nNodes && k < b.fa.nNodes
    ensures PairShare(b, t, b.fa.OutLo(s), b.fa.OutHi(s), k) == Times(PairMass(b, t, s, k), b.Back(t + 1, k))
  {
  }

  lemma BackSum(b: Block, t: nat, s: nat)
    requires b.Valid() && t < b.len && s < b.fa.nNodes
    ensures b.Back(t, s) == Sum(b.FlowsOf(t, b.fa.OutLo(s), b.fa.OutHi(s)))
  {
  }

  // ---- the state path of an accepted sequence ----

  /** The nodes the walk of `x` visits, starting with `s`. */
  function StatesOf(fa: Automaton, s: nat, x: seq<nat>): (p: seq<nat>)
    requires fa.Valid() && s < fa.nNodes && fa.Walk(s, x).Some?
    ensures |p| == |x| + 1 && p[0] == s && p[|x|] == fa.Walk(s, x).value
    ensures forall k :: 0 <= k < |p| ==> p[k] < fa.nNodes
    decreases |x|
  {
    if x == [] then [s] else [s] + StatesOf(fa, fa.Next(s, x[0]).value, x[1..])
  }

  /** The product of the edge masses along the walk of `x`. */
  function EdgeProd(b: Block, t: nat, s: nat, x: seq<nat>): real
    requires b.Valid() && t + |x| <= b.len && s < b.fa.nNodes && b.fa.Walk(s, x).Some?
    decreases |x|
  {
    if x == [] then 1.0
    else
      var e := b.fa.EdgeFor(s, x[0]).value;
      b.EdgeInRange(e);
      Times(b.EdgeMass(t, e), EdgeProd(b, t + 1, b.fa.edgeDst[e], x[1..]))
  }

  /** The token intervals along the walk of `x`. */
  ghost function TokenBoxes(b: Block, t: nat, s: nat, x: seq<nat>): seq<Interval>
    requires b.Valid() && t <= b.len && s < b.fa.nNodes && |x| == b.len - t && b.Term(t, s, x) > 0.0
    decreases |x|
  {
    if x == [] then []
    else
      TermStepOf(b, t, s, x);
      var e := b.fa.EdgeFor(s, x[0]).value;
      TokenBox(b, t, e, x[0]) + TokenBoxes(b, t + 1, b.fa.edgeDst[e], x[1..])
  }

  lemma TermWalks(b: Block, t: nat, s: nat, x: seq<nat>)
    requires b.Valid() && t <= b.len && s < b.fa.nNodes && b.Term(t, s, x) > 0.0
    ensures b.fa.Walk(s, x).Some? && b.fa.accept[b.fa.Walk(s, x).value]
  {
  }

  /** Edge masses times token shares give back the token weights. */
  lemma {:induction false} TokenVolume(b: Block, t: nat, s: nat, x: seq<nat>)
    requires b.Valid() && t <= b.len && s < b.fa.nNodes && |x| == b.len - t && b.Term(t, s, x) > 0.0
    ensures b.fa.Walk(s, x).Some?
    ensures Times(EdgeProd(b, t, s, x), Volume(TokenBoxes(b, t, s, x))) == b.Term(t, s, x)
    decreases |x|
  {
    hide EdgeProd, TokenBoxes, TokenBox, Volume, Block.Term, Block.EdgeMass, Block.Eff, Block.Back, Block.Flows, Slot;
    hide Automaton.Walk;
    TermWalks(b, t, s, x);
    if x == [] {
      TokenVolumeEnd(b, s);
    } else {
      var e := TermEdge(b, t, s, x);
      TermStepOf(b, t, s, x);
      var d := b.fa.edgeDst[e];
      TokenVolume(b, t + 1, d, x[1..]);
      EdgeProdUnfold(b, t, s, x, e);
      TokenVolumeStep(b, t, s, x, e);
      TokenBoxExact(b, t, e, x[0], _ => 0.0, 0);
      Interleave(b.EdgeMass(t, e), EdgeProd(b, t + 1, d, x[1..]), Volume(TokenBox(b, t, e, x[0])),
                 Volume(TokenBoxes(b, t + 1, d, x[1..])));
    }
  }

  lemma TokenVolumeEnd(b: Block, s: nat)
    requires b.Valid() && s < b.fa.nNodes && b.Term(b.len, s, []) > 0.0
    ensures EdgeProd(b, b.len, s, []) == 1.0 && Volume(TokenBoxes(b, b.len, s, [])) == 1.0 == b.Term(b.len, s, [])
  {
  }

  lemma TokenVolumeStep(b: Block, t: nat, s: nat, x: seq<nat>, e: nat)
    requires StepOf(b, t, s, x, e) && b.Term(t, s, x) > 0.0
    ensures Volume(TokenBoxes(b, t, s, x)) ==
            Times(Volume(TokenBox(b, t, e, x[0])), Volume(TokenBoxes(b, t + 1, b.fa.edgeDst[e], x[1..])))
  {
    hide Volume, TokenBox;
    VolumeConcat(TokenBox(b, t, e, x[0]), TokenBoxes(b, t + 1, b.fa.edgeDst[e], x[1..]));
  }

  lemma Interleave(a: real, p: real, v: real, q: real)
    ensures Times(Times(a, p), Times(v, q)) == Times(Times(p, q), Times(a, v))
  {
  }

  function Pad(p: seq<nat>, k: nat): seq<nat>
    requires p != []
  {
    p + seq(k, _ => p[|p| - 1])
  }

  lemma {:induction false} PadWeight(b: Block, c: Chain, scales: seq<real>, t: nat, s: nat, k: nat)
    requires b.Valid() && LeavesOf(b, c, scales) && b.len <= t && t + k <= |c.leaves| && s < c.n
    ensures c.PathWeight(t, Pad([s], k)) == 1.0
    decreases k
  {
    if k > 0 {
      PadWeight(b, c, scales, t + 1, s, k - 1);
      assert Pad([s], k)[1..] == Pad([s], k - 1);
      assert PaddingLeaf(c, t);
    }
  }

  /** The path weight of an accepted sequence, padding included: its edge masses times the leaf scales. */
  lemma {:induction false} PathOfWeight(b: Block, c: Chain, scales: seq<real>, t: nat, s: nat, x: seq<nat>)
    requires b.Valid() && LeavesOf(b, c, scales) && t <= b.len && s < c.n && |x| == b.len - t && b.Term(t, s, x) > 0.0
    ensures b.fa.Walk(s, x).Some?
    ensures c.PathWeight(t, Pad(StatesOf(b.fa, s, x), |c.leaves| - b.len)) ==
            Times(EdgeProd(b, t, s, x), ScaleFrom(scales, t))
    decreases |x|
  {
    hide EdgeProd, ScaleFrom, Chain.PathWeight, RealLeaf, PaddingLeaf, Pad, StatesOf;
    hide Automaton.Walk, Block.Term, Block.EdgeMass, Block.Eff, Block.Back, Block.Flows;
    TermWalks(b, t, s, x);
    var k := |c.leaves| - b.len;
    if x == [] {
      PathOfEnd(b, c, scales, s);
    } else {
      var e := TermEdge(b, t, s, x);
      TermStepOf(b, t, s, x);
      var d := b.fa.edgeDst[e];
      PathOfWeight(b, c, scales, t + 1, d, x[1..]);
      PathUnfold(b, t, s, x, e, k, scales);
      var rest := Pad(StatesOf(b.fa, d, x[1..]), k);
      PrependWeight(b, c, scales, t, s, e, x, rest);
      FourFactors(EdgeProd(b, t + 1, d, x[1..]), ScaleFrom(scales, t + 1), b.EdgeMass(t, e), scales[t]);
      TimesComm(b.EdgeMass(t, e), scales[t], EdgeProd(b, t + 1, d, x[1..]), ScaleFrom(scales, t + 1));
    }
  }

  lemma PathOfEnd(b: Block, c: Chain, scales: seq<real>, s: nat)
    requires b.Valid() && LeavesOf(b, c, scales) && s < c.n
    ensures c.PathWeight(b.len, Pad(StatesOf(b.fa, s, []), |c.leaves| - b.len)) ==
            Times(EdgeProd(b, b.len, s, []), ScaleFrom(scales, b.len))
  {
    PadWeight(b, c, scales, b.len, s, |c.leaves| - b.len);
  }

  lemma PathUnfold(b: Block, t: nat, s: nat, x: seq<nat>, e: nat, k: nat, scales: seq<real>)
    requires StepOf(b, t, s, x, e) && |scales| == b.len
    requires b.fa.Walk(s, x).Some? && b.fa.Walk(b.fa.edgeDst[e], x[1..]).Some?
    ensures EdgeProd(b, t, s, x) == Times(b.EdgeMass(t, e), EdgeProd(b, t + 1, b.fa.edgeDst[e], x[1..]))
    ensures ScaleFrom(scales, t) == Times(ScaleFrom(scales, t + 1), scales[t])
    ensures var rest := Pad(StatesOf(b.fa, b.fa.edgeDst[e], x[1..]), k);
            && Pad(StatesOf(b.fa, s, x), k) == [s] + rest
            && |rest| == |x| + k && rest[0] == b.fa.edgeDst[e]
  {
    EdgeProdUnfold(b, t, s, x, e);
    hide EdgeProd, Block.EdgeMass, StatesOf, Automaton.Walk;
    StatesUnfold(b.fa, s, x, e);
    PadPrepend(s, StatesOf(b.fa, b.fa.edgeDst[e], x[1..]), k);
  }

  lemma EdgeProdUnfold(b: Block, t: nat, s: nat, x: seq<nat>, e: nat)
    requires StepOf(b, t, s, x, e)
    requires b.fa.Walk(s, x).Some? && b.fa.Walk(b.fa.edgeDst[e], x[1..]).Some?
    ensures EdgeProd(b, t, s, x) == Times(b.EdgeMass(t, e), EdgeProd(b, t + 1, b.fa.edgeDst[e], x[1..]))
  {
    hide Block.EdgeMass, Block.Back, Block.Flows, Block.Term;
  }

  lemma PadPrepend(s: nat, q: seq<nat>, k: nat)
    requires q != []
    ensures Pad([s] + q, k) == [s] + Pad(q, k)
  {
  }

  lemma TimesComm(m: real, z: real, x: real, y: real)
    ensures Times(Times(m, z), Times(x, y)) == Times(Times(x, y), Times(m, z))
  {
  }

  lemma PrependWeight(b: Block, c: Chain, scales: seq<real>, t: nat, s: nat, e: nat, x: seq<nat>, rest: seq<nat>)
    requires b.Valid() && LeavesOf(b, c, scales) && StepOf(b, t, s, x, e) && b.fa.Accepts(s, x)
    requires rest != [] && rest[0] == b.fa.edgeDst[e] && t + |rest| <= |c.leaves|
    ensures c.PathWeight(t, [s] + rest) ==
            Times(Times(b.EdgeMass(t, e), scales[t]), c.PathWeight(t + 1, rest))
  {
    assert ([s] + rest)[1..] == rest;
    assert RealLeaf(b, c, t, scales[t]);
    PairEdgeUnique(b.fa, s, e);
    if t + 1 == b.len {
      assert x[1..] == [];
    }
    assert Raw(b, t, s, b.fa.edgeDst[e]) == b.EdgeMass(t, e);
  }

  // ---- tokens along a path ----

  /** Every position of the block crosses an edge with mass. */
  ghost predicate Crosses(b: Block, t: nat, p: seq<nat>)
    requires b.Valid()
  {
    && t <= b.len && |p| == b.len - t + 1
    && (forall k :: 0 <= k < |p| ==> p[k] < b.fa.nNodes)
    && (forall k :: 0 <= k < |p| - 1 ==> PairMass(b, t + k, p[k], p[k + 1]) > 0.0)
  }

  lemma CrossesTail(b: Block, t: nat, p: seq<nat>)
    requires b.Valid() && Crosses(b, t, p) && t < b.len
    ensures Crosses(b, t + 1, p[1..])
    ensures PairEdge(b.fa, p[0], p[1]).Some? && b.EdgeMass(t, PairEdge(b.fa, p[0], p[1]).value) > 0.0
  {
    assert PairMass(b, t + 0, p[0], p[0 + 1]) > 0.0;
    forall k | 0 <= k < |p| - 2 ensures PairMass(b, t + 1 + k, p[1..][k], p[1..][k + 1]) > 0.0 {
      assert PairMass(b, t + (k + 1), p[k + 1], p[k + 1 + 1]) > 0.0;
    }
  }

  function TokensAlong(b: Block, t: nat, p: seq<nat>, greedy: bool, u: nat -> real, pos: nat): (r: (seq<nat>, nat))
    requires b.Valid() && Crosses(b, t, p)
    ensures |r.0| == b.len - t
    decreases b.len - t
  {
    if t == b.len then ([], pos)
    else
      CrossesTail(b, t, p);
      var e := PairEdge(b.fa, p[0], p[1]).value;
      var rest := TokensAlong(b, t + 1, p[1..], greedy, u, pos + TokenDraws(b, t, greedy));
      ([TokenOn(b, t, e, greedy, u(pos))] + rest.0, rest.1)
  }

  lemma TokensUnfold(b: Block, t: nat, p: seq<nat>, e: nat, greedy: bool, u: nat -> real, pos: nat)
    requires b.Valid() && t < b.len && Crosses(b, t, p) && Crosses(b, t + 1, p[1..])
    requires PairEdge(b.fa, p[0], p[1]) == Some(e)
    ensures var rest := TokensAlong(b, t + 1, p[1..], greedy, u, pos + TokenDraws(b, t, greedy));
            TokensAlong(b, t, p, greedy, u, pos) == ([TokenOn(b, t, e, greedy, u(pos))] + rest.0, rest.1)
  {
  }

  lemma StatesUnfold(fa: Automaton, s: nat, x: seq<nat>, e: nat)
    requires fa.Valid() && s < fa.nNodes && x != [] && fa.EdgeFor(s, x[0]) == Some(e)
    requires fa.edgeDst[e] < fa.nNodes && fa.Walk(fa.edgeDst[e], x[1..]).Some?
    ensures fa.Walk(s, x) == fa.Walk(fa.edgeDst[e], x[1..])
    ensures StatesOf(fa, s, x) == [s] + StatesOf(fa, fa.edgeDst[e], x[1..])
  {
  }

  /** The tokens drawn along a path walk that path, honour the pins and carry weight. */
  lemma {:induction false} TokensWalk(b: Block, t: nat, p: seq<nat>, greedy: bool, u: nat -> real, pos: nat)
    requires b.Valid() && Crosses(b, t, p) && Uniform(u)
    ensures var x := TokensAlong(b, t, p, greedy, u, pos).0;
            && b.fa.Walk(p[0], x) == Some(p[|p| - 1]) && StatesOf(b.fa, p[0], x) == p && b.Weight(t, x) > 0.0
            && forall i :: 0 <= i < |x| && b.forced[t + i] != FREE ==> x[i] == b.forced[t + i]
    decreases b.len - t
  {
    hide TokenOn, TokenDraws, TokensAlong, StatesOf, Block.EdgeMass, Block.Eff, PairMass, Block.Weight, Automaton.Walk;
    if t == b.len {
      TokensEnd(b, p, greedy, u, pos);
    } else {
      CrossesTail(b, t, p);
      var e := PairEdge(b.fa, p[0], p[1]).value;
      var v := TokenOn(b, t, e, greedy, u(pos));
      var next := pos + TokenDraws(b, t, greedy);
      TokensWalk(b, t + 1, p[1..], greedy, u, next);
      TokenOnEdge(b, t, e, greedy, u(pos));
      b.fa.EdgeForUnique(p[0], v, e);
      var rest := TokensAlong(b, t + 1, p[1..], greedy, u, next).0;
      AcceptStep(b, t, p[0], e, v, rest, p[|p| - 1]);
      TokensUnfold(b, t, p, e, greedy, u, pos);
      assert ([v] + rest)[1..] == rest;
      StatesUnfold(b.fa, p[0], [v] + rest, e);
      assert p == [p[0]] + p[1..];
    }
  }

  lemma TokensEnd(b: Block, p: seq<nat>, greedy: bool, u: nat -> real, pos: nat)
    requires b.Valid() && Crosses(b, b.len, p)
    ensures TokensAlong(b, b.len, p, greedy, u, pos).0 == []
    ensures b.fa.Walk(p[0], []) == Some(p[0]) && StatesOf(b.fa, p[0], []) == p && b.Weight(b.len, []) > 0.0
  {
    assert p == [p[0]];
  }

  lemma {:induction false} StatesCross(b: Block, t: nat, s: nat, x: seq<nat>)
    requires b.Valid() && t <= b.len && s < b.fa.nNodes && |x| == b.len - t && b.Term(t, s, x) > 0.0
    ensures b.fa.Walk(s, x).Some? && Crosses(b, t, StatesOf(b.fa, s, x))
    decreases |x|
  {
    hide Block.Term, Block.EdgeMass, Block.Eff, Block.Back, Block.Flows, Automaton.Walk, StatesOf;
    TermWalks(b, t, s, x);
    if x != [] {
      var e := TermEdge(b, t, s, x);
      TermStepOf(b, t, s, x);
      var d := b.fa.edgeDst[e];
      StatesCross(b, t + 1, d, x[1..]);
      StatesUnfold(b.fa, s, x, e);
      PairEdgeUnique(b.fa, s, e);
      CrossesPrepend(b, t, s, d, StatesOf(b.fa, d, x[1..]), e);
    }
  }

  lemma CrossesPrepend(b: Block, t: nat, s: nat, d: nat, q: seq<nat>, e: nat)
    requires b.Valid() && t < b.len && Crosses(b, t + 1, q) && s < b.fa.nNodes && d == q[0]
    requires PairEdge(b.fa, s, d) == Some(e) && b.EdgeMass(t, e) > 0.0
    ensures Crosses(b, t, [s] + q)
  {
    hide PairEdge, Block.EdgeMass;
    var p := [s] + q;
    forall k | 0 <= k < |p| - 1 ensures PairMass(b, t + k, p[k], p[k + 1]) > 0.0 {
      if k > 0 {
        assert PairMass(b, t + 1 + (k - 1), q[k - 1], q[k - 1 + 1]) > 0.0;
      }
    }
  }

  /** Along the walk of `x` the tokens drawn are `x` exactly on `x`'s token intervals. */
  lemma {:induction false} TokensExact(b: Block, t: nat, s: nat, x: seq<nat>, p: seq<nat>, u: nat -> real, pos: nat)
    requires b.Valid() && t <= b.len && s < b.fa.nNodes && |x| == b.len - t && b.Term(t, s, x) > 0.0 && Uniform(u)
    requires b.fa.Walk(s, x).Some? && p == StatesOf(b.fa, s, x) && Crosses(b, t, p)
    ensures TokensAlong(b, t, p, false, u, pos).0 == x <==> InBox(u, pos, TokenBoxes(b, t, s, x))
    decreases |x|
  {
    hide TokenOn, TokenDraws, TokenBox, TokenBoxes, TokensAlong, InBox, StatesOf;
    hide Block.EdgeMass, Block.Eff, PairMass, Block.Term, Block.Back, Block.Flows, Automaton.Walk;
    if x == [] {
      TokensEnd(b, p, false, u, pos);
      NoTokenBoxes(b, s, u, pos);
    } else {
      var e := TermEdge(b, t, s, x);
      TermStepOf(b, t, s, x);
      PairEdgeUnique(b.fa, s, e);
      var d := b.fa.edgeDst[e];
      TermWalks(b, t + 1, d, x[1..]);
      StatesUnfold(b.fa, s, x, e);
      var q := StatesOf(b.fa, d, x[1..]);
      assert p[1..] == q;
      CrossesTail(b, t, p);
      var next := pos + TokenDraws(b, t, false);
      TokensExact(b, t + 1, d, x[1..], q, u, next);
      TokenBoxExact(b, t, e, x[0], u, pos);
      TokenBoxesSplit(b, t, s, x, e, u, pos);
      TokensUnfold(b, t, p, e, false, u, pos);
      HeadTail(TokenOn(b, t, e, false, u(pos)), TokensAlong(b, t + 1, q, false, u, next).0, x);
    }
  }

  lemma HeadTail(v: nat, rest: seq<nat>, x: seq<nat>)
    requires x != []
    ensures [v] + rest == x <==> v == x[0] && rest == x[1..]
  {
    assert ([v] + rest)[0] == v && ([v] + rest)[1..] == rest;
    assert x == [x[0]] + x[1..];
  }

  lemma NoTokenBoxes(b: Block, s: nat, u: nat -> real, pos: nat)
    requires b.Valid() && s < b.fa.nNodes && b.Term(b.len, s, []) > 0.0
    ensures InBox(u, pos, TokenBoxes(b, b.len, s, []))
  {
  }

  lemma TokenBoxesSplit(b: Block, t: nat, s: nat, x: seq<nat>, e: nat, u: nat -> real, pos: nat)
    requires StepOf(b, t, s, x, e) && b.Term(t, s, x) > 0.0
    ensures InBox(u, pos, TokenBoxes(b, t, s, x)) <==>
            && InBox(u, pos, TokenBox(b, t, e, x[0]))
            && InBox(u, pos + |TokenBox(b, t, e, x[0])|, TokenBoxes(b, t + 1, b.fa.edgeDst[e], x[1..]))
  {
    hide TokenBox, InBox, Block.Back, Block.Flow, Block.Flows, Block.EdgeMass, Automaton.Valid, Automaton.Walk;
    InBoxSplit(u, pos, TokenBox(b, t, e, x[0]), TokenBoxes(b, t + 1, b.fa.edgeDst[e], x[1..]));
  }

  // ---- the whole draw ----

  /** A satisfiable block with its leaf chain of `Pow2(h)` positions. */
  ghost predicate Ready(b: Block, c: Chain, scales: seq<real>, h: nat, start: nat) {
    && b.Valid() && b.len > 0 && LeavesOf(b, c, scales) && |c.leaves| == Pow2(h)
    && start < b.fa.nNodes && b.Back(0, start) > 0.0
  }

  /** The root row over the start node. */
  function Row(c: Chain, start: nat): (ws: seq<real>)
    requires c.Valid()
    ensures |ws| == c.n && NonNegative(ws) && forall f :: 0 <= f < c.n ==> ws[f] == c.Seg(0, |c.leaves|, start, f)
  {
    seq(c.n, f requires 0 <= f < c.n => c.Seg(0, |c.leaves|, start, f))
  }

  lemma RootRow(b: Block, c: Chain, scales: seq<real>, h: nat, start: nat)
    requires Ready(b, c, scales, h, start)
    ensures Sum(Row(c, start)) == Times(b.Back(0, start), ScaleFrom(scales, 0)) > 0.0
    ensures ScaleFrom(scales, 0) > 0.0
  {
    hide Block.Back;
    RowTotal(b, c, scales, 0, start);
    SumAsRange(Row(c, start), (f: nat) => c.Seg(0, |c.leaves|, start, f));
    ScaleFromPositive(scales, 0);
    TimesPositive(b.Back(0, start), ScaleFrom(scales, 0));
  }

  /** The final state drawn from the root row. */
  function FinalState(b: Block, c: Chain, scales: seq<real>, h: nat, start: nat, r: real): (f: nat)
    requires Ready(b, c, scales, h, start) && 0.0 <= r < 1.0
    ensures f < c.n && c.Seg(0, Pow2(h), start, f) > 0.0
  {
    RootRow(b, c, scales, h, start);
    DrawPositive(Row(c, start), r);
    Draw(Row(c, start), r)
  }

  /** All boundary states of the padded block. */
  function StatesDrawn(b: Block, c: Chain, scales: seq<real>, h: nat, start: nat, u: nat -> real, pos: nat): (p: seq<nat>)
    requires Ready(b, c, scales, h, start) && Uniform(u)
    ensures |p| == Pow2(h) + 1
  {
    var f := FinalState(b, c, scales, h, start, u(pos));
    [start] + c.Midpoints(h, 0, start, f, u, pos + 1) + [f]
  }

  /** The states drawn cross live edges within the block and stay put in the padding, so they end accepting. */
  lemma StatesDrawnCross(b: Block, c: Chain, scales: seq<real>, h: nat, start: nat, u: nat -> real, pos: nat)
    requires Ready(b, c, scales, h, start) && Uniform(u)
    ensures var p := StatesDrawn(b, c, scales, h, start, u, pos);
            && Crosses(b, 0, p[..b.len + 1])
            && c.Path(0, p) && c.PathWeight(0, p) > 0.0
            && b.fa.accept[p[b.len]]
            && p == Pad(p[..b.len + 1], |c.leaves| - b.len)
  {
    hide Chain.Midpoints, Chain.PathWeight, Chain.Seg, Block.Back;
    var f := FinalState(b, c, scales, h, start, u(pos));
    c.MidpointsLive(h, 0, start, f, u, pos + 1);
    LivePath(b, c, scales, StatesDrawn(b, c, scales, h, start, u, pos));
  }

  lemma LivePath(b: Block, c: Chain, scales: seq<real>, p: seq<nat>)
    requires b.Valid() && b.len > 0 && LeavesOf(b, c, scales) && |p| == |c.leaves| + 1
    requires c.Path(0, p) && c.PathWeight(0, p) > 0.0
    ensures Crosses(b, 0, p[..b.len + 1]) && b.fa.accept[p[b.len]]
    ensures p == Pad(p[..b.len + 1], |c.leaves| - b.len)
  {
    hide Chain.PathWeight, Chain.Leaf, PairMass;
    forall k | 0 <= k < b.len ensures Raw(b, k, p[k], p[k + 1]) > 0.0 {
      c.LeavesAlong(0, p, k);
      assert RealLeaf(b, c, k, scales[k]);
      TimesPositive(Raw(b, k, p[k], p[k + 1]), scales[k]);
    }
    forall k | 0 <= k < b.len ensures PairMass(b, 0 + k, p[k], p[k + 1]) > 0.0 {
      assert Raw(b, k, p[k], p[k + 1]) > 0.0;
    }
    assert Raw(b, b.len - 1, p[b.len - 1], p[b.len - 1 + 1]) > 0.0;
    StaysPut(b, c, scales, p, |p| - 1);
    var q := Pad(p[..b.len + 1], |c.leaves| - b.len);
    forall k | 0 <= k < |p| ensures p[k] == q[k] {
      if k > b.len { StaysPut(b, c, scales, p, k); }
    }
  }

  lemma {:induction false} StaysPut(b: Block, c: Chain, scales: seq<real>, p: seq<nat>, k: nat)
    requires b.Valid() && LeavesOf(b, c, scales) && |p| == |c.leaves| + 1
    requires c.Path(0, p) && c.PathWeight(0, p) > 0.0 && b.len <= k < |p|
    ensures p[k] == p[b.len]
  {
    if k > b.len {
      hide Chain.PathWeight, Chain.Leaf, RealLeaf;
      StaysPut(b, c, scales, p, k - 1);
      c.LeavesAlong(0, p, k - 1);
      assert PaddingLeaf(c, k - 1);
    }
  }

  /** The whole draw: root, midpoints in preorder, then one token per crossed edge. */
  function TreeSample(b: Block, c: Chain, scales: seq<real>, h: nat, start: nat, greedy: bool, u: nat -> real, pos: nat): Drawn
    requires Ready(b, c, scales, h, start) && Uniform(u)
  {
    var p := StatesDrawn(b, c, scales, h, start, u, pos);
    StatesDrawnCross(b, c, scales, h, start, u, pos);
    var tokens := TokensAlong(b, 0, p[..b.len + 1], greedy, u, pos + Pow2(h));
    Drawn(tokens.0, p[|p| - 1], tokens.1)
  }

  lemma TreeSampleUnfold(b: Block, c: Chain, scales: seq<real>, h: nat, start: nat, greedy: bool, u: nat -> real, pos: nat)
    returns (p: seq<nat>, q: seq<nat>)
    requires Ready(b, c, scales, h, start) && Uniform(u)
    ensures p == StatesDrawn(b, c, scales, h, start, u, pos) && p[0] == start && b.len < |p| && q == p[..b.len + 1]
    ensures Crosses(b, 0, q) && |q| == b.len + 1 && q[0] == start && q[b.len] == p[|p| - 1]
    ensures b.fa.accept[p[|p| - 1]]
    ensures TreeSample(b, c, scales, h, start, greedy, u, pos) ==
            var tokens := TokensAlong(b, 0, q, greedy, u, pos + Pow2(h)); Drawn(tokens.0, p[|p| - 1], tokens.1)
  {
    hide StatesDrawn, Chain.PathWeight, Block.Back, TokensAlong, Crosses, RealLeaf, PaddingLeaf;
    p := StatesDrawn(b, c, scales, h, start, u, pos);
    q := p[..b.len + 1];
    StatesDrawnCross(b, c, scales, h, start, u, pos);
    StartFirst(b, c, scales, h, start, u, pos);
    PadLast(q, |c.leaves| - b.len);
  }

  lemma PadLast(q: seq<nat>, k: nat)
    requires q != []
    ensures Pad(q, k)[|Pad(q, k)| - 1] == q[|q| - 1]
  {
  }

  /** The tree sampler also accepts by construction. */
  lemma TreeAccepted(b: Block, c: Chain, scales: seq<real>, h: nat, start: nat, greedy: bool, u: nat -> real, pos: nat)
    requires Ready(b, c, scales, h, start) && Uniform(u)
    ensures var d := TreeSample(b, c, scales, h, start, greedy, u, pos);
            && |d.tokens| == b.len
            && b.fa.Walk(start, d.tokens) == Some(d.final) && b.fa.accept[d.final]
            && b.Weight(0, d.tokens) > 0.0
            && forall i :: 0 <= i < |d.tokens| && b.forced[i] != FREE ==> d.tokens[i] == b.forced[i]
  {
    hide StatesDrawn, TreeSample, Block.Back, Block.Weight, TokensAlong, Crosses, RealLeaf, PaddingLeaf, Automaton.Walk;
    var p, q := TreeSampleUnfold(b, c, scales, h, start, greedy, u, pos);
    TokensWalk(b, 0, q, greedy, u, pos + Pow2(h));
    var x := TokensAlong(b, 0, q, greedy, u, pos + Pow2(h)).0;
    forall i | 0 <= i < |x| && b.forced[i] != FREE ensures x[i] == b.forced[i] {
      assert b.forced[0 + i] != FREE;
    }
  }

  lemma {:induction false} GreedyAlong(b: Block, t: nat, p: seq<nat>, u: nat -> real, pos: nat)
    requires b.Valid() && Crosses(b, t, p) && Uniform(u)
    ensures var x := TokensAlong(b, t, p, true, u, pos).0;
            Greedy(b, t, p[0], x)
    decreases b.len - t
  {
    hide TokenOn, TokenDraws, TokensAlong, Heaviest, Greedy, Block.EdgeMass, Block.Eff, PairMass, Automaton.Walk;
    if t == b.len {
      TokensEnd(b, p, true, u, pos);
      NothingGreedy(b, t, p[0]);
    } else {
      CrossesTail(b, t, p);
      var e := PairEdge(b.fa, p[0], p[1]).value;
      var v := TokenOn(b, t, e, true, u(pos));
      var next := pos + TokenDraws(b, t, true);
      TokenOnEdge(b, t, e, true, u(pos));
      b.fa.EdgeForUnique(p[0], v, e);
      GreedyAlong(b, t + 1, p[1..], u, next);
      if b.forced[t] == FREE { GreedyToken(b, t, e, u(pos)); }
      GreedyStep(b, t, p[0], e, v, TokensAlong(b, t + 1, p[1..], true, u, next).0);
      TokensUnfold(b, t, p, e, true, u, pos);
    }
  }

  lemma {:induction false} DrawsAlong(b: Block, t: nat, p: seq<nat>, greedy: bool, u: nat -> real, pos: nat)
    requires b.Valid() && Crosses(b, t, p)
    ensures TokensAlong(b, t, p, greedy, u, pos).1 == pos + if greedy then 0 else FreeFrom(b, t)
    decreases b.len - t
  {
    hide TokenOn, Block.EdgeMass, Block.Eff, PairMass;
    if t < b.len {
      CrossesTail(b, t, p);
      DrawsAlong(b, t + 1, p[1..], greedy, u, pos + TokenDraws(b, t, greedy));
    }
  }

  /** In the greedy mode every free position of a tree run carries the earliest heaviest token of the edge it crosses. A run
      uses one uniform for the root and every midpoint, and in the multinomial mode one more for every free position. */
  lemma TreeGreedyTokens(b: Block, c: Chain, scales: seq<real>, h: nat, start: nat, greedy: bool, u: nat -> real, pos: nat)
    requires Ready(b, c, scales, h, start) && Uniform(u)
    ensures var d := TreeSample(b, c, scales, h, start, greedy, u, pos);
            && |d.tokens| == b.len && d.pos == pos + Pow2(h) + (if greedy then 0 else FreeFrom(b, 0))
            && (greedy ==> Greedy(b, 0, start, d.tokens))
  {
    hide StatesDrawn, TreeSample, Block.Back, Block.Weight, TokensAlong, Crosses, RealLeaf, PaddingLeaf, Automaton.Walk, Greedy;
    var p, q := TreeSampleUnfold(b, c, scales, h, start, greedy, u, pos);
    DrawsAlong(b, 0, q, greedy, u, pos + Pow2(h));
    if greedy {
      GreedyAlong(b, 0, q, u, pos + Pow2(h));
    }
  }

  lemma TreeLawful(b: Block, c: Chain, scales: seq<real>, h: nat, start: nat, greedy: bool, u: nat -> real, pos: nat)
    requires Ready(b, c, scales, h, start) && Uniform(u)
    ensures var d := TreeSample(b, c, scales, h, start, greedy, u, pos);
            Lawful(b, start, d.tokens, d.final, greedy) && d.pos == pos + Pow2(h) + (if greedy then 0 else FreeFrom(b, 0))
  {
    hide TreeSample, Block.Weight, Automaton.Walk, Greedy, RealLeaf, PaddingLeaf, FreeFrom;
    TreeAccepted(b, c, scales, h, start, greedy, u, pos);
    TreeGreedyTokens(b, c, scales, h, start, greedy, u, pos);
  }

  lemma StartFirst(b: Block, c: Chain, scales: seq<real>, h: nat, start: nat, u: nat -> real, pos: nat)
    requires Ready(b, c, scales, h, start) && Uniform(u)
    ensures StatesDrawn(b, c, scales, h, start, u, pos)[0] == start
  {
  }

  // ---- the box of one sequence ----

  ghost predicate ReadyFor(b: Block, c: Chain, scales: seq<real>, h: nat, start: nat, x: seq<nat>) {
    Ready(b, c, scales, h, start) && |x| == b.len && b.Term(0, start, x) > 0.0 && b.fa.Walk(start, x).Some?
  }

  /** The full padded state path of `x`. */
  function PathOf(b: Block, c: Chain, scales: seq<real>, h: nat, start: nat, x: seq<nat>): (p: seq<nat>)
    requires ReadyFor(b, c, scales, h, start, x)
    ensures |p| == Pow2(h) + 1 && p[0] == start
  {
    Pad(StatesOf(b.fa, start, x), |c.leaves| - b.len)
  }

  lemma PathOfPath(b: Block, c: Chain, scales: seq<real>, h: nat, start: nat, x: seq<nat>)
    requires ReadyFor(b, c, scales, h, start, x)
    ensures var p := PathOf(b, c, scales, h, start, x);
            && c.Path(0, p) && p[..b.len + 1] == StatesOf(b.fa, start, x)
            && p[Pow2(h)] == b.fa.Walk(start, x).value
  {
    hide Block.Back, Block.Term, RealLeaf, PaddingLeaf, Automaton.Walk;
    PadLast(StatesOf(b.fa, start, x), |c.leaves| - b.len);
  }

  lemma PathOfLive(b: Block, c: Chain, scales: seq<real>, h: nat, start: nat, x: seq<nat>)
    requires ReadyFor(b, c, scales, h, start, x)
    ensures var p := PathOf(b, c, scales, h, start, x);
            && c.Path(0, p)
            && c.PathWeight(0, p) == Times(EdgeProd(b, 0, start, x), ScaleFrom(scales, 0)) > 0.0
            && c.Seg(0, Pow2(h), start, p[Pow2(h)]) > 0.0
  {
    hide Chain.PathWeight, Chain.Seg, Block.Back, Block.Term, ScaleFrom, EdgeProd, Pad, StatesOf, RealLeaf, PaddingLeaf, Automaton.Walk;
    var p := PathOf(b, c, scales, h, start, x);
    PathOfPath(b, c, scales, h, start, x);
    PathOfWeight(b, c, scales, 0, start, x);
    RootRow(b, c, scales, h, start);
    EdgeProdPositive(b, 0, start, x);
    TimesPositive(EdgeProd(b, 0, start, x), ScaleFrom(scales, 0));
    c.PathLive(0, p);
  }

  lemma {:induction false} EdgeProdPositive(b: Block, t: nat, s: nat, x: seq<nat>)
    requires b.Valid() && t <= b.len && s < b.fa.nNodes && |x| == b.len - t && b.Term(t, s, x) > 0.0
    ensures b.fa.Walk(s, x).Some? && EdgeProd(b, t, s, x) > 0.0
    decreases |x|
  {
    TermWalks(b, t, s, x);
    if x != [] {
      var e := TermEdge(b, t, s, x);
      TermStepOf(b, t, s, x);
      var d := b.fa.edgeDst[e];
      hide EdgeProd, Block.Term, Block.EdgeMass, Block.Back, Block.Flows;
      EdgeProdPositive(b, t + 1, d, x[1..]);
      EdgeProdUnfold(b, t, s, x, e);
      TimesPositive(b.EdgeMass(t, e), EdgeProd(b, t + 1, d, x[1..]));
    }
  }

  /** The draws on which the tree sampler outputs `x`: the root slot, the midpoint slots, the token slots. */
  ghost function TreeBox(b: Block, c: Chain, scales: seq<real>, h: nat, start: nat, x: seq<nat>): seq<Interval>
    requires ReadyFor(b, c, scales, h, start, x)
  {
    var p := PathOf(b, c, scales, h, start, x);
    PathOfLive(b, c, scales, h, start, x);
    RootRow(b, c, scales, h, start);
    [Slot(Row(c, start), p[Pow2(h)])] + (c.MidBox(h, 0, p) + TokenBoxes(b, 0, start, x))
  }

  // ---- exactness ----

  /** The states drawn are those of `x` exactly when the root draw and the midpoint draws fall into `x`'s slots. */
  lemma StatesExact(b: Block, c: Chain, scales: seq<real>, h: nat, start: nat, x: seq<nat>, u: nat -> real, pos: nat)
    requires ReadyFor(b, c, scales, h, start, x) && Uniform(u)
    requires var p := PathOf(b, c, scales, h, start, x);
             c.Path(0, p) && c.PathWeight(0, p) > 0.0 && Sum(Row(c, start)) > 0.0
    ensures var p := PathOf(b, c, scales, h, start, x);
            StatesDrawn(b, c, scales, h, start, u, pos) == p <==>
            Slot(Row(c, start), p[Pow2(h)]).Holds(u(pos)) && InBox(u, pos + 1, c.MidBox(h, 0, p))
  {
    hide Chain.PathWeight, Chain.Seg, Chain.Midpoints, Chain.MidBox, Block.Back, Block.Term, PathOf, Slot, Draw, Row, InBox;
    hide RealLeaf, PaddingLeaf;
    var p := PathOf(b, c, scales, h, start, x);
    var f := FinalState(b, c, scales, h, start, u(pos));
    DrawExact(Row(c, start), u(pos), p[Pow2(h)]);
    FinalIs(b, c, scales, h, start, u(pos));
    c.MidpointsExact(h, 0, p, u, pos + 1);
    var mids := c.Midpoints(h, 0, start, f, u, pos + 1);
    EndsAndMiddle(start, mids, f, p);
  }

  lemma FinalIs(b: Block, c: Chain, scales: seq<real>, h: nat, start: nat, r: real)
    requires Ready(b, c, scales, h, start) && 0.0 <= r < 1.0
    ensures FinalState(b, c, scales, h, start, r) == Draw(Row(c, start), r)
  {
  }

  lemma EndsAndMiddle(i: nat, mids: seq<nat>, f: nat, p: seq<nat>)
    requires |p| == |mids| + 2 && p[0] == i
    ensures [i] + mids + [f] == p <==> f == p[|p| - 1] && mids == p[1..|p| - 1]
  {
    var q := [i] + mids + [f];
    if q == p {
      assert q[|p| - 1] == f && q[1..|p| - 1] == mids;
    }
    if f == p[|p| - 1] && mids == p[1..|p| - 1] {
      assert p == [p[0]] + p[1..|p| - 1] + [p[|p| - 1]];
    }
  }

  /** The tree sampler outputs `x` exactly on `x`'s box. */
  lemma TreeBoxExact(b: Block, c: Chain, scales: seq<real>, h: nat, start: nat, x: seq<nat>, u: nat -> real, pos: nat)
    requires ReadyFor(b, c, scales, h, start, x) && Uniform(u)
    ensures TreeSample(b, c, scales, h, start, false, u, pos).tokens == x <==>
            InBox(u, pos, TreeBox(b, c, scales, h, start, x))
  {
    hide StatesDrawn, TreeSample, TreeBox, PathOf, Block.Back, Block.Term, Block.Weight, TokensAlong, TokenBoxes, Crosses;
    hide RealLeaf, PaddingLeaf, Automaton.Walk, StatesOf, InBox, Slot, Row, Chain.PathWeight, Chain.Seg, Chain.MidBox;
    var p := PathOf(b, c, scales, h, start, x);
    var states := StatesOf(b.fa, start, x);
    PathOfPath(b, c, scales, h, start, x);
    PathOfLive(b, c, scales, h, start, x);
    RootRow(b, c, scales, h, start);
    StatesExact(b, c, scales, h, start, x, u, pos);
    TreeBoxSplit(b, c, scales, h, start, x, u, pos);
    var drawn, q := TreeSampleUnfold(b, c, scales, h, start, false, u, pos);
    StatesCross(b, 0, start, x);
    TokensExact(b, 0, start, x, states, u, pos + Pow2(h));
    TokensWalk(b, 0, q, false, u, pos + Pow2(h));
    SamePath(b, c, scales, h, start, x, u, pos);
  }

  /** The padded path is determined by its part inside the block. */
  lemma SamePath(b: Block, c: Chain, scales: seq<real>, h: nat, start: nat, x: seq<nat>, u: nat -> real, pos: nat)
    requires ReadyFor(b, c, scales, h, start, x) && Uniform(u)
    ensures var drawn := StatesDrawn(b, c, scales, h, start, u, pos);
            b.len < |drawn| &&
            (drawn[..b.len + 1] == StatesOf(b.fa, start, x) <==> drawn == PathOf(b, c, scales, h, start, x))
  {
    hide StatesDrawn, Block.Back, Block.Term, Crosses, RealLeaf, PaddingLeaf, Automaton.Walk, StatesOf, Chain.PathWeight, Chain.Seg;
    StatesDrawnCross(b, c, scales, h, start, u, pos);
    PathOfPath(b, c, scales, h, start, x);
  }

  lemma TreeBoxSplit(b: Block, c: Chain, scales: seq<real>, h: nat, start: nat, x: seq<nat>, u: nat -> real, pos: nat)
    requires ReadyFor(b, c, scales, h, start, x)
    requires var p := PathOf(b, c, scales, h, start, x);
             c.Path(0, p) && c.PathWeight(0, p) > 0.0 && Sum(Row(c, start)) > 0.0
    ensures var p := PathOf(b, c, scales, h, start, x);
            InBox(u, pos, TreeBox(b, c, scales, h, start, x)) <==>
            && Slot(Row(c, start), p[Pow2(h)]).Holds(u(pos))
            && InBox(u, pos + 1, c.MidBox(h, 0, p))
            && InBox(u, pos + Pow2(h), TokenBoxes(b, 0, start, x))
    ensures var p := PathOf(b, c, scales, h, start, x);
            Volume(TreeBox(b, c, scales, h, start, x)) ==
            Times(Slot(Row(c, start), p[Pow2(h)]).Width(), Times(Volume(c.MidBox(h, 0, p)), Volume(TokenBoxes(b, 0, start, x))))
  {
    hide Chain.PathWeight, Chain.Seg, Block.Back, Block.Term, PathOf, Slot, Row, InBox, Volume, TokenBoxes, RealLeaf, PaddingLeaf;
    hide Chain.MidBox, Automaton.Walk, Sum, Automaton.Valid;
    var p := PathOf(b, c, scales, h, start, x);
    InBoxThree(u, pos, Slot(Row(c, start), p[Pow2(h)]), c.MidBox(h, 0, p), TokenBoxes(b, 0, start, x));
  }

  /** All factors cancel: root share, midpoint conditionals and token shares multiply to the posterior. */
  lemma TreeVolume(b: Block, c: Chain, scales: seq<real>, h: nat, start: nat, x: seq<nat>)
    requires ReadyFor(b, c, scales, h, start, x)
    ensures Volume(TreeBox(b, c, scales, h, start, x)) == b.Term(0, start, x) / b.Back(0, start)
  {
    hide Block.Back, Block.Term, RealLeaf, PaddingLeaf, PathOf, TreeBox, TokenBoxes, EdgeProd, ScaleFrom, Volume, Slot, Row;
    hide Chain.PathWeight, Chain.Seg, Chain.MidBox, Automaton.Walk;
    var p := PathOf(b, c, scales, h, start, x);
    PathOfLive(b, c, scales, h, start, x);
    RootRow(b, c, scales, h, start);
    TreeBoxSplit(b, c, scales, h, start, x, _ => 0.0, 0);
    c.MidVolume(h, 0, p);
    RootSlot(b, c, scales, h, start, p[Pow2(h)]);
    TokenVolume(b, 0, start, x);
    CancelAll(c.Seg(0, Pow2(h), start, p[Pow2(h)]), b.Back(0, start), ScaleFrom(scales, 0), EdgeProd(b, 0, start, x),
              Volume(TokenBoxes(b, 0, start, x)));
  }

  lemma RootSlot(b: Block, c: Chain, scales: seq<real>, h: nat, start: nat, f: nat)
    requires Ready(b, c, scales, h, start) && f < c.n && Sum(Row(c, start)) > 0.0
    ensures Slot(Row(c, start), f).Width() == c.Seg(0, Pow2(h), start, f) / Sum(Row(c, start))
  {
    SlotWidth(Row(c, start), f);
  }

  /** (g / (b * z)) * ((e * z / g) * v) == (e * v) / b. */
  lemma CancelAll(g: real, b: real, z: real, e: real, v: real)
    requires g > 0.0 && b > 0.0 && z > 0.0 && Times(b, z) > 0.0
    ensures Times(g / Times(b, z), Times(Times(e, z) / g, v)) == Times(e, v) / b
  {
    var x, y := g / Times(b, z), Times(e, z) / g;
    assert x * (b * z) == g;
    assert y * g == e * z;
    assert ((x * (y * v)) * b) * z == (x * (b * z)) * (y * v) == (y * g) * v == (e * v) * z;
    CancelRight((x * (y * v)) * b, e * v, z);
  }

  lemma CancelRight(x: real, y: real, z: real)
    requires z > 0.0 && x * z == y * z
    ensures x == y
  {
    assert (x - y) * z == 0.0;
  }

  /** The box of `x` lies in the unit cube. */
  lemma TreeBoxInUnit(b: Block, c: Chain, scales: seq<real>, h: nat, start: nat, x: seq<nat>)
    requires ReadyFor(b, c, scales, h, start, x)
    ensures InUnit(TreeBox(b, c, scales, h, start, x))
  {
    hide Block.Back, Block.Term, RealLeaf, PaddingLeaf, PathOf, TokenBoxes, Slot, Row, Chain.MidBox, Chain.PathWeight, Chain.Seg, Automaton.Walk;
    var p := PathOf(b, c, scales, h, start, x);
    PathOfLive(b, c, scales, h, start, x);
    RootRow(b, c, scales, h, start);
    SlotInUnit(Row(c, start), p[Pow2(h)]);
    c.MidBoxInUnit(h, 0, p);
    TokenBoxesInUnit(b, 0, start, x);
  }

  lemma {:induction false} TokenBoxesInUnit(b: Block, t: nat, s: nat, x: seq<nat>)
    requires b.Valid() && t <= b.len && s < b.fa.nNodes && |x| == b.len - t && b.Term(t, s, x) > 0.0
    ensures InUnit(TokenBoxes(b, t, s, x))
    decreases |x|
  {
    hide TokenBox, Block.Back, Block.Flow, Block.Flows, Block.EdgeMass, Block.Term, Block.Eff, Automaton.Valid;
    if x != [] {
      var e := TermEdge(b, t, s, x);
      TermStepOf(b, t, s, x);
      TokenBoxesInUnit(b, t + 1, b.fa.edgeDst[e], x[1..]);
      TokenBoxInUnit(b, t, e, x[0]);
    }
  }

  /** Main result for the segment-tree sampler: the same box volumes as the sequential sampler, hence the same posterior. */
  lemma TreeExact(b: Block, c: Chain, scales: seq<real>, h: nat, start: nat, x: seq<nat>)
    requires ReadyFor(b, c, scales, h, start, x)
    ensures b.Total(0, start) > 0.0
    ensures Volume(TreeBox(b, c, scales, h, start, x)) == b.Term(0, start, x) / b.Total(0, start)
    ensures Volume(TreeBox(b, c, scales, h, start, x)) == Volume(Box(b, 0, start, x))
    ensures forall u, pos :: Uniform(u) ==>
              (TreeSample(b, c, scales, h, start, false, u, pos).tokens == x <==>
               InBox(u, pos, TreeBox(b, c, scales, h, start, x)))
  {
    hide Block.Back, Block.Term, RealLeaf, PaddingLeaf, TreeBox, TreeSample, InBox, Volume, Box;
    TreeVolume(b, c, scales, h, start, x);
    b.BackIsTotal(0, start);
    BoxVolume(b, 0, start, x);
    forall u, pos | Uniform(u)
      ensures TreeSample(b, c, scales, h, start, false, u, pos).tokens == x <==>
              InBox(u, pos, TreeBox(b, c, scales, h, start, x))
    {
      TreeBoxExact(b, c, scales, h, start, x, u, pos);
    }
  }
}
