/** Token marginals of the constrained posterior: the brute-force reference, and why forward and backward prefix products
    give it. */
module Marginals {
  import opened Prelude
  import opened Sums
  import opened Tables
  import opened Automata
  import opened Posterior
  import opened Chains
  import opened TreeSpec

  // ---- the reference ----

  /** The posterior weight of `x` if it carries `v` at position `t`, counting positions from `k`. */
  function Having(b: Block, k: nat, s: nat, t: nat, v: nat, x: seq<nat>): real
    requires b.Valid() && k <= t < b.len && s < b.fa.nNodes
  {
    if t - k < |x| && x[t - k] == v then b.Term(k, s, x) else 0.0
  }

  /** The total weight of all sequences filling the block that carry `v` at position `t`. */
  function MarginalMass(b: Block, start: nat, t: nat, v: nat): real
    requires b.Valid() && t < b.len && start < b.fa.nNodes
  {
    SumSeqs(b.fa.vocab, b.len, (x: seq<nat>) => Having(b, 0, start, t, v, x))
  }

  lemma {:induction false} SumSeqsExt(vocab: nat, n: nat, f: seq<nat> -> real, g: seq<nat> -> real)
    requires forall x :: |x| == n ==> f(x) == g(x)
    ensures SumSeqs(vocab, n, f) == SumSeqs(vocab, n, g)
    decreases n
  {
    if n > 0 {
      var ff := (v: nat) => SumSeqs(vocab, n - 1, (y: seq<nat>) => f([v] + y));
      var gg := (v: nat) => SumSeqs(vocab, n - 1, (y: seq<nat>) => g([v] + y));
      forall v: nat | v < vocab ensures ff(v) == gg(v) {
        SumSeqsExt(vocab, n - 1, (y: seq<nat>) => f([v] + y), (y: seq<nat>) => g([v] + y));
      }
      SumToExt(vocab, ff, gg);
    }
  }

  // ---- one token singled out at one position ----

  function OnlyMass(b: Block, t: nat, v: nat, i: nat): NonNeg
    requires b.Valid() && t < b.len && v < b.fa.vocab && i < |b.mass|
  {
    var base := t * b.fa.vocab;
    if !(base <= i < base + b.fa.vocab) then b.mass[i]
    else if i == base + v then b.Eff(t, v) else 0.0
  }

  /** The block whose position `t` may emit nothing but `v`, at its old weight. */
  function Only(b: Block, t: nat, v: nat): (r: Block)
    requires b.Valid() && t < b.len && v < b.fa.vocab
    ensures r.Valid() && r.fa == b.fa && r.len == b.len
  {
    Block(b.fa, seq(|b.mass|, i requires 0 <= i < |b.mass| => OnlyMass(b, t, v, i)), b.len, b.forced[t := FREE])
  }

  lemma OnlyEff(b: Block, t: nat, v: nat, k: nat, w: nat)
    requires b.Valid() && t < b.len && v < b.fa.vocab && k < b.len && w < b.fa.vocab
    ensures Only(b, t, v).Eff(k, w) == if k == t && w != v then 0.0 else b.Eff(k, w)
  {
    InRow(k, w, b.len, b.fa.vocab);
    if k < t {
      RowEnd(k, t, b.fa.vocab);
    } else if t < k {
      RowEnd(t, k, b.fa.vocab);
    }
  }

  /** Only sequences carrying `v` at position `t` keep their weight. */
  lemma {:induction false} OnlyWeight(b: Block, t: nat, v: nat, k: nat, x: seq<nat>)
    requires b.Valid() && t < b.len && v < b.fa.vocab && k <= b.len && |x| == b.len - k
    ensures Only(b, t, v).Weight(k, x) == if k <= t && x[t - k] != v then 0.0 else b.Weight(k, x)
    decreases |x|
  {
    if x != [] && x[0] < b.fa.vocab {
      hide Only, Block.Eff;
      OnlyWeight(b, t, v, k + 1, x[1..]);
      OnlyEff(b, t, v, k, x[0]);
      assert k < t ==> x[1..][t - (k + 1)] == x[t - k];
    }
  }

  /** The singled-out block's total weight is the marginal mass. */
  lemma OnlyIsMarginal(b: Block, start: nat, t: nat, v: nat)
    requires b.Valid() && t < b.len && v < b.fa.vocab && start < b.fa.nNodes
    ensures Only(b, t, v).Back(0, start) == MarginalMass(b, start, t, v)
  {
    hide Block.Back, Only, Block.Weight;
    var o := Only(b, t, v);
    o.BackIsTotal(0, start);
    forall x | |x| == b.len ensures o.Term(0, start, x) == Having(b, 0, start, t, v, x) {
      OnlyWeight(b, t, v, 0, x);
    }
    SumSeqsExt(b.fa.vocab, b.len, (x: seq<nat>) => o.Term(0, start, x), (x: seq<nat>) => Having(b, 0, start, t, v, x));
  }

  /** Beyond position `t` nothing has changed. */
  lemma OnlyBackAfter(b: Block, t: nat, v: nat, d: nat)
    requires b.Valid() && t < b.len && v < b.fa.vocab && d < b.fa.nNodes
    ensures Only(b, t, v).Back(t + 1, d) == b.Back(t + 1, d)
  {
    hide Block.Back, Only, Block.Weight;
    var o := Only(b, t, v);
    o.BackIsTotal(t + 1, d);
    b.BackIsTotal(t + 1, d);
    var n := b.len - (t + 1);
    forall x | |x| == n ensures o.Term(t + 1, d, x) == b.Term(t + 1, d, x) {
      OnlyWeight(b, t, v, t + 1, x);
    }
    SumSeqsExt(b.fa.vocab, n, (x: seq<nat>) => o.Term(t + 1, d, x), (x: seq<nat>) => b.Term(t + 1, d, x));
  }

  /** Before position `t` the edges weigh what they did. */
  lemma OnlyEdgeMass(b: Block, t: nat, v: nat, k: nat, e: nat)
    requires b.Valid() && t < b.len && v < b.fa.vocab && k < t && e < b.fa.NEdges()
    ensures Only(b, t, v).EdgeMass(k, e) == b.EdgeMass(k, e)
  {
    hide Only, Block.Eff, Sum;
    var o := Only(b, t, v);
    b.EdgeInRange(e);
    var toks := b.fa.EdgeTokens(e);
    forall i | 0 <= i < |toks| ensures o.TokenMasses(k, toks)[i] == b.TokenMasses(k, toks)[i] {
      OnlyEff(b, t, v, k, toks[i]);
    }
    assert o.TokenMasses(k, toks) == b.TokenMasses(k, toks);
  }

  /** At position `t` what is left is the share of `v`. */
  lemma OnlyAt(b: Block, t: nat, v: nat, s: nat)
    requires b.Valid() && t < b.len && v < b.fa.vocab && s < b.fa.nNodes
    ensures Only(b, t, v).Back(t, s) == b.Share(t, b.fa.OutLo(s), b.fa.OutHi(s), v)
  {
    hide Block.Back, Block.Flow, Only, Sum, Automaton.NodeValid, Automaton.EdgeValid;
    var o := Only(b, t, v);
    var lo, hi := b.fa.OutLo(s), b.fa.OutHi(s);
    var share := (w: nat) => o.Share(t, lo, hi, w);
    forall w: nat | w < b.fa.vocab ensures share(w) == if w == v then b.Share(t, lo, hi, v) else 0.0 {
      OnlyShare(b, t, v, lo, hi, w);
    }
    SumToSingle(b.fa.vocab, share, v);
    o.Regroup(t, s, lo);
    BackSum(o, t, s);
  }

  lemma OnlyShare(b: Block, t: nat, v: nat, lo: nat, hi: nat, w: nat)
    requires b.Valid() && t < b.len && v < b.fa.vocab && w < b.fa.vocab && lo <= hi <= b.fa.NEdges()
    ensures Only(b, t, v).Share(t, lo, hi, w) == if w == v then b.Share(t, lo, hi, v) else 0.0
  {
    hide Block.Back, Only, Block.Eff;
    OnlyEff(b, t, v, t, w);
    match b.fa.FirstEdge(w, lo, hi)
    case None =>
    case Some(e) =>
      b.EdgeInRange(e);
      OnlyBackAfter(b, t, v, b.fa.edgeDst[e]);
  }

  // ---- the chain of the block's own leaves, closed by the accept diagonal ----

  /** The real leaves of a block followed by the diagonal of accepting nodes. */
  ghost predicate Folded(b: Block, c: Chain, scales: seq<real>)
    requires b.Valid()
  {
    && c.Valid() && c.n == b.fa.nNodes && |c.leaves| == b.len + 1 && |scales| == b.len
    && (forall t :: 0 <= t < b.len ==> scales[t] > 0.0 && RealLeaf(b, c, t, scales[t]))
    && AcceptLeaf(b, c)
  }

  ghost predicate AcceptLeaf(b: Block, c: Chain)
    requires b.Valid() && c.Valid() && c.n == b.fa.nNodes && |c.leaves| == b.len + 1
  {
    forall i, j :: 0 <= i < c.n && 0 <= j < c.n ==> c.Leaf(b.len, i, j) == if i == j && b.fa.accept[i] then 1.0 else 0.0
  }

  lemma AcceptRow(b: Block, c: Chain, scales: seq<real>, s: nat)
    requires b.Valid() && Folded(b, c, scales) && s < c.n
    ensures RowSum(c, b.len, s) == b.Back(b.len, s)
  {
    hide RealLeaf;
    var f := (d: nat) => c.Seg(b.len, b.len + 1, s, d);
    forall d: nat | d < c.n ensures f(d) == if d == s then b.Back(b.len, s) else 0.0 {
      c.OneStep(b.len, s, d);
    }
    SumToSingle(c.n, f, s);
  }

  lemma FoldedTerm(b: Block, c: Chain, scales: seq<real>, t: nat, s: nat, k: nat)
    requires b.Valid() && Folded(b, c, scales) && t < b.len && s < c.n && k < c.n
    requires RowSum(c, t + 1, k) == Times(b.Back(t + 1, k), ScaleFrom(scales, t + 1))
    ensures Times(RowSum(c, t + 1, k), c.Leaf(t, s, k)) ==
            Times(Times(PairMass(b, t, s, k), b.Back(t + 1, k)), ScaleFrom(scales, t))
  {
    hide Chain.Leaf, RowSum, PairMass, AcceptLeaf;
    assert RealLeaf(b, c, t, scales[t]);
    var m := PairMass(b, t, s, k);
    if t + 1 == b.len {
      assert b.Back(t + 1, k) == if b.fa.accept[k] then 1.0 else 0.0;
      assert ScaleFrom(scales, t + 1) == 1.0;
    } else {
      hide Block.Back;
      FourFactors(b.Back(t + 1, k), ScaleFrom(scales, t + 1), m, scales[t]);
    }
  }

  /** A backward product's row sum is the backward table, up to the leaf scales. */
  lemma {:induction false} FoldedTotal(b: Block, c: Chain, scales: seq<real>, t: nat, s: nat)
    requires b.Valid() && Folded(b, c, scales) && t <= b.len && s < c.n
    ensures RowSum(c, t, s) == Times(b.Back(t, s), ScaleFrom(scales, t))
    decreases b.len - t
  {
    hide RowSum, Block.Back, PairMass, Chain.Leaf, RealLeaf, AcceptLeaf;
    if t == b.len {
      AcceptRow(b, c, scales, s);
    } else {
      var raw := (k: nat) => PairShare(b, t, b.fa.OutLo(s), b.fa.OutHi(s), k);
      var g := (k: nat) => if k < c.n then Times(RowSum(c, t + 1, k), c.Leaf(t, s, k)) else 0.0;
      forall k: nat | k < c.n ensures g(k) == Times(raw(k), ScaleFrom(scales, t)) {
        FoldedTotal(b, c, scales, t + 1, k);
        FoldedTerm(b, c, scales, t, s, k);
        RawShare(b, t, s, k);
      }
      RowStep(c, t, s, g);
      SumToScale(c.n, raw, ScaleFrom(scales, t), g);
      PairRegroup(b, t, s, b.fa.OutLo(s));
      BackSum(b, t, s);
    }
  }

  // ---- forward products split a backward weight at position `t` ----

  function Span(scales: seq<real>, k: nat, t: nat): real
    requires k <= t <= |scales|
    decreases t - k
  {
    if k == t then 1.0 else Times(Span(scales, k + 1, t), scales[k])
  }

  /** Two blocks over one automaton whose edges weigh the same before position `t`. */
  ghost predicate SameBefore(b: Block, o: Block, t: nat) {
    && b.Valid() && o.Valid() && b.fa == o.fa && b.len == o.len && t < b.len
    && forall k, e :: 0 <= k < t && 0 <= e < b.fa.NEdges() ==> o.EdgeMass(k, e) == b.EdgeMass(k, e)
  }

  /** The terms of a forward row met by a backward column. */
  function Meet(c: Chain, o: Block, k: nat, t: nat, i: nat): nat -> real
    requires c.Valid() && o.Valid() && k <= t <= |c.leaves| && t <= o.len
  {
    (s: nat) => if s < o.fa.nNodes then Times(c.Seg(k, t, i, s), o.Back(t, s)) else 0.0
  }

  lemma {:induction false} ForwardSplit(b: Block, o: Block, c: Chain, scales: seq<real>, k: nat, t: nat, i: nat)
    requires SameBefore(b, o, t) && Folded(b, c, scales) && k <= t && i < c.n
    ensures SumTo(c.n, Meet(c, o, k, t, i)) == Times(o.Back(k, i), Span(scales, k, t))
    decreases t - k
  {
    if k == t {
      MeetHere(c, o, t, i);
    } else {
      hide Block.Back, SameBefore, Folded, Span, Meet, PairShare, SumTo, Chain.Seg, Chain.Leaf, Block.FlowsOf, Sum;
      var raw := (m: nat) => PairShare(o, k, o.fa.OutLo(i), o.fa.OutHi(i), m);
      var g := (m: nat) => if m < c.n then Times(SumTo(c.n, Meet(c, o, k + 1, t, m)), c.Leaf(k, i, m)) else 0.0;
      SplitShape(b, o, c, scales, k, t);
      MeetStep(c, o, k, t, i, g);
      forall m: nat | m < c.n ensures g(m) == Times(raw(m), Span(scales, k, t)) {
        ForwardSplit(b, o, c, scales, k + 1, t, m);
        SplitTerm(b, o, c, scales, k, t, i, m);
      }
      SumToScale(c.n, raw, Span(scales, k, t), g);
      PairRegroup(o, k, i, o.fa.OutLo(i));
      BackSum(o, k, i);
    }
  }

  lemma SplitShape(b: Block, o: Block, c: Chain, scales: seq<real>, k: nat, t: nat)
    requires SameBefore(b, o, t) && Folded(b, c, scales) && k < t
    ensures c.Valid() && o.Valid() && c.n == o.fa.nNodes && t < |c.leaves| && t < o.len && |scales| == o.len
  {
  }

  lemma MeetHere(c: Chain, o: Block, t: nat, i: nat)
    requires c.Valid() && o.Valid() && c.n == o.fa.nNodes && t <= |c.leaves| && t <= o.len && i < c.n
    ensures SumTo(c.n, Meet(c, o, t, t, i)) == o.Back(t, i)
  {
    hide Block.Back;
    var f := Meet(c, o, t, t, i);
    forall s: nat | s < c.n ensures f(s) == if s == i then o.Back(t, i) else 0.0 {
    }
    SumToSingle(c.n, f, i);
  }

  /** Unfolding the first step of the forward row and exchanging the two sums. */
  lemma MeetStep(c: Chain, o: Block, k: nat, t: nat, i: nat, g: nat -> real)
    requires c.Valid() && o.Valid() && c.n == o.fa.nNodes && k < t < |c.leaves| && t < o.len && i < c.n
    requires forall m: nat :: m < c.n ==> g(m) == Times(SumTo(c.n, Meet(c, o, k + 1, t, m)), c.Leaf(k, i, m))
    ensures SumTo(c.n, Meet(c, o, k, t, i)) == SumTo(c.n, g)
  {
    hide Block.Back, Chain.Leaf;
    var n := c.n;
    var f := (s: nat, m: nat) =>
      if s < n then Times(Times(c.Seg(k + 1, t, m, s), c.Leaf(k, i, m)), o.Back(t, s)) else 0.0;
    forall s: nat | s < n ensures Meet(c, o, k, t, i)(s) == SumTo(n, (m: nat) => f(s, m)) {
      SumToScale(n, c.Step(k, t, i, s), o.Back(t, s), (m: nat) => f(s, m));
    }
    SumToExt(n, Meet(c, o, k, t, i), (s: nat) => SumTo(n, (m: nat) => f(s, m)));
    SumToSwap(n, n, f);
    forall m: nat | m < n ensures g(m) == SumTo(n, (s: nat) => f(s, m)) {
      forall s: nat | s < n ensures f(s, m) == Times(Meet(c, o, k + 1, t, m)(s), c.Leaf(k, i, m)) {
        Rearrange(c.Seg(k + 1, t, m, s), c.Leaf(k, i, m), o.Back(t, s));
      }
      SumToScale(n, Meet(c, o, k + 1, t, m), c.Leaf(k, i, m), (s: nat) => f(s, m));
    }
    SumToExt(n, (m: nat) => SumTo(n, (s: nat) => f(s, m)), g);
  }

  lemma SplitTerm(b: Block, o: Block, c: Chain, scales: seq<real>, k: nat, t: nat, i: nat, m: nat)
    requires SameBefore(b, o, t) && Folded(b, c, scales) && k < t && i < c.n && m < c.n
    ensures Times(Times(o.Back(k + 1, m), Span(scales, k + 1, t)), c.Leaf(k, i, m)) ==
            Times(PairShare(o, k, o.fa.OutLo(i), o.fa.OutHi(i), m), Span(scales, k, t))
  {
    hide Block.Back, Chain.Leaf, Block.EdgeMass, PairShare;
    assert RealLeaf(b, c, k, scales[k]);
    RawShare(o, k, i, m);
    FourFactors(o.Back(k + 1, m), Span(scales, k + 1, t), PairMass(b, k, i, m), scales[k]);
  }

  // ---- what the loop over nodes, edges and tokens adds up ----

  /** The share of `v` on every node, met by the forward row. */
  function Carried(c: Chain, b: Block, t: nat, start: nat, v: nat): nat -> real
    requires c.Valid() && b.Valid() && t < b.len && t <= |c.leaves|
  {
    (s: nat) => if s < b.fa.nNodes then Times(c.Seg(0, t, start, s), b.Share(t, b.fa.OutLo(s), b.fa.OutHi(s), v)) else 0.0
  }

  /** The whole sum for one token is its marginal mass, up to the leaf scales before `t`. */
  lemma CarriedIsMarginal(b: Block, c: Chain, scales: seq<real>, t: nat, start: nat, v: nat)
    requires b.Valid() && Folded(b, c, scales) && t < b.len && start < c.n && v < b.fa.vocab
    ensures SumTo(c.n, Carried(c, b, t, start, v)) == Times(MarginalMass(b, start, t, v), Span(scales, 0, t))
  {
    hide Block.Back, Only, Block.Share, MarginalMass, Folded, Span;
    FoldedShape(b, c, scales);
    var o := Only(b, t, v);
    forall k, e | 0 <= k < t && 0 <= e < b.fa.NEdges() ensures o.EdgeMass(k, e) == b.EdgeMass(k, e) {
      OnlyEdgeMass(b, t, v, k, e);
    }
    ForwardSplit(b, o, c, scales, 0, t, start);
    OnlyIsMarginal(b, start, t, v);
    forall s: nat | s < c.n ensures Carried(c, b, t, start, v)(s) == Meet(c, o, 0, t, start)(s) {
      OnlyAt(b, t, v, s);
    }
    SumToExt(c.n, Carried(c, b, t, start, v), Meet(c, o, 0, t, start));
  }

  lemma FoldedShape(b: Block, c: Chain, scales: seq<real>)
    requires b.Valid() && Folded(b, c, scales)
    ensures c.Valid() && c.n == b.fa.nNodes && |c.leaves| == b.len + 1 && |scales| == b.len
  {
  }

  /** The marginal masses of one position add up to the total weight. */
  lemma MarginalsTotal(b: Block, start: nat, t: nat)
    requires b.Valid() && t < b.len && start < b.fa.nNodes
    ensures SumTo(b.fa.vocab, (v: nat) => if v < b.fa.vocab then MarginalMass(b, start, t, v) else 0.0) == b.Total(0, start)
  {
    hide SumTo, Block.Term;
    var mass := (v: nat) => if v < b.fa.vocab then MarginalMass(b, start, t, v) else 0.0;
    var f := (v: nat, x: seq<nat>) => Having(b, 0, start, t, v, x);
    var term := (x: seq<nat>) => b.Term(0, start, x);
    forall v: nat | v < b.fa.vocab ensures mass(v) == SumSeqs(b.fa.vocab, b.len, Of(f, v)) {
      SumSeqsExt(b.fa.vocab, b.len, (x: seq<nat>) => Having(b, 0, start, t, v, x), Of(f, v));
    }
    SumToExt(b.fa.vocab, mass, (v: nat) => SumSeqs(b.fa.vocab, b.len, Of(f, v)));
    forall x | |x| == b.len ensures term(x) == SumTo(b.fa.vocab, (v: nat) => f(v, x)) {
      OneToken(b, start, t, x, (v: nat) => f(v, x));
    }
    SwapSeqs(b.fa.vocab, b.len, b.fa.vocab, f, term);
  }

  /** A sequence of the block's length carries exactly one token at position `t`. */
  lemma OneToken(b: Block, start: nat, t: nat, x: seq<nat>, f: nat -> real)
    requires b.Valid() && t < b.len == |x| && start < b.fa.nNodes
    requires forall v: nat :: f(v) == Having(b, 0, start, t, v, x)
    ensures SumTo(b.fa.vocab, f) == b.Term(0, start, x)
  {
    hide Block.Weight;
    if x[t] < b.fa.vocab {
      SumToSingle(b.fa.vocab, f, x[t]);
    } else {
      SumToZero(b.fa.vocab, f);
      OutOfVocab(b, 0, x, t);
    }
  }

  lemma {:induction false} OutOfVocab(b: Block, k: nat, x: seq<nat>, t: nat)
    requires b.Valid() && k <= b.len && t < |x| == b.len - k && x[t] >= b.fa.vocab
    ensures b.Weight(k, x) == 0.0
    decreases |x|
  {
    if t > 0 && x[0] < b.fa.vocab {
      hide Block.Eff;
      OutOfVocab(b, k + 1, x[1..], t - 1);
    }
  }

  function Of(f: (nat, seq<nat>) -> real, v: nat): seq<nat> -> real { (x: seq<nat>) => f(v, x) }

  function After(f: seq<nat> -> real, w: nat): seq<nat> -> real { (y: seq<nat>) => f([w] + y) }

  function AllAfter(f: (nat, seq<nat>) -> real, w: nat): (nat, seq<nat>) -> real { (v: nat, y: seq<nat>) => f(v, [w] + y) }

  lemma SumSeqsUnfold(vocab: nat, n: nat, f: seq<nat> -> real)
    requires n > 0
    ensures SumSeqs(vocab, n, f) == SumTo(vocab, (w: nat) => SumSeqs(vocab, n - 1, After(f, w)))
  {
    var first := (w: nat) => SumSeqs(vocab, n - 1, (y: seq<nat>) => f([w] + y));
    SumToExt(vocab, first, (w: nat) => SumSeqs(vocab, n - 1, After(f, w)));
  }

  /** Exchanging a sum over tokens with a sum over sequences. */
  lemma {:induction false} SwapSeqs(vocab: nat, n: nat, m: nat, f: (nat, seq<nat>) -> real, all: seq<nat> -> real)
    requires forall x :: |x| == n ==> all(x) == SumTo(m, (v: nat) => f(v, x))
    ensures SumTo(m, (v: nat) => SumSeqs(vocab, n, Of(f, v))) == SumSeqs(vocab, n, all)
    decreases n
  {
    hide SumTo;
    var whole := (v: nat) => SumSeqs(vocab, n, Of(f, v));
    if n == 0 {
      SumToExt(m, whole, (v: nat) => f(v, []));
    } else {
      hide SumSeqs, Of, After;
      var part := (v: nat, w: nat) => SumSeqs(vocab, n - 1, After(Of(f, v), w));
      forall v: nat | v < m ensures whole(v) == SumTo(vocab, (w: nat) => part(v, w)) {
        SumSeqsUnfold(vocab, n, Of(f, v));
        SumToExt(vocab, (w: nat) => SumSeqs(vocab, n - 1, After(Of(f, v), w)), (w: nat) => part(v, w));
      }
      SumToExt(m, whole, (v: nat) => SumTo(vocab, (w: nat) => part(v, w)));
      SumToSwap(m, vocab, part);
      forall w: nat | w < vocab ensures SumTo(m, (v: nat) => part(v, w)) == SumSeqs(vocab, n - 1, After(all, w)) {
        SwapColumn(vocab, n, m, f, all, w, (v: nat) => part(v, w));
      }
      SumSeqsUnfold(vocab, n, all);
      SumToExt(vocab, (w: nat) => SumTo(m, (v: nat) => part(v, w)), (w: nat) => SumSeqs(vocab, n - 1, After(all, w)));
    }
  }

  lemma {:induction false} SwapColumn(vocab: nat, n: nat, m: nat, f: (nat, seq<nat>) -> real, all: seq<nat> -> real, w: nat,
                                      column: nat -> real)
    requires n > 0 && forall x :: |x| == n ==> all(x) == SumTo(m, (v: nat) => f(v, x))
    requires forall v: nat :: v < m ==> column(v) == SumSeqs(vocab, n - 1, After(Of(f, v), w))
    ensures SumTo(m, column) == SumSeqs(vocab, n - 1, After(all, w))
    decreases n, 0
  {
    hide SumTo, SumSeqs;
    var g, rest := AllAfter(f, w), After(all, w);
    forall y | |y| == n - 1 ensures rest(y) == SumTo(m, (v: nat) => g(v, y)) {
      SumToExt(m, (v: nat) => g(v, y), (v: nat) => f(v, [w] + y));
    }
    SwapSeqs(vocab, n - 1, m, g, rest);
    forall v: nat | v < m ensures column(v) == SumSeqs(vocab, n - 1, Of(g, v)) {
      SumSeqsExt(vocab, n - 1, After(Of(f, v), w), Of(g, v));
    }
    SumToExt(m, column, (v: nat) => SumSeqs(vocab, n - 1, Of(g, v)));
  }
}
