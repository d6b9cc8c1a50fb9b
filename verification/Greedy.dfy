/** The state path of a greedy run is still drawn from the exact joint: it is followed with the posterior mass of all
    sequences that walk it, by both samplers. */
module GreedyPaths {
  import opened Prelude
  import opened Sums
  import opened Automata
  import opened Posterior
  import opened SequentialSpec
  import opened Chains
  import opened TreeSpec

  // ---- the posterior mass of a state path ----

  ghost predicate SamePath(fa: Automaton, s: nat, x: seq<nat>, y: seq<nat>)
    requires fa.Valid() && s < fa.nNodes && fa.Walk(s, x).Some?
  {
    fa.Walk(s, y).Some? && StatesOf(fa, s, y) == StatesOf(fa, s, x)
  }

  /** The posterior weight of `y` if it visits the states `x` visits. */
  ghost function PathTerm(b: Block, t: nat, s: nat, x: seq<nat>, y: seq<nat>): real
    requires b.Valid() && t <= b.len && s < b.fa.nNodes && b.fa.Walk(s, x).Some?
  {
    if SamePath(b.fa, s, x, y) then b.Term(t, s, y) else 0.0
  }

  /** The total weight of all sequences along the states of `x`. */
  ghost function PathMass(b: Block, t: nat, s: nat, x: seq<nat>): real
    requires b.Valid() && t <= b.len && s < b.fa.nNodes && b.fa.Walk(s, x).Some?
  {
    SumSeqs(b.fa.vocab, b.len - t, (y: seq<nat>) => PathTerm(b, t, s, x, y))
  }

  /** A walk follows the states of `x` exactly when its first token is on the same edge and its rest follows the rest. */
  lemma SamePathStep(b: Block, t: nat, s: nat, x: seq<nat>, e: nat, v: nat, y: seq<nat>)
    requires StepOf(b, t, s, x, e) && b.fa.Walk(s, x).Some? && b.fa.Walk(b.fa.edgeDst[e], x[1..]).Some?
    ensures SamePath(b.fa, s, x, [v] + y) <==> b.fa.EdgeFor(s, v) == Some(e) && SamePath(b.fa, b.fa.edgeDst[e], x[1..], y)
  {
    hide StatesOf, Block.EdgeMass, Block.Term, Block.Flows;
    var d := b.fa.edgeDst[e];
    StatesUnfold(b.fa, s, x, e);
    assert ([v] + y)[1..] == y;
    match b.fa.EdgeFor(s, v)
    case None =>
    case Some(f) =>
      b.EdgeInRange(f);
      if b.fa.Walk(b.fa.edgeDst[f], y).Some? {
        StatesUnfold(b.fa, s, [v] + y, f);
        var p, q := StatesOf(b.fa, b.fa.edgeDst[f], y), StatesOf(b.fa, d, x[1..]);
        assert ([s] + p)[1..] == p && ([s] + q)[1..] == q;
        StatesFirst(b.fa, b.fa.edgeDst[f], y);
        StatesFirst(b.fa, d, x[1..]);
        PairEdgeUnique(b.fa, s, e);
        PairEdgeUnique(b.fa, s, f);
      }
  }

  lemma StatesFirst(fa: Automaton, s: nat, x: seq<nat>)
    requires fa.Valid() && s < fa.nNodes && fa.Walk(s, x).Some?
    ensures StatesOf(fa, s, x) != [] && StatesOf(fa, s, x)[0] == s
  {
  }

  lemma PathTermStep(b: Block, t: nat, s: nat, x: seq<nat>, e: nat, v: nat, y: seq<nat>)
    requires StepOf(b, t, s, x, e) && v < b.fa.vocab
    requires b.fa.Walk(s, x).Some? && b.fa.Walk(b.fa.edgeDst[e], x[1..]).Some?
    ensures PathTerm(b, t, s, x, [v] + y) ==
            if b.fa.EdgeFor(s, v) == Some(e) then Times(PathTerm(b, t + 1, b.fa.edgeDst[e], x[1..], y), b.Eff(t, v)) else 0.0
  {
    hide StatesOf, Block.EdgeMass, Block.Term, Block.Flows, Block.Eff, SamePath, Automaton.Walk;
    SamePathStep(b, t, s, x, e, v, y);
    b.TermStep(t, s, v, y);
  }

  lemma OnEdge(fa: Automaton, s: nat, e: nat, v: nat)
    requires fa.Valid() && s < fa.nNodes && fa.OutLo(s) <= e < fa.OutHi(s)
    ensures fa.EdgeFor(s, v) == Some(e) <==> v in fa.EdgeTokens(e)
  {
    if v in fa.EdgeTokens(e) { fa.EdgeForUnique(s, v, e); }
  }

  lemma SelectScaled(vocab: nat, toks: seq<nat>, f: nat -> real, c: real, h: nat -> real)
    requires StrictlySorted(toks) && forall i :: 0 <= i < |toks| ==> toks[i] < vocab
    requires forall v: nat :: v < vocab ==> h(v) == if v in toks then Times(c, f(v)) else 0.0
    ensures SumTo(vocab, h) == Times(Sum(seq(|toks|, i requires 0 <= i < |toks| => f(toks[i]))), c)
  {
    SelectSum(vocab, toks, f);
    hide SumTo, Sum;
    SumToScale(vocab, Select(toks, f), c, h);
  }

  /** Summing over the vocabulary the tokens of one edge, each with a common factor, gives the edge mass with it. */
  lemma EdgeSum(b: Block, t: nat, s: nat, e: nat, c: real)
    requires b.Valid() && t < b.len && s < b.fa.nNodes && b.fa.OutLo(s) <= e < b.fa.OutHi(s)
    ensures SumTo(b.fa.vocab, (v: nat) => if v < b.fa.vocab && b.fa.EdgeFor(s, v) == Some(e) then Times(c, b.Eff(t, v)) else 0.0)
            == Times(b.EdgeMass(t, e), c)
  {
    b.EdgeInRange(e);
    hide Block.Eff, SumTo, Sum, Automaton.Valid, Automaton.EdgeFor;
    var toks := b.fa.EdgeTokens(e);
    var eff := (v: nat) => if v < b.fa.vocab then b.Eff(t, v) else 0.0;
    var h := (v: nat) => if v < b.fa.vocab && b.fa.EdgeFor(s, v) == Some(e) then Times(c, b.Eff(t, v)) else 0.0;
    forall v: nat | v < b.fa.vocab ensures h(v) == if v in toks then Times(c, eff(v)) else 0.0 { OnEdge(b.fa, s, e, v); }
    SelectScaled(b.fa.vocab, toks, eff, c, h);
    assert b.TokenMasses(t, toks) == seq(|toks|, i requires 0 <= i < |toks| => eff(toks[i]));
  }

  /** The mass of a state path is the product of its edge masses. */
  lemma {:induction false} PathTotal(b: Block, t: nat, s: nat, x: seq<nat>)
    requires b.Valid() && t <= b.len && s < b.fa.nNodes && |x| == b.len - t && b.Term(t, s, x) > 0.0
    ensures b.fa.Walk(s, x).Some? && PathMass(b, t, s, x) == EdgeProd(b, t, s, x)
    decreases |x|
  {
    hide Block.Term, Block.EdgeMass, Block.Eff, Block.Back, Block.Flows, EdgeProd, PathTerm, Automaton.Walk, StatesOf;
    TermWalks(b, t, s, x);
    if x == [] {
      PathTotalEnd(b, s);
    } else {
      var e := TermEdge(b, t, s, x);
      TermStepOf(b, t, s, x);
      var d := b.fa.edgeDst[e];
      TermWalks(b, t + 1, d, x[1..]);
      PathTotal(b, t + 1, d, x[1..]);
      EdgeProdUnfold(b, t, s, x, e);
      EdgeSum(b, t, s, e, EdgeProd(b, t + 1, d, x[1..]));
      var f := (y: seq<nat>) => PathTerm(b, t, s, x, y);
      var byToken := (v: nat) => SumSeqs(b.fa.vocab, b.len - t - 1, (y: seq<nat>) => f([v] + y));
      var share := (v: nat) => if v < b.fa.vocab && b.fa.EdgeFor(s, v) == Some(e)
                               then Times(EdgeProd(b, t + 1, d, x[1..]), b.Eff(t, v)) else 0.0;
      forall v: nat | v < b.fa.vocab ensures byToken(v) == share(v) {
        TokenPathMass(b, t, s, x, e, v, (y: seq<nat>) => f([v] + y));
      }
      SumToExt(b.fa.vocab, byToken, share);
    }
  }

  lemma PathTotalEnd(b: Block, s: nat)
    requires b.Valid() && s < b.fa.nNodes && b.Term(b.len, s, []) > 0.0
    ensures b.fa.Walk(s, []).Some? && PathMass(b, b.len, s, []) == EdgeProd(b, b.len, s, [])
  {
  }

  lemma TokenPathMass(b: Block, t: nat, s: nat, x: seq<nat>, e: nat, v: nat, f: seq<nat> -> real)
    requires StepOf(b, t, s, x, e) && v < b.fa.vocab
    requires b.fa.Walk(s, x).Some? && b.fa.Walk(b.fa.edgeDst[e], x[1..]).Some?
    requires forall y :: f(y) == PathTerm(b, t, s, x, [v] + y)
    requires PathMass(b, t + 1, b.fa.edgeDst[e], x[1..]) == EdgeProd(b, t + 1, b.fa.edgeDst[e], x[1..])
    ensures SumSeqs(b.fa.vocab, b.len - t - 1, f) ==
            if b.fa.EdgeFor(s, v) == Some(e) then Times(EdgeProd(b, t + 1, b.fa.edgeDst[e], x[1..]), b.Eff(t, v)) else 0.0
  {
    hide Block.Term, Block.EdgeMass, Block.Eff, Block.Back, Block.Flows, EdgeProd, PathTerm, Automaton.Walk, StatesOf, SumSeqs;
    var d := b.fa.edgeDst[e];
    forall y
      ensures f(y) == if b.fa.EdgeFor(s, v) == Some(e) then Times(PathTerm(b, t + 1, d, x[1..], y), b.Eff(t, v)) else 0.0
    {
      PathTermStep(b, t, s, x, e, v, y);
    }
    if b.fa.EdgeFor(s, v) == Some(e) {
      SumSeqsScale(b.fa.vocab, b.len - t - 1, (y: seq<nat>) => PathTerm(b, t + 1, d, x[1..], y), b.Eff(t, v), f);
    } else {
      SumSeqsZero(b.fa.vocab, b.len - t - 1, f);
    }
  }

  // ---- the sequential sampler, greedy ----

  /** The edge slots along `x`: in greedy mode one draw a position. */
  ghost function EdgeBox(b: Block, t: nat, s: nat, x: seq<nat>): seq<Interval>
    requires b.Valid() && t <= b.len && s < b.fa.nNodes && |x| == b.len - t && b.Term(t, s, x) > 0.0
    decreases |x|
  {
    if x == [] then []
    else
      TermStepOf(b, t, s, x);
      var e := b.fa.EdgeFor(s, x[0]).value;
      [EdgeSlot(b, t, s, e)] + EdgeBox(b, t + 1, b.fa.edgeDst[e], x[1..])
  }

  lemma EdgeBoxUnfold(b: Block, t: nat, s: nat, x: seq<nat>, e: nat)
    requires StepOf(b, t, s, x, e) && b.Term(t, s, x) > 0.0
    ensures EdgeBox(b, t, s, x) == [EdgeSlot(b, t, s, e)] + EdgeBox(b, t + 1, b.fa.edgeDst[e], x[1..])
  {
    hide EdgeSlot, Block.Back, Block.Flow, Block.Flows, Block.EdgeMass;
  }

  /** A greedy run visits the states of `x` exactly when its edge draws fall into the slots along `x`. */
  lemma {:induction false} GreedyRun(b: Block, t: nat, s: nat, x: seq<nat>, u: nat -> real, pos: nat)
    requires b.Valid() && t <= b.len && s < b.fa.nNodes && |x| == b.len - t && b.Term(t, s, x) > 0.0
    requires Uniform(u) && b.Back(t, s) > 0.0
    ensures b.fa.Walk(s, x).Some?
    ensures SamePath(b.fa, s, x, Sample(b, t, s, true, u, pos).tokens) <==> InBox(u, pos, EdgeBox(b, t, s, x))
    decreases |x|
  {
    hide Draw, Slot, EdgeTaken, TokenOn, EdgeSlot, Sample, EdgeBox, InBox, SamePath, StatesOf, Automaton.Walk;
    hide Block.Back, Block.Flow, Block.Flows, Block.EdgeMass, Block.Term, Block.Eff;
    TermWalks(b, t, s, x);
    if x == [] {
      GreedyEnd(b, s, u, pos);
    } else {
      var e := TermEdge(b, t, s, x);
      TermStepOf(b, t, s, x);
      var d := b.fa.edgeDst[e];
      TermWalks(b, t + 1, d, x[1..]);
      TermLive(b, t + 1, d, x[1..]);
      GreedyRun(b, t + 1, d, x[1..], u, pos + 1);
      EdgeBoxUnfold(b, t, s, x, e);
      InBoxHead(u, pos, EdgeSlot(b, t, s, e), EdgeBox(b, t + 1, d, x[1..]));
      EdgeSlotHit(b, t, s, e, u(pos));
      SampleUnfold(b, t, s, true, u, pos);
      var taken := EdgeTaken(b, t, s, u(pos));
      EdgeTakenLive(b, t, s, u(pos));
      TokenOnEdge(b, t, taken, true, u(pos + 1));
      var v := TokenOn(b, t, taken, true, u(pos + 1));
      b.fa.EdgeForUnique(s, v, taken);
      SamePathStep(b, t, s, x, e, v, Sample(b, t + 1, b.fa.edgeDst[taken], true, u, pos + 1).tokens);
      assert TokenDraws(b, t, true) == 0;
    }
  }

  lemma GreedyEnd(b: Block, s: nat, u: nat -> real, pos: nat)
    requires b.Valid() && s < b.fa.nNodes && Uniform(u) && b.Back(b.len, s) > 0.0 && b.Term(b.len, s, []) > 0.0
    ensures b.fa.Walk(s, []).Some? && SamePath(b.fa, s, [], Sample(b, b.len, s, true, u, pos).tokens)
    ensures InBox(u, pos, EdgeBox(b, b.len, s, []))
  {
  }

  /** The slots along `x` have the volume of its path. */
  lemma {:induction false} EdgeBoxVolume(b: Block, t: nat, s: nat, x: seq<nat>)
    requires b.Valid() && t <= b.len && s < b.fa.nNodes && |x| == b.len - t && b.Term(t, s, x) > 0.0
    ensures b.fa.Walk(s, x).Some? && b.Back(t, s) > 0.0
    ensures Volume(EdgeBox(b, t, s, x)) == EdgeProd(b, t, s, x) / b.Back(t, s)
    decreases |x|
  {
    hide Slot, EdgeSlot, EdgeBox, EdgeProd, Automaton.Walk, Volume;
    hide Block.Back, Block.Flows, Block.EdgeMass, Block.Term, Block.Eff;
    TermWalks(b, t, s, x);
    TermLive(b, t, s, x);
    if x == [] {
      EdgeBoxEnd(b, s);
    } else {
      var e := TermEdge(b, t, s, x);
      TermStepOf(b, t, s, x);
      var d := b.fa.edgeDst[e];
      EdgeBoxVolume(b, t + 1, d, x[1..]);
      EdgeBoxUnfold(b, t, s, x, e);
      VolumeHead(EdgeSlot(b, t, s, e), EdgeBox(b, t + 1, d, x[1..]));
      EdgeSlotExact(b, t, s, e, 0.0);
      EdgeProdUnfold(b, t, s, x, e);
      PathTelescope(b.EdgeMass(t, e), b.Back(t + 1, d), b.Back(t, s), EdgeProd(b, t + 1, d, x[1..]));
    }
  }

  lemma EdgeBoxEnd(b: Block, s: nat)
    requires b.Valid() && s < b.fa.nNodes && b.Term(b.len, s, []) > 0.0
    ensures b.fa.Walk(s, []).Some? && Volume(EdgeBox(b, b.len, s, [])) == 1.0 == EdgeProd(b, b.len, s, []) == b.Back(b.len, s)
  {
  }

  /** (mass * after / now) * (prod / after) == mass * prod / now. */
  lemma PathTelescope(mass: real, after: real, now: real, prod: real)
    requires after > 0.0 && now > 0.0
    ensures Times(Times(mass, after) / now, prod / after) == Times(mass, prod) / now
  {
    var p, q := Times(mass, after) / now, prod / after;
    assert q * after == prod && p * now == mass * after;
    assert Times(p, q) * now == (p * now) * q == mass * (q * after);
  }

  /** A greedy run of the sequential sampler follows the state path of `x` with the posterior probability of that path. */
  lemma GreedyExact(b: Block, start: nat, x: seq<nat>)
    requires b.Valid() && start < b.fa.nNodes && |x| == b.len && b.Term(0, start, x) > 0.0
    ensures b.fa.Walk(start, x).Some? && b.Back(0, start) == b.Total(0, start) > 0.0
    ensures Volume(EdgeBox(b, 0, start, x)) == PathMass(b, 0, start, x) / b.Total(0, start)
    ensures forall u, pos :: Uniform(u) ==>
              (SamePath(b.fa, start, x, Sample(b, 0, start, true, u, pos).tokens) <==> InBox(u, pos, EdgeBox(b, 0, start, x)))
  {
    hide Block.Back, Block.Term, Sample, EdgeBox, InBox, SamePath, Automaton.Walk, PathMass, EdgeProd, Volume;
    b.BackIsTotal(0, start);
    PathTotal(b, 0, start, x);
    EdgeBoxVolume(b, 0, start, x);
    forall u, pos | Uniform(u)
      ensures SamePath(b.fa, start, x, Sample(b, 0, start, true, u, pos).tokens) <==> InBox(u, pos, EdgeBox(b, 0, start, x))
    {
      GreedyRun(b, 0, start, x, u, pos);
    }
  }

  // ---- the tree sampler, either mode ----

  /** The root slot and the midpoint slots of the states of `x`. */
  ghost function StateBox(b: Block, c: Chain, scales: seq<real>, h: nat, start: nat, x: seq<nat>): seq<Interval>
    requires ReadyFor(b, c, scales, h, start, x)
  {
    var p := PathOf(b, c, scales, h, start, x);
    PathOfLive(b, c, scales, h, start, x);
    RootRow(b, c, scales, h, start);
    [Slot(Row(c, start), p[Pow2(h)])] + c.MidBox(h, 0, p)
  }

  /** A tree run visits the states of `x` exactly when its root and midpoint draws fall into their slots. */
  lemma TreeRun(b: Block, c: Chain, scales: seq<real>, h: nat, start: nat, x: seq<nat>, greedy: bool, u: nat -> real, pos: nat)
    requires ReadyFor(b, c, scales, h, start, x) && Uniform(u)
    ensures SamePath(b.fa, start, x, TreeSample(b, c, scales, h, start, greedy, u, pos).tokens) <==>
            InBox(u, pos, StateBox(b, c, scales, h, start, x))
  {
    hide StatesDrawn, TreeSample, PathOf, Block.Back, Block.Term, Block.Weight, TokensAlong, Crosses;
    hide RealLeaf, PaddingLeaf, Automaton.Walk, StatesOf, InBox, Slot, Row, Chain.PathWeight, Chain.Seg, Chain.MidBox;
    var p := PathOf(b, c, scales, h, start, x);
    PathOfPath(b, c, scales, h, start, x);
    PathOfLive(b, c, scales, h, start, x);
    RootRow(b, c, scales, h, start);
    StatesExact(b, c, scales, h, start, x, u, pos);
    InBoxHead(u, pos, Slot(Row(c, start), p[Pow2(h)]), c.MidBox(h, 0, p));
    var drawn, q := TreeSampleUnfold(b, c, scales, h, start, greedy, u, pos);
    TokensWalk(b, 0, q, greedy, u, pos + Pow2(h));
    TreeSpec.SamePath(b, c, scales, h, start, x, u, pos);
  }

  /** Whatever the mode, the tree sampler follows the state path of `x` with the posterior probability of that path. */
  lemma TreePathExact(b: Block, c: Chain, scales: seq<real>, h: nat, start: nat, x: seq<nat>)
    requires ReadyFor(b, c, scales, h, start, x)
    ensures b.Total(0, start) > 0.0
    ensures Volume(StateBox(b, c, scales, h, start, x)) == PathMass(b, 0, start, x) / b.Total(0, start)
    ensures forall greedy, u, pos :: Uniform(u) ==>
              (SamePath(b.fa, start, x, TreeSample(b, c, scales, h, start, greedy, u, pos).tokens) <==>
               InBox(u, pos, StateBox(b, c, scales, h, start, x)))
  {
    hide Block.Back, Block.Term, RealLeaf, PaddingLeaf, PathOf, EdgeProd, ScaleFrom, Volume, Slot, Row, TreeSample, SamePath, InBox;
    hide Chain.PathWeight, Chain.Seg, Chain.MidBox, Automaton.Walk, PathMass;
    var p := PathOf(b, c, scales, h, start, x);
    PathOfLive(b, c, scales, h, start, x);
    RootRow(b, c, scales, h, start);
    b.BackIsTotal(0, start);
    PathTotal(b, 0, start, x);
    c.MidVolume(h, 0, p);
    RootSlot(b, c, scales, h, start, p[Pow2(h)]);
    VolumeHead(Slot(Row(c, start), p[Pow2(h)]), c.MidBox(h, 0, p));
    CancelAll(c.Seg(0, Pow2(h), start, p[Pow2(h)]), b.Back(0, start), ScaleFrom(scales, 0), EdgeProd(b, 0, start, x), 1.0);
    TimesOne(Times(EdgeProd(b, 0, start, x), ScaleFrom(scales, 0)) / c.Seg(0, Pow2(h), start, p[Pow2(h)]));
    TimesOne(EdgeProd(b, 0, start, x));
    forall greedy, u, pos | Uniform(u)
      ensures SamePath(b.fa, start, x, TreeSample(b, c, scales, h, start, greedy, u, pos).tokens) <==>
              InBox(u, pos, StateBox(b, c, scales, h, start, x))
    {
      TreeRun(b, c, scales, h, start, x, greedy, u, pos);
    }
  }

  lemma TimesOne(a: real)
    ensures Times(a, 1.0) == a
  {
  }
}
