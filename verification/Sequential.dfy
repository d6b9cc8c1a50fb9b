/** The sequential sampler as a function of its uniform draws, and why it samples the posterior exactly. */
module SequentialSpec {
  import opened Prelude
  import opened Sums
  import opened Automata
  import opened Posterior

  /** A stream of uniform draws in [0, 1). */
  ghost predicate Uniform(u: nat -> real) {
    forall k :: 0.0 <= u(k) < 1.0
  }

  /** What a run produces: the tokens, the node it ends in, and the next unused draw. */
  datatype Drawn = Drawn(tokens: seq<nat>, final: nat, pos: nat)

  // ---- arithmetic shared by the samplers ----

  lemma TimesPositive(x: real, y: real)
    requires x >= 0.0 && y >= 0.0
    ensures Times(x, y) >= 0.0
    ensures Times(x, y) > 0.0 <==> x > 0.0 && y > 0.0
  {
  }

  /** A sum with a positive term is positive. */
  lemma SumHasPositive(s: seq<real>, i: nat)
    requires NonNegative(s) && i < |s| && s[i] > 0.0
    ensures Sum(s) > 0.0
  {
    SumNonNegative(s);
    SumZero(s);
  }

  lemma PositiveHasTerm(s: seq<real>) returns (i: nat)
    requires NonNegative(s) && Sum(s) > 0.0
    ensures i < |s| && s[i] > 0.0
  {
    SumZero(s);
    i :| 0 <= i < |s| && s[i] != 0.0;
  }

  // ---- the token given the edge ----

  /** The first token of largest mass: the greedy draw keeps the earliest of equals. */
  function BestFrom(ms: seq<real>, best: nat, i: nat): (k: nat)
    requires best < i <= |ms|
    requires forall j :: 0 <= j < i ==> ms[j] <= ms[best] && (j < best ==> ms[j] < ms[best])
    ensures k < |ms| && forall j :: 0 <= j < |ms| ==> ms[j] <= ms[k] && (j < k ==> ms[j] < ms[k])
    decreases |ms| - i
  {
    if i == |ms| then best
    else if ms[i] > ms[best] then BestFrom(ms, i, i + 1)
    else BestFrom(ms, best, i + 1)
  }

  /** The token emitted at position `t` on edge `e`: the pin, the greedy choice, or a multinomial draw. */
  function TokenOn(b: Block, t: nat, e: nat, greedy: bool, r: real): nat
    requires b.Valid() && t < b.len && e < b.fa.NEdges()
  {
    b.EdgeInRange(e);
    var toks := b.fa.EdgeTokens(e);
    var ms := b.TokenMasses(t, toks);
    if b.forced[t] != FREE then b.forced[t]
    else if greedy then toks[BestFrom(ms, 0, 1)]
    else toks[Draw(ms, r)]
  }

  /** How many uniforms the token choice uses up. */
  function TokenDraws(b: Block, t: nat, greedy: bool): nat
    requires b.Valid() && t < b.len
  {
    if b.forced[t] != FREE || greedy then 0 else 1
  }

  /** Whatever the mode, a token drawn on an edge with mass is allowed by the edge and carries weight. */
  lemma TokenOnEdge(b: Block, t: nat, e: nat, greedy: bool, r: real)
    requires b.Valid() && t < b.len && e < b.fa.NEdges() && 0.0 <= r < 1.0 && b.EdgeMass(t, e) > 0.0
    ensures var v := TokenOn(b, t, e, greedy, r);
            v in b.fa.EdgeTokens(e) && v < b.fa.vocab && b.Eff(t, v) > 0.0
  {
    b.EdgeInRange(e);
    var toks := b.fa.EdgeTokens(e);
    var ms := b.TokenMasses(t, toks);
    var i := PositiveHasTerm(ms);
    assert b.Eff(t, toks[i]) > 0.0;
    DrawPositive(ms, r);
  }

  // ---- the path ----

  /** The edge taken from `s` at position `t`. */
  function EdgeTaken(b: Block, t: nat, s: nat, r: real): (e: nat)
    requires b.Valid() && t < b.len && s < b.fa.nNodes && b.Back(t, s) > 0.0
    ensures b.fa.OutLo(s) <= e < b.fa.OutHi(s)
  {
    assert b.Flows(t, s) != [];
    b.fa.OutLo(s) + Draw(b.Flows(t, s), r)
  }

  lemma EdgeTakenLive(b: Block, t: nat, s: nat, r: real)
    requires b.Valid() && t < b.len && s < b.fa.nNodes && b.Back(t, s) > 0.0 && 0.0 <= r < 1.0
    ensures var e := EdgeTaken(b, t, s, r);
            b.EdgeMass(t, e) > 0.0 && b.fa.edgeDst[e] < b.fa.nNodes && b.Back(t + 1, b.fa.edgeDst[e]) > 0.0
  {
    var e := EdgeTaken(b, t, s, r);
    var ws := b.Flows(t, s);
    DrawPositive(ws, r);
    b.FlowAt(t, s, e);
    b.EdgeInRange(e);
    TimesPositive(b.EdgeMass(t, e), b.Back(t + 1, b.fa.edgeDst[e]));
  }

  /** The whole draw from node `s` at position `t`, reading uniforms from `u` starting at `pos`. */
  function Sample(b: Block, t: nat, s: nat, greedy: bool, u: nat -> real, pos: nat): Drawn
    requires b.Valid() && t <= b.len && s < b.fa.nNodes && Uniform(u) && b.Back(t, s) > 0.0
    decreases b.len - t
  {
    if t == b.len then Drawn([], s, pos)
    else
      var e := EdgeTaken(b, t, s, u(pos));
      EdgeTakenLive(b, t, s, u(pos));
      var v := TokenOn(b, t, e, greedy, u(pos + 1));
      var rest := Sample(b, t + 1, b.fa.edgeDst[e], greedy, u, pos + 1 + TokenDraws(b, t, greedy));
      Drawn([v] + rest.tokens, rest.final, rest.pos)
  }

  /** Accepted by construction: every run fills the block, ends in the accepting node its tokens walk to,
      honours every pin and emits a sequence of positive weight. */
  lemma {:induction false} AcceptedByConstruction(b: Block, t: nat, s: nat, greedy: bool, u: nat -> real, pos: nat)
    requires b.Valid() && t <= b.len && s < b.fa.nNodes && Uniform(u) && b.Back(t, s) > 0.0
    ensures var d := Sample(b, t, s, greedy, u, pos);
            && |d.tokens| == b.len - t
            && b.fa.Walk(s, d.tokens) == Some(d.final) && b.fa.accept[d.final]
            && b.Weight(t, d.tokens) > 0.0
            && forall i :: 0 <= i < |d.tokens| && b.forced[t + i] != FREE ==> d.tokens[i] == b.forced[t + i]
    decreases b.len - t
  {
    hide Draw, EdgeTaken, TokenOn, Sample, TokenDraws, Block.Back, Block.Flow, Block.Flows, Block.EdgeMass, Block.Eff;
    hide Block.Weight;
    if t == b.len {
      AcceptEnd(b, s, greedy, u, pos);
    } else {
      var e := EdgeTaken(b, t, s, u(pos));
      var v := TokenOn(b, t, e, greedy, u(pos + 1));
      var next := pos + 1 + TokenDraws(b, t, greedy);
      EdgeTakenLive(b, t, s, u(pos));
      TokenOnEdge(b, t, e, greedy, u(pos + 1));
      b.fa.EdgeForUnique(s, v, e);
      AcceptedByConstruction(b, t + 1, b.fa.edgeDst[e], greedy, u, next);
      var rest := Sample(b, t + 1, b.fa.edgeDst[e], greedy, u, next);
      AcceptStep(b, t, s, e, v, rest.tokens, rest.final);
      SampleUnfold(b, t, s, greedy, u, pos);
    }
  }

  lemma AcceptEnd(b: Block, s: nat, greedy: bool, u: nat -> real, pos: nat)
    requires b.Valid() && s < b.fa.nNodes && Uniform(u) && b.Back(b.len, s) > 0.0
    ensures Sample(b, b.len, s, greedy, u, pos) == Drawn([], s, pos)
    ensures b.fa.Walk(s, []) == Some(s) && b.fa.accept[s] && b.Weight(b.len, []) > 0.0
  {
  }

  lemma SampleUnfold(b: Block, t: nat, s: nat, greedy: bool, u: nat -> real, pos: nat)
    requires b.Valid() && t < b.len && s < b.fa.nNodes && Uniform(u) && b.Back(t, s) > 0.0
    ensures var e := EdgeTaken(b, t, s, u(pos));
            && b.fa.edgeDst[e] < b.fa.nNodes && b.Back(t + 1, b.fa.edgeDst[e]) > 0.0
            && var rest := Sample(b, t + 1, b.fa.edgeDst[e], greedy, u, pos + 1 + TokenDraws(b, t, greedy));
            Sample(b, t, s, greedy, u, pos) == Drawn([TokenOn(b, t, e, greedy, u(pos + 1))] + rest.tokens, rest.final, rest.pos)
  {
    hide Draw, EdgeTaken, TokenOn, TokenDraws, Block.Back, Block.Flow, Block.Flows, Block.EdgeMass, Block.Eff;
    EdgeTakenLive(b, t, s, u(pos));
  }

  /** Prepending an allowed token of positive weight keeps everything promised about an output. */
  lemma AcceptStep(b: Block, t: nat, s: nat, e: nat, v: nat, rest: seq<nat>, final: nat)
    requires b.Valid() && t < b.len && s < b.fa.nNodes && b.fa.EdgeFor(s, v) == Some(e) && b.fa.edgeDst[e] < b.fa.nNodes
    requires v < b.fa.vocab && b.Eff(t, v) > 0.0 && |rest| == b.len - t - 1
    requires b.fa.Walk(b.fa.edgeDst[e], rest) == Some(final) && b.Weight(t + 1, rest) > 0.0
    requires forall i :: 0 <= i < |rest| && b.forced[t + 1 + i] != FREE ==> rest[i] == b.forced[t + 1 + i]
    ensures var x := [v] + rest;
            && b.fa.Walk(s, x) == Some(final) && b.Weight(t, x) > 0.0
            && forall i :: 0 <= i < |x| && b.forced[t + i] != FREE ==> x[i] == b.forced[t + i]
  {
    var x := [v] + rest;
    assert x[1..] == rest;
    TimesPositive(b.Weight(t + 1, rest), b.Eff(t, v));
    forall i | 0 <= i < |x| && b.forced[t + i] != FREE ensures x[i] == b.forced[t + i] {
      if i > 0 {
        assert rest[i - 1] == b.forced[t + 1 + (i - 1)];
      }
    }
  }

  // ---- the greedy mode ----

  /** Among the tokens of the edge none weighs more than `v`, and the smaller ones weigh less. */
  ghost predicate Heaviest(b: Block, t: nat, e: nat, v: nat)
    requires b.Valid() && t < b.len && e < b.fa.NEdges() && v < b.fa.vocab
  {
    && v in b.fa.EdgeTokens(e)
    && forall w :: w in b.fa.EdgeTokens(e) && w < b.fa.vocab ==>
         b.Eff(t, w) <= b.Eff(t, v) && (w < v ==> b.Eff(t, w) < b.Eff(t, v))
  }

  /** Entry `i` of `x` is the heaviest token of the edge that the walk of `x` crosses there, unless it is pinned. */
  ghost predicate GreedyAt(b: Block, t: nat, s: nat, x: seq<nat>, i: nat)
    requires b.Valid() && t + |x| <= b.len && s < b.fa.nNodes && i < |x|
  {
    b.forced[t + i] == FREE ==>
      && b.fa.Walk(s, x[..i]).Some? && x[i] < b.fa.vocab
      && var e := b.fa.EdgeFor(b.fa.Walk(s, x[..i]).value, x[i]);
      e.Some? && Heaviest(b, t + i, e.value, x[i])
  }

  ghost predicate Greedy(b: Block, t: nat, s: nat, x: seq<nat>)
    requires b.Valid() && t + |x| <= b.len && s < b.fa.nNodes
  {
    forall i :: 0 <= i < |x| ==> GreedyAt(b, t, s, x, i)
  }

  lemma GreedyToken(b: Block, t: nat, e: nat, r: real)
    requires b.Valid() && t < b.len && e < b.fa.NEdges() && b.forced[t] == FREE
    ensures var v := TokenOn(b, t, e, true, r); v < b.fa.vocab && Heaviest(b, t, e, v)
  {
    hide Block.Eff;
    b.EdgeInRange(e);
    var toks := b.fa.EdgeTokens(e);
    var ms := b.TokenMasses(t, toks);
    var k := BestFrom(ms, 0, 1);
    forall w | w in toks ensures b.Eff(t, w) <= b.Eff(t, toks[k]) && (w < toks[k] ==> b.Eff(t, w) < b.Eff(t, toks[k])) {
      var j :| 0 <= j < |toks| && toks[j] == w;
      assert ms[j] == b.Eff(t, w) && ms[k] == b.Eff(t, toks[k]);
      if k < j { assert toks[k] < toks[j]; }
    }
  }

  lemma WalkCons(fa: Automaton, s: nat, v: nat, y: seq<nat>, e: nat)
    requires fa.Valid() && s < fa.nNodes && fa.EdgeFor(s, v) == Some(e) && fa.edgeDst[e] < fa.nNodes
    ensures fa.Walk(s, [v] + y) == fa.Walk(fa.edgeDst[e], y)
  {
    assert ([v] + y)[1..] == y;
  }

  /** A greedy first token in front of greedy others. */
  lemma GreedyStep(b: Block, t: nat, s: nat, e: nat, v: nat, rest: seq<nat>)
    requires b.Valid() && t < b.len && s < b.fa.nNodes && t + 1 + |rest| == b.len
    requires v < b.fa.vocab && b.fa.EdgeFor(s, v) == Some(e) && b.fa.edgeDst[e] < b.fa.nNodes
    requires b.forced[t] == FREE ==> Heaviest(b, t, e, v)
    requires Greedy(b, t + 1, b.fa.edgeDst[e], rest)
    ensures Greedy(b, t, s, [v] + rest)
  {
    hide Heaviest, Automaton.Valid;
    var x := [v] + rest;
    forall i | 0 <= i < |x| ensures GreedyAt(b, t, s, x, i) {
      if i > 0 {
        assert GreedyAt(b, t + 1, b.fa.edgeDst[e], rest, i - 1);
        WalkCons(b.fa, s, v, rest[..i - 1], e);
        assert x[..i] == [v] + rest[..i - 1];
        assert t + 1 + (i - 1) == t + i && x[i] == rest[i - 1];
      } else {
        assert x[..0] == [];
      }
    }
  }

  /** In the greedy mode every free position of the output carries the earliest heaviest token of the edge it crosses. */
  lemma {:induction false} GreedyTokens(b: Block, t: nat, s: nat, u: nat -> real, pos: nat)
    requires b.Valid() && t <= b.len && s < b.fa.nNodes && Uniform(u) && b.Back(t, s) > 0.0
    ensures var x := Sample(b, t, s, true, u, pos).tokens;
            |x| == b.len - t && Greedy(b, t, s, x)
    decreases b.len - t
  {
    hide Draw, EdgeTaken, TokenOn, Sample, TokenDraws, Heaviest, Greedy, Automaton.Walk, Automaton.EdgeFor;
    hide Block.Back, Block.Flow, Block.Flows, Block.EdgeMass, Block.Eff, Block.Weight;
    if t == b.len {
      AcceptEnd(b, s, true, u, pos);
      NothingGreedy(b, t, s);
    } else {
      var e := EdgeTaken(b, t, s, u(pos));
      var v := TokenOn(b, t, e, true, u(pos + 1));
      var next := pos + 1 + TokenDraws(b, t, true);
      EdgeTakenLive(b, t, s, u(pos));
      TokenOnEdge(b, t, e, true, u(pos + 1));
      b.fa.EdgeForUnique(s, v, e);
      GreedyTokens(b, t + 1, b.fa.edgeDst[e], u, next);
      if b.forced[t] == FREE { GreedyToken(b, t, e, u(pos + 1)); }
      GreedyStep(b, t, s, e, v, Sample(b, t + 1, b.fa.edgeDst[e], true, u, next).tokens);
      SampleUnfold(b, t, s, true, u, pos);
    }
  }

  lemma NothingGreedy(b: Block, t: nat, s: nat)
    requires b.Valid() && t <= b.len && s < b.fa.nNodes
    ensures Greedy(b, t, s, [])
  {
  }

  /** What every output promises: it fills the block, walks from the start to the reported accepting node, keeps every pin
      and carries weight; in the greedy mode its free tokens are the heaviest of their edges. */
  ghost predicate Lawful(b: Block, start: nat, x: seq<nat>, final: nat, greedy: bool)
    requires b.Valid() && start < b.fa.nNodes
  {
    && |x| == b.len && b.fa.Walk(start, x) == Some(final) && b.fa.accept[final] && b.Weight(0, x) > 0.0
    && (forall i :: 0 <= i < b.len && b.forced[i] != FREE ==> x[i] == b.forced[i])
    && (greedy ==> Greedy(b, 0, start, x))
  }

  lemma SampleLawful(b: Block, s: nat, greedy: bool, u: nat -> real, pos: nat)
    requires b.Valid() && s < b.fa.nNodes && Uniform(u) && b.Back(0, s) > 0.0
    ensures var d := Sample(b, 0, s, greedy, u, pos); Lawful(b, s, d.tokens, d.final, greedy)
  {
    hide Sample, Block.Back, Block.Weight, Automaton.Walk, Greedy;
    AcceptedByConstruction(b, 0, s, greedy, u, pos);
    if greedy { GreedyTokens(b, 0, s, u, pos); }
    forall i | 0 <= i < b.len && b.forced[i] != FREE ensures Sample(b, 0, s, greedy, u, pos).tokens[i] == b.forced[i] {
      assert b.forced[0 + i] != FREE;
    }
  }

  /** The free positions from `t` on. */
  function FreeFrom(b: Block, t: nat): (n: nat)
    requires b.Valid() && t <= b.len
    ensures n <= b.len - t
    decreases b.len - t
  {
    if t == b.len then 0 else (if b.forced[t] == FREE then 1 else 0) + FreeFrom(b, t + 1)
  }

  /** A run uses one uniform for every edge, and in the multinomial mode one more for every free position. */
  lemma {:induction false} DrawsUsed(b: Block, t: nat, s: nat, greedy: bool, u: nat -> real, pos: nat)
    requires b.Valid() && t <= b.len && s < b.fa.nNodes && Uniform(u) && b.Back(t, s) > 0.0
    ensures Sample(b, t, s, greedy, u, pos).pos == pos + (b.len - t) + if greedy then 0 else FreeFrom(b, t)
    decreases b.len - t
  {
    hide Draw, EdgeTaken, TokenOn, Sample, Block.Back, Block.Flow, Block.Flows, Block.EdgeMass, Block.Eff, Block.Weight;
    if t == b.len {
      AcceptEnd(b, s, greedy, u, pos);
    } else {
      var e := EdgeTaken(b, t, s, u(pos));
      EdgeTakenLive(b, t, s, u(pos));
      DrawsUsed(b, t + 1, b.fa.edgeDst[e], greedy, u, pos + 1 + TokenDraws(b, t, greedy));
      SampleUnfold(b, t, s, greedy, u, pos);
    }
  }

  // ---- boxes of draws ----

  /** Consecutive draws fall into consecutive intervals. */
  ghost predicate InBox(u: nat -> real, pos: nat, box: seq<Interval>)
    decreases |box|
  {
    box == [] || (box[0].Holds(u(pos)) && InBox(u, pos + 1, box[1..]))
  }

  /** The probability of a box of independent uniform draws. */
  function Volume(box: seq<Interval>): real {
    if box == [] then 1.0 else Times(box[0].Width(), Volume(box[1..]))
  }

  lemma InBoxHead(u: nat -> real, pos: nat, i: Interval, rest: seq<Interval>)
    ensures InBox(u, pos, [i] + rest) <==> i.Holds(u(pos)) && InBox(u, pos + 1, rest)
  {
    assert ([i] + rest)[1..] == rest;
  }

  lemma VolumeHead(i: Interval, rest: seq<Interval>)
    ensures Volume([i] + rest) == Times(i.Width(), Volume(rest))
  {
    assert ([i] + rest)[1..] == rest;
  }

  /** The box lies in the unit cube, so that its volume is a probability. */
  ghost predicate InUnit(box: seq<Interval>) {
    forall k :: 0 <= k < |box| ==> 0.0 <= box[k].lo <= box[k].hi <= 1.0
  }

  /** Completing a sequence of positive weight is possible: the backward weight is positive along it. */
  lemma {:induction false} TermLive(b: Block, t: nat, s: nat, x: seq<nat>)
    requires b.Valid() && t <= b.len && s < b.fa.nNodes && |x| == b.len - t && b.Term(t, s, x) > 0.0
    ensures b.Back(t, s) > 0.0
    decreases |x|
  {
    if x != [] {
      var e := TermEdge(b, t, s, x);
      TermLive(b, t + 1, b.fa.edgeDst[e], x[1..]);
      TimesPositive(b.EdgeMass(t, e), b.Back(t + 1, b.fa.edgeDst[e]));
      b.FlowAt(t, s, e);
      SumHasPositive(b.Flows(t, s), e - b.fa.OutLo(s));
    }
  }

  /** The first step of an accepted sequence of positive weight. */
  lemma TermEdge(b: Block, t: nat, s: nat, x: seq<nat>) returns (e: nat)
    requires b.Valid() && t < b.len && s < b.fa.nNodes && x != [] && b.Term(t, s, x) > 0.0
    ensures x[0] < b.fa.vocab && b.fa.EdgeFor(s, x[0]) == Some(e) && b.fa.OutLo(s) <= e < b.fa.OutHi(s)
    ensures b.fa.edgeDst[e] < b.fa.nNodes && x[0] in b.fa.EdgeTokens(e)
    ensures b.Term(t, s, x) == Times(b.Term(t + 1, b.fa.edgeDst[e], x[1..]), b.Eff(t, x[0]))
    ensures b.Eff(t, x[0]) > 0.0 && b.Term(t + 1, b.fa.edgeDst[e], x[1..]) > 0.0
    ensures b.EdgeMass(t, e) > 0.0
  {
    var v := x[0];
    assert x == [v] + x[1..];
    assert b.fa.Accepts(s, x);
    b.TermStep(t, s, v, x[1..]);
    e := b.fa.EdgeFor(s, v).value;
    b.EdgeInRange(e);
    TimesPositive(b.Term(t + 1, b.fa.edgeDst[e], x[1..]), b.Eff(t, v));
    var i :| 0 <= i < |b.fa.EdgeTokens(e)| && b.fa.EdgeTokens(e)[i] == v;
    assert b.TokenMasses(t, b.fa.EdgeTokens(e))[i] == b.Eff(t, v);
    SumHasPositive(b.TokenMasses(t, b.fa.EdgeTokens(e)), i);
  }

  /** The position of a token in a sorted set. */
  function IndexOf(toks: seq<nat>, v: nat): (i: nat)
    requires v in toks
    ensures i < |toks| && toks[i] == v
  {
    if toks[0] == v then 0 else 1 + IndexOf(toks[1..], v)
  }

  /** The intervals of the token draw, given the edge: one for a free position, none for a pin. */
  function TokenBox(b: Block, t: nat, e: nat, v: nat): seq<Interval>
    requires b.Valid() && t < b.len && e < b.fa.NEdges() && v in b.fa.EdgeTokens(e) && b.EdgeMass(t, e) > 0.0
  {
    b.EdgeInRange(e);
    var toks := b.fa.EdgeTokens(e);
    if b.forced[t] != FREE then [] else [Slot(b.TokenMasses(t, toks), IndexOf(toks, v))]
  }

  lemma TokenBoxExact(b: Block, t: nat, e: nat, v: nat, u: nat -> real, pos: nat)
    requires b.Valid() && t < b.len && e < b.fa.NEdges() && Uniform(u)
    requires v in b.fa.EdgeTokens(e) && v < b.fa.vocab && b.EdgeMass(t, e) > 0.0 && b.Eff(t, v) > 0.0
    ensures TokenOn(b, t, e, false, u(pos)) == v <==> InBox(u, pos, TokenBox(b, t, e, v))
    ensures TokenDraws(b, t, false) == |TokenBox(b, t, e, v)|
    ensures Times(b.EdgeMass(t, e), Volume(TokenBox(b, t, e, v))) == b.Eff(t, v)
  {
    b.EdgeInRange(e);
    var toks := b.fa.EdgeTokens(e);
    var ms := b.TokenMasses(t, toks);
    var k := IndexOf(toks, v);
    if b.forced[t] == FREE {
      DrawExact(ms, u(pos), k);
      var i := Draw(ms, u(pos));
      assert toks[i] == toks[k] ==> i == k;
      SlotWidth(ms, k);
      InBoxHead(u, pos, Slot(ms, k), []);
      VolumeHead(Slot(ms, k), []);
      assert [Slot(ms, k)] + [] == [Slot(ms, k)];
      ShareBack(Sum(ms), ms[k]);
    } else {
      PinnedMass(b, t, e);
    }
  }

  lemma ShareBack(total: real, x: real)
    requires total > 0.0
    ensures Times(total, Times(x / total, 1.0)) == x
  {
  }

  /** A pinned position contributes one to the edge that allows the pin. */
  lemma PinnedMass(b: Block, t: nat, e: nat)
    requires b.Valid() && t < b.len && e < b.fa.NEdges() && b.forced[t] != FREE
    ensures b.EdgeMass(t, e) == if b.forced[t] in b.fa.EdgeTokens(e) then 1.0 else 0.0
  {
    b.EdgeInRange(e);
    var toks := b.fa.EdgeTokens(e);
    var ms := b.TokenMasses(t, toks);
    if b.forced[t] in toks {
      var f := (i: nat) => if i < |ms| then ms[i] else 0.0;
      SumAsRange(ms, f);
      SumToSingle(|ms|, f, IndexOf(toks, b.forced[t]));
    } else {
      SumZero(ms);
    }
  }

  /** `e` is the first edge on the path of `x`, and everything after it is live. */
  ghost predicate StepOf(b: Block, t: nat, s: nat, x: seq<nat>, e: nat) {
    && b.Valid() && t < b.len && s < b.fa.nNodes && |x| == b.len - t
    && x[0] < b.fa.vocab && b.fa.EdgeFor(s, x[0]) == Some(e) && b.fa.edgeDst[e] < b.fa.nNodes
    && b.EdgeMass(t, e) > 0.0 && Sum(b.Flows(t, s)) > 0.0
    && b.Term(t + 1, b.fa.edgeDst[e], x[1..]) > 0.0
  }

  lemma TermStepOf(b: Block, t: nat, s: nat, x: seq<nat>)
    requires b.Valid() && t < b.len && s < b.fa.nNodes && |x| == b.len - t && b.Term(t, s, x) > 0.0
    ensures b.fa.EdgeFor(s, x[0]).Some? && StepOf(b, t, s, x, b.fa.EdgeFor(s, x[0]).value)
  {
    var e := TermEdge(b, t, s, x);
    TermLive(b, t, s, x);
  }

  function EdgeSlot(b: Block, t: nat, s: nat, e: nat): Interval
    requires b.Valid() && t < b.len && s < b.fa.nNodes && b.fa.OutLo(s) <= e < b.fa.OutHi(s)
    requires Sum(b.Flows(t, s)) > 0.0
  {
    Slot(b.Flows(t, s), e - b.fa.OutLo(s))
  }

  /** The set of draws on which the sampler outputs `x`. */
  ghost function Box(b: Block, t: nat, s: nat, x: seq<nat>): seq<Interval>
    requires b.Valid() && t <= b.len && s < b.fa.nNodes && |x| == b.len - t && b.Term(t, s, x) > 0.0
    decreases |x|
  {
    if x == [] then []
    else
      TermStepOf(b, t, s, x);
      var e := b.fa.EdgeFor(s, x[0]).value;
      [EdgeSlot(b, t, s, e)] + (TokenBox(b, t, e, x[0]) + Box(b, t + 1, b.fa.edgeDst[e], x[1..]))
  }

  /** The sampler outputs `x` exactly on `x`'s box. */
  lemma {:induction false} SampleExact(b: Block, t: nat, s: nat, x: seq<nat>, u: nat -> real, pos: nat)
    requires b.Valid() && t <= b.len && s < b.fa.nNodes && |x| == b.len - t && b.Term(t, s, x) > 0.0
    requires Uniform(u) && b.Back(t, s) > 0.0
    ensures Sample(b, t, s, false, u, pos).tokens == x <==> InBox(u, pos, Box(b, t, s, x))
    decreases |x|
  {
    hide Draw, Slot, EdgeTaken, TokenOn, EdgeSlot, Sample, Box, InBox, TokenBox, TokenDraws;
    hide Block.Back, Block.Flow, Block.Flows, Block.EdgeMass, Block.Term, Block.Eff;
    if x == [] {
      SampleEnd(b, s, u, pos);
    } else {
      var e := TermEdge(b, t, s, x);
      TermStepOf(b, t, s, x);
      TermLive(b, t + 1, b.fa.edgeDst[e], x[1..]);
      SampleExact(b, t + 1, b.fa.edgeDst[e], x[1..], u, pos + 1 + TokenDraws(b, t, false));
      SampleHead(b, t, s, x, u, pos);
      TokenBoxExact(b, t, e, x[0], u, pos + 1);
      BoxUnfold(b, t, s, x, e);
      InThree(u, pos, EdgeSlot(b, t, s, e), TokenBox(b, t, e, x[0]), Box(b, t + 1, b.fa.edgeDst[e], x[1..]));
      EdgeSlotHit(b, t, s, e, u(pos));
    }
  }

  lemma SampleEnd(b: Block, s: nat, u: nat -> real, pos: nat)
    requires b.Valid() && s < b.fa.nNodes && Uniform(u) && b.Back(b.len, s) > 0.0 && b.Term(b.len, s, []) > 0.0
    ensures Sample(b, b.len, s, false, u, pos).tokens == [] && InBox(u, pos, Box(b, b.len, s, []))
  {
  }

  lemma EdgeSlotHit(b: Block, t: nat, s: nat, e: nat, r: real)
    requires b.Valid() && t < b.len && s < b.fa.nNodes && b.fa.OutLo(s) <= e < b.fa.OutHi(s)
    requires b.Back(t, s) > 0.0 && 0.0 <= r < 1.0
    ensures EdgeTaken(b, t, s, r) == e <==> EdgeSlot(b, t, s, e).Holds(r)
  {
    EdgeSlotExact(b, t, s, e, r);
  }

  lemma InThree(u: nat -> real, pos: nat, i: Interval, a: seq<Interval>, c: seq<Interval>)
    ensures InBox(u, pos, [i] + (a + c)) <==>
            i.Holds(u(pos)) && InBox(u, pos + 1, a) && InBox(u, pos + 1 + |a|, c)
  {
    InBoxThree(u, pos, i, a, c);
  }

  lemma BoxUnfold(b: Block, t: nat, s: nat, x: seq<nat>, e: nat)
    requires StepOf(b, t, s, x, e) && b.Term(t, s, x) > 0.0
    ensures Box(b, t, s, x) == [EdgeSlot(b, t, s, e)] + (TokenBox(b, t, e, x[0]) + Box(b, t + 1, b.fa.edgeDst[e], x[1..]))
  {
    hide EdgeSlot, TokenBox, Block.Back, Block.Flow, Block.Flows, Block.EdgeMass;
  }

  lemma EdgeSlotExact(b: Block, t: nat, s: nat, e: nat, r: real)
    requires b.Valid() && t < b.len && s < b.fa.nNodes && b.fa.OutLo(s) <= e < b.fa.OutHi(s)
    requires b.Back(t, s) > 0.0 && 0.0 <= r < 1.0
    ensures EdgeTaken(b, t, s, r) == e <==> EdgeSlot(b, t, s, e).Holds(r)
    ensures EdgeSlot(b, t, s, e).Width() == b.Flow(t, e) / b.Back(t, s)
  {
    DrawExact(b.Flows(t, s), r, e - b.fa.OutLo(s));
    SlotWidth(b.Flows(t, s), e - b.fa.OutLo(s));
    b.FlowAt(t, s, e);
  }

  lemma InBoxThree(u: nat -> real, pos: nat, i: Interval, a: seq<Interval>, c: seq<Interval>)
    ensures InBox(u, pos, [i] + (a + c)) <==>
            i.Holds(u(pos)) && InBox(u, pos + 1, a) && InBox(u, pos + 1 + |a|, c)
    ensures Volume([i] + (a + c)) == Times(i.Width(), Times(Volume(a), Volume(c)))
  {
    InBoxHead(u, pos, i, a + c);
    InBoxSplit(u, pos + 1, a, c);
    VolumeHead(i, a + c);
    VolumeConcat(a, c);
  }

  lemma {:induction false} InBoxSplit(u: nat -> real, pos: nat, a: seq<Interval>, c: seq<Interval>)
    ensures InBox(u, pos, a + c) <==> InBox(u, pos, a) && InBox(u, pos + |a|, c)
    decreases |a|
  {
    if a == [] {
      assert a + c == c;
    } else {
      assert (a + c)[1..] == a[1..] + c;
      InBoxSplit(u, pos + 1, a[1..], c);
    }
  }

  lemma {:induction false} VolumeConcat(a: seq<Interval>, c: seq<Interval>)
    ensures Volume(a + c) == Times(Volume(a), Volume(c))
  {
    if a == [] {
      assert a + c == c;
    } else {
      VolumeConcat(a[1..], c);
      assert (a + c)[1..] == a[1..] + c;
      TimesAssoc(a[0].Width(), Volume(a[1..]), Volume(c));
    }
  }

  /** One step of a run: the output starts with `x[0]` only through the one edge that allows it. */
  lemma SampleHead(b: Block, t: nat, s: nat, x: seq<nat>, u: nat -> real, pos: nat)
    requires b.Valid() && t < b.len && s < b.fa.nNodes && x != [] && Uniform(u) && b.Back(t, s) > 0.0
    requires b.fa.EdgeFor(s, x[0]).Some?
    requires var e := b.fa.EdgeFor(s, x[0]).value;
             b.EdgeMass(t, e) > 0.0 && b.fa.edgeDst[e] < b.fa.nNodes && b.Back(t + 1, b.fa.edgeDst[e]) > 0.0
    ensures var e := b.fa.EdgeFor(s, x[0]).value;
            Sample(b, t, s, false, u, pos).tokens == x <==>
            && EdgeTaken(b, t, s, u(pos)) == e
            && TokenOn(b, t, e, false, u(pos + 1)) == x[0]
            && Sample(b, t + 1, b.fa.edgeDst[e], false, u, pos + 1 + TokenDraws(b, t, false)).tokens == x[1..]
  {
    hide Draw, EdgeTaken, TokenOn, TokenDraws, Sample, Block.Back, Block.Flow, Block.Flows, Block.EdgeMass, Block.Eff;
    var taken := EdgeTaken(b, t, s, u(pos));
    EdgeTakenLive(b, t, s, u(pos));
    TokenOnEdge(b, t, taken, false, u(pos + 1));
    var v := TokenOn(b, t, taken, false, u(pos + 1));
    b.fa.EdgeForUnique(s, v, taken);
    SampleUnfold(b, t, s, false, u, pos);
    var rest := Sample(b, t + 1, b.fa.edgeDst[taken], false, u, pos + 1 + TokenDraws(b, t, false)).tokens;
    assert ([v] + rest)[0] == v && ([v] + rest)[1..] == rest;
    assert x == [x[0]] + x[1..];
  }

  /** The box of `x` has the volume `x` has in the posterior. */
  lemma {:induction false} BoxVolume(b: Block, t: nat, s: nat, x: seq<nat>)
    requires b.Valid() && t <= b.len && s < b.fa.nNodes && |x| == b.len - t && b.Term(t, s, x) > 0.0
    ensures b.Back(t, s) > 0.0 && Volume(Box(b, t, s, x)) == b.Term(t, s, x) / b.Back(t, s)
    decreases |x|
  {
    TermLive(b, t, s, x);
    if x != [] {
      var e := TermEdge(b, t, s, x);
      TermStepOf(b, t, s, x);
      var d := b.fa.edgeDst[e];
      BoxVolume(b, t + 1, d, x[1..]);
      StepVolume(b, t, s, x, e);
      TokenBoxExact(b, t, e, x[0], _ => 0.0, 0);
      Telescope(b.EdgeMass(t, e), b.Back(t + 1, d), b.Back(t, s), b.Term(t + 1, d, x[1..]), b.Eff(t, x[0]),
                Volume(TokenBox(b, t, e, x[0])));
    } else {
      assert b.Term(t, s, x) == 1.0 && b.Back(t, s) == 1.0;
    }
  }

  lemma StepVolume(b: Block, t: nat, s: nat, x: seq<nat>, e: nat)
    requires StepOf(b, t, s, x, e) && b.Term(t, s, x) > 0.0 && b.Back(t, s) > 0.0
    ensures Volume(Box(b, t, s, x)) ==
            Times(Times(b.EdgeMass(t, e), b.Back(t + 1, b.fa.edgeDst[e])) / b.Back(t, s),
                  Times(Volume(TokenBox(b, t, e, x[0])), Volume(Box(b, t + 1, b.fa.edgeDst[e], x[1..]))))
  {
    EdgeSlotExact(b, t, s, e, 0.0);
    InBoxThree(_ => 0.0, 0, EdgeSlot(b, t, s, e), TokenBox(b, t, e, x[0]), Box(b, t + 1, b.fa.edgeDst[e], x[1..]));
  }

  /** The cancellation behind one step: (mass * after / now) * v * (term / after) == term * eff / now. */
  lemma Telescope(mass: real, after: real, now: real, term: real, eff: real, v: real)
    requires after > 0.0 && now > 0.0 && Times(mass, v) == eff
    ensures Times(Times(mass, after) / now, Times(v, term / after)) == Times(term, eff) / now
  {
    var q := term / after;
    assert q * after == term;
    var p := Times(mass, after) / now;
    assert p * now == Times(mass, after);
    assert Times(p, Times(v, q)) * now == (p * now) * (v * q) == (mass * after) * (v * q) == (mass * v) * (q * after);
  }

  lemma TokenBoxInUnit(b: Block, t: nat, e: nat, v: nat)
    requires b.Valid() && t < b.len && e < b.fa.NEdges() && v in b.fa.EdgeTokens(e) && b.EdgeMass(t, e) > 0.0
    ensures InUnit(TokenBox(b, t, e, v))
  {
    hide Slot, Block.Eff;
    b.EdgeInRange(e);
    if b.forced[t] == FREE { SlotInUnit(b.TokenMasses(t, b.fa.EdgeTokens(e)), IndexOf(b.fa.EdgeTokens(e), v)); }
  }

  lemma EdgeSlotInUnit(b: Block, t: nat, s: nat, e: nat)
    requires b.Valid() && t < b.len && s < b.fa.nNodes && b.fa.OutLo(s) <= e < b.fa.OutHi(s)
    requires Sum(b.Flows(t, s)) > 0.0
    ensures InUnit([EdgeSlot(b, t, s, e)])
  {
    hide Slot, Block.Flow;
    SlotInUnit(b.Flows(t, s), e - b.fa.OutLo(s));
  }

  /** The box of `x` lies in the unit cube. */
  lemma {:induction false} BoxInUnit(b: Block, t: nat, s: nat, x: seq<nat>)
    requires b.Valid() && t <= b.len && s < b.fa.nNodes && |x| == b.len - t && b.Term(t, s, x) > 0.0
    ensures InUnit(Box(b, t, s, x))
    decreases |x|
  {
    hide EdgeSlot, TokenBox, Block.Back, Block.Flow, Block.Flows, Block.EdgeMass, Block.Term, Block.Eff, Automaton.Valid;
    if x != [] {
      var e := TermEdge(b, t, s, x);
      TermStepOf(b, t, s, x);
      BoxInUnit(b, t + 1, b.fa.edgeDst[e], x[1..]);
      EdgeSlotInUnit(b, t, s, e);
      TokenBoxInUnit(b, t, e, x[0]);
      BoxUnfold(b, t, s, x, e);
      var i, j, k := [EdgeSlot(b, t, s, e)], TokenBox(b, t, e, x[0]), Box(b, t + 1, b.fa.edgeDst[e], x[1..]);
      assert InUnit(i + (j + k));
    }
  }

  /** Main result for the sequential sampler. For every sequence of positive weight, the draws on which the run
      outputs it form a box whose volume is the sequence's share of the brute-force total. */
  lemma SequentialExact(b: Block, start: nat, x: seq<nat>)
    requires b.Valid() && start < b.fa.nNodes && |x| == b.len && b.Term(0, start, x) > 0.0
    ensures b.Back(0, start) == b.Total(0, start) > 0.0
    ensures Volume(Box(b, 0, start, x)) == b.Term(0, start, x) / b.Total(0, start)
    ensures forall u, pos :: Uniform(u) ==>
              (Sample(b, 0, start, false, u, pos).tokens == x <==> InBox(u, pos, Box(b, 0, start, x)))
  {
    b.BackIsTotal(0, start);
    BoxVolume(b, 0, start, x);
    forall u, pos | Uniform(u)
      ensures Sample(b, 0, start, false, u, pos).tokens == x <==> InBox(u, pos, Box(b, 0, start, x))
    {
      SampleExact(b, 0, start, x, u, pos);
    }
  }

  /** Nothing outside the support is ever produced. */
  lemma SequentialSupport(b: Block, start: nat, greedy: bool, u: nat -> real, pos: nat)
    requires b.Valid() && start < b.fa.nNodes && Uniform(u) && b.Total(0, start) > 0.0
    ensures b.Back(0, start) > 0.0
    ensures b.Term(0, start, Sample(b, 0, start, greedy, u, pos).tokens) > 0.0
  {
    b.BackIsTotal(0, start);
    AcceptedByConstruction(b, 0, start, greedy, u, pos);
  }

  /** The total vanishes exactly when no sequence that fills the block has positive weight. */
  lemma TotalZero(b: Block, start: nat)
    requires b.Valid() && start < b.fa.nNodes
    ensures b.Total(0, start) >= 0.0
    ensures b.Total(0, start) == 0.0 <==> forall x :: |x| == b.len ==> b.Term(0, start, x) == 0.0
  {
    b.BackIsTotal(0, start);
    if forall x :: |x| == b.len ==> b.Term(0, start, x) == 0.0 {
      SumSeqsZero(b.fa.vocab, b.len, (x: seq<nat>) => b.Term(0, start, x));
    }
    forall x | |x| == b.len && b.Term(0, start, x) > 0.0 ensures b.Back(0, start) > 0.0 {
      TermLive(b, 0, start, x);
    }
  }
}
