/** The sequential sampler as it runs: reused scratch buffers, flat tables, shifted weights. */
module SequentialSampler {
  import opened Prelude
  import opened Sums
  import opened Automata
  import opened Tables
  import opened Posterior
  import opened SequentialSpec

  /** The seeded generator, seen as the stream of uniforms it hands out. */
  class DrawStream {
    const u: nat -> real
    const raw: nat -> nat
    var pos: nat

    constructor (stream: nat -> real, words: nat -> nat)
      ensures u == stream && raw == words && pos == 0
    {
      u := stream;
      raw := words;
      pos := 0;
    }

    method NextU64() returns (w: nat)
      modifies this`pos
      ensures w == raw(old(pos)) && pos == old(pos) + 1
    {
      w := raw(pos);
      pos := pos + 1;
    }

    method NextF64() returns (r: real)
      modifies this`pos
      ensures r == u(old(pos)) && pos == old(pos) + 1
    {
      r := u(pos);
      pos := pos + 1;
    }
  }

  /** Bounded scratch: every buffer only grows, and old contents stay in place. */
  class FaScratch {
    var eLog: seq<real>
    var back: seq<real>
    var weights: seq<real>
    var erow: seq<real>

    constructor ()
    {
      eLog, back, weights, erow := [], [], [], [];
    }

    method Ensure(len: nat, nEdges: nat, nNodes: nat, fanout: nat, vocab: nat)
      modifies this
      ensures |eLog| >= len * nEdges && |back| >= (len + 1) * nNodes
      ensures |weights| >= fanout && |erow| >= vocab
      ensures old(eLog) <= eLog && old(back) <= back && old(weights) <= weights && old(erow) <= erow
    {
      if |eLog| < len * nEdges {
        eLog := eLog + seq(len * nEdges - |eLog|, _ => 0.0);
      }
      if |back| < (len + 1) * nNodes {
        back := back + seq((len + 1) * nNodes - |back|, _ => 0.0);
      }
      if |erow| < vocab {
        erow := erow + seq(vocab - |erow|, _ => 0.0);
      }
      if |weights| < fanout {
        weights := weights + seq(fanout - |weights|, _ => 0.0);
      }
    }
  }

  // ---- what the flat tables hold ----

  function FoldRow(b: Block, t: nat): (r: seq<real>)
    requires b.Valid() && t < b.len
    ensures |r| == b.fa.NEdges() && forall e :: 0 <= e < |r| ==> r[e] == b.EdgeMass(t, e)
  {
    seq(b.fa.NEdges(), e requires 0 <= e < b.fa.NEdges() => b.EdgeMass(t, e))
  }

  /** The rows of the emission table below position `k`. */
  function FoldRows(b: Block, k: nat): (r: seq<seq<real>>)
    requires b.Valid() && k <= b.len
    ensures |r| == k && Wide(r, b.fa.NEdges()) && forall t :: 0 <= t < k ==> r[t] == FoldRow(b, t)
  {
    seq(k, t requires 0 <= t < k => FoldRow(b, t))
  }

  function BackRow(b: Block, t: nat): (r: seq<real>)
    requires b.Valid() && t <= b.len
    ensures |r| == b.fa.nNodes && forall s :: 0 <= s < |r| ==> r[s] == b.Back(t, s)
  {
    seq(b.fa.nNodes, s requires 0 <= s < b.fa.nNodes => b.Back(t, s))
  }

  /** The rows of the backward table from position `t` on. */
  function BackRows(b: Block, t: nat): (r: seq<seq<real>>)
    requires b.Valid() && t <= b.len
    ensures |r| == b.len + 1 - t && Wide(r, b.fa.nNodes)
    ensures forall i :: 0 <= i < |r| ==> r[i] == BackRow(b, t + i)
    decreases b.len - t
  {
    if t == b.len then [BackRow(b, t)]
    else
      [BackRow(b, t)] + BackRows(b, t + 1)
  }

  // ---- shifted sums and draws ----

  method Largest(ws: seq<real>) returns (m: real)
    requires NonNegative(ws)
    ensures m >= 0.0 && forall i :: 0 <= i < |ws| ==> ws[i] <= m
    ensures m == 0.0 || m in ws
  {
    m := 0.0;
    for i := 0 to |ws|
      invariant m >= 0.0 && forall j :: 0 <= j < i ==> ws[j] <= m
      invariant m == 0.0 || m in ws
    {
      if ws[i] > m {
        m := ws[i];
      }
    }
  }

  lemma TimesInverse(x: real, m: real)
    requires m > 0.0
    ensures Times(m, Times(x, 1.0 / m)) == x
  {
    assert m * (1.0 / m) == 1.0;
    assert m * (x * (1.0 / m)) == x * (m * (1.0 / m));
  }

  lemma InversePositive(m: real)
    requires m > 0.0
    ensures 1.0 / m > 0.0
  {
  }

  /** `logsumexp_shifted`: the shift by the largest term cancels; all-zero weights give zero. */
  method SumShifted(ws: seq<real>) returns (r: real)
    requires NonNegative(ws)
    ensures r == Sum(ws)
  {
    var m := Largest(ws);
    if m == 0.0 {
      SumZero(ws);
      return 0.0;
    }
    var scaled := Scale(ws, 1.0 / m);
    var acc := 0.0;
    for i := 0 to |ws|
      invariant acc == Sum(scaled[..i])
    {
      SumStep(scaled, i);
      acc := acc + Times(ws[i], 1.0 / m);
    }
    assert scaled[..|ws|] == scaled;
    SumScale(ws, 1.0 / m);
    TimesInverse(Sum(ws), m);
    r := Times(m, acc);
  }

  /** The categorical draw over the first `n` entries of a reused buffer: shift by the largest, scan the cumulative
      sum, fall through to the last index. The total is positive, so the dead-state refusal is never taken. */
  method DrawShifted(scratch: FaScratch, n: nat, r: real) returns (k: nat)
    requires 0 < n <= |scratch.weights| && NonNegative(scratch.weights[..n]) && Sum(scratch.weights[..n]) > 0.0
    requires 0.0 <= r < 1.0
    modifies scratch`weights
    ensures |scratch.weights| == |old(scratch.weights)|
    ensures k == Draw(old(scratch.weights[..n]), r)
  {
    ghost var ws := scratch.weights[..n];
    var m := Largest(scratch.weights[..n]);
    SumZero(ws);
    assert m > 0.0;
    ghost var scaled := Scale(ws, 1.0 / m);
    var total := 0.0;
    for i := 0 to n
      invariant |scratch.weights| == |old(scratch.weights)|
      invariant forall j :: 0 <= j < i ==> scratch.weights[j] == scaled[j]
      invariant forall j :: i <= j < n ==> scratch.weights[j] == ws[j]
      invariant total == Sum(scaled[..i])
    {
      SumStep(scaled, i);
      var w := Times(scratch.weights[i], 1.0 / m);
      scratch.weights := scratch.weights[i := w];
      total := total + w;
    }
    assert scaled[..n] == scaled && scratch.weights[..n] == scaled;
    k := Scan(scratch.weights[..n], Times(r, total));
    InversePositive(m);
    DrawScale(ws, 1.0 / m, r);
  }

  /** The scan over cumulative weights. */
  method Scan(ws: seq<real>, r: real) returns (k: nat)
    requires ws != []
    ensures k == Pick(ws, r)
  {
    var acc := 0.0;
    k := |ws| - 1;
    var i := 0;
    while i < |ws|
      invariant 0 <= i <= |ws|
      invariant k == |ws| - 1
      invariant i < |ws| ==> Pick(ws, r) == PickFrom(ws, i, acc, r)
      invariant i == |ws| ==> Pick(ws, r) == |ws| - 1
    {
      if r < acc + ws[i] {
        return i;
      }
      acc := acc + ws[i];
      i := i + 1;
    }
  }

  // ---- 1. the emission fold ----

  /** The shared exponential row of one position: every mass over the largest of the row. */
  ghost predicate RowShifted(b: Block, t: nat, erow: seq<real>, rmax: real)
    requires b.Valid() && t < b.len
  {
    && |erow| >= b.fa.vocab && rmax >= 0.0
    && (rmax == 0.0 ==> forall v :: 0 <= v < b.fa.vocab ==> MassAt(b, t, v) == 0.0)
    && (rmax > 0.0 ==> forall v :: 0 <= v < b.fa.vocab ==> erow[v] == Times(MassAt(b, t, v), 1.0 / rmax))
  }

  function MassAt(b: Block, t: nat, v: nat): real
    requires b.Valid() && t < b.len && v < b.fa.vocab
  {
    InRow(t, v, b.len, b.fa.vocab);
    b.mass[t * b.fa.vocab + v]
  }

  /** Fills the shared row of one free position, reusing a buffer that is at least vocabulary-wide. */
  method ShiftRow(b: Block, t: nat, buffer: seq<real>) returns (erow: seq<real>, rmax: real)
    requires b.Valid() && t < b.len && |buffer| >= b.fa.vocab
    ensures |erow| == |buffer| && RowShifted(b, t, erow, rmax)
  {
    erow := buffer;
    rmax := 0.0;
    for v := 0 to b.fa.vocab
      invariant rmax >= 0.0 && forall w :: 0 <= w < v ==> MassAt(b, t, w) <= rmax
    {
      if MassAt(b, t, v) > rmax {
        rmax := MassAt(b, t, v);
      }
    }
    if rmax > 0.0 {
      for v := 0 to b.fa.vocab
        invariant |erow| == |buffer|
        invariant forall w :: 0 <= w < v ==> erow[w] == Times(MassAt(b, t, w), 1.0 / rmax)
      {
        erow := erow[v := Times(MassAt(b, t, v), 1.0 / rmax)];
      }
    } else {
      forall v | 0 <= v < b.fa.vocab ensures MassAt(b, t, v) == 0.0 {
        assert b.mass[t * b.fa.vocab + v] >= 0.0 by { InRow(t, v, b.len, b.fa.vocab); }
      }
      erow := seq(|buffer|, _ => 0.0);
    }
  }

  /** Adds up the shared row over one token set. */
  method AddRow(toks: seq<nat>, erow: seq<real>, ghost terms: seq<real>) returns (acc: real)
    requires |terms| == |toks|
    requires forall i :: 0 <= i < |toks| ==> toks[i] < |erow| && erow[toks[i]] == terms[i]
    ensures acc == Sum(terms)
  {
    acc := 0.0;
    for i := 0 to |toks|
      invariant acc == Sum(terms[..i])
    {
      SumStep(terms, i);
      acc := acc + erow[toks[i]];
    }
    assert terms[..|toks|] == terms;
  }

  /** Shifting a list of masses by a common factor and back. */
  lemma ShiftCancels(ms: seq<real>, m: real)
    requires NonNegative(ms) && m > 0.0
    ensures Times(m, Sum(Scale(ms, 1.0 / m))) == Sum(ms)
    ensures Sum(Scale(ms, 1.0 / m)) > 0.0 <==> Sum(ms) != 0.0
  {
    SumScale(ms, 1.0 / m);
    TimesInverse(Sum(ms), m);
    InversePositive(m);
    SumNonNegative(ms);
    TimesPositive(Sum(ms), 1.0 / m);
  }

  lemma RowTerms(b: Block, t: nat, e: nat, erow: seq<real>, rmax: real)
    requires b.Valid() && t < b.len && e < b.fa.NEdges() && b.forced[t] == FREE
    requires RowShifted(b, t, erow, rmax)
    ensures b.Tokens(b.fa.EdgeTokens(e))
    ensures rmax == 0.0 ==> b.EdgeMass(t, e) == 0.0
    ensures rmax > 0.0 ==> forall i :: 0 <= i < |b.fa.EdgeTokens(e)| ==>
              erow[b.fa.EdgeTokens(e)[i]] == Scale(b.TokenMasses(t, b.fa.EdgeTokens(e)), 1.0 / rmax)[i]
  {
    b.EdgeInRange(e);
    var toks := b.fa.EdgeTokens(e);
    var ms := b.TokenMasses(t, toks);
    forall i | 0 <= i < |toks| ensures ms[i] == MassAt(b, t, toks[i]) {
    }
    if rmax == 0.0 {
      SumZero(ms);
    }
  }

  /** One edge of a free position: the shifted sum over its tokens, shifted back. */
  method FoldEdge(b: Block, t: nat, e: nat, erow: seq<real>, rmax: real) returns (mass: real)
    requires b.Valid() && t < b.len && e < b.fa.NEdges() && b.forced[t] == FREE
    requires RowShifted(b, t, erow, rmax)
    ensures mass == b.EdgeMass(t, e)
  {
    RowTerms(b, t, e, erow, rmax);
    if rmax == 0.0 {
      return 0.0;
    }
    ghost var ms := b.TokenMasses(t, b.fa.EdgeTokens(e));
    ShiftCancels(ms, rmax);
    hide Scale, Sum, Times, MassAt, Block.Eff, Block.TokenMasses;
    var acc := AddRow(b.fa.EdgeTokens(e), erow, Scale(ms, 1.0 / rmax));
    if acc > 0.0 {
      mass := Times(rmax, acc);
    } else {
      mass := 0.0;
    }
  }

  /** One entry of the emission table. */
  method FoldEntry(b: Block, t: nat, e: nat, erow: seq<real>, rmax: real) returns (mass: real)
    requires b.Valid() && t < b.len && e < b.fa.NEdges()
    requires b.forced[t] == FREE ==> RowShifted(b, t, erow, rmax)
    ensures mass == b.EdgeMass(t, e)
  {
    if b.forced[t] == FREE {
      mass := FoldEdge(b, t, e, erow, rmax);
    } else {
      b.EdgeInRange(e);
      PinnedMass(b, t, e);
      var hit := ContainsToken(b.fa.EdgeTokens(e), b.forced[t]);
      mass := if hit then 1.0 else 0.0;
    }
  }

  /** One position of the emission table: a pin folds to an indicator, a free position to the token sums. */
  method FoldPosition(b: Block, t: nat, base: nat, scratch: FaScratch)
    requires b.Valid() && t < b.len && |scratch.erow| >= b.fa.vocab
    requires base + b.fa.NEdges() <= |scratch.eLog|
    modifies scratch`eLog, scratch`erow
    ensures |scratch.eLog| == |old(scratch.eLog)| && |scratch.erow| == |old(scratch.erow)|
    ensures scratch.eLog[..base + b.fa.NEdges()] == old(scratch.eLog)[..base] + FoldRow(b, t)
  {
    hide RowShifted, Block.EdgeMass, Automaton.Valid, FoldRow;
    ghost var row := FoldRow(b, t);
    var nEdges := b.fa.NEdges();
    var rmax := 0.0;
    if b.forced[t] == FREE {
      scratch.erow, rmax := ShiftRow(b, t, scratch.erow);
    }
    for e := 0 to nEdges
      invariant |scratch.eLog| == |old(scratch.eLog)| && |scratch.erow| == |old(scratch.erow)|
      invariant b.forced[t] == FREE ==> RowShifted(b, t, scratch.erow, rmax)
      invariant forall i :: 0 <= i < base ==> scratch.eLog[i] == old(scratch.eLog)[i]
      invariant forall i :: 0 <= i < e ==> scratch.eLog[base + i] == row[i]
    {
      var mass := FoldEntry(b, t, e, scratch.erow, rmax);
      scratch.eLog := scratch.eLog[base + e := mass];
    }
  }

  method FoldAll(b: Block, scratch: FaScratch)
    requires b.Valid() && |scratch.erow| >= b.fa.vocab && b.len * b.fa.NEdges() <= |scratch.eLog|
    modifies scratch`eLog, scratch`erow
    ensures |scratch.eLog| == |old(scratch.eLog)|
    ensures scratch.eLog[..b.len * b.fa.NEdges()] == Flat(FoldRows(b, b.len))
  {
    hide Flat, FoldRow, FoldRows, Block.Valid;
    FoldRowsEnds(b);
    var nEdges := b.fa.NEdges();
    for t := 0 to b.len
      invariant |scratch.eLog| == |old(scratch.eLog)| && |scratch.erow| == |old(scratch.erow)|
      invariant t * nEdges <= b.len * nEdges && scratch.eLog[..t * nEdges] == Flat(FoldRows(b, t))
    {
      RowEnd(t, b.len, nEdges);
      FoldPosition(b, t, t * nEdges, scratch);
      FoldRowsGrow(b, t);
    }
  }

  lemma FoldRowsEnds(b: Block)
    requires b.Valid()
    ensures Flat(FoldRows(b, 0)) == []
  {
  }

  lemma FoldRowsGrow(b: Block, t: nat)
    requires b.Valid() && t < b.len
    ensures Flat(FoldRows(b, t + 1)) == Flat(FoldRows(b, t)) + FoldRow(b, t)
  {
    assert FoldRows(b, t + 1) == FoldRows(b, t) + [FoldRow(b, t)];
    FlatAppend(FoldRows(b, t), FoldRow(b, t));
  }

  // ---- 2. the backward pass ----

  /** The tables hold what the specification says at one position. */
  ghost predicate FoldHolds(b: Block, eLog: seq<real>, t: nat)
    requires b.Valid() && t < b.len
  {
    var base := t * b.fa.NEdges();
    base + b.fa.NEdges() <= |eLog| &&
    forall e :: 0 <= e < b.fa.NEdges() ==> eLog[base + e] == b.EdgeMass(t, e)
  }

  ghost predicate BackHolds(b: Block, back: seq<real>, t: nat)
    requires b.Valid() && t <= b.len
  {
    var base := t * b.fa.nNodes;
    base + b.fa.nNodes <= |back| &&
    forall s :: 0 <= s < b.fa.nNodes ==> back[base + s] == b.Back(t, s)
  }

  lemma FoldTable(b: Block, eLog: seq<real>)
    requires b.Valid() && b.len * b.fa.NEdges() <= |eLog|
    requires eLog[..b.len * b.fa.NEdges()] == Flat(FoldRows(b, b.len))
    ensures forall t :: 0 <= t < b.len ==> FoldHolds(b, eLog, t)
  {
    var nEdges := b.fa.NEdges();
    forall t | 0 <= t < b.len ensures FoldHolds(b, eLog, t) {
      RowEnd(t, b.len, nEdges);
      forall e | 0 <= e < nEdges ensures eLog[t * nEdges + e] == b.EdgeMass(t, e) {
        FlatAt(FoldRows(b, b.len), nEdges, t, e);
        assert FoldRows(b, b.len)[t][e] == b.EdgeMass(t, e);
      }
    }
  }

  lemma BackTable(b: Block, back: seq<real>)
    requires b.Valid() && (b.len + 1) * b.fa.nNodes <= |back|
    requires back[..(b.len + 1) * b.fa.nNodes] == Flat(BackRows(b, 0))
    ensures forall t :: 0 <= t <= b.len ==> BackHolds(b, back, t)
  {
    var n := b.fa.nNodes;
    forall t | 0 <= t <= b.len ensures BackHolds(b, back, t) {
      RowEnd(t, b.len + 1, n);
      forall s | 0 <= s < n ensures back[t * n + s] == b.Back(t, s) {
        FlatAt(BackRows(b, 0), n, t, s);
        assert BackRows(b, 0)[t] == BackRow(b, 0 + t);
      }
    }
  }

  lemma BackRowFirst(b: Block, back: seq<real>, t: nat)
    requires b.Valid() && t <= b.len && (b.len + 1) * b.fa.nNodes <= |back| && t * b.fa.nNodes <= (b.len + 1) * b.fa.nNodes
    requires back[t * b.fa.nNodes..(b.len + 1) * b.fa.nNodes] == Flat(BackRows(b, t))
    ensures BackHolds(b, back, t)
  {
    hide Block.Back, BackRow, BackRows, Flat, Automaton.Valid;
    var n := b.fa.nNodes;
    RowEnd(t, b.len + 1, n);
    FirstRow(back, t * n, (b.len + 1) * n, BackRows(b, t), n);
    assert BackRows(b, t)[0] == BackRow(b, t + 0);
  }

  lemma FirstRow(buf: seq<real>, base: nat, end: nat, rows: seq<seq<real>>, width: nat)
    requires rows != [] && Wide(rows, width) && base <= end <= |buf| && buf[base..end] == Flat(rows)
    ensures base + width <= end && forall s :: 0 <= s < width ==> buf[base + s] == rows[0][s]
  {
    FlatLength(rows, width);
    RowEnd(0, |rows|, width);
    forall s | 0 <= s < width ensures buf[base + s] == rows[0][s] {
      FlatAt(rows, width, 0, s);
      assert buf[base..end][s] == buf[base + s];
    }
  }

  lemma BackRowsGrow(b: Block, t: nat)
    requires b.Valid() && t < b.len
    ensures Flat(BackRows(b, t)) == BackRow(b, t) + Flat(BackRows(b, t + 1))
  {
    FlatPrepend(BackRow(b, t), BackRows(b, t + 1));
  }

  lemma BackRowsEnd(b: Block)
    requires b.Valid()
    ensures Flat(BackRows(b, b.len)) == BackRow(b, b.len)
  {
    assert BackRows(b, b.len) == [] + [BackRow(b, b.len)];
    FlatAppend([], BackRow(b, b.len));
  }

  /** Gathers the flows of node `s` at position `t` into the front of the weight buffer. */
  method GatherFlows(b: Block, t: nat, s: nat, scratch: FaScratch)
    requires b.Valid() && t < b.len && s < b.fa.nNodes
    requires |scratch.weights| >= b.fa.OutHi(s) - b.fa.OutLo(s)
    requires FoldHolds(b, scratch.eLog, t) && BackHolds(b, scratch.back, t + 1)
    modifies scratch`weights
    ensures |scratch.weights| == |old(scratch.weights)|
    ensures scratch.weights[..b.fa.OutHi(s) - b.fa.OutLo(s)] == b.Flows(t, s)
  {
    hide Block.Flow, Block.EdgeMass, Block.Back, Times;
    ghost var flows := b.Flows(t, s);
    var base := t * b.fa.NEdges();
    var next := (t + 1) * b.fa.nNodes;
    var lo := b.fa.OutLo(s);
    for e := lo to b.fa.OutHi(s)
      invariant |scratch.weights| == |old(scratch.weights)|
      invariant forall i :: 0 <= i < e - lo ==> scratch.weights[i] == flows[i]
    {
      b.EdgeInRange(e);
      b.FlowAt(t, s, e);
      FlowIs(b, t, e);
      scratch.weights := scratch.weights[e - lo := Times(scratch.eLog[base + e], scratch.back[next + b.fa.edgeDst[e]])];
    }
  }

  lemma FlowIs(b: Block, t: nat, e: nat)
    requires b.Valid() && t < b.len && e < b.fa.NEdges()
    ensures b.fa.edgeDst[e] < b.fa.nNodes
    ensures b.Flow(t, e) == Times(b.EdgeMass(t, e), b.Back(t + 1, b.fa.edgeDst[e]))
  {
    b.EdgeInRange(e);
  }

  /** The weight buffer is wide enough for every node's fanout. */
  ghost predicate FanoutFits(fa: Automaton, width: nat)
    requires fa.Valid()
  {
    forall s :: 0 <= s < fa.nNodes ==> fa.OutHi(s) - fa.OutLo(s) <= width
  }

  lemma BackIs(b: Block, t: nat, s: nat)
    requires b.Valid() && t < b.len && s < b.fa.nNodes
    ensures b.Back(t, s) == Sum(b.Flows(t, s))
    ensures b.fa.OutLo(s) == b.fa.OutHi(s) ==> b.Back(t, s) == 0.0
  {
  }

  /** One backward position: every node's row entry is the shifted sum over its out-edges. */
  method BackPosition(b: Block, t: nat, base: nat, scratch: FaScratch)
    requires b.Valid() && t < b.len && base == t * b.fa.nNodes
    requires base + b.fa.nNodes <= (t + 1) * b.fa.nNodes
    requires FanoutFits(b.fa, |scratch.weights|)
    requires FoldHolds(b, scratch.eLog, t) && BackHolds(b, scratch.back, t + 1)
    modifies scratch`back, scratch`weights
    ensures |scratch.weights| == |old(scratch.weights)| && |scratch.back| == |old(scratch.back)|
    ensures scratch.back[base..base + b.fa.nNodes] == BackRow(b, t)
    ensures scratch.back[base + b.fa.nNodes..] == old(scratch.back)[base + b.fa.nNodes..]
  {
    hide Block.Flow, Block.EdgeMass, Block.Back, Block.Flows, Automaton.NodeValid, Automaton.EdgeValid, Sum, FoldHolds;
    var n := b.fa.nNodes;
    for s := 0 to n
      invariant |scratch.weights| == |old(scratch.weights)| && |scratch.back| == |old(scratch.back)|
      invariant forall i :: base + n <= i < |scratch.back| ==> scratch.back[i] == old(scratch.back)[i]
      invariant forall r :: 0 <= r < s ==> scratch.back[base + r] == b.Back(t, r)
    {
      BackIs(b, t, s);
      var k := b.fa.OutHi(s) - b.fa.OutLo(s);
      if k == 0 {
        scratch.back := scratch.back[base + s := 0.0];
      } else {
        GatherFlows(b, t, s, scratch);
        var total := SumShifted(scratch.weights[..k]);
        scratch.back := scratch.back[base + s := total];
      }
    }
  }

  method BackAll(b: Block, scratch: FaScratch)
    requires b.Valid() && (b.len + 1) * b.fa.nNodes <= |scratch.back| && FanoutFits(b.fa, |scratch.weights|)
    requires forall t :: 0 <= t < b.len ==> FoldHolds(b, scratch.eLog, t)
    modifies scratch`back, scratch`weights
    ensures |scratch.weights| == |old(scratch.weights)| && |scratch.back| == |old(scratch.back)|
    ensures scratch.back[..(b.len + 1) * b.fa.nNodes] == Flat(BackRows(b, 0))
  {
    hide Block.Back, Block.Flows, BackRows, Flat, FoldHolds, Automaton.Valid, FanoutFits;
    var n := b.fa.nNodes;
    var end := (b.len + 1) * n;
    RowEnd(b.len, b.len + 1, n);
    LastRow(b, b.len * n, scratch);
    BackRowsEnd(b);
    var t := b.len;
    while t > 0
      invariant 0 <= t <= b.len && t * n <= end
      invariant |scratch.weights| == |old(scratch.weights)| && |scratch.back| == |old(scratch.back)|
      invariant scratch.back[t * n..end] == Flat(BackRows(b, t))
    {
      BackRowFirst(b, scratch.back, t);
      t := t - 1;
      RowEnd(t, b.len + 1, n);
      ghost var before := scratch.back;
      BackPosition(b, t, t * n, scratch);
      BackRowsGrow(b, t);
      Splice(before, scratch.back, t * n, (t + 1) * n, end);
    }
  }

  lemma Splice(before: seq<real>, after: seq<real>, lo: nat, mid: nat, end: nat)
    requires lo <= mid <= end <= |before| == |after| && after[mid..] == before[mid..]
    ensures after[lo..end] == after[lo..mid] + before[mid..end]
  {
    forall i | mid <= i < end ensures after[i] == before[i] {
      assert after[mid..][i - mid] == before[mid..][i - mid];
    }
  }

  /** The last row: accepting nodes weigh one. */
  method LastRow(b: Block, base: nat, scratch: FaScratch)
    requires b.Valid() && base + b.fa.nNodes <= |scratch.back|
    modifies scratch`back
    ensures |scratch.back| == |old(scratch.back)|
    ensures scratch.back[base..base + b.fa.nNodes] == BackRow(b, b.len)
  {
    for s := 0 to b.fa.nNodes
      invariant |scratch.back| == |old(scratch.back)|
      invariant forall r :: 0 <= r < s ==> scratch.back[base + r] == b.Back(b.len, r)
    {
      scratch.back := scratch.back[base + s := if b.fa.accept[s] then 1.0 else 0.0];
    }
  }

  // ---- 3. the forward joint draw ----

  ghost predicate TokensFit(fa: Automaton, width: nat)
    requires fa.Valid()
  {
    forall e :: 0 <= e < fa.NEdges() ==> |fa.EdgeTokens(e)| <= width
  }

  method MaxFanout(fa: Automaton) returns (m: nat)
    requires fa.Valid()
    ensures FanoutFits(fa, m)
  {
    m := 0;
    for s := 0 to fa.nNodes
      invariant forall r :: 0 <= r < s ==> fa.OutHi(r) - fa.OutLo(r) <= m
    {
      if fa.OutHi(s) - fa.OutLo(s) > m {
        m := fa.OutHi(s) - fa.OutLo(s);
      }
    }
  }

  method MaxEdgeTokens(fa: Automaton) returns (m: nat)
    requires fa.Valid()
    ensures TokensFit(fa, m)
  {
    m := 0;
    for e := 0 to fa.NEdges()
      invariant forall f :: 0 <= f < e ==> |fa.EdgeTokens(f)| <= m
    {
      if |fa.EdgeTokens(e)| > m {
        m := |fa.EdgeTokens(e)|;
      }
    }
  }

  /** The greedy choice: strictly larger mass replaces, so the earliest of equals stays. */
  method ArgMax(ms: seq<real>) returns (k: nat)
    requires ms != []
    ensures k == BestFrom(ms, 0, 1)
  {
    k := 0;
    var i := 1;
    while i < |ms|
      invariant 1 <= i <= |ms| && k < i
      invariant forall j :: 0 <= j < i ==> ms[j] <= ms[k] && (j < k ==> ms[j] < ms[k])
      invariant BestFrom(ms, k, i) == BestFrom(ms, 0, 1)
    {
      if ms[i] > ms[k] {
        k := i;
      }
      i := i + 1;
    }
  }

  /** The edge of one step: gather the flows, shift, draw. */
  method StepEdge(b: Block, t: nat, state: nat, scratch: FaScratch, r: real) returns (e: nat)
    requires b.Valid() && t < b.len && state < b.fa.nNodes && b.Back(t, state) > 0.0 && 0.0 <= r < 1.0
    requires FanoutFits(b.fa, |scratch.weights|)
    requires FoldHolds(b, scratch.eLog, t) && BackHolds(b, scratch.back, t + 1)
    modifies scratch`weights
    ensures |scratch.weights| == |old(scratch.weights)|
    ensures e == EdgeTaken(b, t, state, r)
  {
    hide Draw, Block.Flow, Block.Flows, Block.EdgeMass, Block.Back, Automaton.NodeValid, Automaton.EdgeValid, FoldHolds, BackHolds;
    BackIs(b, t, state);
    var k := b.fa.OutHi(state) - b.fa.OutLo(state);
    GatherFlows(b, t, state, scratch);
    var i := DrawShifted(scratch, k, r);
    e := b.fa.OutLo(state) + i;
  }

  /** A multinomial draw over a list of masses, through the weight buffer. */
  method DrawMass(ms: seq<real>, scratch: FaScratch, r: real) returns (k: nat)
    requires NonNegative(ms) && Sum(ms) > 0.0 && |ms| <= |scratch.weights| && 0.0 <= r < 1.0
    modifies scratch`weights
    ensures |scratch.weights| == |old(scratch.weights)|
    ensures ms != [] && k == Draw(ms, r)
  {
    for i := 0 to |ms|
      invariant |scratch.weights| == |old(scratch.weights)|
      invariant forall j :: 0 <= j < i ==> scratch.weights[j] == ms[j]
    {
      scratch.weights := scratch.weights[i := ms[i]];
    }
    assert scratch.weights[..|ms|] == ms;
    assert ms != [];
    k := DrawShifted(scratch, |ms|, r);
  }

  /** The token of one step, given its edge. */
  method StepToken(b: Block, t: nat, e: nat, greedy: bool, scratch: FaScratch, rng: DrawStream) returns (v: nat)
    requires b.Valid() && t < b.len && e < b.fa.NEdges() && b.EdgeMass(t, e) > 0.0
    requires TokensFit(b.fa, |scratch.weights|) && Uniform(rng.u)
    modifies scratch`weights, rng`pos
    ensures |scratch.weights| == |old(scratch.weights)|
    ensures v == TokenOn(b, t, e, greedy, rng.u(old(rng.pos)))
    ensures b.forced[t] != FREE ==> v == b.forced[t]
    ensures b.forced[t] == FREE && greedy ==> v < b.fa.vocab && Heaviest(b, t, e, v)
    ensures rng.pos == old(rng.pos) + TokenDraws(b, t, greedy)
  {
    hide Draw, Block.Eff, Sum, Automaton.NodeValid, Automaton.EdgeValid, Heaviest;
    b.EdgeInRange(e);
    var toks := b.fa.EdgeTokens(e);
    var ms := b.TokenMasses(t, toks);
    assert b.EdgeMass(t, e) == Sum(ms);
    if b.forced[t] != FREE {
      v := b.forced[t];
    } else if greedy {
      var k := ArgMax(ms);
      v := toks[k];
      GreedyToken(b, t, e, rng.u(rng.pos));
    } else {
      var r := rng.NextF64();
      var k := DrawMass(ms, scratch, r);
      v := toks[k];
    }
  }

  /** Reading off the rest of a run from one of its intermediate states. */
  ghost predicate Continues(full: Drawn, done: seq<nat>, rest: Drawn) {
    full.tokens == done + rest.tokens && full.final == rest.final && full.pos == rest.pos
  }

  lemma ContinuesStep(full: Drawn, done: seq<nat>, b: Block, t: nat, s: nat, greedy: bool, u: nat -> real, pos: nat)
    requires b.Valid() && t < b.len && s < b.fa.nNodes && Uniform(u) && b.Back(t, s) > 0.0
    requires Continues(full, done, Sample(b, t, s, greedy, u, pos))
    ensures var e := EdgeTaken(b, t, s, u(pos));
            && b.fa.edgeDst[e] < b.fa.nNodes && b.Back(t + 1, b.fa.edgeDst[e]) > 0.0
            && Continues(full, done + [TokenOn(b, t, e, greedy, u(pos + 1))],
                         Sample(b, t + 1, b.fa.edgeDst[e], greedy, u, pos + 1 + TokenDraws(b, t, greedy)))
  {
    hide Draw, EdgeTaken, TokenOn, TokenDraws, Sample, Block.Back, Block.EdgeMass, Automaton.Valid;
    SampleUnfold(b, t, s, greedy, u, pos);
  }

  method Forward(b: Block, start: nat, greedy: bool, scratch: FaScratch, rng: DrawStream, outTokens: array<nat>)
    returns (state: nat)
    requires b.Valid() && start < b.fa.nNodes && Uniform(rng.u) && b.Back(0, start) > 0.0 && outTokens.Length == b.len
    requires FanoutFits(b.fa, |scratch.weights|) && TokensFit(b.fa, |scratch.weights|)
    requires forall t :: 0 <= t < b.len ==> FoldHolds(b, scratch.eLog, t)
    requires forall t :: 0 <= t <= b.len ==> BackHolds(b, scratch.back, t)
    modifies scratch`weights, rng`pos, outTokens
    ensures var d := Sample(b, 0, start, greedy, rng.u, old(rng.pos));
            outTokens[..] == d.tokens && state == d.final && rng.pos == d.pos
  {
    hide Draw, EdgeTaken, TokenOn, TokenDraws, Block.Back, Block.EdgeMass, FoldHolds, BackHolds, FanoutFits, TokensFit;
    hide Automaton.Valid, Sample, Continues;
    ForwardEnds(b, start, greedy, rng.u, rng.pos);
    ghost var full := Sample(b, 0, start, greedy, rng.u, rng.pos);
    state := start;
    for t := 0 to b.len
      invariant |scratch.weights| == |old(scratch.weights)|
      invariant state < b.fa.nNodes && b.Back(t, state) > 0.0
      invariant Continues(full, outTokens[..t], Sample(b, t, state, greedy, rng.u, rng.pos))
    {
      ghost var done, pos := outTokens[..t], rng.pos;
      EdgeTakenLive(b, t, state, rng.u(pos));
      ContinuesStep(full, done, b, t, state, greedy, rng.u, pos);
      var r := rng.NextF64();
      var e := StepEdge(b, t, state, scratch, r);
      outTokens[t] := StepToken(b, t, e, greedy, scratch, rng);
      assert outTokens[..t + 1] == done + [outTokens[t]];
      state := b.fa.edgeDst[e];
    }
    assert outTokens[..b.len] == outTokens[..];
    ForwardDone(full, outTokens[..], b, state, greedy, rng.u, rng.pos);
  }

  lemma ForwardEnds(b: Block, s: nat, greedy: bool, u: nat -> real, pos: nat)
    requires b.Valid() && s < b.fa.nNodes && Uniform(u) && b.Back(0, s) > 0.0
    ensures Continues(Sample(b, 0, s, greedy, u, pos), [], Sample(b, 0, s, greedy, u, pos))
  {
    hide Sample;
  }

  lemma ForwardDone(full: Drawn, done: seq<nat>, b: Block, s: nat, greedy: bool, u: nat -> real, pos: nat)
    requires b.Valid() && s < b.fa.nNodes && Uniform(u) && b.Back(b.len, s) > 0.0
    requires Continues(full, done, Sample(b, b.len, s, greedy, u, pos))
    ensures full == Drawn(done, s, pos)
  {
    assert Sample(b, b.len, s, greedy, u, pos) == Drawn([], s, pos);
  }

  // ---- the whole call ----

  /** Why a call is refused, if it is: shape errors in the order they are checked, then an unsatisfiable block. */
  ghost function Refusal(fa: Automaton, start: nat, mass: seq<NonNeg>, len: nat, forced: seq<nat>, outLen: nat): Option<FaError>
    requires fa.Valid()
  {
    if start >= fa.nNodes then Some(BadStart(start))
    else if |forced| != len then Some(ForcedShape(|forced|, len))
    else if outLen != len then Some(OutShape(outLen, len))
    else if |mass| != len * fa.vocab then Some(LogitsShape(len * fa.vocab, |mass|, len, fa.vocab))
    else if len > 0 && fa.OutLo(start) == fa.OutHi(start) then Some(DeadStart(start))
    else if Block(fa, mass, len, forced).Total(0, start) == 0.0 then Some(Unsatisfiable(len))
    else None
  }

  /** What each refusal says, and that the checks come in this order. */
  lemma RefusalMeans(fa: Automaton, start: nat, mass: seq<NonNeg>, len: nat, forced: seq<nat>, outLen: nat)
    requires fa.Valid()
    ensures match Refusal(fa, start, mass, len, forced, outLen)
            case None => WellShaped(fa, start, mass, len, forced) && outLen == len && Block(fa, mass, len, forced).Total(0, start) > 0.0
            case Some(BadStart(s)) => s == start >= fa.nNodes
            case Some(ForcedShape(got, n)) => start < fa.nNodes && got == |forced| != len == n
            case Some(OutShape(got, n)) => start < fa.nNodes && |forced| == len == n && got == outLen != len
            case Some(LogitsShape(expected, got, n, vocab)) =>
              && start < fa.nNodes && |forced| == len == outLen == n && vocab == fa.vocab
              && expected == len * fa.vocab && got == |mass| != expected
            case Some(DeadStart(s)) =>
              && WellShaped(fa, start, mass, len, forced) && outLen == len > 0 && s == start
              && forall v :: fa.Next(start, v) == None
            case Some(Unsatisfiable(n)) =>
              && WellShaped(fa, start, mass, len, forced) && outLen == len == n
              && Block(fa, mass, len, forced).Total(0, start) == 0.0 && (len > 0 ==> exists v :: fa.Next(start, v).Some?)
            case _ => false
  {
    hide Block.Total;
    if WellShaped(fa, start, mass, len, forced) && outLen == len {
      var b := Block(fa, mass, len, forced);
      b.BackIsTotal(0, start);
      if fa.OutLo(start) < fa.OutHi(start) {
        var e := fa.OutLo(start);
        b.EdgeInRange(e);
        fa.NextCharacterized(start, fa.EdgeTokens(e)[0], fa.edgeDst[e]);
        assert fa.Next(start, fa.EdgeTokens(e)[0]).Some?;
      }
    }
  }

  ghost predicate WellShaped(fa: Automaton, start: nat, mass: seq<NonNeg>, len: nat, forced: seq<nat>) {
    start < fa.nNodes && |forced| == len && |mass| == len * fa.vocab
  }

  /** A well-shaped call is refused exactly when no sequence of the block's length is accepted from the start node
      with positive weight and agrees with the pins. */
  lemma RefusedIffUnsatisfiable(fa: Automaton, start: nat, mass: seq<NonNeg>, len: nat, forced: seq<nat>)
    requires fa.Valid() && start < fa.nNodes && |forced| == len && |mass| == len * fa.vocab
    ensures Refusal(fa, start, mass, len, forced, len).Some? <==>
            forall x :: |x| == len ==> Block(fa, mass, len, forced).Term(0, start, x) == 0.0
  {
    var b := Block(fa, mass, len, forced);
    TotalZero(b, start);
    b.BackIsTotal(0, start);
    if len > 0 {
      BackIs(b, 0, start);
    }
  }

  /** `sample_joint_from`: the exact joint draw over one block from any start node. The outcome is a function of the
      inputs and the unread draws alone: whatever the reused scratch held before does not matter. */
  method SampleJointFrom(fa: Automaton, scratch: FaScratch, start: nat, mass: seq<NonNeg>, len: nat, forced: seq<nat>,
                         greedy: bool, rng: DrawStream, outTokens: array<nat>)
    returns (r: Result<nat, FaError>)
    requires fa.Valid() && Uniform(rng.u)
    modifies scratch, rng`pos, outTokens
    ensures var refusal := Refusal(fa, start, mass, len, forced, outTokens.Length);
            if refusal.Some? then
              r == Err(refusal.value) && rng.pos == old(rng.pos) && outTokens[..] == old(outTokens[..])
            else
              var b := Block(fa, mass, len, forced);
              && b.Valid() && start < fa.nNodes && b.Back(0, start) > 0.0
              && var d := Sample(b, 0, start, greedy, rng.u, old(rng.pos));
              && r == Ok(d.final) && outTokens[..] == d.tokens && rng.pos == d.pos
              && Lawful(b, start, outTokens[..], d.final, greedy)
              && rng.pos == old(rng.pos) + len + if greedy then 0 else FreeFrom(b, 0)
  {
    hide Lawful, Greedy, Sample, FreeFrom;
    if start >= fa.nNodes {
      return Err(BadStart(start));
    }
    if |forced| != len {
      return Err(ForcedShape(|forced|, len));
    }
    if outTokens.Length != len {
      return Err(OutShape(outTokens.Length, len));
    }
    if |mass| != len * fa.vocab {
      return Err(LogitsShape(len * fa.vocab, |mass|, len, fa.vocab));
    }
    var b := Block(fa, mass, len, forced);
    b.BackIsTotal(0, start);
    if len == 0 {
      assert outTokens[..] == [];
      if fa.accept[start] {
        SampleLawful(b, start, greedy, rng.u, rng.pos);
        DrawsUsed(b, 0, start, greedy, rng.u, rng.pos);
        AcceptEnd(b, start, greedy, rng.u, rng.pos);
      }
      return if fa.accept[start] then Ok(start) else Err(Unsatisfiable(0));
    }
    if fa.OutLo(start) == fa.OutHi(start) {
      return Err(DeadStart(start));
    }
    var fanout := MaxFanout(fa);
    var tokens := MaxEdgeTokens(fa);
    r := Draw3(b, scratch, start, greedy, rng, outTokens, if fanout > tokens then fanout else tokens);
  }

  /** The three passes over well-shaped inputs. */
  method Draw3(b: Block, scratch: FaScratch, start: nat, greedy: bool, rng: DrawStream, outTokens: array<nat>, width: nat)
    returns (r: Result<nat, FaError>)
    requires b.Valid() && start < b.fa.nNodes && outTokens.Length == b.len && Uniform(rng.u)
    requires FanoutFits(b.fa, width) && TokensFit(b.fa, width)
    modifies scratch, rng`pos, outTokens
    ensures b.Back(0, start) == 0.0 ==>
              r == Err(Unsatisfiable(b.len)) && rng.pos == old(rng.pos) && outTokens[..] == old(outTokens[..])
    ensures b.Back(0, start) > 0.0 ==>
              var d := Sample(b, 0, start, greedy, rng.u, old(rng.pos));
              && r == Ok(d.final) && outTokens[..] == d.tokens && rng.pos == d.pos
              && Lawful(b, start, d.tokens, d.final, greedy)
              && rng.pos == old(rng.pos) + b.len + if greedy then 0 else FreeFrom(b, 0)
  {
    hide Block.Back, Sample, Lawful, FreeFrom, Flat, FoldRows, BackRows, Automaton.Valid;
    scratch.Ensure(b.len, b.fa.NEdges(), b.fa.nNodes, width, b.fa.vocab);
    Wider(b.fa, width, |scratch.weights|);
    FoldAll(b, scratch);
    FoldTable(b, scratch.eLog);
    BackAll(b, scratch);
    BackTable(b, scratch.back);
    StartEntry(b, scratch.back, start);
    if scratch.back[start] == 0.0 {
      return Err(Unsatisfiable(b.len));
    }
    SampleLawful(b, start, greedy, rng.u, rng.pos);
    DrawsUsed(b, 0, start, greedy, rng.u, rng.pos);
    var state := Forward(b, start, greedy, scratch, rng, outTokens);
    return Ok(state);
  }

  lemma Wider(fa: Automaton, w: nat, width: nat)
    requires fa.Valid() && FanoutFits(fa, w) && TokensFit(fa, w) && w <= width
    ensures FanoutFits(fa, width) && TokensFit(fa, width)
  {
  }

  lemma StartEntry(b: Block, back: seq<real>, start: nat)
    requires b.Valid() && start < b.fa.nNodes && BackHolds(b, back, 0)
    ensures start < |back| && back[start] == b.Back(0, start) && b.Back(0, start) >= 0.0
  {
    assert back[0 * b.fa.nNodes + start] == b.Back(0, start);
  }
}
