/** The marginal pass over a built segment tree: forward and backward products of its leaves, then one sum over nodes,
    edges and tokens per position. */
module TreeMarginals {
  import opened Prelude
  import opened Sums
  import opened Tables
  import opened Automata
  import opened Posterior
  import opened SequentialSpec
  import opened SequentialSampler
  import opened Chains
  import opened TreeSpec
  import opened TreeSampler
  import opened Marginals

  // ---- plain products ----

  /** The product of two adjacent segments, summed without any shift. */
  method Product(a: seq<real>, z: seq<real>, ghost c: Chain, ghost lo: nat, ghost mid: nat, ghost hi: nat, n: nat)
    returns (out: seq<real>)
    requires c.Valid() && n == c.n && lo <= mid <= hi <= |c.leaves| && IsSeg(a, c, lo, mid) && IsSeg(z, c, mid, hi)
    ensures IsSeg(out, c, lo, hi)
  {
    hide Chain.Seg, Sum;
    out := [];
    ghost var rows: seq<seq<real>> := [];
    for i := 0 to n
      invariant out == Flat(rows) && |rows| == i
      invariant forall k :: 0 <= k < i ==> SegRow(rows[k], c, lo, hi, k)
    {
      var row: seq<real> := [];
      for j := 0 to n
        invariant |row| == j && forall k :: 0 <= k < j ==> row[k] == c.Seg(lo, hi, i, k)
      {
        var s := Entry(a, z, c, lo, mid, hi, n, i, j);
        row := row + [s];
      }
      FlatAppend(rows, row);
      rows := rows + [row];
      out := out + row;
    }
    RowsAreSeg(out, rows, c, lo, hi);
  }

  method Entry(a: seq<real>, z: seq<real>, ghost c: Chain, ghost lo: nat, ghost mid: nat, ghost hi: nat, n: nat, i: nat, j: nat)
    returns (s: real)
    requires c.Valid() && n == c.n && lo <= mid <= hi <= |c.leaves| && IsSeg(a, c, lo, mid) && IsSeg(z, c, mid, hi)
    requires i < n && j < n
    ensures s == c.Seg(lo, hi, i, j)
  {
    hide Chain.Seg;
    s := 0.0;
    for k := 0 to n
      invariant s == SumTo(k, c.Through(lo, mid, hi, i, j))
    {
      assert At(a, n, i, k) == c.Seg(lo, mid, i, k) && At(z, n, k, j) == c.Seg(mid, hi, k, j);
      s := s + Times(At(a, n, i, k), At(z, n, k, j));
    }
    c.SplitAt(lo, mid, hi, i, j);
  }

  ghost predicate AcceptMatrix(fa: Automaton, m: seq<real>)
    requires fa.Valid()
  {
    && Square(m, fa.nNodes)
    && forall i, j :: 0 <= i < fa.nNodes && 0 <= j < fa.nNodes ==>
         At(m, fa.nNodes, i, j) == if i == j && fa.accept[i] then 1.0 else 0.0
  }

  /** The diagonal below row `i` is filled in. */
  ghost predicate DiagonalSoFar(fa: Automaton, m: seq<real>, i: nat)
    requires fa.Valid()
  {
    && Square(m, fa.nNodes)
    && forall r, j :: 0 <= r < fa.nNodes && 0 <= j < fa.nNodes ==>
         At(m, fa.nNodes, r, j) == if r == j && r < i && fa.accept[r] then 1.0 else 0.0
  }

  lemma DiagonalStep(fa: Automaton, m: seq<real>, i: nat, v: real)
    requires fa.Valid() && DiagonalSoFar(fa, m, i) && i < fa.nNodes && v == if fa.accept[i] then 1.0 else 0.0
    ensures i * fa.nNodes + i < |m| && DiagonalSoFar(fa, m[i * fa.nNodes + i := v], i + 1)
  {
    hide At, Automaton.NodeValid, Automaton.EdgeValid;
    var n := fa.nNodes;
    InRow(i, i, n, n);
    var next := m[i * n + i := v];
    forall r, j | 0 <= r < n && 0 <= j < n
      ensures At(next, n, r, j) == if r == j && r < i + 1 && fa.accept[r] then 1.0 else 0.0
    {
      CellUpdate(m, n, i, i, v, r, j);
    }
  }

  lemma DiagonalStart(fa: Automaton, m: seq<real>)
    requires fa.Valid() && |m| == fa.nNodes * fa.nNodes && forall k :: 0 <= k < |m| ==> m[k] == 0.0
    ensures DiagonalSoFar(fa, m, 0)
  {
    forall r, j | 0 <= r < fa.nNodes && 0 <= j < fa.nNodes ensures At(m, fa.nNodes, r, j) == 0.0 {
      InRow(r, j, fa.nNodes, fa.nNodes);
    }
  }

  /** The diagonal of accepting nodes. */
  method AcceptDiagonal(fa: Automaton) returns (m: seq<real>)
    requires fa.Valid()
    ensures AcceptMatrix(fa, m)
  {
    var n := fa.nNodes;
    m := seq(n * n, _ => 0.0);
    DiagonalStart(fa, m);
    for i := 0 to n
      invariant DiagonalSoFar(fa, m, i)
    {
      DiagonalStep(fa, m, i, if fa.accept[i] then 1.0 else 0.0);
      m := m[i * n + i := if fa.accept[i] then 1.0 else 0.0];
    }
  }

  lemma CellUpdate(m: seq<real>, n: nat, s: nat, d: nat, v: real, i: nat, j: nat)
    requires |m| == n * n && s < n && d < n && i < n && j < n
    ensures s * n + d < n * n
    ensures At(m[s * n + d := v], n, i, j) == if i == s && j == d then v else At(m, n, i, j)
  {
    InRow(s, d, n, n);
    InRow(i, j, n, n);
    if i < s {
      RowEnd(i, s, n);
    } else if s < i {
      RowEnd(s, i, n);
    }
  }

  // ---- the prefixes and suffixes ----

  /** The chain the pass runs over: the tree's real leaves, closed by the accept diagonal. */
  ghost function Closed(tree: ParallelTree, diag: seq<real>): Chain
    requires tree.block.len <= |tree.levels|
  {
    Chain(tree.block.fa.nNodes, tree.levels[..tree.block.len] + [diag])
  }

  lemma ClosedIsFolded(tree: ParallelTree, top: nat, scales: seq<real>, diag: seq<real>)
    requires TreeOk(tree, top, scales) && AcceptMatrix(tree.block.fa, diag)
    ensures tree.block.len <= |tree.levels| && tree.block.Valid() && tree.start < tree.block.fa.nNodes
    ensures Folded(tree.block, Closed(tree, diag), scales)
    ensures tree.block.Total(0, tree.start) > 0.0
    ensures tree.levelOffsets != [] && tree.levelOffsets[0] == 0
  {
    hide Block.Back, Raw, Level, Block.Total;
    var b, c, o := tree.block, Closed(tree, diag), ChainOf(tree);
    forall t | 0 <= t < |c.leaves| ensures Square(c.leaves[t], c.n) {
      if t < b.len {
        assert c.leaves[t] == o.leaves[t];
      }
    }
    forall t | 0 <= t < b.len ensures RealLeaf(b, c, t, scales[t]) {
      assert c.leaves[t] == o.leaves[t];
      assert RealLeaf(b, o, t, scales[t]);
      forall i, j | 0 <= i < c.n && 0 <= j < c.n ensures c.Leaf(t, i, j) == Times(Raw(b, t, i, j), scales[t]) {
        assert c.Leaf(t, i, j) == o.Leaf(t, i, j);
      }
    }
    b.BackIsTotal(0, tree.start);
  }

  lemma SingleLeaf(c: Chain, t: nat)
    requires c.Valid() && t < |c.leaves|
    ensures IsSeg(c.leaves[t], c, t, t + 1)
  {
    hide Chain.Seg;
    forall i, j | 0 <= i < c.n && 0 <= j < c.n ensures At(c.leaves[t], c.n, i, j) == c.Seg(t, t + 1, i, j) {
      c.OneStep(t, i, j);
    }
  }

  lemma EmptySeg(m: seq<real>, c: Chain, t: nat)
    requires c.Valid() && t <= |c.leaves| && IdentityMatrix(m, c.n)
    ensures IsSeg(m, c, t, t)
  {
  }

  /** `fwd[t]` is the product of the first `t` leaves. */
  method Prefixes(leaves: seq<seq<real>>, ghost c: Chain, n: nat, len: nat) returns (fwd: seq<seq<real>>)
    requires c.Valid() && n == c.n && len < |c.leaves| && len <= |leaves|
    requires forall t :: 0 <= t < len ==> leaves[t] == c.leaves[t]
    ensures |fwd| == len + 1 && forall t :: 0 <= t <= len ==> IsSeg(fwd[t], c, 0, t)
  {
    hide IsSeg, IdentityMatrix;
    var id := Identity(n);
    EmptySeg(id, c, 0);
    fwd := [id];
    for t := 0 to len
      invariant |fwd| == t + 1 && forall k :: 0 <= k <= t ==> IsSeg(fwd[k], c, 0, k)
    {
      SingleLeaf(c, t);
      var next := Product(fwd[t], leaves[t], c, 0, t, t + 1, n);
      fwd := fwd + [next];
    }
  }

  /** `bwd[t]` is the product of the leaves from `t` on and the accept diagonal: built last to first, then reversed. */
  method Suffixes(leaves: seq<seq<real>>, diag: seq<real>, ghost c: Chain, n: nat, len: nat) returns (bwd: seq<seq<real>>)
    requires c.Valid() && n == c.n && |c.leaves| == len + 1 && len <= |leaves| && diag == c.leaves[len]
    requires forall t :: 0 <= t < len ==> leaves[t] == c.leaves[t]
    ensures |bwd| == len + 1 && forall t :: 0 <= t <= len ==> IsSeg(bwd[t], c, t, len + 1)
  {
    hide IsSeg;
    SingleLeaf(c, len);
    var grown := [diag];
    var t := len;
    while t > 0
      invariant 0 <= t <= len && |grown| == len - t + 1
      invariant forall k :: 0 <= k < |grown| ==> IsSeg(grown[k], c, len - k, len + 1)
    {
      t := t - 1;
      SingleLeaf(c, t);
      var prev := Product(leaves[t], grown[|grown| - 1], c, t, t + 1, len + 1, n);
      grown := grown + [prev];
    }
    bwd := seq(|grown|, i requires 0 <= i < |grown| => grown[|grown| - 1 - i]);
    forall k | 0 <= k <= len ensures IsSeg(bwd[k], c, k, len + 1) {
      assert IsSeg(grown[len - k], c, len - (len - k), len + 1);
    }
  }

  // ---- one position ----

  /** What one position's loops need to know about their inputs. */
  ghost predicate Setting(b: Block, c: Chain, scales: seq<real>, t: nat, start: nat, fwd: seq<real>, bnext: seq<real>)
  {
    && b.Valid() && Folded(b, c, scales) && t < b.len && start < b.fa.nNodes
    && IsSeg(fwd, c, 0, t) && IsSeg(bnext, c, t + 1, b.len + 1)
  }

  /** The accepting weight that follows node `d`: a row sum of the suffix product. */
  method RowTotalOf(b: Block, ghost c: Chain, ghost scales: seq<real>, t: nat, start: nat, fwd: seq<real>, bnext: seq<real>, d: nat)
    returns (total: real)
    requires Setting(b, c, scales, t, start, fwd, bnext) && d < b.fa.nNodes
    ensures |scales| == b.len
    ensures total == Times(b.Back(t + 1, d), ScaleFrom(scales, t + 1))
  {
    hide Chain.Seg, Block.Back, RealLeaf, AcceptLeaf, ScaleFrom;
    var n := b.fa.nNodes;
    ghost var f := (k: nat) => c.Seg(t + 1, b.len + 1, d, k);
    total := 0.0;
    for k := 0 to n
      invariant total == SumTo(k, f)
    {
      total := total + At(bnext, n, d, k);
    }
    FoldedTotal(b, c, scales, t + 1, d);
    SumToExt(n, f, (k: nat) => c.Seg(t + 1, |c.leaves|, d, k));
  }

  /** The factor all contributions of one position share: the later leaf scales and the row's shift. */
  ghost function Common(scales: seq<real>, t: nat, k: real): real
    requires t < |scales|
  {
    Times(ScaleFrom(scales, t + 1), k)
  }

  /** The token weights of one position up to a common positive factor. */
  ghost predicate Shifted(b: Block, t: nat, erow: seq<real>, k: real)
    requires b.Valid() && t < b.len
  {
    && k > 0.0 && (b.forced[t] != FREE ==> k == 1.0)
    && (b.forced[t] == FREE ==> |erow| >= b.fa.vocab && forall v :: 0 <= v < b.fa.vocab ==> erow[v] == Times(b.Eff(t, v), k))
  }

  /** Adds `flow` times the token weight at every token of one edge. */
  method AddTokens(b: Block, t: nat, toks: seq<nat>, erow: seq<real>, ghost k: real, flow: real, m0: seq<real>)
    returns (m: seq<real>)
    requires b.Valid() && t < b.len && Shifted(b, t, erow, k) && b.Tokens(toks) && StrictlySorted(toks) && |m0| == b.fa.vocab
    ensures |m| == b.fa.vocab
    ensures forall v :: 0 <= v < b.fa.vocab ==>
              m[v] == m0[v] + if v in toks then Times(flow, Times(b.Eff(t, v), k)) else 0.0
  {
    m := m0;
    for i := 0 to |toks|
      invariant |m| == b.fa.vocab
      invariant forall v :: 0 <= v < b.fa.vocab ==>
                  m[v] == m0[v] + if v in toks[..i] then Times(flow, Times(b.Eff(t, v), k)) else 0.0
    {
      var v := toks[i];
      var w := if b.forced[t] != FREE then (if v == b.forced[t] then 1.0 else 0.0) else erow[v];
      assert w == Times(b.Eff(t, v), k);
      assert toks[..i + 1] == toks[..i] + [v] && v !in toks[..i];
      m := m[v := m[v] + Times(flow, w)];
    }
    assert toks[..|toks|] == toks;
  }

  /** Appending an edge at the end of a node's range adds that edge's own share. */
  lemma ShareExtend(b: Block, t: nat, s: nat, e: nat, v: nat)
    requires b.Valid() && t < b.len && s < b.fa.nNodes && b.fa.OutLo(s) <= e < b.fa.OutHi(s) && v < b.fa.vocab
    ensures b.Share(t, b.fa.OutLo(s), e + 1, v) == b.Share(t, b.fa.OutLo(s), e, v) + b.Own(t, e, v)
  {
    hide Block.Back, Block.Eff;
    assert b.fa.NodeValid(s);
    var before := b.fa.FirstEdge(v, b.fa.OutLo(s), e);
    assert before.Some? ==> b.fa.Apart(before.value, e);
    FirstExtend(b.fa, v, b.fa.OutLo(s), e);
  }

  lemma {:induction false} FirstExtend(fa: Automaton, v: nat, lo: nat, e: nat)
    requires fa.Shape() && lo <= e < fa.NEdges()
    ensures fa.FirstEdge(v, lo, e + 1) ==
            if fa.FirstEdge(v, lo, e).Some? then fa.FirstEdge(v, lo, e)
            else if v in fa.EdgeTokens(e) then Some(e) else None
    decreases e - lo
  {
    if lo < e { FirstExtend(fa, v, lo + 1, e); }
  }

  /** fs * (back * z) * (eff * k), regrouped. */
  lemma FlowFactors(fs: real, back: real, z: real, eff: real, k: real)
    ensures Times(Times(fs, Times(back, z)), Times(eff, k)) == Times(Times(fs, Times(back, eff)), Times(z, k))
  {
    assert (fs * (back * z)) * (eff * k) == (fs * (back * eff)) * (z * k);
  }

  lemma DistributeLeft(c: real, x: real, y: real)
    ensures Times(c, x + y) == Times(c, x) + Times(c, y)
  {
  }

  /** The contributions of one node's edges. */
  method AddNode(b: Block, ghost c: Chain, ghost scales: seq<real>, t: nat, start: nat, fwd: seq<real>, bnext: seq<real>,
                 erow: seq<real>, ghost k: real, s: nat, fs: real, m0: seq<real>)
    returns (m: seq<real>)
    requires Setting(b, c, scales, t, start, fwd, bnext) && s < b.fa.nNodes && Shifted(b, t, erow, k) && |m0| == b.fa.vocab
    ensures |m| == b.fa.vocab && |scales| == b.len
    ensures forall v :: 0 <= v < b.fa.vocab ==>
              m[v] == m0[v] + Times(Times(fs, b.Share(t, b.fa.OutLo(s), b.fa.OutHi(s), v)), Common(scales, t, k))
  {
    hide Setting, Shifted, Block.Back, Block.Share, Block.Own, Common, Automaton.NodeValid, Automaton.EdgeValid, Block.Eff;
    SettingShape(b, c, scales, t, start, fwd, bnext);
    m := m0;
    var lo, e := b.fa.OutLo(s), b.fa.OutLo(s);
    NothingYet(b, t, fs, lo, Common(scales, t, k));
    while e < b.fa.OutHi(s)
      invariant lo <= e <= b.fa.OutHi(s) && |m| == b.fa.vocab
      invariant forall v :: 0 <= v < b.fa.vocab ==> m[v] == m0[v] + Times(Times(fs, b.Share(t, lo, e, v)), Common(scales, t, k))
    {
      b.EdgeInRange(e);
      var d := b.fa.edgeDst[e];
      var total := RowTotalOf(b, c, scales, t, start, fwd, bnext, d);
      var flow := Times(fs, total);
      ghost var before := m;
      if flow != 0.0 {
        m := AddTokens(b, t, b.fa.EdgeTokens(e), erow, k, flow, m);
      }
      forall v | 0 <= v < b.fa.vocab
        ensures m[v] == m0[v] + Times(Times(fs, b.Share(t, lo, e + 1, v)), Common(scales, t, k))
      {
        EdgeContribution(b, scales, t, s, e, fs, total, k, v);
      }
      e := e + 1;
    }
  }

  lemma SettingShape(b: Block, c: Chain, scales: seq<real>, t: nat, start: nat, fwd: seq<real>, bnext: seq<real>)
    requires Setting(b, c, scales, t, start, fwd, bnext)
    ensures b.Valid() && t < b.len && |scales| == b.len && c.Valid() && c.n == b.fa.nNodes && t < |c.leaves|
    ensures start < b.fa.nNodes && |fwd| == b.fa.nNodes * b.fa.nNodes && IsSeg(fwd, c, 0, t)
  {
  }

  lemma NothingYet(b: Block, t: nat, fs: real, lo: nat, k: real)
    requires b.Valid() && t < b.len && lo <= b.fa.NEdges()
    ensures forall v :: 0 <= v < b.fa.vocab ==> Times(Times(fs, b.Share(t, lo, lo, v)), k) == 0.0
  {
    hide Block.Back;
  }

  lemma EdgeContribution(b: Block, scales: seq<real>, t: nat, s: nat, e: nat, fs: real, total: real, k: real, v: nat)
    requires b.Valid() && t < b.len == |scales| && s < b.fa.nNodes && b.fa.OutLo(s) <= e < b.fa.OutHi(s) && v < b.fa.vocab
    requires b.fa.edgeDst[e] < b.fa.nNodes && total == Times(b.Back(t + 1, b.fa.edgeDst[e]), ScaleFrom(scales, t + 1))
    ensures var added := if Times(fs, total) != 0.0 && v in b.fa.EdgeTokens(e)
                         then Times(Times(fs, total), Times(b.Eff(t, v), k)) else 0.0;
            Times(Times(fs, b.Share(t, b.fa.OutLo(s), e + 1, v)), Common(scales, t, k)) ==
            Times(Times(fs, b.Share(t, b.fa.OutLo(s), e, v)), Common(scales, t, k)) + added
  {
    hide Block.Back, Block.Share, Block.Eff, ScaleFrom, Automaton.NodeValid, Automaton.EdgeValid;
    ShareExtend(b, t, s, e, v);
    var own := b.Own(t, e, v);
    DistributeLeft(fs, b.Share(t, b.fa.OutLo(s), e, v), own);
    Distribute(Times(fs, b.Share(t, b.fa.OutLo(s), e, v)), Times(fs, own), Common(scales, t, k));
    FlowFactors(fs, b.Back(t + 1, b.fa.edgeDst[e]), ScaleFrom(scales, t + 1), b.Eff(t, v), k);
  }

  /** The unnormalized marginals of one position. */
  method AddNodes(b: Block, ghost c: Chain, ghost scales: seq<real>, t: nat, start: nat, fwd: seq<real>, bnext: seq<real>,
                  erow: seq<real>, ghost k: real)
    returns (m: seq<real>)
    requires Setting(b, c, scales, t, start, fwd, bnext) && Shifted(b, t, erow, k)
    ensures |m| == b.fa.vocab && |scales| == b.len && c.Valid() && t <= |c.leaves|
    ensures forall v :: 0 <= v < b.fa.vocab ==>
              m[v] == Times(SumTo(b.fa.nNodes, Carried(c, b, t, start, v)), Common(scales, t, k))
  {
    hide Setting, Shifted, Block.Back, Block.Share, Common, Automaton.NodeValid, Automaton.EdgeValid, Chain.Seg;
    SettingShape(b, c, scales, t, start, fwd, bnext);
    var n := b.fa.nNodes;
    m := seq(b.fa.vocab, _ => 0.0);
    for s := 0 to n
      invariant |m| == b.fa.vocab
      invariant forall v :: 0 <= v < b.fa.vocab ==> m[v] == Times(SumTo(s, Carried(c, b, t, start, v)), Common(scales, t, k))
    {
      var fs := At(fwd, n, start, s);
      ghost var before := m;
      if fs != 0.0 {
        m := AddNode(b, c, scales, t, start, fwd, bnext, erow, k, s, fs, m);
      }
      forall v | 0 <= v < b.fa.vocab
        ensures m[v] == Times(SumTo(s + 1, Carried(c, b, t, start, v)), Common(scales, t, k))
      {
        Distribute(SumTo(s, Carried(c, b, t, start, v)), Carried(c, b, t, start, v)(s), Common(scales, t, k));
      }
    }
  }

  /** What is promised of one position: every token gets its share of the total weight. */
  ghost predicate MarginalRow(b: Block, start: nat, t: nat, row: seq<real>)
    requires b.Valid() && t < b.len && start < b.fa.nNodes && b.Total(0, start) > 0.0
  {
    |row| == b.fa.vocab && forall v :: 0 <= v < b.fa.vocab ==> row[v] == MarginalMass(b, start, t, v) / b.Total(0, start)
  }

  /** Normalizing masses known up to one positive factor. */
  lemma Normalized(b: Block, start: nat, t: nat, m: seq<real>, k: real)
    requires b.Valid() && t < b.len && start < b.fa.nNodes && b.Total(0, start) > 0.0 && k > 0.0 && |m| == b.fa.vocab
    requires forall v :: 0 <= v < b.fa.vocab ==> m[v] == Times(MarginalMass(b, start, t, v), k)
    ensures Sum(m) == Times(b.Total(0, start), k) > 0.0
    ensures forall v :: 0 <= v < b.fa.vocab ==> m[v] / Sum(m) == MarginalMass(b, start, t, v) / b.Total(0, start)
  {
    hide MarginalMass, Block.Total, Sum;
    var mass := (v: nat) => if v < b.fa.vocab then MarginalMass(b, start, t, v) else 0.0;
    var scaled := (v: nat) => if v < b.fa.vocab then m[v] else 0.0;
    SumAsRange(m, scaled);
    SumToScale(b.fa.vocab, mass, k, scaled);
    MarginalsTotal(b, start, t);
    TimesPositive(b.Total(0, start), k);
    forall v | 0 <= v < b.fa.vocab ensures m[v] / Sum(m) == MarginalMass(b, start, t, v) / b.Total(0, start) {
      CancelFactor(MarginalMass(b, start, t, v), b.Total(0, start), k);
    }
  }

  lemma CancelFactor(x: real, y: real, k: real)
    requires y > 0.0 && k > 0.0 && Times(y, k) > 0.0
    ensures Times(x, k) / Times(y, k) == x / y
  {
    var q := x / y;
    assert q * y == x;
    assert q * (y * k) == x * k;
  }

  /** A satisfiable block has a token of positive mass at every free position. */
  lemma LiveRow(b: Block, start: nat, t: nat, erow: seq<real>, rmax: real)
    requires b.Valid() && t < b.len && start < b.fa.nNodes && b.Total(0, start) > 0.0 && b.forced[t] == FREE
    requires RowShifted(b, t, erow, rmax)
    ensures rmax > 0.0 && 1.0 / rmax > 0.0 && Shifted(b, t, erow, 1.0 / rmax)
  {
    hide Block.Total, Block.EdgeMass, Automaton.NodeValid, Automaton.EdgeValid, PairEdge;
    if rmax == 0.0 {
      forall i, j | 0 <= i < b.fa.nNodes && 0 <= j < b.fa.nNodes ensures Raw(b, t, i, j) == 0.0 {
        var e := PairEdge(b.fa, i, j);
        if e.Some? { RowTerms(b, t, e.value, erow, rmax); }
      }
      DeadLeaf(b, t, start);
    }
    InversePositive(rmax);
    forall v | 0 <= v < b.fa.vocab ensures erow[v] == Times(b.Eff(t, v), 1.0 / rmax) {
      assert MassAt(b, t, v) == b.Eff(t, v);
    }
  }

  /** The marginals of one position. */
  method Position(b: Block, ghost c: Chain, ghost scales: seq<real>, t: nat, start: nat, fwd: seq<real>, bnext: seq<real>)
    returns (row: seq<real>)
    requires Setting(b, c, scales, t, start, fwd, bnext) && b.Total(0, start) > 0.0
    ensures MarginalRow(b, start, t, row)
  {
    hide Setting, Shifted, Block.Total, Common, RowShifted, Automaton.Valid, MarginalMass, Carried, Folded;
    ghost var k := 1.0;
    var erow: seq<real> := seq(b.fa.vocab, _ => 0.0);
    SettingShape(b, c, scales, t, start, fwd, bnext);
    if b.forced[t] == FREE {
      var rmax;
      erow, rmax := ShiftRow(b, t, erow);
      LiveRow(b, start, t, erow, rmax);
      k := 1.0 / rmax;
    } else {
      PinnedRow(b, t, erow);
    }
    var m := AddNodes(b, c, scales, t, start, fwd, bnext, erow, k);
    ghost var all := PositionFactor(b, c, scales, t, start, fwd, bnext, erow, k, m);
    Normalized(b, start, t, m, all);
    var z := 0.0;
    for v := 0 to b.fa.vocab
      invariant z == Sum(m[..v])
    {
      SumStep(m, v);
      z := z + m[v];
    }
    assert m[..|m|] == m;
    row := m;
    if z > 0.0 {
      for v := 0 to b.fa.vocab
        invariant |row| == b.fa.vocab
        invariant forall w :: 0 <= w < v ==> row[w] == m[w] / z
        invariant forall w :: v <= w < b.fa.vocab ==> row[w] == m[w]
      {
        row := row[v := row[v] / z];
      }
    }
  }

  lemma PinnedRow(b: Block, t: nat, erow: seq<real>)
    requires b.Valid() && t < b.len && b.forced[t] != FREE
    ensures Shifted(b, t, erow, 1.0)
  {
  }

  /** All three groups of scales together: one positive factor for the whole position. */
  ghost method PositionFactor(b: Block, c: Chain, scales: seq<real>, t: nat, start: nat, fwd: seq<real>, bnext: seq<real>,
                              erow: seq<real>, k: real, m: seq<real>)
    returns (all: real)
    requires Setting(b, c, scales, t, start, fwd, bnext) && Shifted(b, t, erow, k)
    requires |m| == b.fa.vocab && |scales| == b.len && c.Valid() && t <= |c.leaves|
    requires forall v :: 0 <= v < b.fa.vocab ==>
               m[v] == Times(SumTo(b.fa.nNodes, Carried(c, b, t, start, v)), Common(scales, t, k))
    ensures all > 0.0
    ensures forall v :: 0 <= v < b.fa.vocab ==> m[v] == Times(MarginalMass(b, start, t, v), all)
  {
    hide MarginalMass, Carried, Block.Back, RealLeaf, AcceptLeaf, Automaton.Valid;
    all := Times(Span(scales, 0, t), Common(scales, t, k));
    ScaleFromPositive(scales, t + 1);
    SpanPositive(scales, 0, t);
    TimesPositive(ScaleFrom(scales, t + 1), k);
    TimesPositive(Span(scales, 0, t), Common(scales, t, k));
    forall v | 0 <= v < b.fa.vocab ensures m[v] == Times(MarginalMass(b, start, t, v), all) {
      CarriedIsMarginal(b, c, scales, t, start, v);
      TimesAssoc(MarginalMass(b, start, t, v), Span(scales, 0, t), Common(scales, t, k));
    }
  }

  lemma {:induction false} SpanPositive(scales: seq<real>, k: nat, t: nat)
    requires k <= t <= |scales| && forall i :: 0 <= i < |scales| ==> scales[i] > 0.0
    ensures Span(scales, k, t) > 0.0
    decreases t - k
  {
    if k < t {
      SpanPositive(scales, k + 1, t);
      TimesPositive(Span(scales, k + 1, t), scales[k]);
    }
  }

  /** `ParallelTree::marginals`: for every position and token, the posterior probability of that token there. */
  method TokenMarginals(tree: ParallelTree) returns (out: seq<seq<real>>)
    requires Built(tree)
    ensures tree.block.Valid() && tree.start < tree.block.fa.nNodes && tree.block.Total(0, tree.start) > 0.0
    ensures |out| == tree.block.len
    ensures forall t :: 0 <= t < |out| ==> MarginalRow(tree.block, tree.start, t, out[t])
  {
    ghost var top, scales :| TreeOk(tree, top, scales);
    TreeBlock(tree, top, scales);
    hide TreeOk, Folded, IsSeg, MarginalRow, Block.Total, AcceptMatrix;
    var b, n := tree.block, tree.block.fa.nNodes;
    var diag := AcceptDiagonal(b.fa);
    ClosedIsFolded(tree, top, scales, diag);
    ghost var c := Closed(tree, diag);
    FoldedShape(b, c, scales);
    var leaves := tree.levels[tree.levelOffsets[0]..];
    var fwd := Prefixes(leaves, c, n, b.len);
    var bwd := Suffixes(leaves, diag, c, n, b.len);
    out := [];
    for t := 0 to b.len
      invariant |out| == t && forall k :: 0 <= k < t ==> MarginalRow(b, tree.start, k, out[k])
    {
      var row := Position(b, c, scales, t, tree.start, fwd[t], bwd[t + 1]);
      out := out + [row];
    }
  }

  lemma TreeBlock(tree: ParallelTree, top: nat, scales: seq<real>)
    requires TreeOk(tree, top, scales)
    ensures tree.block.Valid()
  {
  }
}
