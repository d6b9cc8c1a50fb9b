/** The segment-tree sampler as it runs: leaf matrices, pairwise products, a stack of midpoint frames. */
module TreeSampler {
  import opened Prelude
  import opened Sums
  import opened Tables
  import opened Automata
  import opened Posterior
  import opened SequentialSpec
  import opened SequentialSampler
  import opened Chains
  import opened TreeSpec

  /** Scratch of the tree build, reused across denoising steps. */
  class TreeScratch {
    var levels: seq<seq<real>>
    var pairEdge: seq<int>
    var pairEdgeNodes: nat
    var erow: seq<real>

    constructor ()
      ensures pairEdgeNodes == 0 && pairEdge == []
    {
      levels, pairEdge, pairEdgeNodes, erow := [], [], 0, [];
    }

    /** The pair map is kept at `pairEdgeNodes` squared entries. */
    ghost predicate Valid() reads this { |pairEdge| == pairEdgeNodes * pairEdgeNodes }

    method EnsurePairEdge(n: nat)
      requires Valid()
      modifies this`pairEdge, this`pairEdgeNodes
      ensures Valid() && pairEdgeNodes == n && forall i :: 0 <= i < n * n ==> pairEdge[i] == -1
    {
      pairEdge := seq(n * n, _ => -1);
      pairEdgeNodes := n;
    }

    method EnsureErow(vocab: nat)
      modifies this`erow
      ensures |erow| >= vocab
    {
      if |erow| < vocab {
        erow := erow + seq(vocab - |erow|, _ => 0.0);
      }
    }
  }

  // ---- the pair map ----

  function Code(e: Option<nat>): int { match e case None => -1 case Some(k) => k }

  ghost predicate PairRow(fa: Automaton, pairs: seq<int>, i: nat)
    requires fa.Valid() && i < fa.nNodes && |pairs| == fa.nNodes * fa.nNodes
  {
    forall j :: 0 <= j < fa.nNodes ==> PairEntry(pairs, fa.nNodes, i, j) == Code(PairEdge(fa, i, j))
  }

  function PairEntry(pairs: seq<int>, n: nat, i: nat, j: nat): int
    requires |pairs| == n * n && i < n && j < n
  {
    InRow(i, j, n, n);
    pairs[i * n + j]
  }

  lemma PairUpdate(pairs: seq<int>, n: nat, s: nat, d: nat, e: int, i: nat, j: nat)
    requires |pairs| == n * n && s < n && d < n && i < n && j < n
    ensures s * n + d < n * n
    ensures PairEntry(pairs[s * n + d := e], n, i, j) == if i == s && j == d then e else PairEntry(pairs, n, i, j)
  {
    InRow(s, d, n, n);
    InRow(i, j, n, n);
    if i < s {
      RowEnd(i, s, n);
    } else if s < i {
      RowEnd(s, i, n);
    }
  }

  /** The (source, destination) to edge map. */
  method FillPairs(fa: Automaton, scratch: TreeScratch)
    requires fa.Valid() && scratch.Valid()
    modifies scratch`pairEdge, scratch`pairEdgeNodes
    ensures scratch.Valid() && scratch.pairEdgeNodes == fa.nNodes
    ensures forall i :: 0 <= i < fa.nNodes ==> PairRow(fa, scratch.pairEdge, i)
  {
    var n := fa.nNodes;
    scratch.EnsurePairEdge(n);
    forall i, j | 0 <= i < n && 0 <= j < n ensures PairEntry(scratch.pairEdge, n, i, j) == -1 { InRow(i, j, n, n); }
    for s := 0 to n
      invariant scratch.pairEdgeNodes == n && |scratch.pairEdge| == n * n
      invariant forall i :: 0 <= i < s ==> PairRow(fa, scratch.pairEdge, i)
      invariant forall i, j :: s <= i < n && 0 <= j < n ==> PairEntry(scratch.pairEdge, n, i, j) == -1
    {
      FillRow(fa, scratch, s);
    }
  }

  /** Row `s` records the edges before `e`; every other row is as it was. */
  ghost predicate RowSoFar(fa: Automaton, before: seq<int>, now: seq<int>, s: nat, e: nat)
    requires fa.Valid() && s < fa.nNodes && fa.OutLo(s) <= e <= fa.OutHi(s)
    requires |before| == |now| == fa.nNodes * fa.nNodes
  {
    && (forall i, j :: 0 <= i < fa.nNodes && 0 <= j < fa.nNodes && i != s ==>
          PairEntry(now, fa.nNodes, i, j) == PairEntry(before, fa.nNodes, i, j))
    && (forall j :: 0 <= j < fa.nNodes ==> PairEntry(now, fa.nNodes, s, j) == Code(FirstTo(fa, j, fa.OutLo(s), e)))
  }

  lemma RowSoFarStep(fa: Automaton, before: seq<int>, now: seq<int>, s: nat, e: nat)
    requires fa.Valid() && s < fa.nNodes && fa.OutLo(s) <= e < fa.OutHi(s)
    requires |before| == |now| == fa.nNodes * fa.nNodes && RowSoFar(fa, before, now, s, e)
    ensures fa.edgeDst[e] < fa.nNodes && s * fa.nNodes + fa.edgeDst[e] < fa.nNodes * fa.nNodes
    ensures RowSoFar(fa, before, now[s * fa.nNodes + fa.edgeDst[e] := e], s, e + 1)
  {
    hide PairEntry, FirstTo, Automaton.NodeValid;
    var n := fa.nNodes;
    assert fa.EdgeValid(e);
    var d := fa.edgeDst[e];
    PairUpdate(now, n, s, d, e, s, d);
    var next := now[s * n + d := e];
    forall i, j | 0 <= i < n && 0 <= j < n && i != s
      ensures PairEntry(next, n, i, j) == PairEntry(before, n, i, j)
    {
      PairUpdate(now, n, s, d, e, i, j);
    }
    forall j | 0 <= j < n
      ensures PairEntry(next, n, s, j) == Code(FirstTo(fa, j, fa.OutLo(s), e + 1))
    {
      PairUpdate(now, n, s, d, e, s, j);
      FirstToExtend(fa, j, s, fa.OutLo(s), e);
    }
  }

  method FillRow(fa: Automaton, scratch: TreeScratch, s: nat)
    requires fa.Valid() && s < fa.nNodes && scratch.pairEdgeNodes == fa.nNodes && |scratch.pairEdge| == fa.nNodes * fa.nNodes
    requires forall i :: 0 <= i < s ==> PairRow(fa, scratch.pairEdge, i)
    requires forall i, j :: s <= i < fa.nNodes && 0 <= j < fa.nNodes ==> PairEntry(scratch.pairEdge, fa.nNodes, i, j) == -1
    modifies scratch`pairEdge
    ensures |scratch.pairEdge| == fa.nNodes * fa.nNodes
    ensures forall i :: 0 <= i < s + 1 ==> PairRow(fa, scratch.pairEdge, i)
    ensures forall i, j :: s + 1 <= i < fa.nNodes && 0 <= j < fa.nNodes ==> PairEntry(scratch.pairEdge, fa.nNodes, i, j) == -1
  {
    hide PairEntry, Automaton.NodeValid;
    var n := fa.nNodes;
    ghost var before := scratch.pairEdge;
    var e := fa.OutLo(s);
    while e < fa.OutHi(s)
      invariant fa.OutLo(s) <= e <= fa.OutHi(s)
      invariant |scratch.pairEdge| == n * n && RowSoFar(fa, before, scratch.pairEdge, s, e)
    {
      RowSoFarStep(fa, before, scratch.pairEdge, s, e);
      scratch.pairEdge := scratch.pairEdge[s * n + fa.edgeDst[e] := e];
      e := e + 1;
    }
    forall i | 0 <= i < s + 1 ensures PairRow(fa, scratch.pairEdge, i) {
      assert i < s ==> PairRow(fa, before, i);
    }
  }

  lemma {:induction false} FirstToExtend(fa: Automaton, j: nat, s: nat, lo: nat, e: nat)
    requires fa.Valid() && s < fa.nNodes && fa.OutLo(s) <= lo <= e < fa.OutHi(s)
    ensures FirstTo(fa, j, lo, e + 1) == if fa.edgeDst[e] == j then Some(e) else FirstTo(fa, j, lo, e)
    decreases e - lo
  {
    if lo < e {
      assert fa.NodeValid(s);
      assert fa.Apart(lo, e);
      FirstToExtend(fa, j, s, lo + 1, e);
    }
  }

  // ---- leaves ----

  ghost predicate LeafMatrix(b: Block, t: nat, m: seq<real>, scale: real)
    requires b.Valid() && t < b.len
  {
    && Square(m, b.fa.nNodes) && scale > 0.0
    && forall i, j :: 0 <= i < b.fa.nNodes && 0 <= j < b.fa.nNodes ==>
         At(m, b.fa.nNodes, i, j) == Times(Raw(b, t, i, j), scale)
  }

  ghost predicate IdentityMatrix(m: seq<real>, n: nat) {
    && Square(m, n)
    && forall i, j :: 0 <= i < n && 0 <= j < n ==> At(m, n, i, j) == if i == j then 1.0 else 0.0
  }

  /** The unscaled entries of one position, row by row. */
  function RawRow(b: Block, t: nat, i: nat): (r: seq<real>)
    requires b.Valid() && t < b.len && i < b.fa.nNodes
    ensures |r| == b.fa.nNodes && forall j :: 0 <= j < |r| ==> r[j] == Raw(b, t, i, j)
  {
    seq(b.fa.nNodes, j requires 0 <= j < b.fa.nNodes => Raw(b, t, i, j))
  }

  function RawRows(b: Block, t: nat, k: nat): (r: seq<seq<real>>)
    requires b.Valid() && t < b.len && k <= b.fa.nNodes
    ensures |r| == k && Wide(r, b.fa.nNodes) && forall i :: 0 <= i < k ==> r[i] == RawRow(b, t, i)
  {
    seq(k, i requires 0 <= i < k => RawRow(b, t, i))
  }

  /** One row of a leaf: no edge or a dead pin gives zero; the last leaf keeps accepting destinations only. */
  method LeafRow(b: Block, t: nat, i: nat, pairs: seq<int>, erow: seq<real>, rmax: real) returns (row: seq<real>)
    requires b.Valid() && t < b.len && i < b.fa.nNodes
    requires |pairs| == b.fa.nNodes * b.fa.nNodes && PairRow(b.fa, pairs, i)
    requires b.forced[t] == FREE ==> RowShifted(b, t, erow, rmax)
    ensures row == RawRow(b, t, i)
  {
    hide PairEdge, Block.EdgeMass, RowShifted, Automaton.NodeValid, Automaton.EdgeValid;
    var n := b.fa.nNodes;
    row := [];
    for j := 0 to n
      invariant |row| == j && forall k :: 0 <= k < j ==> row[k] == Raw(b, t, i, k)
    {
      var e := PairEntry(pairs, n, i, j);
      var v := 0.0;
      if e >= 0 {
        var base := FoldEntry(b, t, e, erow, rmax);
        if t + 1 == b.len && !(base > 0.0 && b.fa.accept[j]) {
          v := 0.0;
        } else {
          v := base;
        }
      }
      row := row + [v];
    }
  }

  /** One leaf matrix, shifted by its own largest entry; `None` when the position has no live pair at all. */
  method Leaf(b: Block, t: nat, pairs: seq<int>, erow: seq<real>, rmax: real) returns (m: Option<seq<real>>, ghost scale: real)
    requires b.Valid() && t < b.len
    requires |pairs| == b.fa.nNodes * b.fa.nNodes && forall i :: 0 <= i < b.fa.nNodes ==> PairRow(b.fa, pairs, i)
    requires b.forced[t] == FREE ==> RowShifted(b, t, erow, rmax)
    ensures m.Some? ==> LeafMatrix(b, t, m.value, scale)
    ensures m.None? ==> forall i, j :: 0 <= i < b.fa.nNodes && 0 <= j < b.fa.nNodes ==> Raw(b, t, i, j) == 0.0
  {
    hide PairRow, RowShifted, Raw, Automaton.Valid, RawRow, RawRows, Flat;
    var n := b.fa.nNodes;
    var leaf: seq<real> := [];
    RawRowsEmpty(b, t);
    for i := 0 to n
      invariant leaf == Flat(RawRows(b, t, i))
    {
      var row := LeafRow(b, t, i, pairs, erow, rmax);
      RawRowsGrow(b, t, i);
      leaf := leaf + row;
    }
    RawSquare(b, t, leaf);
    var top := Largest(leaf);
    if top == 0.0 {
      scale := 1.0;
      AllZero(b, t, leaf);
      return None, scale;
    }
    scale := 1.0 / top;
    InversePositive(top);
    ScaledLeaf(b, t, leaf, scale);
    return Some(Scale(leaf, 1.0 / top)), scale;
  }

  lemma RawRowsEmpty(b: Block, t: nat)
    requires b.Valid() && t < b.len
    ensures Flat(RawRows(b, t, 0)) == []
  {
  }

  lemma RawRowsGrow(b: Block, t: nat, i: nat)
    requires b.Valid() && t < b.len && i < b.fa.nNodes
    ensures Flat(RawRows(b, t, i + 1)) == Flat(RawRows(b, t, i)) + RawRow(b, t, i)
  {
    assert RawRows(b, t, i + 1) == RawRows(b, t, i) + [RawRow(b, t, i)];
    FlatAppend(RawRows(b, t, i), RawRow(b, t, i));
  }

  lemma RawSquare(b: Block, t: nat, leaf: seq<real>)
    requires b.Valid() && t < b.len && leaf == Flat(RawRows(b, t, b.fa.nNodes))
    ensures Square(leaf, b.fa.nNodes)
    ensures forall i, j :: 0 <= i < b.fa.nNodes && 0 <= j < b.fa.nNodes ==> At(leaf, b.fa.nNodes, i, j) == Raw(b, t, i, j)
  {
    var n := b.fa.nNodes;
    FlatLength(RawRows(b, t, n), n);
    forall i, j | 0 <= i < n && 0 <= j < n ensures At(leaf, n, i, j) == Raw(b, t, i, j) {
      FlatAt(RawRows(b, t, n), n, i, j);
      assert RawRows(b, t, n)[i] == RawRow(b, t, i);
    }
    FlatNonNegative(RawRows(b, t, n));
  }

  lemma {:induction false} FlatNonNegative(rows: seq<seq<real>>)
    requires forall i :: 0 <= i < |rows| ==> NonNegative(rows[i])
    ensures NonNegative(Flat(rows))
  {
    if rows != [] { FlatNonNegative(rows[..|rows| - 1]); }
  }

  lemma AllZero(b: Block, t: nat, leaf: seq<real>)
    requires b.Valid() && t < b.len && Square(leaf, b.fa.nNodes) && forall i :: 0 <= i < |leaf| ==> leaf[i] <= 0.0
    requires forall i, j :: 0 <= i < b.fa.nNodes && 0 <= j < b.fa.nNodes ==> At(leaf, b.fa.nNodes, i, j) == Raw(b, t, i, j)
    ensures forall i, j :: 0 <= i < b.fa.nNodes && 0 <= j < b.fa.nNodes ==> Raw(b, t, i, j) == 0.0
  {
    forall i, j | 0 <= i < b.fa.nNodes && 0 <= j < b.fa.nNodes ensures At(leaf, b.fa.nNodes, i, j) == 0.0 {
      InRow(i, j, b.fa.nNodes, b.fa.nNodes);
    }
  }

  lemma ScaledLeaf(b: Block, t: nat, leaf: seq<real>, scale: real)
    requires b.Valid() && t < b.len && Square(leaf, b.fa.nNodes) && scale > 0.0
    requires forall i, j :: 0 <= i < b.fa.nNodes && 0 <= j < b.fa.nNodes ==> At(leaf, b.fa.nNodes, i, j) == Raw(b, t, i, j)
    ensures LeafMatrix(b, t, Scale(leaf, scale), scale)
  {
    var n := b.fa.nNodes;
    var m := Scale(leaf, scale);
    forall k | 0 <= k < |m| ensures m[k] >= 0.0 { TimesPositive(leaf[k], scale); }
    forall i, j | 0 <= i < n && 0 <= j < n ensures At(m, n, i, j) == Times(Raw(b, t, i, j), scale) {
      InRow(i, j, n, n);
      assert At(m, n, i, j) == Times(At(leaf, n, i, j), scale);
    }
  }

  /** Identity padding. */
  method Identity(n: nat) returns (m: seq<real>)
    ensures IdentityMatrix(m, n)
  {
    m := [];
    for i := 0 to n * n
      invariant |m| == i && forall k :: 0 <= k < i ==> m[k] == if k % (n + 1) == 0 then 1.0 else 0.0
    {
      m := m + [if i % (n + 1) == 0 then 1.0 else 0.0];
    }
    forall i, j | 0 <= i < n && 0 <= j < n ensures At(m, n, i, j) == if i == j then 1.0 else 0.0 {
      InRow(i, j, n, n);
      Diagonal(n, i, j);
    }
  }

  lemma Diagonal(n: nat, i: nat, j: nat)
    requires i < n && j < n
    ensures (i * n + j) % (n + 1) == 0 <==> i == j
  {
    var k := i * n + j;
    assert k == i * (n + 1) + (j - i);
    if i <= j {
      DivModIs(k, n + 1, i, j - i);
    } else {
      assert k == (i - 1) * (n + 1) + (n + 1 + j - i);
      DivModIs(k, n + 1, i - 1, n + 1 + j - i);
    }
  }

  // ---- pairwise products ----

  /** The matrix of one segment of a chain. */
  ghost predicate IsSeg(m: seq<real>, c: Chain, lo: nat, hi: nat)
    requires c.Valid() && lo <= hi <= |c.leaves|
  {
    && Square(m, c.n)
    && forall i, j :: 0 <= i < c.n && 0 <= j < c.n ==> At(m, c.n, i, j) == c.Seg(lo, hi, i, j)
  }

  /** `matmul_log`: every entry the shifted sum over the middle index; the product of adjacent segments is their union. */
  method MatMul(a: seq<real>, z: seq<real>, ghost c: Chain, ghost lo: nat, ghost mid: nat, ghost hi: nat, n: nat)
    returns (out: seq<real>)
    requires c.Valid() && n == c.n && lo <= mid <= hi <= |c.leaves| && IsSeg(a, c, lo, mid) && IsSeg(z, c, mid, hi)
    ensures IsSeg(out, c, lo, hi)
  {
    hide Chain.Seg, Sum;
    out := [];
    ghost var rows: seq<seq<real>> := [];
    for i := 0 to n
      invariant out == Flat(rows) && |rows| == i
      invariant forall k :: 0 <= k < i ==> SegRow(rows[k], c, lo, hi, k)
    {
      var row := MatRow(a, z, c, lo, mid, hi, n, i);
      FlatAppend(rows, row);
      rows := rows + [row];
      out := out + row;
    }
    RowsAreSeg(out, rows, c, lo, hi);
  }

  ghost predicate SegRow(row: seq<real>, c: Chain, lo: nat, hi: nat, i: nat)
    requires c.Valid() && lo <= hi <= |c.leaves|
  {
    |row| == c.n && forall j :: 0 <= j < c.n ==> row[j] == c.Seg(lo, hi, i, j)
  }

  lemma RowsAreSeg(m: seq<real>, rows: seq<seq<real>>, c: Chain, lo: nat, hi: nat)
    requires c.Valid() && lo <= hi <= |c.leaves| && |rows| == c.n && m == Flat(rows)
    requires forall k :: 0 <= k < c.n ==> SegRow(rows[k], c, lo, hi, k)
    ensures IsSeg(m, c, lo, hi)
  {
    hide Flat;
    FlatLength(rows, c.n);
    FlatNonNegative(rows);
    forall i, j | 0 <= i < c.n && 0 <= j < c.n ensures At(m, c.n, i, j) == c.Seg(lo, hi, i, j) {
      FlatAt(rows, c.n, i, j);
      assert SegRow(rows[i], c, lo, hi, i);
    }
  }

  method MatRow(a: seq<real>, z: seq<real>, ghost c: Chain, ghost lo: nat, ghost mid: nat, ghost hi: nat, n: nat, i: nat)
    returns (row: seq<real>)
    requires c.Valid() && n == c.n && lo <= mid <= hi <= |c.leaves| && IsSeg(a, c, lo, mid) && IsSeg(z, c, mid, hi) && i < n
    ensures SegRow(row, c, lo, hi, i)
  {
    hide Chain.Seg, Sum;
    row := [];
    for j := 0 to n
      invariant |row| == j && forall k :: 0 <= k < j ==> row[k] == c.Seg(lo, hi, i, k)
    {
      var terms: seq<real> := [];
      for k := 0 to n
        invariant |terms| == k
        invariant forall m :: 0 <= m < k ==> terms[m] == Times(c.Seg(lo, mid, i, m), c.Seg(mid, hi, m, j))
      {
        assert At(a, n, i, k) == c.Seg(lo, mid, i, k) && At(z, n, k, j) == c.Seg(mid, hi, k, j);
        terms := terms + [Times(At(a, n, i, k), At(z, n, k, j))];
      }
      assert terms == c.Cond(lo, mid, hi, i, j);
      var v := SumShifted(terms);
      c.CondTotal(lo, mid, hi, i, j);
      row := row + [v];
    }
  }

  // ---- the levels of the tree ----

  /** Where level `h` starts among the matrices of a tree of height `top`. */
  function Off(top: nat, h: nat): nat
    requires h <= top + 1
  {
    if h == 0 then 0 else Off(top, h - 1) + Pow2(top - (h - 1))
  }

  /** Node `k` of level `h` covers positions `[k * 2^h, (k + 1) * 2^h)`. */
  ghost predicate Node(levels: seq<seq<real>>, c: Chain, top: nat, h: nat, k: nat)
    requires c.Valid() && |c.leaves| == Pow2(top) && h <= top
  {
    && k < Pow2(top - h) && Off(top, h) + k < |levels|
    && k * Pow2(h) + Pow2(h) <= |c.leaves|
    && IsSeg(levels[Off(top, h) + k], c, k * Pow2(h), k * Pow2(h) + Pow2(h))
  }

  ghost predicate Level(levels: seq<seq<real>>, c: Chain, top: nat, h: nat)
    requires c.Valid() && |c.leaves| == Pow2(top) && h <= top
  {
    forall k :: 0 <= k < Pow2(top - h) ==> Node(levels, c, top, h, k)
  }

  lemma {:induction false} Pow2Split(h: nat, top: nat)
    requires h <= top
    ensures Pow2(top) == Pow2(top - h) * Pow2(h)
  {
    if h > 0 {
      Pow2Split(h - 1, top);
      assert Pow2(top - (h - 1)) == 2 * Pow2(top - h);
      assert Pow2(h) == 2 * Pow2(h - 1);
      assert (2 * Pow2(top - h)) * Pow2(h - 1) == Pow2(top - h) * (2 * Pow2(h - 1));
    }
  }

  lemma NodeRange(top: nat, h: nat, k: nat)
    requires h <= top && k < Pow2(top - h)
    ensures k * Pow2(h) + Pow2(h) <= Pow2(top)
  {
    Pow2Split(h, top);
    RowEnd(k, Pow2(top - h), Pow2(h));
  }

  lemma ChildRange(h: nat, k: nat)
    requires h > 0
    ensures Pow2(h) == 2 * Pow2(h - 1)
    ensures (2 * k) * Pow2(h - 1) == k * Pow2(h)
    ensures (2 * k + 1) * Pow2(h - 1) == k * Pow2(h) + Pow2(h - 1)
  {
    var w := Pow2(h - 1);
    assert (2 * k) * w == k * (2 * w);
    assert (2 * k + 1) * w == (2 * k) * w + w;
  }

  /** Appending matrices keeps every finished level. */
  lemma LevelKept(levels: seq<seq<real>>, more: seq<seq<real>>, c: Chain, top: nat, h: nat)
    requires c.Valid() && |c.leaves| == Pow2(top) && h <= top && Level(levels, c, top, h)
    ensures Level(levels + more, c, top, h)
  {
    hide IsSeg;
    forall k | 0 <= k < Pow2(top - h) ensures Node(levels + more, c, top, h, k) {
      assert Node(levels, c, top, h, k);
    }
  }

  /** One level up: pairwise products. */
  method Products(levels0: seq<seq<real>>, ghost c: Chain, ghost top: nat, ghost h: nat, width: nat, n: nat)
    returns (levels: seq<seq<real>>)
    requires c.Valid() && n == c.n && |c.leaves| == Pow2(top) && h < top && width == Pow2(top - h)
    requires |levels0| == Off(top, h + 1) && Level(levels0, c, top, h)
    ensures levels0 <= levels && |levels| == Off(top, h + 2) && Level(levels, c, top, h + 1)
  {
    hide IsSeg;
    levels := levels0;
    ghost var up := h + 1;
    var prevStart := |levels0| - width;
    assert prevStart == Off(top, h);
    ChildRange(top - h, 0);
    for pair := 0 to width / 2
      invariant levels0 <= levels && |levels| == |levels0| + pair
      invariant forall k :: 0 <= k < pair ==> Node(levels, c, top, up, k)
    {
      ChildRange(h + 1, pair);
      assert Node(levels0, c, top, h, 2 * pair) && Node(levels0, c, top, h, 2 * pair + 1);
      var a := levels[prevStart + pair * 2];
      var z := levels[prevStart + pair * 2 + 1];
      ghost var lo := pair * Pow2(h + 1);
      NodeRange(top, h + 1, pair);
      var prod := MatMul(a, z, c, lo, lo + Pow2(h), lo + Pow2(h + 1), n);
      ghost var before := levels;
      levels := levels + [prod];
      forall k | 0 <= k < pair + 1 ensures Node(levels, c, top, up, k) {
        if k < pair {
          assert Node(before, c, top, up, k);
        }
      }
    }
  }

  /** All levels, bottom up. */
  method BuildLevels(leaves: seq<seq<real>>, ghost c: Chain, ghost top: nat, lenPad: nat, n: nat)
    returns (levels: seq<seq<real>>)
    requires c.Valid() && n == c.n && c.leaves == leaves && |leaves| == lenPad == Pow2(top)
    ensures |levels| == Off(top, top + 1) && leaves <= levels && forall h :: 0 <= h <= top ==> Level(levels, c, top, h)
  {
    hide Level;
    levels := leaves;
    LeafLevel(c, top);
    ghost var h := 0;
    var width := lenPad;
    while width > 1
      invariant h <= top && width == Pow2(top - h) && |levels| == Off(top, h + 1) && leaves <= levels
      invariant forall g :: 0 <= g <= h ==> Level(levels, c, top, g)
      decreases width
    {
      assert h < top;
      ghost var before := levels;
      levels := Products(levels, c, top, h, width, n);
      forall g | 0 <= g <= h ensures Level(levels, c, top, g) {
        LevelKept(before, levels[|before|..], c, top, g);
        assert before + levels[|before|..] == levels;
      }
      ChildRange(top - h, 0);
      width := width / 2;
      h := h + 1;
    }
    HeightIs(top, h);
  }

  lemma HeightIs(top: nat, h: nat)
    requires h <= top && Pow2(top - h) <= 1
    ensures h == top
  {
  }

  lemma LeafLevel(c: Chain, top: nat)
    requires c.Valid() && |c.leaves| == Pow2(top)
    ensures Level(c.leaves, c, top, 0)
  {
    forall k | 0 <= k < Pow2(top) ensures Node(c.leaves, c, top, 0, k) {
      assert k * Pow2(0) == k;
      forall i, j | 0 <= i < c.n && 0 <= j < c.n ensures At(c.leaves[k], c.n, i, j) == c.Seg(k, k + 1, i, j) {
        c.OneStep(k, i, j);
      }
    }
  }

  // ---- building the tree ----

  /** A built segment tree over one block: the matrices of all levels, leaves first. */
  datatype ParallelTree = ParallelTree(block: Block, start: nat, lenPad: nat, levelOffsets: seq<nat>, levels: seq<seq<real>>)

  ghost function ChainOf(tree: ParallelTree): Chain
    requires tree.lenPad <= |tree.levels|
  {
    Chain(tree.block.fa.nNodes, tree.levels[..tree.lenPad])
  }

  ghost predicate TreeOk(tree: ParallelTree, top: nat, scales: seq<real>) {
    && tree.lenPad == Pow2(top) <= |tree.levels|
    && Ready(tree.block, ChainOf(tree), scales, top, tree.start)
    && |tree.levels| == Off(top, top + 1)
    && (forall h :: 0 <= h <= top ==> Level(tree.levels, ChainOf(tree), top, h))
    && |tree.levelOffsets| == top + 1
    && (forall h :: 0 <= h <= top ==> tree.levelOffsets[h] == Off(top, h))
  }

  /** What `build_tree_from` promises about its result. */
  ghost predicate Built(tree: ParallelTree) {
    exists top, scales :: TreeOk(tree, top, scales)
  }

  /** Why a build is refused, if it is. Unlike the sequential call an empty block is always refused. */
  ghost function BuildRefusal(fa: Automaton, start: nat, mass: seq<NonNeg>, len: nat, forced: seq<nat>): Option<FaError>
    requires fa.Valid()
  {
    if start >= fa.nNodes then Some(BadStart(start))
    else if |forced| != len then Some(ForcedShape(|forced|, len))
    else if |mass| != len * fa.vocab then Some(LogitsShape(len * fa.vocab, |mass|, len, fa.vocab))
    else if len == 0 || Block(fa, mass, len, forced).Total(0, start) == 0.0 then Some(Unsatisfiable(len))
    else None
  }

  /** What each refusal of a build says, and that the checks come in this order. */
  lemma BuildRefusalMeans(fa: Automaton, start: nat, mass: seq<NonNeg>, len: nat, forced: seq<nat>)
    requires fa.Valid()
    ensures match BuildRefusal(fa, start, mass, len, forced)
            case None => WellShaped(fa, start, mass, len, forced) && len > 0 && Block(fa, mass, len, forced).Total(0, start) > 0.0
            case Some(BadStart(s)) => s == start >= fa.nNodes
            case Some(ForcedShape(got, n)) => start < fa.nNodes && got == |forced| != len == n
            case Some(LogitsShape(expected, got, n, vocab)) =>
              && start < fa.nNodes && |forced| == len == n && vocab == fa.vocab
              && expected == len * fa.vocab && got == |mass| != expected
            case Some(Unsatisfiable(n)) =>
              && WellShaped(fa, start, mass, len, forced) && n == len
              && (len > 0 ==> Block(fa, mass, len, forced).Total(0, start) == 0.0)
            case _ => false
  {
    hide Block.Total;
    if WellShaped(fa, start, mass, len, forced) {
      Block(fa, mass, len, forced).BackIsTotal(0, start);
    }
  }

  method NextPowerOfTwo(len: nat) returns (p: nat, ghost top: nat)
    ensures p == Pow2(top) && len <= p
    ensures p == 1 || p < 2 * len
  {
    p, top := 1, 0;
    while p < len
      invariant p == Pow2(top) && (p == 1 || p < 2 * len)
      decreases len - p
    {
      p, top := 2 * p, top + 1;
    }
  }

  /** A position without any live pair leaves no sequence of positive weight. */
  lemma DeadLeaf(b: Block, t: nat, start: nat)
    requires b.Valid() && t < b.len && start < b.fa.nNodes
    requires forall i, j :: 0 <= i < b.fa.nNodes && 0 <= j < b.fa.nNodes ==> Raw(b, t, i, j) == 0.0
    ensures b.Total(0, start) == 0.0
  {
    hide Block.Term, Raw;
    forall x | |x| == b.len ensures b.Term(0, start, x) == 0.0 {
      if b.Term(0, start, x) > 0.0 {
        LiveEntry(b, t, start, x);
      }
    }
    TotalZero(b, start);
  }

  lemma LiveEntry(b: Block, t: nat, start: nat, x: seq<nat>)
    requires b.Valid() && t < b.len && start < b.fa.nNodes && |x| == b.len && b.Term(0, start, x) > 0.0
    ensures exists i, j :: 0 <= i < b.fa.nNodes && 0 <= j < b.fa.nNodes && Raw(b, t, i, j) > 0.0
  {
    hide Block.Term, PairMass, StatesOf, Automaton.Walk, Automaton.Valid, PairEdge;
    StatesCross(b, 0, start, x);
    TermWalks(b, 0, start, x);
    var p := StatesOf(b.fa, start, x);
    assert PairMass(b, 0 + t, p[t], p[t + 1]) > 0.0;
    assert Raw(b, t, p[t], p[t + 1]) > 0.0;
  }

  /** The real leaves of the block, or `None` when some position is dead. */
  method RealLeaves(b: Block, start: nat, scratch: TreeScratch) returns (leaves: Option<seq<seq<real>>>, ghost scales: seq<real>)
    requires b.Valid() && start < b.fa.nNodes && |scratch.erow| >= b.fa.vocab
    requires |scratch.pairEdge| == b.fa.nNodes * b.fa.nNodes
    requires forall i :: 0 <= i < b.fa.nNodes ==> PairRow(b.fa, scratch.pairEdge, i)
    modifies scratch`erow
    ensures leaves.None? ==> b.Total(0, start) == 0.0
    ensures leaves.Some? ==> |leaves.value| == b.len == |scales|
    ensures leaves.Some? ==> forall t :: 0 <= t < b.len ==> LeafMatrix(b, t, leaves.value[t], scales[t])
  {
    hide LeafMatrix, PairRow, RowShifted, Raw;
    var out: seq<seq<real>> := [];
    scales := [];
    for t := 0 to b.len
      invariant |out| == t == |scales| && |scratch.erow| >= b.fa.vocab
      invariant forall s :: 0 <= s < t ==> LeafMatrix(b, s, out[s], scales[s])
    {
      var rmax := 0.0;
      if b.forced[t] == FREE {
        scratch.erow, rmax := ShiftRow(b, t, scratch.erow);
      }
      ghost var scale;
      var m;
      m, scale := Leaf(b, t, scratch.pairEdge, scratch.erow, rmax);
      if m.None? {
        DeadLeaf(b, t, start);
        return None, scales;
      }
      out := out + [m.value];
      scales := scales + [scale];
    }
    return Some(out), scales;
  }

  method Padding(leaves: seq<seq<real>>, lenPad: nat, n: nat) returns (all: seq<seq<real>>)
    requires |leaves| <= lenPad
    ensures |all| == lenPad && leaves <= all
    ensures forall t :: |leaves| <= t < lenPad ==> IdentityMatrix(all[t], n)
  {
    all := leaves;
    for t := |leaves| to lenPad
      invariant |all| == t && leaves <= all
      invariant forall s :: |leaves| <= s < t ==> IdentityMatrix(all[s], n)
    {
      var id := Identity(n);
      all := all + [id];
    }
  }

  lemma LeavesReady(b: Block, leaves: seq<seq<real>>, scales: seq<real>)
    requires b.Valid() && |leaves| >= b.len == |scales|
    requires forall t :: 0 <= t < b.len ==> LeafMatrix(b, t, leaves[t], scales[t])
    requires forall t :: b.len <= t < |leaves| ==> IdentityMatrix(leaves[t], b.fa.nNodes)
    ensures LeavesOf(b, Chain(b.fa.nNodes, leaves), scales)
  {
    hide Raw;
    var c := Chain(b.fa.nNodes, leaves);
    forall t | 0 <= t < |leaves| ensures Square(leaves[t], c.n) {
      assert t < b.len ==> LeafMatrix(b, t, leaves[t], scales[t]);
    }
    forall t | 0 <= t < b.len ensures scales[t] > 0.0 && RealLeaf(b, c, t, scales[t]) {
      assert LeafMatrix(b, t, leaves[t], scales[t]);
    }
    forall t | b.len <= t < |c.leaves| ensures PaddingLeaf(c, t) {
      assert IdentityMatrix(leaves[t], b.fa.nNodes);
    }
  }

  /** Whether the root row over the start node carries mass. */
  method RootLive(root: seq<real>, ghost c: Chain, ghost top: nat, n: nat, start: nat) returns (live: bool)
    requires c.Valid() && n == c.n && |c.leaves| == Pow2(top) && IsSeg(root, c, 0, |c.leaves|) && start < n
    ensures live <==> Sum(Row(c, start)) > 0.0
  {
    live := false;
    for f := 0 to n
      invariant live <==> exists k :: 0 <= k < f && Row(c, start)[k] != 0.0
    {
      assert At(root, n, start, f) == Row(c, start)[f];
      if At(root, n, start, f) != 0.0 {
        live := true;
      }
    }
    SumZero(Row(c, start));
    SumNonNegative(Row(c, start));
  }

  lemma OffNext(top: nat, h: nat)
    requires h <= top
    ensures Off(top, 0) == 0 && Off(top, h + 1) == Off(top, h) + Pow2(top - h)
    ensures h < top ==> Pow2(top - h) == 2 * Pow2(top - h - 1) > 1
    ensures h == top ==> Pow2(top - h) == 1
  {
  }

  method Offsets(lenPad: nat, ghost top: nat) returns (offsets: seq<nat>)
    requires lenPad == Pow2(top)
    ensures |offsets| == top + 1 && forall h :: 0 <= h <= top ==> offsets[h] == Off(top, h)
  {
    hide Off, Pow2;
    offsets := [0];
    var w, off := lenPad, 0;
    ghost var h := 0;
    OffNext(top, 0);
    while w > 1
      invariant h <= top && w == Pow2(top - h) && off == Off(top, h) && |offsets| == h + 1
      invariant forall g :: 0 <= g <= h ==> offsets[g] == Off(top, g)
      decreases w
    {
      OffNext(top, h);
      off := off + w;
      w := w / 2;
      h := h + 1;
      offsets := offsets + [off];
    }
    OffNext(top, h);
  }

  lemma RowLive(b: Block, c: Chain, scales: seq<real>, start: nat)
    requires b.Valid() && b.len > 0 && LeavesOf(b, c, scales) && start < b.fa.nNodes
    ensures Sum(Row(c, start)) > 0.0 <==> b.Total(0, start) > 0.0
    ensures b.Back(0, start) == b.Total(0, start) >= 0.0
  {
    hide Block.Back, RealLeaf, PaddingLeaf;
    RowTotal(b, c, scales, 0, start);
    SumAsRange(Row(c, start), (f: nat) => c.Seg(0, |c.leaves|, start, f));
    ScaleFromPositive(scales, 0);
    b.BackIsTotal(0, start);
    TimesPositive(b.Back(0, start), ScaleFrom(scales, 0));
  }

  /** `build_tree_from`: refuses exactly when no sequence fills the block with positive weight (or a shape is wrong). */
  method BuildTreeFrom(fa: Automaton, scratch: TreeScratch, start: nat, mass: seq<NonNeg>, len: nat, forced: seq<nat>)
    returns (r: Result<ParallelTree, FaError>)
    requires fa.Valid() && scratch.Valid()
    modifies scratch
    ensures scratch.Valid()
    ensures var refusal := BuildRefusal(fa, start, mass, len, forced);
            if refusal.Some? then r == Err(refusal.value)
            else r.Ok? && r.value.block == Block(fa, mass, len, forced) && r.value.start == start && Built(r.value)
    ensures r.Ok? ==> len <= r.value.lenPad && (r.value.lenPad == 1 || r.value.lenPad < 2 * len)
  {
    if start >= fa.nNodes {
      return Err(BadStart(start));
    }
    if |forced| != len {
      return Err(ForcedShape(|forced|, len));
    }
    if |mass| != len * fa.vocab {
      return Err(LogitsShape(len * fa.vocab, |mass|, len, fa.vocab));
    }
    if len == 0 {
      return Err(Unsatisfiable(0));
    }
    var b := Block(fa, mass, len, forced);
    r := BuildShaped(b, scratch, start);
  }

  method BuildShaped(b: Block, scratch: TreeScratch, start: nat) returns (r: Result<ParallelTree, FaError>)
    requires b.Valid() && b.len > 0 && start < b.fa.nNodes && scratch.Valid()
    modifies scratch
    ensures scratch.Valid()
    ensures b.Total(0, start) == 0.0 ==> r == Err(Unsatisfiable(b.len))
    ensures b.Total(0, start) != 0.0 ==> r.Ok? && r.value.block == b && r.value.start == start && Built(r.value)
    ensures r.Ok? ==> b.len <= r.value.lenPad && (r.value.lenPad == 1 || r.value.lenPad < 2 * b.len)
  {
    hide PairRow, LeafMatrix, IdentityMatrix, Level, LeavesOf, IsSeg, Automaton.Valid, Off;
    var n := b.fa.nNodes;
    FillPairs(b.fa, scratch);
    scratch.EnsureErow(b.fa.vocab);
    var found, scales := RealLeaves(b, start, scratch);
    if found.None? {
      return Err(Unsatisfiable(b.len));
    }
    var lenPad, top := NextPowerOfTwo(b.len);
    var leaves := Padding(found.value, lenPad, n);
    LeavesReady(b, leaves, scales);
    ghost var c := Chain(n, leaves);
    ChainIsValid(b, c, scales);
    var levels := BuildLevels(leaves, c, top, lenPad, n);
    LevelsShape(levels, c, top);
    var root := levels[|levels| - 1];
    var live := RootLive(root, c, top, n, start);
    RowLive(b, c, scales, start);
    if !live {
      return Err(Unsatisfiable(b.len));
    }
    var offsets := Offsets(lenPad, top);
    scratch.levels := levels;
    var tree := ParallelTree(b, start, lenPad, offsets, levels);
    assert ChainOf(tree) == c;
    assert TreeOk(tree, top, scales);
    return Ok(tree);
  }

  lemma ChainIsValid(b: Block, c: Chain, scales: seq<real>)
    requires b.Valid() && LeavesOf(b, c, scales)
    ensures c.Valid()
  {
  }

  /** The leaves come first and the root last. */
  lemma LevelsShape(levels: seq<seq<real>>, c: Chain, top: nat)
    requires c.Valid() && |c.leaves| == Pow2(top) && |levels| == Off(top, top + 1)
    requires c.leaves <= levels && forall h :: 0 <= h <= top ==> Level(levels, c, top, h)
    ensures Pow2(top) <= |levels| && levels[..Pow2(top)] == c.leaves
    ensures IsSeg(levels[|levels| - 1], c, 0, |c.leaves|)
  {
    hide IsSeg;
    assert Level(levels, c, top, top);
    assert Node(levels, c, top, top, 0);
  }

  // ---- the top-down walk ----

  /** One segment still to be refined: walk level, index within the level, and its two fixed boundary states. */
  datatype Frame = Frame(level: nat, idx: nat, sb: nat, se: nat)

  /** Where a frame's segment starts and how wide it is. */
  ghost predicate FrameIs(f: Frame, top: nat, lo: nat, w: nat) {
    && f.level <= top && w == Pow2(top - f.level) && lo == f.idx * w && lo + w <= Pow2(top)
    && f.idx < Pow2(f.level)
  }

  /** A frame agrees with the target path: its ends are the target's, and drawing it from `pos` yields the target's interior. */
  ghost predicate FrameOk(c: Chain, top: nat, target: seq<nat>, u: nat -> real, f: Frame, lo: nat, w: nat, pos: nat)
    requires c.Valid() && |c.leaves| == Pow2(top) && |target| == Pow2(top) + 1 && Uniform(u)
  {
    && FrameIs(f, top, lo, w) && f.sb < c.n && f.se < c.n
    && target[lo] == f.sb && target[lo + w] == f.se
    && c.Seg(lo, lo + w, f.sb, f.se) > 0.0
    && target[lo + 1..lo + w] == c.Midpoints(top - f.level, lo, f.sb, f.se, u, pos)
  }

  /** The frames on the stack (last on top) cover `[lo, Pow2(top))` from left to right, each with its own draws. */
  ghost predicate StackOk(c: Chain, top: nat, target: seq<nat>, states: seq<nat>, u: nat -> real, stack: seq<Frame>,
                          lo: nat, pos: nat)
    requires c.Valid() && |c.leaves| == Pow2(top) && |target| == Pow2(top) + 1 == |states| && Uniform(u)
    decreases |stack|
  {
    if stack == [] then lo == Pow2(top)
    else
      var f := stack[|stack| - 1];
      f.level <= top &&
      var w := Pow2(top - f.level);
      && FrameOk(c, top, target, u, f, lo, w, pos)
      && states[lo + w] == target[lo + w]
      && StackOk(c, top, target, states, u, stack[..|stack| - 1], lo + w, pos + w - 1)
  }

  /** How many draws the stack still takes. */
  ghost function StackDraws(stack: seq<Frame>, top: nat): int
  {
    if stack == [] then 0
    else
      var f := stack[|stack| - 1];
      (if f.level <= top then Pow2(top - f.level) - 1 else 0) + StackDraws(stack[..|stack| - 1], top)
  }

  /** Writing a state left of everything still to be done does not disturb the stack. */
  lemma {:induction false} StackKept(c: Chain, top: nat, target: seq<nat>, states: seq<nat>, u: nat -> real, stack: seq<Frame>,
                                     lo: nat, pos: nat, mid: nat, s: nat)
    requires c.Valid() && |c.leaves| == Pow2(top) && |target| == Pow2(top) + 1 == |states| && Uniform(u)
    requires StackOk(c, top, target, states, u, stack, lo, pos) && mid < lo
    ensures StackOk(c, top, target, states[mid := s], u, stack, lo, pos)
    decreases |stack|
  {
    hide Chain.Midpoints, Chain.Seg;
    if stack != [] {
      var f := stack[|stack| - 1];
      var w := Pow2(top - f.level);
      StackKept(c, top, target, states, u, stack[..|stack| - 1], lo + w, pos + w - 1, mid, s);
    }
  }

  /** Splitting a frame at its drawn midpoint gives two frames that agree with the target. */
  lemma FrameSplit(c: Chain, top: nat, target: seq<nat>, u: nat -> real, f: Frame, lo: nat, w: nat, pos: nat, m: nat)
    requires c.Valid() && |c.leaves| == Pow2(top) && |target| == Pow2(top) + 1 && Uniform(u)
    requires FrameOk(c, top, target, u, f, lo, 2 * w, pos) && w > 0 && f.level < top
    requires lo + 2 * w <= |c.leaves| && f.sb < c.n && c.Cond(lo, lo + w, lo + 2 * w, f.sb, f.se) != []
    requires m == Draw(c.Cond(lo, lo + w, lo + 2 * w, f.sb, f.se), u(pos))
    ensures m < c.n && target[lo + w] == m
    ensures FrameOk(c, top, target, u, Frame(f.level + 1, 2 * f.idx, f.sb, m), lo, w, pos + 1)
    ensures FrameOk(c, top, target, u, Frame(f.level + 1, 2 * f.idx + 1, m, f.se), lo + w, w, pos + w)
  {
    hide Chain.Seg, Chain.Cond, Draw, Chain.Midpoints, Pow2;
    var h := top - f.level;
    HalfPow(h);
    HalfPow(f.level + 1);
    c.MidpointLive(lo, lo + w, lo + 2 * w, f.sb, f.se, u(pos));
    c.MidpointsUnfold(h, w, lo, f.sb, m, f.se, u, pos);
    var left, right := c.Midpoints(h - 1, lo, f.sb, m, u, pos + 1), c.Midpoints(h - 1, lo + w, m, f.se, u, pos + w);
    MiddleOf(target[lo + 1..lo + 2 * w], left, m, right, target, lo, w);
    assert (2 * f.idx) * w == f.idx * (2 * w);
    assert (2 * f.idx + 1) * w == (2 * f.idx) * w + w;
  }

  lemma HalfPow(h: nat)
    requires h > 0
    ensures Pow2(h) == 2 * Pow2(h - 1)
  {
  }

  lemma MiddleOf(all: seq<nat>, left: seq<nat>, m: nat, right: seq<nat>, target: seq<nat>, lo: nat, w: nat)
    requires w > 0 && lo + 2 * w < |target| && all == target[lo + 1..lo + 2 * w] && all == left + [m] + right
    requires |left| == w - 1 == |right|
    ensures target[lo + w] == m && target[lo + 1..lo + w] == left && target[lo + w + 1..lo + 2 * w] == right
  {
    assert all[w - 1] == m && all[w - 1] == target[lo + w];
    assert all[..w - 1] == left && all[..w - 1] == target[lo + 1..lo + w];
    assert all[w..] == right && all[w..] == target[lo + w + 1..lo + 2 * w];
  }

  /** The right shift that gives a walk level its segment width. */
  function Shr(x: nat, k: nat): nat {
    if k == 0 then x else Shr(x / 2, k - 1)
  }

  lemma {:induction false} ShrPow2(top: nat, k: nat)
    requires k <= top
    ensures Shr(Pow2(top), k) == Pow2(top - k)
  {
    if k > 0 { ShrPow2(top - 1, k - 1); }
  }

  /** `draw_categorical` over weights shifted by their largest entry. */
  method Categorical(ws: seq<real>, r: real) returns (k: nat)
    requires NonNegative(ws) && Sum(ws) > 0.0 && 0.0 <= r < 1.0
    ensures ws != [] && k == Draw(ws, r)
  {
    var m := Largest(ws);
    SumZero(ws);
    assert ws != [];
    InversePositive(m);
    var scaled := Scale(ws, 1.0 / m);
    var total := 0.0;
    for i := 0 to |scaled|
      invariant total == Sum(scaled[..i])
    {
      SumStep(scaled, i);
      total := total + scaled[i];
    }
    assert scaled[..|scaled|] == scaled;
    k := Scan(scaled, Times(r, total));
    DrawScale(ws, 1.0 / m, r);
  }

  /** One midpoint: the products of the two child entries, drawn. A conditional without mass is counted and answered by an
      arbitrary state. */
  method Midpoint(tree: ParallelTree, ghost top: nat, ghost scales: seq<real>, f: Frame, ghost lo: nat, ghost w: nat,
                  rng: DrawStream, nan: nat)
    returns (m: nat, nanCount: nat)
    requires TreeOk(tree, top, scales) && f.level < top && FrameIs(f, top, lo, 2 * w) && Uniform(rng.u)
    requires f.sb < tree.block.fa.nNodes && f.se < tree.block.fa.nNodes && lo + 2 * w <= |ChainOf(tree).leaves|
    modifies rng`pos
    ensures rng.pos == old(rng.pos) + 1 && m < tree.block.fa.nNodes
    ensures var c := ChainOf(tree);
            if c.Seg(lo, lo + 2 * w, f.sb, f.se) > 0.0 then
              && nanCount == nan && c.Cond(lo, lo + w, lo + 2 * w, f.sb, f.se) != []
              && m == Draw(c.Cond(lo, lo + w, lo + 2 * w, f.sb, f.se), rng.u(old(rng.pos)))
            else
              nanCount == nan + 1 && m == rng.raw(old(rng.pos)) % tree.block.fa.nNodes
  {
    hide Chain.Seg, Ready, Off, Level, Sum;
    ghost var c := ChainOf(tree);
    var n := tree.block.fa.nNodes;
    ChildNodes(tree, top, scales, f, lo, w);
    var childOff := tree.levelOffsets[|tree.levelOffsets| - 2 - f.level];
    var ql := tree.levels[childOff + f.idx * 2];
    var qr := tree.levels[childOff + f.idx * 2 + 1];
    var cond: seq<real> := [];
    for k := 0 to n
      invariant |cond| == k
      invariant forall j :: 0 <= j < k ==> cond[j] == Times(c.Seg(lo, lo + w, f.sb, j), c.Seg(lo + w, lo + 2 * w, j, f.se))
    {
      assert At(ql, n, f.sb, k) == c.Seg(lo, lo + w, f.sb, k);
      assert At(qr, n, k, f.se) == c.Seg(lo + w, lo + 2 * w, k, f.se);
      cond := cond + [Times(At(ql, n, f.sb, k), At(qr, n, k, f.se))];
    }
    assert cond == c.Cond(lo, lo + w, lo + 2 * w, f.sb, f.se);
    c.CondTotal(lo, lo + w, lo + 2 * w, f.sb, f.se);
    var cm := Largest(cond);
    LargestLive(cond, cm);
    if cm == 0.0 {
      var word := rng.NextU64();
      return word % n, nan + 1;
    }
    var r := rng.NextF64();
    DrawPositive(cond, r);
    m := Categorical(cond, r);
    return m, nan;
  }

  /** The largest entry tells whether there is any mass. */
  lemma LargestLive(ws: seq<real>, m: real)
    requires NonNegative(ws) && m >= 0.0 && (forall i :: 0 <= i < |ws| ==> ws[i] <= m) && (m == 0.0 || m in ws)
    ensures m == 0.0 <==> Sum(ws) == 0.0
    ensures m > 0.0 ==> Sum(ws) > 0.0
  {
    hide Sum;
    SumZero(ws);
    SumNonNegative(ws);
    if m > 0.0 {
      var i :| 0 <= i < |ws| && ws[i] == m;
    } else {
      assert forall i :: 0 <= i < |ws| ==> ws[i] == 0.0;
    }
  }

  /** The two children of a frame's node. */
  lemma ChildNodes(tree: ParallelTree, top: nat, scales: seq<real>, f: Frame, lo: nat, w: nat)
    requires TreeOk(tree, top, scales) && f.level < top && FrameIs(f, top, lo, 2 * w)
    ensures var c := ChainOf(tree);
            && |tree.levelOffsets| - 2 - f.level >= 0
            && var off := tree.levelOffsets[|tree.levelOffsets| - 2 - f.level];
            && c.Valid() && c.n == tree.block.fa.nNodes && lo + 2 * w <= |c.leaves|
            && off + f.idx * 2 + 1 < |tree.levels|
            && IsSeg(tree.levels[off + f.idx * 2], c, lo, lo + w)
            && IsSeg(tree.levels[off + f.idx * 2 + 1], c, lo + w, lo + 2 * w)
  {
    hide IsSeg, Off;
    var c, h := ChainOf(tree), top - f.level - 1;
    HalfPow(top - f.level);
    HalfPow(f.level + 1);
    assert Level(tree.levels, c, top, h);
    assert Node(tree.levels, c, top, h, 2 * f.idx) && Node(tree.levels, c, top, h, 2 * f.idx + 1);
    ChildRange(h + 1, f.idx);
  }

  /** The walk's state between two pops. */
  ghost predicate Walking(tree: ParallelTree, top: nat, scales: seq<real>, target: seq<nat>, states: seq<nat>, u: nat -> real,
                          stack: seq<Frame>, lo: nat, pos: nat, end: nat)
  {
    && TreeOk(tree, top, scales) && Uniform(u)
    && |target| == Pow2(top) + 1 == |states| && lo <= Pow2(top)
    && StackOk(ChainOf(tree), top, target, states, u, stack, lo, pos)
    && (forall i :: 0 <= i <= lo ==> states[i] == target[i])
    && pos + StackDraws(stack, top) == end
  }

  /** A leaf frame has nothing left to draw. */
  lemma PopLeaf(tree: ParallelTree, top: nat, scales: seq<real>, target: seq<nat>, states: seq<nat>, u: nat -> real,
                stack: seq<Frame>, lo: nat, pos: nat, end: nat)
    requires Walking(tree, top, scales, target, states, u, stack, lo, pos, end)
    requires stack != [] && stack[|stack| - 1].level <= top && Pow2(top - stack[|stack| - 1].level) == 1
    ensures Walking(tree, top, scales, target, states, u, stack[..|stack| - 1], lo + 1, pos, end)
  {
    hide TreeOk, Chain.Midpoints, Chain.Seg;
    ChainShape(tree, top, scales);
    assert StackOk(ChainOf(tree), top, target, states, u, stack, lo, pos);
  }

  /** A wider frame draws its midpoint and is replaced by its two halves, the left one on top. */
  lemma PopSplit(tree: ParallelTree, top: nat, scales: seq<real>, target: seq<nat>, states: seq<nat>, u: nat -> real,
                 stack: seq<Frame>, lo: nat, pos: nat, end: nat, f: Frame, w: nat, m: nat)
    requires Walking(tree, top, scales, target, states, u, stack, lo, pos, end)
    requires stack != [] && f == stack[|stack| - 1] && f.level < top && 2 * w == Pow2(top - f.level)
    requires f.sb < ChainOf(tree).n && lo + 2 * w <= |ChainOf(tree).leaves|
    requires ChainOf(tree).Cond(lo, lo + w, lo + 2 * w, f.sb, f.se) != []
    requires m == Draw(ChainOf(tree).Cond(lo, lo + w, lo + 2 * w, f.sb, f.se), u(pos))
    ensures lo + w < |states|
    ensures var rest := stack[..|stack| - 1];
            Walking(tree, top, scales, target, states[lo + w := m], u,
                    rest + [Frame(f.level + 1, 2 * f.idx + 1, m, f.se)] + [Frame(f.level + 1, 2 * f.idx, f.sb, m)],
                    lo, pos + 1, end)
  {
    hide TreeOk, Chain.Midpoints, Chain.Seg, Chain.Cond, Draw, FrameOk;
    ChainShape(tree, top, scales);
    var c := ChainOf(tree);
    var rest := stack[..|stack| - 1];
    assert StackOk(c, top, target, states, u, stack, lo, pos);
    FrameSplit(c, top, target, u, f, lo, w, pos, m);
    HalfPow(top - f.level);
    FrameFits(c, top, target, u, f, lo, 2 * w, pos);
    var states2 := states[lo + w := m];
    StackKept(c, top, target, states, u, rest, lo + 2 * w, pos + 2 * w - 1, lo + w, m);
    var right, left := Frame(f.level + 1, 2 * f.idx + 1, m, f.se), Frame(f.level + 1, 2 * f.idx, f.sb, m);
    StackPush(c, top, target, states2, u, rest, right, lo + w, w, pos + w);
    StackPush(c, top, target, states2, u, rest + [right], left, lo, w, pos + 1);
  }

  lemma ChainShape(tree: ParallelTree, top: nat, scales: seq<real>)
    requires TreeOk(tree, top, scales)
    ensures tree.lenPad <= |tree.levels|
    ensures Ready(tree.block, ChainOf(tree), scales, top, tree.start) && tree.lenPad == Pow2(top)
    ensures ChainOf(tree).Valid() && |ChainOf(tree).leaves| == Pow2(top) && ChainOf(tree).n == tree.block.fa.nNodes
  {
  }

  lemma FrameFits(c: Chain, top: nat, target: seq<nat>, u: nat -> real, f: Frame, lo: nat, w: nat, pos: nat)
    requires c.Valid() && |c.leaves| == Pow2(top) && |target| == Pow2(top) + 1 && Uniform(u)
    requires FrameOk(c, top, target, u, f, lo, w, pos)
    ensures lo + w <= Pow2(top) && w > 0
  {
  }

  lemma StackPush(c: Chain, top: nat, target: seq<nat>, states: seq<nat>, u: nat -> real, rest: seq<Frame>, f: Frame,
                  lo: nat, w: nat, pos: nat)
    requires c.Valid() && |c.leaves| == Pow2(top) && |target| == Pow2(top) + 1 == |states| && Uniform(u)
    requires f.level <= top && w == Pow2(top - f.level) && FrameOk(c, top, target, u, f, lo, w, pos) && lo + w < |states|
    requires states[lo + w] == target[lo + w] && StackOk(c, top, target, states, u, rest, lo + w, pos + w - 1)
    ensures StackOk(c, top, target, states, u, rest + [f], lo, pos)
    ensures StackDraws(rest + [f], top) == w - 1 + StackDraws(rest, top)
  {
    hide FrameOk;
    assert (rest + [f])[..|rest|] == rest;
  }

  ghost function TopLevel(stack: seq<Frame>): nat {
    if stack == [] then 0 else stack[|stack| - 1].level
  }

  /** The facts the loop body needs about the frame on top. */
  lemma TopFrame(tree: ParallelTree, top: nat, scales: seq<real>, target: seq<nat>, states: seq<nat>, u: nat -> real,
                 stack: seq<Frame>, lo: nat, pos: nat, end: nat)
    requires Walking(tree, top, scales, target, states, u, stack, lo, pos, end) && stack != []
    ensures var f := stack[|stack| - 1];
            && f.level <= top && FrameIs(f, top, lo, Pow2(top - f.level))
            && f.sb < tree.block.fa.nNodes && f.se < tree.block.fa.nNodes
            && tree.lenPad == Pow2(top) <= |tree.levels|
            && ChainOf(tree).Valid() && lo + Pow2(top - f.level) <= |ChainOf(tree).leaves| == Pow2(top)
            && ChainOf(tree).n == tree.block.fa.nNodes
            && ChainOf(tree).Seg(lo, lo + Pow2(top - f.level), f.sb, f.se) > 0.0
  {
    hide Chain.Midpoints, Chain.Seg;
    assert StackOk(ChainOf(tree), top, target, states, u, stack, lo, pos);
  }

  /** The top-down walk with its explicit stack computes the recursively drawn states. */
  method WalkDown(tree: ParallelTree, ghost top: nat, ghost scales: seq<real>, final: nat, rng: DrawStream, ghost pos0: nat)
    returns (states: seq<nat>, nanCount: nat)
    requires TreeOk(tree, top, scales) && Uniform(rng.u) && rng.pos == pos0 + 1
    requires final == FinalState(tree.block, ChainOf(tree), scales, top, tree.start, rng.u(pos0))
    modifies rng`pos
    ensures states == StatesDrawn(tree.block, ChainOf(tree), scales, top, tree.start, rng.u, pos0)
    ensures rng.pos == pos0 + Pow2(top) && nanCount == 0
  {
    hide TreeOk, Ready, Chain.Seg, Chain.Cond, Chain.Midpoints, StackOk, StackDraws, FrameIs, Walking, StatesDrawn, Draw;
    ChainShape(tree, top, scales);
    nanCount := 0;
    ghost var target := StatesDrawn(tree.block, ChainOf(tree), scales, top, tree.start, rng.u, pos0);
    states := seq(tree.lenPad + 1, _ => 0);
    states := states[0 := tree.start][tree.lenPad := final];
    var stack: seq<Frame> := [Frame(0, 0, tree.start, final)];
    ghost var lo := 0;
    StartWalk(tree, top, scales, states, rng.u, pos0, final);
    while stack != []
      invariant Walking(tree, top, scales, target, states, rng.u, stack, lo, rng.pos, pos0 + Pow2(top))
      invariant lo <= Pow2(top) && nanCount == 0
      decreases Pow2(top) - lo, top - TopLevel(stack)
    {
      TopFrame(tree, top, scales, target, states, rng.u, stack, lo, rng.pos, pos0 + Pow2(top));
      var f := stack[|stack| - 1];
      ShrPow2(top, f.level);
      var width := Shr(tree.lenPad, f.level);
      FrameStart(f, top, lo, width);
      ghost var pos := rng.pos;
      if width == 1 {
        PopLeaf(tree, top, scales, target, states, rng.u, stack, lo, pos, pos0 + Pow2(top));
        stack := stack[..|stack| - 1];
        lo := lo + 1;
      } else {
        HalfWidth(top, f.level);
        var midPos := f.idx * width + width / 2;
        var m;
        m, nanCount := Midpoint(tree, top, scales, f, lo, width / 2, rng, nanCount);
        PopSplit(tree, top, scales, target, states, rng.u, stack, lo, pos, pos0 + Pow2(top), f, width / 2, m);
        states := states[midPos := m];
        stack := stack[..|stack| - 1] + [Frame(f.level + 1, f.idx * 2 + 1, m, f.se)] + [Frame(f.level + 1, f.idx * 2, f.sb, m)];
      }
      WalkingBound(tree, top, scales, target, states, rng.u, stack, lo, rng.pos, pos0 + Pow2(top));
    }
    EndWalk(tree, top, scales, target, states, rng.u, lo, rng.pos, pos0 + Pow2(top));
  }

  lemma FrameStart(f: Frame, top: nat, lo: nat, width: nat)
    requires f.level <= top && FrameIs(f, top, lo, Pow2(top - f.level)) && width == Pow2(top - f.level)
    ensures lo == f.idx * width && lo + width <= Pow2(top)
  {
  }

  lemma HalfWidth(top: nat, level: nat)
    requires level <= top && Pow2(top - level) != 1
    ensures level < top && Pow2(top - level) == 2 * (Pow2(top - level) / 2)
  {
  }

  lemma WalkingBound(tree: ParallelTree, top: nat, scales: seq<real>, target: seq<nat>, states: seq<nat>, u: nat -> real,
                     stack: seq<Frame>, lo: nat, pos: nat, end: nat)
    requires Walking(tree, top, scales, target, states, u, stack, lo, pos, end)
    ensures lo <= Pow2(top)
  {
  }

  lemma StartWalk(tree: ParallelTree, top: nat, scales: seq<real>, states: seq<nat>, u: nat -> real, pos0: nat, final: nat)
    requires TreeOk(tree, top, scales) && Uniform(u) && |states| == Pow2(top) + 1
    requires final == FinalState(tree.block, ChainOf(tree), scales, top, tree.start, u(pos0))
    requires states[0] == tree.start && states[Pow2(top)] == final
    ensures Walking(tree, top, scales, StatesDrawn(tree.block, ChainOf(tree), scales, top, tree.start, u, pos0), states, u,
                    [Frame(0, 0, tree.start, final)], 0, pos0 + 1, pos0 + Pow2(top))
  {
    hide Chain.Seg, Chain.Midpoints, Level, Off, LeavesOf, Block.Back, Draw;
    var c := ChainOf(tree);
    ChainShape(tree, top, scales);
    var target := StatesDrawn(tree.block, c, scales, top, tree.start, u, pos0);
    var mids := c.Midpoints(top, 0, tree.start, final, u, pos0 + 1);
    assert target == [tree.start] + mids + [final];
    assert target[1..Pow2(top)] == mids;
    var f := Frame(0, 0, tree.start, final);
    assert FrameOk(c, top, target, u, f, 0, Pow2(top), pos0 + 1);
    assert StackOk(c, top, target, states, u, [], Pow2(top), pos0 + Pow2(top));
    StackPush(c, top, target, states, u, [], f, 0, Pow2(top), pos0 + 1);
    assert [] + [f] == [f];
  }

  lemma EndWalk(tree: ParallelTree, top: nat, scales: seq<real>, target: seq<nat>, states: seq<nat>, u: nat -> real,
                lo: nat, pos: nat, end: nat)
    requires Walking(tree, top, scales, target, states, u, [], lo, pos, end)
    ensures states == target && pos == end
  {
    assert lo == Pow2(top);
    assert forall i :: 0 <= i < |states| ==> states[i] == target[i];
  }

  /** The crossed edge of one position, found by scanning the fanout. */
  method CrossedEdge(fa: Automaton, s: nat, d: nat) returns (e: Option<nat>)
    requires fa.Valid() && s < fa.nNodes
    ensures e == PairEdge(fa, s, d)
  {
    var k := fa.OutLo(s);
    while k < fa.OutHi(s)
      invariant fa.OutLo(s) <= k <= fa.OutHi(s)
      invariant PairEdge(fa, s, d) == FirstTo(fa, d, k, fa.OutHi(s))
    {
      if fa.edgeDst[k] == d {
        return Some(k);
      }
      k := k + 1;
    }
    return None;
  }

  /** The token of one crossed edge: pin, greedy, or a multinomial draw. */
  method EdgeToken(b: Block, t: nat, e: nat, greedy: bool, rng: DrawStream) returns (v: nat)
    requires b.Valid() && t < b.len && e < b.fa.NEdges() && b.EdgeMass(t, e) > 0.0 && Uniform(rng.u)
    modifies rng`pos
    ensures v == TokenOn(b, t, e, greedy, rng.u(old(rng.pos)))
    ensures b.forced[t] != FREE ==> v == b.forced[t]
    ensures b.forced[t] == FREE && greedy ==> v < b.fa.vocab && Heaviest(b, t, e, v)
    ensures rng.pos == old(rng.pos) + TokenDraws(b, t, greedy)
  {
    hide Draw, Block.Eff, Sum, Automaton.NodeValid, Automaton.EdgeValid, Heaviest;
    b.EdgeInRange(e);
    var toks := b.fa.EdgeTokens(e);
    var ms := b.TokenMasses(t, toks);
    assert b.EdgeMass(t, e) == Sum(ms);
    if b.forced[t] != FREE {
      v := b.forced[t];
    } else if greedy {
      var k := ArgMax(ms);
      v := toks[k];
      GreedyToken(b, t, e, rng.u(rng.pos));
    } else {
      var r := rng.NextF64();
      var k := Categorical(ms, r);
      v := toks[k];
    }
  }

  /** What is drawn already, followed by what the rest of the path will draw, is the whole. */
  ghost predicate Resumes(full: (seq<nat>, nat), done: seq<nat>, b: Block, t: nat, p: seq<nat>, greedy: bool, u: nat -> real, pos: nat)
    requires b.Valid()
  {
    && Crosses(b, t, p)
    && var rest := TokensAlong(b, t, p, greedy, u, pos);
    full == (done + rest.0, rest.1)
  }

  lemma ResumeStep(full: (seq<nat>, nat), done: seq<nat>, b: Block, t: nat, p: seq<nat>, e: nat, greedy: bool, u: nat -> real, pos: nat)
    requires b.Valid() && t < b.len && Resumes(full, done, b, t, p, greedy, u, pos)
    requires |p| > 1 && p[0] < b.fa.nNodes && PairEdge(b.fa, p[0], p[1]) == Some(e)
    ensures b.EdgeMass(t, e) > 0.0
    ensures Resumes(full, done + [TokenOn(b, t, e, greedy, u(pos))], b, t + 1, p[1..], greedy, u, pos + TokenDraws(b, t, greedy))
  {
    hide TokenOn, TokenDraws, Block.EdgeMass, PairMass, TokensAlong, PairEdge, Automaton.Valid;
    CrossesTail(b, t, p);
    TokensUnfold(b, t, p, e, greedy, u, pos);
    var v, rest := TokenOn(b, t, e, greedy, u(pos)), TokensAlong(b, t + 1, p[1..], greedy, u, pos + TokenDraws(b, t, greedy));
    assert done + ([v] + rest.0) == (done + [v]) + rest.0;
  }

  lemma ResumeShape(full: (seq<nat>, nat), done: seq<nat>, b: Block, t: nat, p: seq<nat>, greedy: bool, u: nat -> real, pos: nat)
    requires b.Valid() && t < b.len && Resumes(full, done, b, t, p, greedy, u, pos)
    ensures |p| > 1 && p[0] < b.fa.nNodes && PairEdge(b.fa, p[0], p[1]).Some?
  {
    CrossesTail(b, t, p);
  }

  lemma ResumeEnd(full: (seq<nat>, nat), done: seq<nat>, b: Block, p: seq<nat>, greedy: bool, u: nat -> real, pos: nat)
    requires b.Valid() && Resumes(full, done, b, b.len, p, greedy, u, pos)
    ensures full == (done, pos)
  {
    NothingLeft(b, p, greedy, u, pos);
    assert done + [] == done;
  }

  lemma ResumeStart(b: Block, p: seq<nat>, greedy: bool, u: nat -> real, pos: nat)
    requires b.Valid() && Crosses(b, 0, p)
    ensures Resumes(TokensAlong(b, 0, p, greedy, u, pos), [], b, 0, p, greedy, u, pos)
  {
    hide TokensAlong, Crosses;
    var all := TokensAlong(b, 0, p, greedy, u, pos);
    assert [] + all.0 == all.0;
  }

  /** Tokens for every crossed edge, left to right; the missing-edge refusal is never taken. */
  method DrawTokens(b: Block, p: seq<nat>, greedy: bool, rng: DrawStream, outTokens: array<nat>)
    requires b.Valid() && Crosses(b, 0, p) && |p| == b.len + 1 && Uniform(rng.u) && outTokens.Length == b.len
    modifies rng`pos, outTokens
    ensures (outTokens[..], rng.pos) == TokensAlong(b, 0, p, greedy, rng.u, old(rng.pos))
  {
    hide TokenOn, TokenDraws, Block.EdgeMass, TokensAlong, Resumes, Crosses, Automaton.Valid;
    ghost var full := TokensAlong(b, 0, p, greedy, rng.u, rng.pos);
    ResumeStart(b, p, greedy, rng.u, rng.pos);
    assert p[0..] == p;
    for t := 0 to b.len
      invariant Resumes(full, outTokens[..t], b, t, p[t..], greedy, rng.u, rng.pos)
    {
      ghost var done, pos := outTokens[..t], rng.pos;
      ghost var tail := p[t..];
      assert tail[0] == p[t] && tail[1] == p[t + 1] && tail[1..] == p[t + 1..];
      ResumeShape(full, done, b, t, tail, greedy, rng.u, pos);
      var e := CrossedEdge(b.fa, p[t], p[t + 1]);
      ResumeStep(full, done, b, t, tail, e.value, greedy, rng.u, pos);
      outTokens[t] := EdgeToken(b, t, e.value, greedy, rng);
      assert outTokens[..t + 1] == done + [outTokens[t]];
    }
    ResumeEnd(full, outTokens[..b.len], b, p[b.len..], greedy, rng.u, rng.pos);
    assert outTokens[..b.len] == outTokens[..];
  }

  lemma NothingLeft(b: Block, p: seq<nat>, greedy: bool, u: nat -> real, pos: nat)
    requires b.Valid() && Crosses(b, b.len, p)
    ensures TokensAlong(b, b.len, p, greedy, u, pos) == ([], pos)
  {
  }

  /** `ParallelTree::sample`: the draw of the specification; on a built tree the count of degenerate conditionals stays zero. */
  method SampleTree(tree: ParallelTree, greedy: bool, rng: DrawStream, outTokens: array<nat>)
    returns (r: Result<nat, FaError>, nanCount: nat)
    requires Built(tree) && Uniform(rng.u)
    modifies rng`pos, outTokens
    ensures nanCount == 0
    ensures outTokens.Length != tree.block.len ==>
              && r == Err(OutShape(outTokens.Length, tree.block.len))
              && rng.pos == old(rng.pos) && outTokens[..] == old(outTokens[..])
    ensures outTokens.Length == tree.block.len ==>
              exists top, scales :: TreeOk(tree, top, scales) &&
                var d := TreeSample(tree.block, ChainOf(tree), scales, top, tree.start, greedy, rng.u, old(rng.pos));
                && r == Ok(d.final) && outTokens[..] == d.tokens && rng.pos == d.pos
                && Lawful(tree.block, tree.start, outTokens[..], d.final, greedy)
                && rng.pos == old(rng.pos) + tree.lenPad + if greedy then 0 else FreeFrom(tree.block, 0)
  {
    nanCount := 0;
    if outTokens.Length != tree.block.len {
      return Err(OutShape(outTokens.Length, tree.block.len)), 0;
    }
    ghost var top, scales :| TreeOk(tree, top, scales);
    hide TreeOk, TreeSample, Lawful, FreeFrom, Built;
    TreeDelivers(tree, top, scales, greedy, rng.u, rng.pos);
    var final;
    final, nanCount := SampleShaped(tree, top, scales, greedy, rng, outTokens);
    r := Ok(final);
  }

  lemma TreeDelivers(tree: ParallelTree, top: nat, scales: seq<real>, greedy: bool, u: nat -> real, pos: nat)
    requires TreeOk(tree, top, scales) && Uniform(u)
    ensures tree.block.Valid() && tree.start < tree.block.fa.nNodes && tree.lenPad <= |tree.levels|
    ensures var d := TreeSample(tree.block, ChainOf(tree), scales, top, tree.start, greedy, u, pos);
            && Lawful(tree.block, tree.start, d.tokens, d.final, greedy)
            && d.pos == pos + tree.lenPad + if greedy then 0 else FreeFrom(tree.block, 0)
  {
    hide TreeSample, Lawful, FreeFrom, Level, Off;
    TreeLawful(tree.block, ChainOf(tree), scales, top, tree.start, greedy, u, pos);
  }

  method SampleShaped(tree: ParallelTree, ghost top: nat, ghost scales: seq<real>, greedy: bool, rng: DrawStream,
                      outTokens: array<nat>)
    returns (final: nat, nanCount: nat)
    requires TreeOk(tree, top, scales) && Uniform(rng.u) && outTokens.Length == tree.block.len
    modifies rng`pos, outTokens
    ensures tree.lenPad <= |tree.levels|
    ensures var d := TreeSample(tree.block, ChainOf(tree), scales, top, tree.start, greedy, rng.u, old(rng.pos));
            final == d.final && outTokens[..] == d.tokens && rng.pos == d.pos
    ensures nanCount == 0
  {
    hide TreeOk, Ready, Off, Level, Crosses, TokensAlong, Draw, StatesDrawn, Pow2, TreeSample, FinalState, Row;
    ChainShape(tree, top, scales);
    ghost var c, pos0 := ChainOf(tree), rng.pos;
    var root := RootRowOf(tree, top, scales);
    RootRow(tree.block, c, scales, top, tree.start);
    var u0 := rng.NextF64();
    final := Categorical(root, u0);
    FinalIs(tree.block, c, scales, top, tree.start, u0);
    ghost var p, q := TreeSampleUnfold(tree.block, c, scales, top, tree.start, greedy, rng.u, pos0);
    var states;
    states, nanCount := WalkDown(tree, top, scales, final, rng, pos0);
    DrawTokens(tree.block, states[..tree.block.len + 1], greedy, rng, outTokens);
    LastState(tree, top, scales, rng.u, pos0, final);
  }

  lemma LastState(tree: ParallelTree, top: nat, scales: seq<real>, u: nat -> real, pos0: nat, final: nat)
    requires TreeOk(tree, top, scales) && Uniform(u)
    requires final == FinalState(tree.block, ChainOf(tree), scales, top, tree.start, u(pos0))
    ensures var p := StatesDrawn(tree.block, ChainOf(tree), scales, top, tree.start, u, pos0);
            p[|p| - 1] == final
  {
  }

  /** The root's row over the start node. */
  method RootRowOf(tree: ParallelTree, ghost top: nat, ghost scales: seq<real>) returns (row: seq<real>)
    requires TreeOk(tree, top, scales)
    ensures row == Row(ChainOf(tree), tree.start)
  {
    hide Ready, Off, IsSeg;
    ChainShape(tree, top, scales);
    ghost var c := ChainOf(tree);
    assert c.leaves <= tree.levels;
    LevelsShape(tree.levels, c, top);
    row := RowOf(tree.levels[|tree.levels| - 1], c, tree.block.fa.nNodes, tree.start);
  }

  method RowOf(root: seq<real>, ghost c: Chain, n: nat, start: nat) returns (row: seq<real>)
    requires c.Valid() && n == c.n && IsSeg(root, c, 0, |c.leaves|) && start < n
    ensures row == Row(c, start)
  {
    row := [];
    for f := 0 to n
      invariant |row| == f && forall k :: 0 <= k < f ==> row[k] == Row(c, start)[k]
    {
      assert At(root, n, start, f) == Row(c, start)[f];
      row := row + [At(root, n, start, f)];
    }
  }
}
