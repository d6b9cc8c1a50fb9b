/** Products of square matrices over segments, and drawing a state path top-down through midpoints. */
module Chains {
  import opened Prelude
  import opened Sums
  import opened Tables
  import opened SequentialSpec

  /** The entry of a row-major square matrix. */
  function At(m: seq<real>, n: nat, i: nat, j: nat): real
    requires |m| == n * n && i < n && j < n
  {
    InRow(i, j, n, n);
    m[i * n + j]
  }

  ghost predicate Square(m: seq<real>, n: nat) {
    |m| == n * n && NonNegative(m)
  }

  /** One square matrix per position. */
  datatype Chain = Chain(n: nat, leaves: seq<seq<real>>) {

    ghost predicate Valid() {
      forall t :: 0 <= t < |leaves| ==> Square(leaves[t], n)
    }

    function Leaf(t: nat, i: nat, j: nat): (r: real)
      requires Valid() && t < |leaves|
      ensures r >= 0.0
    {
      if i < n && j < n then
        InRow(i, j, n, n);
        At(leaves[t], n, i, j)
      else 0.0
    }

    /** The weight of all state paths from `i` before position `lo` to `j` before position `hi`. */
    function Seg(lo: nat, hi: nat, i: nat, j: nat): (r: real)
      requires Valid() && lo <= hi <= |leaves|
      ensures r >= 0.0
      decreases hi - lo
    {
      if lo == hi then (if i == j then 1.0 else 0.0)
      else
        var f := Step(lo, hi, i, j);
        SumToNonNegative(n, f);
        SumTo(n, f)
    }

    /** The terms of the first step of a segment. */
    function Step(lo: nat, hi: nat, i: nat, j: nat): (f: nat -> real)
      requires Valid() && lo < hi <= |leaves|
      ensures forall k :: f(k) >= 0.0
      decreases hi - lo, 0
    {
      assert forall k :: Times(Seg(lo + 1, hi, k, j), Leaf(lo, i, k)) >= 0.0 by {
        forall k: nat ensures Times(Seg(lo + 1, hi, k, j), Leaf(lo, i, k)) >= 0.0 {
          TimesPositive(Seg(lo + 1, hi, k, j), Leaf(lo, i, k));
        }
      }
      (k: nat) => Times(Seg(lo + 1, hi, k, j), Leaf(lo, i, k))
    }

    /** The terms of a segment split at `mid`. */
    function Through(lo: nat, mid: nat, hi: nat, i: nat, j: nat): nat -> real
      requires Valid() && lo <= mid <= hi <= |leaves|
    {
      (m: nat) => Times(Seg(lo, mid, i, m), Seg(mid, hi, m, j))
    }

    /** A segment's matrix is the product of the matrices of its two parts. */
    lemma {:induction false} SplitAt(lo: nat, mid: nat, hi: nat, i: nat, j: nat)
      requires Valid() && lo <= mid <= hi <= |leaves| && i < n
      ensures Seg(lo, hi, i, j) == SumTo(n, Through(lo, mid, hi, i, j))
      decreases mid - lo
    {
      if lo == mid {
        var f := Through(lo, mid, hi, i, j);
        forall m: nat | m < n ensures f(m) == if m == i then Seg(lo, hi, i, j) else 0.0 {
        }
        SumToSingle(n, f, i);
      } else {
        SplitStep(lo, mid, hi, i, j);
      }
    }

    lemma {:induction false} SplitStep(lo: nat, mid: nat, hi: nat, i: nat, j: nat)
      requires Valid() && lo < mid <= hi <= |leaves| && i < n
      ensures Seg(lo, hi, i, j) == SumTo(n, Through(lo, mid, hi, i, j))
      decreases mid - lo, 0
    {
      var f := (k: nat, m: nat) => Times(Times(Seg(lo + 1, mid, k, m), Seg(mid, hi, m, j)), Leaf(lo, i, k));
      var rows := (k: nat) => SumTo(n, (m: nat) => f(k, m));
      forall k: nat | k < n ensures Step(lo, hi, i, j)(k) == rows(k) {
        SplitAt(lo + 1, mid, hi, k, j);
        SumToScale(n, Through(lo + 1, mid, hi, k, j), Leaf(lo, i, k), (m: nat) => f(k, m));
      }
      SumToExt(n, Step(lo, hi, i, j), rows);
      SumToSwap(n, n, f);
      var columns := (m: nat) => SumTo(n, (k: nat) => f(k, m));
      forall m: nat | m < n ensures columns(m) == Through(lo, mid, hi, i, j)(m) {
        forall k: nat | k < n ensures f(k, m) == Times(Step(lo, mid, i, m)(k), Seg(mid, hi, m, j)) {
          Rearrange(Seg(lo + 1, mid, k, m), Seg(mid, hi, m, j), Leaf(lo, i, k));
        }
        SumToScale(n, Step(lo, mid, i, m), Seg(mid, hi, m, j), (k: nat) => f(k, m));
      }
      SumToExt(n, columns, Through(lo, mid, hi, i, j));
    }

    // ---- state paths ----

    ghost predicate Path(lo: nat, p: seq<nat>) {
      && p != [] && lo + |p| - 1 <= |leaves|
      && forall k :: 0 <= k < |p| ==> p[k] < n
    }

    /** The weight of one state path that starts before position `lo`. */
    function PathWeight(lo: nat, p: seq<nat>): (r: real)
      requires Valid() && lo + |p| <= |leaves| + 1
      ensures r >= 0.0
      decreases |p|
    {
      if |p| <= 1 then 1.0
      else
        TimesPositive(Leaf(lo, p[0], p[1]), PathWeight(lo + 1, p[1..]));
        Times(Leaf(lo, p[0], p[1]), PathWeight(lo + 1, p[1..]))
    }

    lemma {:induction false} PathSplit(lo: nat, p: seq<nat>, k: nat)
      requires Valid() && k < |p| && lo + |p| <= |leaves| + 1
      ensures PathWeight(lo, p) == Times(PathWeight(lo, p[..k + 1]), PathWeight(lo + k, p[k..]))
      decreases k
    {
      if k == 0 {
        assert p[0..] == p;
      } else {
        PathSplit(lo + 1, p[1..], k - 1);
        assert p[1..][..k] == p[..k + 1][1..] && p[1..][k - 1..] == p[k..];
        TimesAssoc(Leaf(lo, p[0], p[1]), PathWeight(lo + 1, p[..k + 1][1..]), PathWeight(lo + k, p[k..]));
      }
    }

    /** A path of positive weight makes its segment entry positive. */
    lemma {:induction false} PathLive(lo: nat, p: seq<nat>)
      requires Valid() && Path(lo, p) && PathWeight(lo, p) > 0.0
      ensures Seg(lo, lo + |p| - 1, p[0], p[|p| - 1]) > 0.0
      decreases |p|
    {
      if |p| > 1 {
        TimesPositive(Leaf(lo, p[0], p[1]), PathWeight(lo + 1, p[1..]));
        PathLive(lo + 1, p[1..]);
        var f := Step(lo, lo + |p| - 1, p[0], p[|p| - 1]);
        TimesPositive(Seg(lo + 1, lo + |p| - 1, p[1], p[|p| - 1]), Leaf(lo, p[0], p[1]));
        assert f(p[1]) > 0.0;
        SumToNonNegative(n, f);
      }
    }

    /** Along a path of positive weight every leaf entry is positive. */
    lemma {:induction false} LeavesAlong(lo: nat, p: seq<nat>, k: nat)
      requires Valid() && Path(lo, p) && PathWeight(lo, p) > 0.0 && k + 1 < |p|
      ensures Leaf(lo + k, p[k], p[k + 1]) > 0.0
      decreases |p|
    {
      TimesPositive(Leaf(lo, p[0], p[1]), PathWeight(lo + 1, p[1..]));
      if k > 0 {
        LeavesAlong(lo + 1, p[1..], k - 1);
      }
    }

    // ---- midpoints, top-down ----

    /** The midpoint conditional of a segment, not normalized. */
    function Cond(lo: nat, mid: nat, hi: nat, i: nat, j: nat): (ws: seq<real>)
      requires Valid() && lo <= mid <= hi <= |leaves|
      ensures |ws| == n && NonNegative(ws)
      ensures forall m :: 0 <= m < n ==> ws[m] == Times(Seg(lo, mid, i, m), Seg(mid, hi, m, j))
    {
      assert forall m: nat :: Times(Seg(lo, mid, i, m), Seg(mid, hi, m, j)) >= 0.0 by {
        forall m: nat ensures Times(Seg(lo, mid, i, m), Seg(mid, hi, m, j)) >= 0.0 {
          TimesPositive(Seg(lo, mid, i, m), Seg(mid, hi, m, j));
        }
      }
      seq(n, m requires 0 <= m < n => Times(Seg(lo, mid, i, m), Seg(mid, hi, m, j)))
    }

    /** The conditional adds up to the segment entry it refines. */
    lemma CondTotal(lo: nat, mid: nat, hi: nat, i: nat, j: nat)
      requires Valid() && lo <= mid <= hi <= |leaves| && i < n
      ensures Sum(Cond(lo, mid, hi, i, j)) == Seg(lo, hi, i, j)
    {
      SplitAt(lo, mid, hi, i, j);
      SumAsRange(Cond(lo, mid, hi, i, j), Through(lo, mid, hi, i, j));
    }

    /** The midpoint drawn for a live segment leaves both halves live: the degenerate fallback is never reached. */
    lemma MidpointLive(lo: nat, mid: nat, hi: nat, i: nat, j: nat, r: real)
      requires Valid() && lo <= mid <= hi <= |leaves| && i < n && Seg(lo, hi, i, j) > 0.0 && 0.0 <= r < 1.0
      ensures Cond(lo, mid, hi, i, j) != []
      ensures var m := Draw(Cond(lo, mid, hi, i, j), r);
              m < n && Seg(lo, mid, i, m) > 0.0 && Seg(mid, hi, m, j) > 0.0
    {
      CondTotal(lo, mid, hi, i, j);
      var ws := Cond(lo, mid, hi, i, j);
      DrawPositive(ws, r);
      var m := Draw(ws, r);
      TimesPositive(Seg(lo, mid, i, m), Seg(mid, hi, m, j));
    }

    /** The interior states of a segment of `Pow2(h)` positions between fixed ends, in preorder of draws. */
    function Midpoints(h: nat, lo: nat, i: nat, j: nat, u: nat -> real, pos: nat): (p: seq<nat>)
      requires Valid() && lo + Pow2(h) <= |leaves| && i < n && j < n && Uniform(u)
      requires Seg(lo, lo + Pow2(h), i, j) > 0.0
      ensures |p| == Pow2(h) - 1
      decreases h
    {
      if h == 0 then []
      else
        var w := Pow2(h - 1);
        MidpointLive(lo, lo + w, lo + 2 * w, i, j, u(pos));
        var m := Draw(Cond(lo, lo + w, lo + 2 * w, i, j), u(pos));
        Midpoints(h - 1, lo, i, m, u, pos + 1) + [m] + Midpoints(h - 1, lo + w, m, j, u, pos + w)
    }

    lemma MidpointsUnfold(h: nat, w: nat, lo: nat, i: nat, m: nat, j: nat, u: nat -> real, pos: nat)
      requires Valid() && h > 0 && w == Pow2(h - 1) && lo + 2 * w <= |leaves| && i < n && m < n && j < n && Uniform(u)
      requires Seg(lo, lo + 2 * w, i, j) > 0.0 && Seg(lo, lo + w, i, m) > 0.0 && Seg(lo + w, lo + 2 * w, m, j) > 0.0
      requires m == Draw(Cond(lo, lo + w, lo + 2 * w, i, j), u(pos))
      ensures Pow2(h) == 2 * w
      ensures Midpoints(h, lo, i, j, u, pos) ==
              Midpoints(h - 1, lo, i, m, u, pos + 1) + [m] + Midpoints(h - 1, lo + w, m, j, u, pos + w)
    {
      hide Seg, Cond, Draw;
    }

    /** A drawn path lies on positive entries only. */
    lemma {:induction false} MidpointsLive(h: nat, lo: nat, i: nat, j: nat, u: nat -> real, pos: nat)
      requires Valid() && lo + Pow2(h) <= |leaves| && i < n && j < n && Uniform(u)
      requires Seg(lo, lo + Pow2(h), i, j) > 0.0
      ensures var p := [i] + Midpoints(h, lo, i, j, u, pos) + [j];
              Path(lo, p) && PathWeight(lo, p) > 0.0
      decreases h
    {
      hide Seg, Cond, Draw, PathWeight, Leaf, Midpoints;
      if h == 0 {
        LeafPath(lo, i, j, u, pos);
      } else {
        var w := Pow2(h - 1);
        MidpointLive(lo, lo + w, lo + 2 * w, i, j, u(pos));
        var m := Draw(Cond(lo, lo + w, lo + 2 * w, i, j), u(pos));
        MidpointsUnfold(h, w, lo, i, m, j, u, pos);
        MidpointsLive(h - 1, lo, i, m, u, pos + 1);
        MidpointsLive(h - 1, lo + w, m, j, u, pos + w);
        Glue(lo, i, Midpoints(h - 1, lo, i, m, u, pos + 1), m, Midpoints(h - 1, lo + w, m, j, u, pos + w), j);
      }
    }

    lemma LeafPath(lo: nat, i: nat, j: nat, u: nat -> real, pos: nat)
      requires Valid() && lo + 1 <= |leaves| && i < n && j < n && Uniform(u) && Seg(lo, lo + 1, i, j) > 0.0
      ensures var p := [i] + Midpoints(0, lo, i, j, u, pos) + [j];
              Path(lo, p) && PathWeight(lo, p) > 0.0
    {
      OneStep(lo, i, j);
      assert [i] + Midpoints(0, lo, i, j, u, pos) + [j] == [i, j];
      PairWeight(lo, i, j);
    }

    lemma PairWeight(lo: nat, i: nat, j: nat)
      requires Valid() && lo < |leaves|
      ensures PathWeight(lo, [i, j]) == Leaf(lo, i, j)
    {
      assert [i, j][1..] == [j];
      assert PathWeight(lo + 1, [j]) == 1.0;
    }

    /** A single position: the segment is the leaf. */
    lemma OneStep(lo: nat, i: nat, j: nat)
      requires Valid() && lo < |leaves| && j < n
      ensures Seg(lo, lo + 1, i, j) == Leaf(lo, i, j)
    {
      var f := Step(lo, lo + 1, i, j);
      assert Seg(lo, lo + 1, i, j) == SumTo(n, f);
      hide Leaf;
      forall k: nat | k < n && k != j ensures f(k) == 0.0 {
        assert Seg(lo + 1, lo + 1, k, j) == 0.0;
      }
      assert Seg(lo + 1, lo + 1, j, j) == 1.0;
      SumToSingle(n, f, j);
    }

    lemma Glue(lo: nat, i: nat, left: seq<nat>, m: nat, right: seq<nat>, j: nat)
      requires Valid() && Path(lo, [i] + left + [m]) && Path(lo + |left| + 1, [m] + right + [j])
      requires PathWeight(lo, [i] + left + [m]) > 0.0 && PathWeight(lo + |left| + 1, [m] + right + [j]) > 0.0
      ensures var p := [i] + (left + [m] + right) + [j];
              Path(lo, p) && PathWeight(lo, p) > 0.0
    {
      var a, c := [i] + left + [m], [m] + right + [j];
      assert c[1..] == right + [j];
      assert [i] + (left + [m] + right) + [j] == a + c[1..];
      Joined(lo, a, c);
    }

    /** Two paths that meet. */
    lemma Joined(lo: nat, left: seq<nat>, right: seq<nat>)
      requires Valid() && Path(lo, left) && Path(lo + |left| - 1, right) && left[|left| - 1] == right[0]
      ensures Path(lo, left + right[1..])
      ensures PathWeight(lo, left + right[1..]) == Times(PathWeight(lo, left), PathWeight(lo + |left| - 1, right))
      ensures PathWeight(lo, left) > 0.0 && PathWeight(lo + |left| - 1, right) > 0.0 ==> PathWeight(lo, left + right[1..]) > 0.0
    {
      var p, k := left + right[1..], |left| - 1;
      assert p[..k + 1] == left && p[k..] == right;
      PathSplit(lo, p, k);
      TimesPositive(PathWeight(lo, left), PathWeight(lo + k, right));
    }

    // ---- the box of one path ----

    ghost function MidBox(h: nat, lo: nat, p: seq<nat>): (box: seq<Interval>)
      requires Valid() && |p| == Pow2(h) + 1 && Path(lo, p) && PathWeight(lo, p) > 0.0
      ensures |box| == Pow2(h) - 1
      decreases h
    {
      if h == 0 then []
      else
        var w := Pow2(h - 1);
        Halves(lo, p, w);
        [MidSlot(lo, w, p)] + (MidBox(h - 1, lo, p[..w + 1]) + MidBox(h - 1, lo + w, p[w..]))
    }

    lemma Halves(lo: nat, p: seq<nat>, w: nat)
      requires Valid() && |p| == 2 * w + 1 && Path(lo, p) && PathWeight(lo, p) > 0.0
      ensures Path(lo, p[..w + 1]) && PathWeight(lo, p[..w + 1]) > 0.0
      ensures Path(lo + w, p[w..]) && PathWeight(lo + w, p[w..]) > 0.0
      ensures PathWeight(lo, p) == Times(PathWeight(lo, p[..w + 1]), PathWeight(lo + w, p[w..]))
      ensures Seg(lo, lo + w, p[0], p[w]) > 0.0 && Seg(lo + w, lo + 2 * w, p[w], p[2 * w]) > 0.0
      ensures Seg(lo, lo + 2 * w, p[0], p[2 * w]) > 0.0
    {
      PathSplit(lo, p, w);
      TimesPositive(PathWeight(lo, p[..w + 1]), PathWeight(lo + w, p[w..]));
      PathLive(lo, p);
      PathLive(lo, p[..w + 1]);
      PathLive(lo + w, p[w..]);
    }

    ghost function MidSlot(lo: nat, w: nat, p: seq<nat>): Interval
      requires Valid() && |p| == 2 * w + 1 && Path(lo, p) && Seg(lo, lo + 2 * w, p[0], p[2 * w]) > 0.0
    {
      CondTotal(lo, lo + w, lo + 2 * w, p[0], p[2 * w]);
      Slot(Cond(lo, lo + w, lo + 2 * w, p[0], p[2 * w]), p[w])
    }

    lemma MidSlotExact(lo: nat, w: nat, p: seq<nat>, r: real)
      requires Valid() && |p| == 2 * w + 1 && Path(lo, p) && Seg(lo, lo + 2 * w, p[0], p[2 * w]) > 0.0
      requires 0.0 <= r < 1.0
      ensures Cond(lo, lo + w, lo + 2 * w, p[0], p[2 * w]) != []
      ensures Draw(Cond(lo, lo + w, lo + 2 * w, p[0], p[2 * w]), r) == p[w] <==> MidSlot(lo, w, p).Holds(r)
      ensures MidSlot(lo, w, p).Width() ==
              Times(Seg(lo, lo + w, p[0], p[w]), Seg(lo + w, lo + 2 * w, p[w], p[2 * w])) / Seg(lo, lo + 2 * w, p[0], p[2 * w])
    {
      CondTotal(lo, lo + w, lo + 2 * w, p[0], p[2 * w]);
      var ws := Cond(lo, lo + w, lo + 2 * w, p[0], p[2 * w]);
      DrawExact(ws, r, p[w]);
      SlotWidth(ws, p[w]);
    }

    /** The midpoints drawn between the ends of `p` are those of `p` exactly on `p`'s box. */
    lemma {:induction false} MidpointsExact(h: nat, lo: nat, p: seq<nat>, u: nat -> real, pos: nat)
      requires Valid() && |p| == Pow2(h) + 1 && Path(lo, p) && PathWeight(lo, p) > 0.0 && Uniform(u)
      ensures Seg(lo, lo + Pow2(h), p[0], p[Pow2(h)]) > 0.0
      ensures Midpoints(h, lo, p[0], p[Pow2(h)], u, pos) == p[1..Pow2(h)] <==> InBox(u, pos, MidBox(h, lo, p))
      decreases h
    {
      hide Seg, Cond, Draw, PathWeight, Leaf, Midpoints, MidBox, InBox, MidSlot;
      PathLive(lo, p);
      if h == 0 {
        NoMidpoints(lo, p, u, pos);
      } else {
        var w := Pow2(h - 1);
        var q := p[2 * w];
        Halves(lo, p, w);
        MidpointsExact(h - 1, lo, p[..w + 1], u, pos + 1);
        MidpointsExact(h - 1, lo + w, p[w..], u, pos + w);
        MidSlotExact(lo, w, p, u(pos));
        MidBoxHolds(h, w, lo, p, p[..w + 1], p[w..], u, pos);
        MidpointLive(lo, lo + w, lo + 2 * w, p[0], q, u(pos));
        var m := Draw(Cond(lo, lo + w, lo + 2 * w, p[0], q), u(pos));
        MidpointsUnfold(h, w, lo, p[0], m, q, u, pos);
        ThreeParts(Midpoints(h - 1, lo, p[0], m, u, pos + 1), m, Midpoints(h - 1, lo + w, m, q, u, pos + w), p, w);
      }
    }

    lemma NoMidpoints(lo: nat, p: seq<nat>, u: nat -> real, pos: nat)
      requires Valid() && |p| == 2 && Path(lo, p) && PathWeight(lo, p) > 0.0 && Uniform(u)
      requires Seg(lo, lo + 1, p[0], p[1]) > 0.0
      ensures Midpoints(0, lo, p[0], p[1], u, pos) == p[1..1] && InBox(u, pos, MidBox(0, lo, p))
    {
    }

    ghost predicate HalvedPath(h: nat, w: nat, lo: nat, p: seq<nat>, left: seq<nat>, right: seq<nat>)
      requires Valid()
    {
      && h > 0 && w == Pow2(h - 1) && |p| == 2 * w + 1 && Path(lo, p) && PathWeight(lo, p) > 0.0
      && left == p[..w + 1] && Path(lo, left) && PathWeight(lo, left) > 0.0
      && right == p[w..] && Path(lo + w, right) && PathWeight(lo + w, right) > 0.0
      && Seg(lo, lo + 2 * w, p[0], p[2 * w]) > 0.0
    }

    lemma MidBoxHolds(h: nat, w: nat, lo: nat, p: seq<nat>, left: seq<nat>, right: seq<nat>, u: nat -> real, pos: nat)
      requires Valid() && HalvedPath(h, w, lo, p, left, right)
      ensures InBox(u, pos, MidBox(h, lo, p)) <==>
              && MidSlot(lo, w, p).Holds(u(pos))
              && InBox(u, pos + 1, MidBox(h - 1, lo, left))
              && InBox(u, pos + w, MidBox(h - 1, lo + w, right))
    {
      hide Seg, Cond, PathWeight, Leaf, MidSlot, InBox, Volume;
      InBoxThree(u, pos, MidSlot(lo, w, p), MidBox(h - 1, lo, left), MidBox(h - 1, lo + w, right));
    }

    lemma MidBoxVolume(h: nat, w: nat, lo: nat, p: seq<nat>, left: seq<nat>, right: seq<nat>)
      requires Valid() && HalvedPath(h, w, lo, p, left, right)
      ensures Volume(MidBox(h, lo, p)) ==
              Times(MidSlot(lo, w, p).Width(), Times(Volume(MidBox(h - 1, lo, left)), Volume(MidBox(h - 1, lo + w, right))))
    {
      hide Seg, Cond, PathWeight, Leaf, MidSlot, InBox, Volume;
      InBoxThree(_ => 0.0, 0, MidSlot(lo, w, p), MidBox(h - 1, lo, left), MidBox(h - 1, lo + w, right));
    }

    lemma MidSlotInUnit(lo: nat, w: nat, p: seq<nat>)
      requires Valid() && |p| == 2 * w + 1 && Path(lo, p) && Seg(lo, lo + 2 * w, p[0], p[2 * w]) > 0.0
      ensures InUnit([MidSlot(lo, w, p)])
    {
      hide Seg, Cond, Slot;
      CondTotal(lo, lo + w, lo + 2 * w, p[0], p[2 * w]);
      SlotInUnit(Cond(lo, lo + w, lo + 2 * w, p[0], p[2 * w]), p[w]);
    }

    /** The midpoint slots lie in the unit cube. */
    lemma {:induction false} MidBoxInUnit(h: nat, lo: nat, p: seq<nat>)
      requires Valid() && |p| == Pow2(h) + 1 && Path(lo, p) && PathWeight(lo, p) > 0.0
      ensures InUnit(MidBox(h, lo, p))
      decreases h
    {
      hide Seg, Cond, PathWeight, Leaf, MidSlot;
      if h > 0 {
        var w := Pow2(h - 1);
        Halves(lo, p, w);
        MidSlotInUnit(lo, w, p);
        MidBoxInUnit(h - 1, lo, p[..w + 1]);
        MidBoxInUnit(h - 1, lo + w, p[w..]);
        var i, j, k := [MidSlot(lo, w, p)], MidBox(h - 1, lo, p[..w + 1]), MidBox(h - 1, lo + w, p[w..]);
        assert InUnit(i + (j + k));
        assert MidBox(h, lo, p) == i + (j + k);
      }
    }

    /** The conditionals telescope: their product is the path weight over the segment entry. */
    lemma {:induction false} MidVolume(h: nat, lo: nat, p: seq<nat>)
      requires Valid() && |p| == Pow2(h) + 1 && Path(lo, p) && PathWeight(lo, p) > 0.0
      ensures Seg(lo, lo + Pow2(h), p[0], p[Pow2(h)]) > 0.0
      ensures Volume(MidBox(h, lo, p)) == PathWeight(lo, p) / Seg(lo, lo + Pow2(h), p[0], p[Pow2(h)])
      decreases h
    {
      hide Seg, Cond, PathWeight, Leaf, MidSlot, MidBox, Volume;
      PathLive(lo, p);
      if h == 0 {
        LeafVolume(lo, p);
      } else {
        var w := Pow2(h - 1);
        Halves(lo, p, w);
        MidVolume(h - 1, lo, p[..w + 1]);
        MidVolume(h - 1, lo + w, p[w..]);
        MidSlotExact(lo, w, p, 0.0);
        MidBoxVolume(h, w, lo, p, p[..w + 1], p[w..]);
        Collapse(Seg(lo, lo + w, p[0], p[w]), Seg(lo + w, lo + 2 * w, p[w], p[2 * w]), Seg(lo, lo + 2 * w, p[0], p[2 * w]),
                 PathWeight(lo, p[..w + 1]), PathWeight(lo + w, p[w..]));
      }
    }

    lemma LeafVolume(lo: nat, p: seq<nat>)
      requires Valid() && |p| == 2 && Path(lo, p) && PathWeight(lo, p) > 0.0
      ensures Seg(lo, lo + 1, p[0], p[1]) > 0.0
      ensures Volume(MidBox(0, lo, p)) == PathWeight(lo, p) / Seg(lo, lo + 1, p[0], p[1])
    {
      OneStep(lo, p[0], p[1]);
      assert p == [p[0], p[1]];
      PairWeight(lo, p[0], p[1]);
      assert MidBox(0, lo, p) == [];
    }
  }

  lemma ThreeParts(left: seq<nat>, m: nat, right: seq<nat>, p: seq<nat>, w: nat)
    requires w > 0 && |left| == w - 1 == |right| && |p| == 2 * w + 1
    ensures left + [m] + right == p[1..2 * w] <==>
            left == p[..w + 1][1..w] && m == p[w] && right == p[w..][1..w]
  {
    var all := left + [m] + right;
    if all == p[1..2 * w] {
      assert all[w - 1] == p[1..2 * w][w - 1];
      assert left == all[..w - 1] && right == all[w..];
      assert p[1..2 * w][..w - 1] == p[..w + 1][1..w] && p[1..2 * w][w..] == p[w..][1..w];
    }
    if left == p[..w + 1][1..w] && m == p[w] && right == p[w..][1..w] {
      assert p[1..2 * w] == p[1..w] + [p[w]] + p[w + 1..2 * w];
      assert p[..w + 1][1..w] == p[1..w] && p[w..][1..w] == p[w + 1..2 * w];
    }
  }

  /** (a * c / t) * ((x / a) * (y / c)) == (x * y) / t. */
  lemma Collapse(a: real, c: real, t: real, x: real, y: real)
    requires a > 0.0 && c > 0.0 && t > 0.0
    ensures Times(Times(a, c) / t, Times(x / a, y / c)) == Times(x, y) / t
  {
    var p, q := x / a, y / c;
    assert p * a == x && q * c == y;
    var z := Times(a, c) / t;
    assert z * t == a * c;
    assert (z * (p * q)) * t == (z * t) * (p * q) == (a * c) * (p * q) == (p * a) * (q * c);
  }

  lemma Rearrange(x: real, y: real, z: real)
    ensures Times(Times(x, y), z) == Times(Times(x, z), y)
  {
  }
}
