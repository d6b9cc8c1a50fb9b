/** Finite sums of reals and the categorical draw by cumulative weights. */
module Sums {

  /** Multiplication behind a name, so that equal factors give equal products. */
  function Times(x: real, y: real): real { x * y }

  // ---- sums over lists ----

  function Sum(s: seq<real>): real {
    if s == [] then 0.0 else Sum(s[..|s| - 1]) + s[|s| - 1]
  }

  ghost predicate NonNegative(s: seq<real>) {
    forall i :: 0 <= i < |s| ==> s[i] >= 0.0
  }

  lemma SumAppend(s: seq<real>, x: real)
    ensures Sum(s + [x]) == Sum(s) + x
  {
    assert (s + [x])[..|s|] == s;
  }

  lemma {:induction false} SumHead(s: seq<real>)
    requires s != []
    ensures Sum(s) == s[0] + Sum(s[1..])
  {
    if |s| == 1 {
      assert s == [] + [s[0]];
      SumAppend([], s[0]);
    } else {
      var init := s[..|s| - 1];
      SumHead(init);
      assert s[1..][..|s| - 2] == init[1..];
    }
  }

  lemma {:induction false} SumNonNegative(s: seq<real>)
    requires NonNegative(s)
    ensures Sum(s) >= 0.0
  {
    if s != [] { SumNonNegative(s[..|s| - 1]); }
  }

  /** A longer prefix of non-negative weights weighs no less. */
  lemma {:induction false} SumPrefix(s: seq<real>, i: nat, j: nat)
    requires NonNegative(s) && i <= j <= |s|
    ensures Sum(s[..i]) <= Sum(s[..j])
    decreases j
  {
    if i < j {
      SumPrefix(s, i, j - 1);
      assert s[..j] == s[..j - 1] + [s[j - 1]];
      SumAppend(s[..j - 1], s[j - 1]);
    }
  }

  lemma SumStep(s: seq<real>, i: nat)
    requires i < |s|
    ensures Sum(s[..i + 1]) == Sum(s[..i]) + s[i]
  {
    assert s[..i + 1] == s[..i] + [s[i]];
    SumAppend(s[..i], s[i]);
  }

  function Scale(s: seq<real>, c: real): (r: seq<real>)
    ensures |r| == |s| && forall i :: 0 <= i < |s| ==> r[i] == Times(s[i], c)
  {
    seq(|s|, i requires 0 <= i < |s| => Times(s[i], c))
  }

  lemma {:induction false} SumScale(s: seq<real>, c: real)
    ensures Sum(Scale(s, c)) == Times(Sum(s), c)
  {
    if s != [] {
      var init := s[..|s| - 1];
      SumScale(init, c);
      forall i | 0 <= i < |init| ensures Scale(s, c)[i] == Scale(init, c)[i] {
        assert init[i] == s[i];
      }
      assert Scale(s, c)[..|s| - 1] == Scale(init, c);
      Distribute(Sum(init), s[|s| - 1], c);
    }
  }

  lemma Distribute(x: real, y: real, c: real)
    ensures Times(x + y, c) == Times(x, c) + Times(y, c)
  {
  }

  lemma {:induction false} SumZero(s: seq<real>)
    requires NonNegative(s)
    ensures Sum(s) == 0.0 <==> forall i :: 0 <= i < |s| ==> s[i] == 0.0
  {
    if s != [] {
      var init := s[..|s| - 1];
      SumZero(init);
      SumNonNegative(init);
      assert forall i :: 0 <= i < |init| ==> init[i] == s[i];
    }
  }

  // ---- sums over index ranges ----

  function SumTo(n: nat, f: nat -> real): real {
    if n == 0 then 0.0 else SumTo(n - 1, f) + f(n - 1)
  }

  lemma {:induction false} SumToExt(n: nat, f: nat -> real, g: nat -> real)
    requires forall k: nat :: k < n ==> f(k) == g(k)
    ensures SumTo(n, f) == SumTo(n, g)
  {
    if n > 0 { SumToExt(n - 1, f, g); }
  }

  lemma {:induction false} SumToPlus(n: nat, f: nat -> real, g: nat -> real, h: nat -> real)
    requires forall k: nat :: k < n ==> h(k) == f(k) + g(k)
    ensures SumTo(n, h) == SumTo(n, f) + SumTo(n, g)
  {
    if n > 0 { SumToPlus(n - 1, f, g, h); }
  }

  lemma {:induction false} SumToScale(n: nat, f: nat -> real, c: real, h: nat -> real)
    requires forall k: nat :: k < n ==> h(k) == Times(f(k), c)
    ensures SumTo(n, h) == Times(SumTo(n, f), c)
  {
    if n > 0 {
      SumToScale(n - 1, f, c, h);
      Distribute(SumTo(n - 1, f), f(n - 1), c);
    }
  }

  lemma {:induction false} SumToZero(n: nat, f: nat -> real)
    requires forall k: nat :: k < n ==> f(k) == 0.0
    ensures SumTo(n, f) == 0.0
  {
    if n > 0 { SumToZero(n - 1, f); }
  }

  /** Exchanging the order of a double sum. */
  lemma {:induction false} SumToSwap(m: nat, n: nat, f: (nat, nat) -> real)
    ensures SumTo(m, (i: nat) => SumTo(n, (j: nat) => f(i, j))) == SumTo(n, (j: nat) => SumTo(m, (i: nat) => f(i, j)))
  {
    var rows := (i: nat) => SumTo(n, (j: nat) => f(i, j));
    var columns := (j: nat) => SumTo(m, (i: nat) => f(i, j));
    if m == 0 {
      SumToZero(n, columns);
    } else {
      var shorter := (j: nat) => SumTo(m - 1, (i: nat) => f(i, j));
      SumToSwap(m - 1, n, f);
      SumToPlus(n, shorter, (j: nat) => f(m - 1, j), columns);
    }
  }

  lemma {:induction false} SumToNonNegative(n: nat, f: nat -> real)
    requires forall k: nat :: k < n ==> f(k) >= 0.0
    ensures SumTo(n, f) >= 0.0
    ensures forall k: nat :: k < n ==> f(k) <= SumTo(n, f)
  {
    if n > 0 { SumToNonNegative(n - 1, f); }
  }

  /** A sum with one non-zero term. */
  lemma {:induction false} SumToSingle(n: nat, f: nat -> real, k: nat)
    requires k < n && forall i: nat :: i < n && i != k ==> f(i) == 0.0
    ensures SumTo(n, f) == f(k)
  {
    if k == n - 1 {
      SumToZero(n - 1, f);
    } else {
      SumToSingle(n - 1, f, k);
    }
  }

  /** A list sum is an index sum. */
  lemma {:induction false} SumAsRange(s: seq<real>, f: nat -> real)
    requires forall k: nat :: k < |s| ==> f(k) == s[k]
    ensures Sum(s) == SumTo(|s|, f)
  {
    if s != [] { SumAsRange(s[..|s| - 1], f); }
  }

  function Product(s: seq<real>): real {
    if s == [] then 1.0 else Times(Product(s[1..]), s[0])
  }

  // ---- the categorical draw ----

  /** The first index whose cumulative weight exceeds `r`; the last index when none does. */
  function PickFrom(ws: seq<real>, i: nat, acc: real, r: real): (k: nat)
    requires i < |ws|
    ensures i <= k < |ws|
    decreases |ws| - i
  {
    if r < acc + ws[i] || i + 1 == |ws| then i else PickFrom(ws, i + 1, acc + ws[i], r)
  }

  function Pick(ws: seq<real>, r: real): (k: nat)
    requires ws != []
    ensures k < |ws|
  {
    PickFrom(ws, 0, 0.0, r)
  }

  lemma {:induction false} PickFromLands(ws: seq<real>, i: nat, r: real)
    requires i < |ws| && Sum(ws[..i]) <= r < Sum(ws)
    ensures var k := PickFrom(ws, i, Sum(ws[..i]), r);
            Sum(ws[..k]) <= r < Sum(ws[..k + 1])
    decreases |ws| - i
  {
    SumStep(ws, i);
    if i + 1 == |ws| {
      assert ws[..i + 1] == ws;
    } else if r >= Sum(ws[..i + 1]) {
      PickFromLands(ws, i + 1, r);
    }
  }

  /** The draw picks `k` exactly when `r` falls into `k`'s slice of the total: the fall-through is never reached. */
  lemma PickIff(ws: seq<real>, r: real, k: nat)
    requires NonNegative(ws) && k < |ws| && 0.0 <= r < Sum(ws)
    ensures Pick(ws, r) == k <==> Sum(ws[..k]) <= r < Sum(ws[..k + 1])
  {
    assert ws[..0] == [];
    PickFromLands(ws, 0, r);
    var p := Pick(ws, r);
    if p < k {
      SumPrefix(ws, p + 1, k);
    } else if k < p {
      SumPrefix(ws, k + 1, p);
    }
  }

  /** What is picked carries weight. */
  lemma PickPositive(ws: seq<real>, r: real)
    requires NonNegative(ws) && ws != [] && 0.0 <= r < Sum(ws)
    ensures ws[Pick(ws, r)] > 0.0
  {
    PickIff(ws, r, Pick(ws, r));
    SumStep(ws, Pick(ws, r));
  }

  lemma MulOrder(x: real, y: real, c: real)
    requires c > 0.0
    ensures x < y <==> Times(x, c) < Times(y, c)
  {
    if x < y {
      assert (y - x) * c > 0.0;
    } else {
      assert (x - y) * c >= 0.0;
    }
  }

  /** A common positive factor (the max-shift of log space) does not change the draw. */
  lemma {:induction false} PickFromScale(ws: seq<real>, c: real, i: nat, acc: real, r: real)
    requires i < |ws| && c > 0.0
    ensures PickFrom(Scale(ws, c), i, Times(acc, c), Times(r, c)) == PickFrom(ws, i, acc, r)
    decreases |ws| - i
  {
    var x := acc + ws[i];
    Distribute(acc, ws[i], c);
    MulOrder(r, x, c);
    if r >= x && i + 1 < |ws| {
      PickFromScale(ws, c, i + 1, x, r);
    }
  }

  // ---- draws as intervals ----

  /** A half-open interval of uniform draws. */
  datatype Interval = Interval(lo: real, hi: real) {
    predicate Holds(u: real) { lo <= u < hi }
    function Width(): real { hi - lo }
  }

  /** The draws that select index `k` out of the weights `ws`. */
  function Slot(ws: seq<real>, k: nat): Interval
    requires k < |ws| && Sum(ws) > 0.0
  {
    Interval(Sum(ws[..k]) / Sum(ws), Sum(ws[..k + 1]) / Sum(ws))
  }

  /** A categorical draw over non-normalized weights from one uniform draw. */
  function Draw(ws: seq<real>, u: real): (k: nat)
    requires ws != []
    ensures k < |ws|
  {
    Pick(ws, Times(u, Sum(ws)))
  }

  /** A uniform draw selects `k` exactly on an interval as wide as `k`'s share of the weight. */
  lemma DrawExact(ws: seq<real>, u: real, k: nat)
    requires NonNegative(ws) && k < |ws| && Sum(ws) > 0.0 && 0.0 <= u < 1.0
    ensures Draw(ws, u) == k <==> Slot(ws, k).Holds(u)
  {
    ScaleBounds(u, Sum(ws));
    PickIff(ws, Times(u, Sum(ws)), k);
    DivideBound(u, Sum(ws), Sum(ws[..k]));
    DivideBound(u, Sum(ws), Sum(ws[..k + 1]));
  }

  /** What is drawn carries weight. */
  lemma DrawPositive(ws: seq<real>, u: real)
    requires NonNegative(ws) && Sum(ws) > 0.0 && 0.0 <= u < 1.0
    ensures ws != [] && ws[Draw(ws, u)] > 0.0
  {
    ScaleBounds(u, Sum(ws));
    PickPositive(ws, Times(u, Sum(ws)));
  }

  /** Weights known only up to a common positive factor give the same draw. */
  lemma DrawScale(ws: seq<real>, c: real, u: real)
    requires ws != [] && c > 0.0
    ensures Draw(Scale(ws, c), u) == Draw(ws, u)
  {
    SumScale(ws, c);
    TimesAssoc(u, Sum(ws), c);
    PickFromScale(ws, c, 0, 0.0, Times(u, Sum(ws)));
  }

  lemma TimesAssoc(x: real, y: real, z: real)
    ensures Times(x, Times(y, z)) == Times(Times(x, y), z)
  {
  }

  lemma SlotWidth(ws: seq<real>, k: nat)
    requires NonNegative(ws) && k < |ws| && Sum(ws) > 0.0
    ensures Slot(ws, k).Width() == ws[k] / Sum(ws)
  {
    SumStep(ws, k);
    DivideDifference(Sum(ws[..k + 1]), Sum(ws[..k]), Sum(ws));
  }

  lemma SlotInUnit(ws: seq<real>, k: nat)
    requires NonNegative(ws) && k < |ws| && Sum(ws) > 0.0
    ensures 0.0 <= Slot(ws, k).lo <= Slot(ws, k).hi <= 1.0
  {
    assert ws[..|ws|] == ws && ws[..0] == [];
    SumPrefix(ws, 0, k);
    SumPrefix(ws, k, k + 1);
    SumPrefix(ws, k + 1, |ws|);
    DivideMonotone(0.0, Sum(ws[..k]), Sum(ws));
    DivideMonotone(Sum(ws[..k]), Sum(ws[..k + 1]), Sum(ws));
    DivideMonotone(Sum(ws[..k + 1]), Sum(ws), Sum(ws));
  }

  lemma DivideMonotone(x: real, y: real, total: real)
    requires total > 0.0 && x <= y
    ensures x / total <= y / total && total / total == 1.0 && 0.0 / total == 0.0
  {
    DivideDifference(y, x, total);
    DivideBound(0.0, total, y - x);
    var q := (y - x) / total;
    assert q * total == y - x;
    if q < 0.0 { MulOrder(q, 0.0, total); }
  }

  lemma ScaleBounds(u: real, total: real)
    requires 0.0 <= u < 1.0 && total > 0.0
    ensures 0.0 <= Times(u, total) < total
  {
    MulOrder(u, 1.0, total);
  }

  lemma DivideBound(u: real, total: real, x: real)
    requires total > 0.0
    ensures x <= Times(u, total) <==> x / total <= u
    ensures Times(u, total) < x <==> u < x / total
  {
    var q := x / total;
    assert q * total == x;
    MulOrder(u, q, total);
  }

  lemma DivideDifference(x: real, y: real, z: real)
    requires z > 0.0
    ensures x / z - y / z == (x - y) / z
  {
  }
}
