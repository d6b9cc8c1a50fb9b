/** Rotary embeddings: in-place rotations over precomputed tables, their inverse, and the row order they rely on. */
module Rope {
  import opened Tables

  // ---- one pair ----

  function TurnX(x: real, y: real, c: real, s: real): real { x * c - y * s }

  function TurnY(x: real, y: real, c: real, s: real): real { x * s + y * c }

  function BackX(x: real, y: real, c: real, s: real): real { x * c + y * s }

  function BackY(x: real, y: real, c: real, s: real): real { -x * s + y * c }

  /** The squared length of a table entry. */
  function Norm(c: real, s: real): real { c * c + s * s }

  /** Turning and turning back multiplies both entries by the squared length of the table entry, in either order. */
  lemma TurnBack(x: real, y: real, c: real, s: real)
    ensures BackX(TurnX(x, y, c, s), TurnY(x, y, c, s), c, s) == x * Norm(c, s)
    ensures BackY(TurnX(x, y, c, s), TurnY(x, y, c, s), c, s) == y * Norm(c, s)
    ensures TurnX(BackX(x, y, c, s), BackY(x, y, c, s), c, s) == x * Norm(c, s)
    ensures TurnY(BackX(x, y, c, s), BackY(x, y, c, s), c, s) == y * Norm(c, s)
  {
  }

  // ---- a whole head ----

  /** Cosine and sine tables of one length. */
  datatype Table = Table(cos: seq<real>, sin: seq<real>) {
    ghost predicate Valid() { |cos| == |sin| }
    function Half(): nat { |cos| }

    /** Every entry is a point of the unit circle. */
    ghost predicate Unit() {
      Valid() && forall i :: 0 <= i < |cos| ==> Norm(cos[i], sin[i]) == 1.0
    }
  }

  ghost predicate Sized(v: seq<real>, t: Table) {
    t.Valid() && |v| == 2 * t.Half()
  }

  /** Entry `k` after turning every pair `(v[i], v[i + half])`. */
  function RotatedAt(v: seq<real>, t: Table, k: nat): real
    requires Sized(v, t) && k < |v|
  {
    var half := t.Half();
    if k < half then TurnX(v[k], v[k + half], t.cos[k], t.sin[k])
    else TurnY(v[k - half], v[k], t.cos[k - half], t.sin[k - half])
  }

  function UnrotatedAt(v: seq<real>, t: Table, k: nat): real
    requires Sized(v, t) && k < |v|
  {
    var half := t.Half();
    if k < half then BackX(v[k], v[k + half], t.cos[k], t.sin[k])
    else BackY(v[k - half], v[k], t.cos[k - half], t.sin[k - half])
  }

  /** The plain per-pair rotation. */
  function Rotated(v: seq<real>, t: Table): (r: seq<real>)
    requires Sized(v, t)
    ensures |r| == |v| && forall k :: 0 <= k < |r| ==> r[k] == RotatedAt(v, t, k)
  {
    seq(|v|, k requires 0 <= k < |v| => RotatedAt(v, t, k))
  }

  function Unrotated(v: seq<real>, t: Table): (r: seq<real>)
    requires Sized(v, t)
    ensures |r| == |v| && forall k :: 0 <= k < |r| ==> r[k] == UnrotatedAt(v, t, k)
  {
    seq(|v|, k requires 0 <= k < |v| => UnrotatedAt(v, t, k))
  }

  /** Rotating and rotating back scales entry `k` by the squared length of its table entry. */
  lemma BackAt(v: seq<real>, t: Table, k: nat)
    requires Sized(v, t) && k < |v|
    ensures var i := if k < t.Half() then k else k - t.Half();
            && Unrotated(Rotated(v, t), t)[k] == v[k] * Norm(t.cos[i], t.sin[i])
            && Rotated(Unrotated(v, t), t)[k] == v[k] * Norm(t.cos[i], t.sin[i])
  {
    hide TurnX, TurnY, BackX, BackY, Norm;
    var half := t.Half();
    var i := if k < half then k else k - half;
    TurnBack(v[i], v[i + half], t.cos[i], t.sin[i]);
    var r, u := Rotated(v, t), Unrotated(v, t);
    assert r[i] == RotatedAt(v, t, i) && r[i + half] == RotatedAt(v, t, i + half);
    assert u[i] == UnrotatedAt(v, t, i) && u[i + half] == UnrotatedAt(v, t, i + half);
    assert Unrotated(r, t)[k] == UnrotatedAt(r, t, k) && Rotated(u, t)[k] == RotatedAt(u, t, k);
  }

  /** The inverse undoes the rotation, and the rotation the inverse, on a table of unit entries. */
  lemma Inverse(v: seq<real>, t: Table)
    requires t.Unit() && Sized(v, t)
    ensures Unrotated(Rotated(v, t), t) == v && Rotated(Unrotated(v, t), t) == v
  {
    hide Rotated, Unrotated, RotatedAt, UnrotatedAt, Norm;
    forall k | 0 <= k < |v| ensures Unrotated(Rotated(v, t), t)[k] == v[k] && Rotated(Unrotated(v, t), t)[k] == v[k] {
      BackAt(v, t, k);
      var i := if k < t.Half() then k else k - t.Half();
      assert Norm(t.cos[i], t.sin[i]) == 1.0;
    }
  }

  /** It undoes every vector only if every entry is on the unit circle. */
  lemma InverseIff(t: Table)
    requires t.Valid()
    ensures (forall v: seq<real> :: Sized(v, t) ==> Unrotated(Rotated(v, t), t) == v) <==> t.Unit()
  {
    hide Rotated, Unrotated, Norm;
    if t.Unit() {
      forall v: seq<real> | Sized(v, t) ensures Unrotated(Rotated(v, t), t) == v { Inverse(v, t); }
    }
    if forall v: seq<real> :: Sized(v, t) ==> Unrotated(Rotated(v, t), t) == v {
      var one := seq(2 * t.Half(), _ => 1.0);
      assert Sized(one, t);
      assert Unrotated(Rotated(one, t), t) == one;
      forall i | 0 <= i < |t.cos| ensures Norm(t.cos[i], t.sin[i]) == 1.0 {
        BackAt(one, t, i);
      }
    }
  }

  /** Two turns in a row are one turn by the summed angle. */
  function CosSum(c: real, s: real, d: real, u: real): real { c * d - s * u }

  function SinSum(c: real, s: real, d: real, u: real): real { s * d + c * u }

  function Composed(a: Table, b: Table): (t: Table)
    requires a.Valid() && b.Valid() && a.Half() == b.Half()
    ensures t.Valid() && t.Half() == a.Half()
  {
    Table(seq(a.Half(), i requires 0 <= i < a.Half() => CosSum(a.cos[i], a.sin[i], b.cos[i], b.sin[i])),
          seq(a.Half(), i requires 0 <= i < a.Half() => SinSum(a.cos[i], a.sin[i], b.cos[i], b.sin[i])))
  }

  lemma TurnTwice(x: real, y: real, c: real, s: real, d: real, u: real)
    ensures TurnX(TurnX(x, y, c, s), TurnY(x, y, c, s), d, u) == TurnX(x, y, CosSum(c, s, d, u), SinSum(c, s, d, u))
    ensures TurnY(TurnX(x, y, c, s), TurnY(x, y, c, s), d, u) == TurnY(x, y, CosSum(c, s, d, u), SinSum(c, s, d, u))
  {
  }

  lemma RotatedTwice(v: seq<real>, a: Table, b: Table)
    requires Sized(v, a) && Sized(v, b)
    ensures Rotated(Rotated(v, a), b) == Rotated(v, Composed(a, b))
  {
    hide TurnX, TurnY, CosSum, SinSum, Rotated;
    var half := a.Half();
    var r := Rotated(v, a);
    forall k | 0 <= k < |v| ensures Rotated(r, b)[k] == Rotated(v, Composed(a, b))[k] {
      var i := if k < half then k else k - half;
      TurnTwice(v[i], v[i + half], a.cos[i], a.sin[i], b.cos[i], b.sin[i]);
      assert r[i] == RotatedAt(v, a, i) && r[i + half] == RotatedAt(v, a, i + half);
      assert Rotated(r, b)[k] == RotatedAt(r, b, k);
    }
  }

  function Dot(v: seq<real>, w: seq<real>, half: nat, n: nat): real
    requires n <= half && |v| == |w| == 2 * half
  {
    if n == 0 then 0.0 else Dot(v, w, half, n - 1) + (v[n - 1] * w[n - 1] + v[n - 1 + half] * w[n - 1 + half])
  }

  lemma PairDot(x: real, y: real, z: real, w: real, c: real, s: real)
    requires Norm(c, s) == 1.0
    ensures TurnX(x, y, c, s) * TurnX(z, w, c, s) + TurnY(x, y, c, s) * TurnY(z, w, c, s) == x * z + y * w
  {
    assert TurnX(x, y, c, s) * TurnX(z, w, c, s) + TurnY(x, y, c, s) * TurnY(z, w, c, s) == (x * z + y * w) * Norm(c, s);
  }

  /** Turning query and key alike keeps their inner product: only the difference of positions matters. */
  lemma {:induction false} DotKept(q: seq<real>, k: seq<real>, t: Table, n: nat)
    requires t.Unit() && Sized(q, t) && Sized(k, t) && n <= t.Half()
    ensures Dot(Rotated(q, t), Rotated(k, t), t.Half(), n) == Dot(q, k, t.Half(), n)
  {
    hide TurnX, TurnY, Norm, Rotated;
    if n > 0 {
      var half, m := t.Half(), n - 1;
      DotKept(q, k, t, m);
      PairDot(q[m], q[m + half], k[m], k[m + half], t.cos[m], t.sin[m]);
      assert Rotated(q, t)[m] == RotatedAt(q, t, m) && Rotated(q, t)[m + half] == RotatedAt(q, t, m + half);
      assert Rotated(k, t)[m] == RotatedAt(k, t, m) && Rotated(k, t)[m + half] == RotatedAt(k, t, m + half);
    }
  }

  // ---- in place ----

  /** The vector with the slice that starts at `off` rotated. */
  function Patched(v: seq<real>, off: nat, t: Table): (r: seq<real>)
    requires t.Valid() && off + 2 * t.Half() <= |v|
    ensures |r| == |v|
  {
    v[..off] + Rotated(v[off..off + 2 * t.Half()], t) + v[off + 2 * t.Half()..]
  }

  function PatchedBack(v: seq<real>, off: nat, t: Table): (r: seq<real>)
    requires t.Valid() && off + 2 * t.Half() <= |v|
    ensures |r| == |v|
  {
    v[..off] + Unrotated(v[off..off + 2 * t.Half()], t) + v[off + 2 * t.Half()..]
  }

  lemma PairRotated(w: seq<real>, t: Table, i: nat)
    requires Sized(w, t) && i < t.Half()
    ensures Rotated(w, t)[i] == w[i] * t.cos[i] - w[i + t.Half()] * t.sin[i]
    ensures Rotated(w, t)[i + t.Half()] == w[i] * t.sin[i] + w[i + t.Half()] * t.cos[i]
    ensures Unrotated(w, t)[i] == w[i] * t.cos[i] + w[i + t.Half()] * t.sin[i]
    ensures Unrotated(w, t)[i + t.Half()] == -w[i] * t.sin[i] + w[i + t.Half()] * t.cos[i]
  {
    hide Rotated, Unrotated;
    var half := t.Half();
    var r, u := Rotated(w, t), Unrotated(w, t);
    assert r[i] == RotatedAt(w, t, i) && r[i + half] == RotatedAt(w, t, i + half);
    assert u[i] == UnrotatedAt(w, t, i) && u[i + half] == UnrotatedAt(w, t, i + half);
  }

  /** The direction of both rotations, entry by entry: a pair `(x, y)` becomes `(x cos - y sin, x sin + y cos)`, and the
      inverse negates the sines. Everything outside the slice stays. */
  lemma PairsTurned(v: seq<real>, off: nat, t: Table, i: nat)
    requires t.Valid() && off + 2 * t.Half() <= |v| && i < t.Half()
    ensures var x, y, c, s := v[off + i], v[off + i + t.Half()], t.cos[i], t.sin[i];
            && Patched(v, off, t)[off + i] == x * c - y * s && Patched(v, off, t)[off + i + t.Half()] == x * s + y * c
            && PatchedBack(v, off, t)[off + i] == x * c + y * s && PatchedBack(v, off, t)[off + i + t.Half()] == -x * s + y * c
    ensures forall k :: 0 <= k < |v| && !(off <= k < off + 2 * t.Half()) ==>
              Patched(v, off, t)[k] == v[k] && PatchedBack(v, off, t)[k] == v[k]
  {
    hide Rotated, Unrotated;
    var half := t.Half();
    var w := v[off..off + 2 * half];
    PairRotated(w, t, i);
    assert w[i] == v[off + i] && w[i + half] == v[off + i + half];
    assert Patched(v, off, t)[off + i] == Rotated(w, t)[i] && Patched(v, off, t)[off + i + half] == Rotated(w, t)[i + half];
    assert PatchedBack(v, off, t)[off + i] == Unrotated(w, t)[i];
    assert PatchedBack(v, off, t)[off + i + half] == Unrotated(w, t)[i + half];
  }

  /** Undoing a slice in place. */
  lemma PatchedInverse(v: seq<real>, off: nat, t: Table)
    requires t.Unit() && off + 2 * t.Half() <= |v|
    ensures PatchedBack(Patched(v, off, t), off, t) == v && Patched(PatchedBack(v, off, t), off, t) == v
  {
    hide Rotated, Unrotated;
    var w := 2 * t.Half();
    var x := v[off..off + w];
    Inverse(x, t);
    SliceBack(v, off, w, Rotated(x, t));
    SliceBack(v, off, w, Unrotated(x, t));
  }

  /** Replacing a slice and putting the old one back. */
  lemma SliceBack(v: seq<real>, off: nat, w: nat, x: seq<real>)
    requires off + w <= |v| && |x| == w
    ensures var u := v[..off] + x + v[off + w..];
            && |u| == |v| && u[off..off + w] == x
            && u[..off] + v[off..off + w] + u[off + w..] == v
  {
  }

  /** Entry `k` when the pairs below `i` of the slice are turned. */
  function TurnedAt(before: seq<real>, off: nat, t: Table, i: nat, k: nat): real
    requires t.Valid() && off + 2 * t.Half() <= |before| && i <= t.Half() && k < |before|
  {
    var half := t.Half();
    if off <= k < off + i then TurnX(before[k], before[k + half], t.cos[k - off], t.sin[k - off])
    else if off + half <= k < off + half + i then
      TurnY(before[k - half], before[k], t.cos[k - half - off], t.sin[k - half - off])
    else before[k]
  }

  ghost predicate TurnedUpTo(before: seq<real>, now: seq<real>, off: nat, t: Table, i: nat)
    requires t.Valid() && off + 2 * t.Half() <= |before|
  {
    && i <= t.Half() && |now| == |before|
    && forall k :: 0 <= k < |now| ==> now[k] == TurnedAt(before, off, t, i, k)
  }

  /** One more pair turned. */
  lemma TurnedStep(before: seq<real>, now: seq<real>, off: nat, t: Table, i: nat, x: real, y: real)
    requires t.Valid() && off + 2 * t.Half() <= |before| == |now| && TurnedUpTo(before, now, off, t, i) && i < t.Half()
    requires x == TurnX(now[off + i], now[off + i + t.Half()], t.cos[i], t.sin[i])
    requires y == TurnY(now[off + i], now[off + i + t.Half()], t.cos[i], t.sin[i])
    ensures TurnedUpTo(before, now[off + i := x][off + i + t.Half() := y], off, t, i + 1)
  {
    hide TurnX, TurnY;
    var next := now[off + i := x][off + i + t.Half() := y];
    assert now[off + i] == before[off + i] && now[off + i + t.Half()] == before[off + i + t.Half()];
    forall k | 0 <= k < |next| ensures next[k] == TurnedAt(before, off, t, i + 1, k) {
      assert now[k] == TurnedAt(before, off, t, i, k);
    }
  }

  lemma TurnedIsRotated(before: seq<real>, now: seq<real>, off: nat, t: Table)
    requires t.Valid() && off + 2 * t.Half() <= |before| && TurnedUpTo(before, now, off, t, t.Half())
    ensures now == Patched(before, off, t)
  {
    hide TurnX, TurnY, Rotated;
    var w := 2 * t.Half();
    var v := before[off..off + w];
    forall k | 0 <= k < |now| ensures now[k] == Patched(before, off, t)[k] {
      if off <= k < off + w { assert Rotated(v, t)[k - off] == RotatedAt(v, t, k - off); }
    }
  }

  /** `apply_rope_heads_precomputed` on the slice of `vec` that starts at `off`: four pairs at a time, then the rest one by
      one. The result is the plain per-pair rotation. */
  method RotateHead(vec: array<real>, off: nat, t: Table)
    requires t.Valid() && off + 2 * t.Half() <= vec.Length
    modifies vec
    ensures vec[..] == Patched(old(vec[..]), off, t)
  {
    hide TurnX, TurnY, TurnedUpTo, Rotated;
    ghost var before := vec[..];
    var half := t.Half();
    var chunks := half / 4;
    NothingTurned(before, off, t);
    for c := 0 to chunks
      invariant TurnedUpTo(before, vec[..], off, t, c * 4)
    {
      FourPairs(vec, off, t, c * 4, before);
    }
    for i := chunks * 4 to half
      invariant TurnedUpTo(before, vec[..], off, t, i)
    {
      OnePair(vec, off, t, i, before);
    }
    TurnedIsRotated(before, vec[..], off, t);
  }

  lemma NothingTurned(before: seq<real>, off: nat, t: Table)
    requires t.Valid() && off + 2 * t.Half() <= |before|
    ensures TurnedUpTo(before, before, off, t, 0)
  {
  }

  method OnePair(vec: array<real>, off: nat, t: Table, i: nat, ghost before: seq<real>)
    requires t.Valid() && off + 2 * t.Half() <= vec.Length == |before| && i < t.Half()
    requires TurnedUpTo(before, vec[..], off, t, i)
    modifies vec
    ensures TurnedUpTo(before, vec[..], off, t, i + 1)
  {
    hide TurnedUpTo, TurnX, TurnY;
    var c, s := t.cos[i], t.sin[i];
    var x0, x1 := vec[off + i], vec[off + i + t.Half()];
    ghost var now := vec[..];
    vec[off + i] := TurnX(x0, x1, c, s);
    vec[off + i + t.Half()] := TurnY(x0, x1, c, s);
    TurnedStep(before, now, off, t, i, TurnX(x0, x1, c, s), TurnY(x0, x1, c, s));
    assert vec[..] == now[off + i := TurnX(x0, x1, c, s)][off + i + t.Half() := TurnY(x0, x1, c, s)];
  }

  /** The unrolled body: all eight loads come before the eight stores. */
  method FourPairs(vec: array<real>, off: nat, t: Table, i: nat, ghost before: seq<real>)
    requires t.Valid() && off + 2 * t.Half() <= vec.Length == |before| && i + 4 <= t.Half()
    requires TurnedUpTo(before, vec[..], off, t, i)
    modifies vec
    ensures TurnedUpTo(before, vec[..], off, t, i + 4)
  {
    hide TurnedUpTo, TurnX, TurnY;
    var half := t.Half();
    var a := off + i;
    var c0, s0, c1, s1 := t.cos[i], t.sin[i], t.cos[i + 1], t.sin[i + 1];
    var c2, s2, c3, s3 := t.cos[i + 2], t.sin[i + 2], t.cos[i + 3], t.sin[i + 3];
    var x0, y0, x1, y1 := vec[a], vec[a + half], vec[a + 1], vec[a + 1 + half];
    var x2, y2, x3, y3 := vec[a + 2], vec[a + 2 + half], vec[a + 3], vec[a + 3 + half];
    ghost var n0 := vec[..];
    vec[a] := TurnX(x0, y0, c0, s0);
    vec[a + half] := TurnY(x0, y0, c0, s0);
    vec[a + 1] := TurnX(x1, y1, c1, s1);
    vec[a + 1 + half] := TurnY(x1, y1, c1, s1);
    vec[a + 2] := TurnX(x2, y2, c2, s2);
    vec[a + 2 + half] := TurnY(x2, y2, c2, s2);
    vec[a + 3] := TurnX(x3, y3, c3, s3);
    vec[a + 3 + half] := TurnY(x3, y3, c3, s3);
    ghost var n1 := n0[a := TurnX(x0, y0, c0, s0)][a + half := TurnY(x0, y0, c0, s0)];
    ghost var n2 := n1[a + 1 := TurnX(x1, y1, c1, s1)][a + 1 + half := TurnY(x1, y1, c1, s1)];
    ghost var n3 := n2[a + 2 := TurnX(x2, y2, c2, s2)][a + 2 + half := TurnY(x2, y2, c2, s2)];
    ghost var n4 := n3[a + 3 := TurnX(x3, y3, c3, s3)][a + 3 + half := TurnY(x3, y3, c3, s3)];
    assert vec[..] == n4;
    TurnedStep(before, n0, off, t, i, TurnX(x0, y0, c0, s0), TurnY(x0, y0, c0, s0));
    TurnedStep(before, n1, off, t, i + 1, TurnX(x1, y1, c1, s1), TurnY(x1, y1, c1, s1));
    TurnedStep(before, n2, off, t, i + 2, TurnX(x2, y2, c2, s2), TurnY(x2, y2, c2, s2));
    TurnedStep(before, n3, off, t, i + 3, TurnX(x3, y3, c3, s3), TurnY(x3, y3, c3, s3));
  }

  /** Entry `k` when the pairs below `i` of the slice are turned back. */
  function UnturnedAt(before: seq<real>, off: nat, t: Table, i: nat, k: nat): real
    requires t.Valid() && off + 2 * t.Half() <= |before| && i <= t.Half() && k < |before|
  {
    var half := t.Half();
    if off <= k < off + i then BackX(before[k], before[k + half], t.cos[k - off], t.sin[k - off])
    else if off + half <= k < off + half + i then
      BackY(before[k - half], before[k], t.cos[k - half - off], t.sin[k - half - off])
    else before[k]
  }

  ghost predicate UnturnedUpTo(before: seq<real>, now: seq<real>, off: nat, t: Table, i: nat)
    requires t.Valid() && off + 2 * t.Half() <= |before|
  {
    && i <= t.Half() && |now| == |before|
    && forall k :: 0 <= k < |now| ==> now[k] == UnturnedAt(before, off, t, i, k)
  }

  lemma NothingUnturned(before: seq<real>, off: nat, t: Table)
    requires t.Valid() && off + 2 * t.Half() <= |before|
    ensures UnturnedUpTo(before, before, off, t, 0)
  {
  }

  lemma UnturnedStep(before: seq<real>, now: seq<real>, off: nat, t: Table, i: nat, x: real, y: real)
    requires t.Valid() && off + 2 * t.Half() <= |before| == |now| && UnturnedUpTo(before, now, off, t, i) && i < t.Half()
    requires x == BackX(now[off + i], now[off + i + t.Half()], t.cos[i], t.sin[i])
    requires y == BackY(now[off + i], now[off + i + t.Half()], t.cos[i], t.sin[i])
    ensures UnturnedUpTo(before, now[off + i := x][off + i + t.Half() := y], off, t, i + 1)
  {
    hide BackX, BackY;
    var next := now[off + i := x][off + i + t.Half() := y];
    assert now[off + i] == before[off + i] && now[off + i + t.Half()] == before[off + i + t.Half()];
    forall k | 0 <= k < |next| ensures next[k] == UnturnedAt(before, off, t, i + 1, k) {
      assert now[k] == UnturnedAt(before, off, t, i, k);
    }
  }

  lemma UnturnedIsUnrotated(before: seq<real>, now: seq<real>, off: nat, t: Table)
    requires t.Valid() && off + 2 * t.Half() <= |before| && UnturnedUpTo(before, now, off, t, t.Half())
    ensures now == PatchedBack(before, off, t)
  {
    hide BackX, BackY, Unrotated;
    var w := 2 * t.Half();
    var v := before[off..off + w];
    forall k | 0 <= k < |now| ensures now[k] == PatchedBack(before, off, t)[k] {
      if off <= k < off + w { assert Unrotated(v, t)[k - off] == UnrotatedAt(v, t, k - off); }
    }
  }

  /** `apply_inverse_rope_heads_precomputed` on the slice of `vec` that starts at `off`. */
  method UnrotateHead(vec: array<real>, off: nat, t: Table)
    requires t.Valid() && off + 2 * t.Half() <= vec.Length
    modifies vec
    ensures vec[..] == PatchedBack(old(vec[..]), off, t)
  {
    hide BackX, BackY, UnturnedUpTo, Unrotated;
    ghost var before := vec[..];
    var half := t.Half();
    NothingUnturned(before, off, t);
    for i := 0 to half
      invariant UnturnedUpTo(before, vec[..], off, t, i)
    {
      ghost var now := vec[..];
      var x0, x1 := vec[off + i], vec[off + i + half];
      vec[off + i] := BackX(x0, x1, t.cos[i], t.sin[i]);
      vec[off + i + half] := BackY(x0, x1, t.cos[i], t.sin[i]);
      UnturnedStep(before, now, off, t, i, BackX(x0, x1, t.cos[i], t.sin[i]), BackY(x0, x1, t.cos[i], t.sin[i]));
      assert vec[..] == now[off + i := vec[off + i]][off + i + half := vec[off + i + half]];
    }
    UnturnedIsUnrotated(before, vec[..], off, t);
  }

  // ---- all heads, part of each ----

  /** Entry `k` of head `h` after rotating the first `2 * half` entries of every head. */
  function PartialAt(v: seq<real>, headDim: nat, t: Table, h: nat, k: nat): real
    requires t.Valid() && 2 * t.Half() <= headDim && k < headDim && h * headDim + headDim <= |v|
  {
    var head := v[h * headDim..h * headDim + headDim];
    if k < 2 * t.Half() then Rotated(head[..2 * t.Half()], t)[k] else head[k]
  }

  /** The heads below `h` are rotated on their first entries; the rest of those heads, the later heads and whatever
      follows the last whole head are as before. */
  ghost predicate HeadsDone(before: seq<real>, now: seq<real>, headDim: nat, t: Table, h: nat)
    requires t.Valid() && 2 * t.Half() <= headDim
  {
    && |now| == |before| && h * headDim <= |before|
    && (forall g, k :: 0 <= g < h && 0 <= k < headDim ==> HeadEntry(before, now, headDim, t, g, k))
    && (forall i :: h * headDim <= i < |now| ==> now[i] == before[i])
  }

  ghost predicate HeadEntry(before: seq<real>, now: seq<real>, headDim: nat, t: Table, g: nat, k: nat)
    requires t.Valid() && 2 * t.Half() <= headDim && k < headDim && |now| == |before|
  {
    g * headDim + headDim <= |before| && now[g * headDim + k] == PartialAt(before, headDim, t, g, k)
  }

  lemma HeadsStep(before: seq<real>, now: seq<real>, next: seq<real>, headDim: nat, t: Table, h: nat)
    requires t.Valid() && 2 * t.Half() <= headDim && HeadsDone(before, now, headDim, t, h) && h * headDim + headDim <= |before|
    requires next == Patched(now, h * headDim, t)
    ensures HeadsDone(before, next, headDim, t, h + 1)
  {
    hide Rotated, PartialAt;
    var off, w := h * headDim, 2 * t.Half();
    assert (h + 1) * headDim == off + headDim;
    assert |next| == |before|;
    forall g, k | 0 <= g < h + 1 && 0 <= k < headDim ensures HeadEntry(before, next, headDim, t, g, k) {
      if g < h {
        assert HeadEntry(before, now, headDim, t, g, k);
        RowEnd(g, h, headDim);
        assert next[g * headDim + k] == now[g * headDim + k];
      } else {
        FreshHead(before, now, next, headDim, t, h, k);
      }
    }
    forall i | off + headDim <= i < |next| ensures next[i] == before[i] {
      assert next[i] == now[i];
    }
  }

  lemma FreshHead(before: seq<real>, now: seq<real>, next: seq<real>, headDim: nat, t: Table, h: nat, k: nat)
    requires t.Valid() && 2 * t.Half() <= headDim && HeadsDone(before, now, headDim, t, h) && h * headDim + headDim <= |before|
    requires next == Patched(now, h * headDim, t) && k < headDim
    ensures HeadEntry(before, next, headDim, t, h, k)
  {
    hide Rotated;
    var off, w := h * headDim, 2 * t.Half();
    var head := before[off..off + headDim];
    assert now[off..off + w] == head[..w];
    if k < w {
      assert next[off + k] == Rotated(head[..w], t)[k];
    } else {
      assert next[off + k] == now[off + k] == before[off + k];
    }
  }

  function Angle(pos: nat, f: real): real { pos as real * f }

  /** Cosines and sines of one position, from the frequency table. The two functions stand for the floating-point ones. */
  function TableAt(pos: nat, freq: seq<real>, half: nat, cosOf: real -> real, sinOf: real -> real): (t: Table)
    requires half <= |freq|
    ensures t.Valid() && t.Half() == half
  {
    Table(seq(half, i requires 0 <= i < half => cosOf(Angle(pos, freq[i]))),
          seq(half, i requires 0 <= i < half => sinOf(Angle(pos, freq[i]))))
  }

  /** What the finished heads hold, entry by entry: the pairs `(i, i + half)` of every head are turned, and the entries
      behind the rotary part are as they were. */
  lemma HeadTurned(before: seq<real>, now: seq<real>, headDim: nat, t: Table, heads: nat, h: nat, i: nat)
    requires t.Valid() && 2 * t.Half() <= headDim && h < heads && HeadsDone(before, now, headDim, t, heads)
    ensures h * headDim + headDim <= |before| == |now|
    ensures i < t.Half() ==>
              var a, b := h * headDim + i, h * headDim + (i + t.Half());
              && now[a] == before[a] * t.cos[i] - before[b] * t.sin[i]
              && now[b] == before[a] * t.sin[i] + before[b] * t.cos[i]
    ensures 2 * t.Half() <= i < headDim ==> now[h * headDim + i] == before[h * headDim + i]
  {
    hide Rotated, HeadsDone, PartialAt, HeadEntry;
    var off := h * headDim;
    DoneParts(before, now, headDim, t, heads, h);
    if i < t.Half() {
      var w := before[off..off + headDim][..2 * t.Half()];
      EntryIs(before, now, headDim, t, h, i);
      EntryIs(before, now, headDim, t, h, i + t.Half());
      PairRotated(w, t, i);
      assert w[i] == before[off + i] && w[i + t.Half()] == before[off + (i + t.Half())];
    } else if i < headDim {
      EntryIs(before, now, headDim, t, h, i);
    }
  }

  lemma TableEntry(pos: nat, freq: seq<real>, half: nat, cosOf: real -> real, sinOf: real -> real, i: nat)
    requires i < half <= |freq|
    ensures var t, angle := TableAt(pos, freq, half, cosOf, sinOf), pos as real * freq[i];
            t.cos[i] == cosOf(angle) && t.sin[i] == sinOf(angle)
  {
    assert Angle(pos, freq[i]) == pos as real * freq[i];
  }

  /** The angle of pair `i` at a position is the position times frequency `i`. */
  lemma PositionTurned(before: seq<real>, now: seq<real>, headDim: nat, pos: nat, freq: seq<real>, half: nat,
                       cosOf: real -> real, sinOf: real -> real, heads: nat, h: nat, i: nat)
    requires 2 * half <= headDim && half <= |freq| && h < heads && i < half
    requires HeadsDone(before, now, headDim, TableAt(pos, freq, half, cosOf, sinOf), heads)
    ensures h * headDim + headDim <= |before| == |now|
    ensures var a, b, angle := h * headDim + i, h * headDim + (i + half), pos as real * freq[i];
            && now[a] == before[a] * cosOf(angle) - before[b] * sinOf(angle)
            && now[b] == before[a] * sinOf(angle) + before[b] * cosOf(angle)
  {
    hide HeadsDone, TableAt;
    var t := TableAt(pos, freq, half, cosOf, sinOf);
    TableEntry(pos, freq, half, cosOf, sinOf, i);
    HeadTurned(before, now, headDim, t, heads, h, i);
  }

  lemma DoneParts(before: seq<real>, now: seq<real>, headDim: nat, t: Table, heads: nat, h: nat)
    requires t.Valid() && 2 * t.Half() <= headDim && HeadsDone(before, now, headDim, t, heads) && h < heads
    ensures h * headDim + headDim <= |before| == |now|
    ensures forall k :: 0 <= k < headDim ==> HeadEntry(before, now, headDim, t, h, k)
  {
    RowEnd(h, heads, headDim);
  }

  lemma EntryIs(before: seq<real>, now: seq<real>, headDim: nat, t: Table, h: nat, k: nat)
    requires t.Valid() && 2 * t.Half() <= headDim && k < headDim && |now| == |before| && h * headDim + headDim <= |before|
    requires HeadEntry(before, now, headDim, t, h, k)
    ensures var head := before[h * headDim..h * headDim + headDim];
            now[h * headDim + k] == if k < 2 * t.Half() then Rotated(head[..2 * t.Half()], t)[k] else before[h * headDim + k]
  {
    hide Rotated;
  }

  /** Cosine and sine as far as rotations need them: the addition formulas and the unit circle. */
  ghost predicate Circular(cosOf: real -> real, sinOf: real -> real) {
    (forall x, y :: AddsAt(cosOf, sinOf, x, y)) && forall x :: Norm(cosOf(x), sinOf(x)) == 1.0
  }

  ghost predicate AddsAt(cosOf: real -> real, sinOf: real -> real, x: real, y: real) {
    && cosOf(x + y) == cosOf(x) * cosOf(y) - sinOf(x) * sinOf(y)
    && sinOf(x + y) == sinOf(x) * cosOf(y) + cosOf(x) * sinOf(y)
  }

  lemma AnglesAdd(m: nat, d: nat, f: real, cosOf: real -> real, sinOf: real -> real)
    requires Circular(cosOf, sinOf)
    ensures var x, y, z := Angle(m, f), Angle(d, f), Angle(m + d, f);
            && cosOf(z) == CosSum(cosOf(x), sinOf(x), cosOf(y), sinOf(y))
            && sinOf(z) == SinSum(cosOf(x), sinOf(x), cosOf(y), sinOf(y))
  {
    var x, y := Angle(m, f), Angle(d, f);
    assert Angle(m + d, f) == x + y;
    assert AddsAt(cosOf, sinOf, x, y);
  }

  /** Rotating for position `m` and then for `d` rotates for position `m + d`. */
  lemma PositionsAdd(v: seq<real>, m: nat, d: nat, freq: seq<real>, half: nat, cosOf: real -> real, sinOf: real -> real)
    requires Circular(cosOf, sinOf) && half <= |freq| && |v| == 2 * half
    ensures Rotated(Rotated(v, TableAt(m, freq, half, cosOf, sinOf)), TableAt(d, freq, half, cosOf, sinOf)) ==
            Rotated(v, TableAt(m + d, freq, half, cosOf, sinOf))
  {
    hide CosSum, SinSum, Norm, Rotated, Circular, Angle;
    var a, b, c := TableAt(m, freq, half, cosOf, sinOf), TableAt(d, freq, half, cosOf, sinOf), TableAt(m + d, freq, half, cosOf, sinOf);
    RotatedTwice(v, a, b);
    forall i | 0 <= i < half ensures Composed(a, b).cos[i] == c.cos[i] && Composed(a, b).sin[i] == c.sin[i] {
      AnglesAdd(m, d, freq[i], cosOf, sinOf);
    }
    assert Composed(a, b) == c;
  }

  /** What rotary embeddings are for: the product of a query at position `m + d` and a key at position `n + d` does not
      depend on `d`. */
  lemma OnlyDistanceMatters(q: seq<real>, k: seq<real>, m: nat, n: nat, d: nat, freq: seq<real>, half: nat,
                            cosOf: real -> real, sinOf: real -> real)
    requires Circular(cosOf, sinOf) && half <= |freq| && |q| == |k| == 2 * half
    ensures Dot(Rotated(q, TableAt(m + d, freq, half, cosOf, sinOf)), Rotated(k, TableAt(n + d, freq, half, cosOf, sinOf)), half, half) ==
            Dot(Rotated(q, TableAt(m, freq, half, cosOf, sinOf)), Rotated(k, TableAt(n, freq, half, cosOf, sinOf)), half, half)
  {
    hide CosSum, SinSum, Norm, Rotated, Dot;
    PositionsAdd(q, m, d, freq, half, cosOf, sinOf);
    PositionsAdd(k, n, d, freq, half, cosOf, sinOf);
    var a, b := Rotated(q, TableAt(m, freq, half, cosOf, sinOf)), Rotated(k, TableAt(n, freq, half, cosOf, sinOf));
    DotKept(a, b, TableAt(d, freq, half, cosOf, sinOf), half);
  }

  lemma NoHeads(before: seq<real>, headDim: nat, t: Table)
    requires t.Valid() && 2 * t.Half() <= headDim
    ensures HeadsDone(before, before, headDim, t, 0)
  {
  }

  lemma HeadFits(h: nat, len: nat, headDim: nat)
    requires headDim > 0 && h < len / headDim
    ensures h * headDim + headDim <= len
  {
    RowEnd(h, len / headDim, headDim);
    assert len / headDim * headDim <= len;
  }

  method RotateHeads(vec: array<real>, headDim: nat, t: Table)
    requires t.Valid() && 2 * t.Half() <= headDim && headDim > 0
    modifies vec
    ensures HeadsDone(old(vec[..]), vec[..], headDim, t, vec.Length / headDim)
  {
    hide Rotated, HeadsDone, Patched;
    ghost var before := vec[..];
    NoHeads(before, headDim, t);
    for h := 0 to vec.Length / headDim
      invariant HeadsDone(before, vec[..], headDim, t, h)
    {
      ghost var now := vec[..];
      HeadFits(h, vec.Length, headDim);
      RotateHead(vec, h * headDim, t);
      HeadsStep(before, now, vec[..], headDim, t, h);
    }
  }

  /** `apply_partial_rope_with_freq`: every head of both vectors has its first `rotaryDim` entries rotated by the position's
      table and its tail left alone; position zero and an empty rotary part change nothing. */
  method ApplyPartialRope(q: array<real>, k: array<real>, pos: nat, headDim: nat, rotaryDim: nat, freq: seq<real>,
                          cosOf: real -> real, sinOf: real -> real)
    requires rotaryDim <= headDim && rotaryDim % 2 == 0 && rotaryDim / 2 <= |freq| && q != k
    modifies q, k
    ensures pos == 0 || rotaryDim == 0 ==> q[..] == old(q[..]) && k[..] == old(k[..])
    ensures pos != 0 && rotaryDim != 0 ==>
              var t := TableAt(pos, freq, rotaryDim / 2, cosOf, sinOf);
              && HeadsDone(old(q[..]), q[..], headDim, t, q.Length / headDim)
              && HeadsDone(old(k[..]), k[..], headDim, t, k.Length / headDim)
  {
    if pos == 0 || rotaryDim == 0 {
      return;
    }
    hide HeadsDone, Rotated;
    var t := TableAt(pos, freq, rotaryDim / 2, cosOf, sinOf);
    RotateHeads(q, headDim, t);
    RotateHeads(k, headDim, t);
  }

  /** The early return at position zero is what the rotation would have done, as cosine and sine of zero are one and zero. */
  lemma PositionZero(v: seq<real>, freq: seq<real>, half: nat, cosOf: real -> real, sinOf: real -> real)
    requires half <= |freq| && |v| == 2 * half && cosOf(0.0) == 1.0 && sinOf(0.0) == 0.0
    ensures Rotated(v, TableAt(0, freq, half, cosOf, sinOf)) == v
  {
    var r := Rotated(v, TableAt(0, freq, half, cosOf, sinOf));
    forall i | 0 <= i < |v| ensures r[i] == v[i] {
      var j := if i < half then i else i - half;
      assert Angle(0, freq[j]) == 0.0;
    }
  }

  // ---- the rows the rotation relies on ----

  /** Row `s * half + j` of head `h`, the rotate-half order. */
  function HalfRow(h: nat, s: nat, j: nat, half: nat): nat { h * (2 * half) + (s * half + j) }

  /** Row `2 * j + s` of head `h`, the interleaved order. */
  function PairRow(h: nat, s: nat, j: nat, half: nat): nat { h * (2 * half) + (2 * j + s) }

  /** A place within the heads: head, half and pair. */
  ghost predicate Place(heads: nat, half: nat, h: nat, s: nat, j: nat) {
    h < heads && s < 2 && j < half
  }

  lemma RowsDiffer(heads: nat, half: nat, h: nat, s: nat, j: nat, g: nat, r: nat, i: nat)
    requires Place(heads, half, h, s, j) && Place(heads, half, g, r, i)
    ensures HalfRow(h, s, j, half) < heads * (2 * half) && PairRow(h, s, j, half) < heads * (2 * half)
    ensures HalfRow(h, s, j, half) == HalfRow(g, r, i, half) <==> (h, s, j) == (g, r, i)
    ensures PairRow(h, s, j, half) == PairRow(g, r, i, half) <==> (h, s, j) == (g, r, i)
  {
    RowEnd(h, heads, 2 * half);
    if h < g {
      RowEnd(h, g, 2 * half);
    } else if g < h {
      RowEnd(g, h, 2 * half);
    }
  }

  /** Quotient and remainder of a row index. */
  lemma RowParts(row: nat, rows: nat, size: nat) returns (h: nat, i: nat)
    requires row < rows * size
    ensures h < rows && i < size && row == h * size + i && h == row / size && i == row % size
  {
    h, i := row / size, row % size;
    assert row == h * size + i;
    if rows <= h { LargerRow(rows, h, size, row); }
  }

  lemma LargerRow(rows: nat, h: nat, size: nat, row: nat)
    requires rows <= h
    ensures rows * size <= h * size
  {
    if rows < h { RowEnd(rows, h, size); }
  }

  /** Every row is the row of one place, in either order. */
  lemma HalfPlace(heads: nat, half: nat, row: nat) returns (h: nat, s: nat, j: nat)
    requires row < heads * (2 * half)
    ensures Place(heads, half, h, s, j) && HalfRow(h, s, j, half) == row
  {
    var i;
    h, i := RowParts(row, heads, 2 * half);
    s, j := if i < half then 0 else 1, if i < half then i else i - half;
  }

  lemma PairPlace(heads: nat, half: nat, row: nat) returns (h: nat, s: nat, j: nat)
    requires row < heads * (2 * half)
    ensures Place(heads, half, h, s, j) && PairRow(h, s, j, half) == row
  {
    var i;
    h, i := RowParts(row, heads, 2 * half);
    s, j := i % 2, i / 2;
  }

  /** Row `to` of `out` is row `from` of `w`. */
  ghost predicate RowCopied<T>(w: seq<T>, out: seq<T>, width: nat, from: nat, to: nat) {
    && from * width + width <= |w| && to * width + width <= |out|
    && out[to * width..to * width + width] == w[from * width..from * width + width]
  }

  /** `out` holds, in rotate-half order, what `w` holds in interleaved order. */
  ghost predicate Unpermuted<T>(w: seq<T>, out: seq<T>, heads: nat, half: nat, width: nat) {
    && |w| == |out| == heads * (2 * half) * width
    && forall h, s, j :: Place(heads, half, h, s, j) ==>
         RowCopied(w, out, width, PairRow(h, s, j, half), HalfRow(h, s, j, half))
  }

  /** The converter's order: the other way round. */
  ghost predicate Permuted<T>(w: seq<T>, out: seq<T>, heads: nat, half: nat, width: nat) {
    && |w| == |out| == heads * (2 * half) * width
    && forall h, s, j :: Place(heads, half, h, s, j) ==>
         RowCopied(w, out, width, HalfRow(h, s, j, half), PairRow(h, s, j, half))
  }

  lemma RowInside(row: nat, rows: nat, width: nat)
    requires row < rows
    ensures row * width + width <= rows * width
  {
    RowEnd(row, rows, width);
  }

  /** Equal rows make equal matrices. */
  lemma SameRows<T>(a: seq<T>, b: seq<T>, rows: nat, width: nat)
    requires |a| == |b| == rows * width
    requires forall r :: 0 <= r < rows ==> RowCopied(a, b, width, r, r)
    ensures a == b
  {
    forall i | 0 <= i < |a| ensures a[i] == b[i] {
      var r, c := RowParts(i, rows, width);
      assert RowCopied(a, b, width, r, r);
      SameEntry(a, b, r * width, width, c);
    }
  }

  lemma SameEntry<T>(a: seq<T>, b: seq<T>, lo: nat, width: nat, c: nat)
    requires c < width && lo + width <= |a| && lo + width <= |b| && b[lo..lo + width] == a[lo..lo + width]
    ensures a[lo + c] == b[lo + c]
  {
    assert a[lo + c] == a[lo..lo + width][c] && b[lo + c] == b[lo..lo + width][c];
  }

  /** Undoing the converter's permutation and redoing it are inverse, for every head count, head size and width. */
  lemma UnpermuteInverts<T>(w: seq<T>, p: seq<T>, u: seq<T>, heads: nat, half: nat, width: nat)
    requires (Permuted(w, p, heads, half, width) && Unpermuted(p, u, heads, half, width)) ||
             (Unpermuted(w, p, heads, half, width) && Permuted(p, u, heads, half, width))
    ensures u == w
  {
    hide HalfRow, PairRow, RowCopied;
    var rows := heads * (2 * half);
    forall r | 0 <= r < rows ensures RowCopied(w, u, width, r, r) {
      if Permuted(w, p, heads, half, width) && Unpermuted(p, u, heads, half, width) {
        var h, s, j := HalfPlace(heads, half, r);
        CopiedTwice(w, p, u, width, r, PairRow(h, s, j, half));
      } else {
        var h, s, j := PairPlace(heads, half, r);
        CopiedTwice(w, p, u, width, r, HalfRow(h, s, j, half));
      }
    }
    SameRows(w, u, rows, width);
  }

  lemma CopiedTwice<T>(w: seq<T>, p: seq<T>, u: seq<T>, width: nat, r: nat, via: nat)
    requires RowCopied(w, p, width, r, via) && RowCopied(p, u, width, via, r)
    ensures RowCopied(w, u, width, r, r)
  {
  }

  /** Entry by entry: row `s * half + j` of a head is row `2 * j + s` of what came in, and the other way round for the
      converter's order. */
  lemma RowsMoved<T>(w: seq<T>, out: seq<T>, heads: nat, headDim: nat, width: nat, h: nat, s: nat, j: nat, c: nat)
    requires headDim % 2 == 0 && h < heads && s < 2 && j < headDim / 2 && c < width
    requires |w| == |out| == heads * headDim * width
    ensures var to, from := (h * headDim + s * (headDim / 2) + j) * width + c, (h * headDim + 2 * j + s) * width + c;
            && 0 <= to < |out| && 0 <= from < |out|
            && (Unpermuted(w, out, heads, headDim / 2, width) ==> out[to] == w[from])
            && (Permuted(w, out, heads, headDim / 2, width) ==> out[from] == w[to])
  {
    hide Unpermuted, Permuted, RowCopied;
    var half := headDim / 2;
    assert headDim == 2 * half;
    var to, from := HalfRow(h, s, j, half), PairRow(h, s, j, half);
    RowsDiffer(heads, half, h, s, j, h, s, j);
    RowInside(to, heads * (2 * half), width);
    RowInside(from, heads * (2 * half), width);
    if Unpermuted(w, out, heads, half, width) { MovedEntry(w, out, heads, half, width, h, s, j, c); }
    if Permuted(w, out, heads, half, width) { MovedEntry(out, w, heads, half, width, h, s, j, c); }
  }

  lemma MovedEntry<T>(w: seq<T>, out: seq<T>, heads: nat, half: nat, width: nat, h: nat, s: nat, j: nat, c: nat)
    requires Place(heads, half, h, s, j) && c < width && (Unpermuted(w, out, heads, half, width) || Permuted(out, w, heads, half, width))
    ensures var to, from := HalfRow(h, s, j, half) * width + c, PairRow(h, s, j, half) * width + c;
            to < |out| && from < |w| && out[to] == w[from]
  {
    hide HalfRow, PairRow;
    var to, from := HalfRow(h, s, j, half), PairRow(h, s, j, half);
    assert RowCopied(w, out, width, from, to) || RowCopied(out, w, width, to, from);
    assert out[to * width..to * width + width][c] == w[from * width..from * width + width][c];
  }

  /** The places whose rows have been copied when the loops stand at `(h, j, s)`. */
  ghost predicate Past(h: nat, j: nat, s: nat, g: nat, i: nat, r: nat) {
    g < h || (g == h && (i < j || (i == j && r < s)))
  }

  ghost predicate CopiedSoFar<T>(w: seq<T>, out: seq<T>, heads: nat, half: nat, width: nat, h: nat, j: nat, s: nat) {
    && |w| == |out| == heads * (2 * half) * width
    && forall g, r, i :: Place(heads, half, g, r, i) && Past(h, j, s, g, i, r) ==>
         RowCopied(w, out, width, PairRow(g, r, i, half), HalfRow(g, r, i, half))
  }

  lemma CopyStep<T>(w: seq<T>, out: seq<T>, next: seq<T>, heads: nat, half: nat, width: nat, h: nat, j: nat, s: nat)
    requires Place(heads, half, h, s, j) && CopiedSoFar(w, out, heads, half, width, h, j, s)
    requires var src, dst := PairRow(h, s, j, half) * width, HalfRow(h, s, j, half) * width;
             src + width <= |w| && dst + width <= |out| &&
             next == out[..dst] + w[src..src + width] + out[dst + width..]
    ensures CopiedSoFar(w, next, heads, half, width, h, j, s + 1)
  {
    hide HalfRow, PairRow;
    var dst := HalfRow(h, s, j, half);
    assert next[dst * width..dst * width + width] == w[PairRow(h, s, j, half) * width..PairRow(h, s, j, half) * width + width];
    forall g: nat, r: nat, i: nat | Place(heads, half, g, r, i) && Past(h, j, s + 1, g, i, r)
      ensures RowCopied(w, next, width, PairRow(g, r, i, half), HalfRow(g, r, i, half))
    {
      if (g, r, i) != (h, s, j) {
        RowsDiffer(heads, half, h, s, j, g, r, i);
        OtherRow(w, out, next, width, PairRow(g, r, i, half), HalfRow(g, r, i, half), dst);
      }
    }
  }

  lemma OtherRow<T>(w: seq<T>, out: seq<T>, next: seq<T>, width: nat, from: nat, to: nat, dst: nat)
    requires RowCopied(w, out, width, from, to) && to != dst && |next| == |out| && dst * width + width <= |out|
    requires next[..dst * width] == out[..dst * width] && next[dst * width + width..] == out[dst * width + width..]
    ensures RowCopied(w, next, width, from, to)
  {
    if to < dst {
      RowEnd(to, dst, width);
      assert next[to * width..to * width + width] == next[..dst * width][to * width..to * width + width];
      assert out[to * width..to * width + width] == out[..dst * width][to * width..to * width + width];
    } else {
      RowEnd(dst, to, width);
      var d := dst * width + width;
      assert next[to * width..to * width + width] == next[d..][to * width - d..to * width - d + width];
      assert out[to * width..to * width + width] == out[d..][to * width - d..to * width - d + width];
    }
  }

  method CopyRow<T>(w: seq<T>, out: array<T>, src: nat, dst: nat, width: nat)
    requires src + width <= |w| && dst + width <= out.Length
    modifies out
    ensures out[..] == old(out[..dst]) + w[src..src + width] + old(out[dst + width..])
  {
    for c := 0 to width
      invariant forall k :: dst <= k < dst + c ==> out[k] == w[src + (k - dst)]
      invariant forall k :: 0 <= k < out.Length && !(dst <= k < dst + c) ==> out[k] == old(out[k])
    {
      out[dst + c] := w[src + c];
    }
  }

  /** `unpermute_interleaved_rows`: the result holds the rows in rotate-half order. The shape assertion is the caller's. */
  method UnpermuteInterleavedRows<T(0)>(w: seq<T>, heads: nat, headDim: nat) returns (out: array<T>)
    requires headDim % 2 == 0 && heads * headDim > 0 && |w| % (heads * headDim) == 0
    ensures fresh(out)
    ensures Unpermuted(w, out[..], heads, headDim / 2, |w| / (heads * headDim))
  {
    hide HalfRow, PairRow, CopiedSoFar;
    var rows := heads * headDim;
    var width := |w| / rows;
    var half := headDim / 2;
    out := new T[|w|];
    WholeRows(|w|, rows, width, heads, half);
    NoneCopied(w, out[..], heads, half, width);
    for h := 0 to heads
      invariant CopiedSoFar(w, out[..], heads, half, width, h, 0, 0)
    {
      for j := 0 to half
        invariant CopiedSoFar(w, out[..], heads, half, width, h, j, 0)
      {
        for s := 0 to 2
          invariant CopiedSoFar(w, out[..], heads, half, width, h, j, s)
        {
          RowsDiffer(heads, half, h, s, j, h, s, j);
          RowInside(PairRow(h, s, j, half), heads * (2 * half), width);
          RowInside(HalfRow(h, s, j, half), heads * (2 * half), width);
          ghost var before := out[..];
          CopyRow(w, out, PairRow(h, s, j, half) * width, HalfRow(h, s, j, half) * width, width);
          CopyStep(w, before, out[..], heads, half, width, h, j, s);
        }
        NextPair(w, out[..], heads, half, width, h, j);
      }
      NextHead(w, out[..], heads, half, width, h);
    }
    AllCopied(w, out[..], heads, half, width);
  }

  lemma WholeRows(len: nat, rows: nat, width: nat, heads: nat, half: nat)
    requires rows > 0 && len % rows == 0 && width == len / rows && rows == heads * (2 * half)
    ensures len == heads * (2 * half) * width
  {
    assert len == width * rows;
  }

  lemma NoneCopied<T>(w: seq<T>, out: seq<T>, heads: nat, half: nat, width: nat)
    requires |w| == |out| == heads * (2 * half) * width
    ensures CopiedSoFar(w, out, heads, half, width, 0, 0, 0)
  {
  }

  lemma NextPair<T>(w: seq<T>, out: seq<T>, heads: nat, half: nat, width: nat, h: nat, j: nat)
    requires CopiedSoFar(w, out, heads, half, width, h, j, 2)
    ensures CopiedSoFar(w, out, heads, half, width, h, j + 1, 0)
  {
    hide HalfRow, PairRow, RowCopied;
  }

  lemma NextHead<T>(w: seq<T>, out: seq<T>, heads: nat, half: nat, width: nat, h: nat)
    requires CopiedSoFar(w, out, heads, half, width, h, half, 0)
    ensures CopiedSoFar(w, out, heads, half, width, h + 1, 0, 0)
  {
    hide HalfRow, PairRow, RowCopied;
  }

  lemma AllCopied<T>(w: seq<T>, out: seq<T>, heads: nat, half: nat, width: nat)
    requires CopiedSoFar(w, out, heads, half, width, heads, 0, 0)
    ensures Unpermuted(w, out, heads, half, width)
  {
    hide HalfRow, PairRow, RowCopied;
  }
}
