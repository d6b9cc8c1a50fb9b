/** The bf16 conversion of activation payloads, on bit patterns. */
module Bf16 {
  import opened Prelude

  type U32 = x: nat | x < 0x1_0000_0000
  type U16 = x: nat | x < 0x1_0000

  const SIGN: nat := 0x8000_0000
  const INFINITY: nat := 0x7f80_0000
  const QUIET: nat := 0x40_0000
  const HALF: nat := 0x1_0000

  predicate NaN(bits: U32) {
    bits % SIGN > INFINITY
  }

  /** Sets the quiet bit of a pattern. */
  function Quieted(bits: U32): (r: nat)
    ensures NaN(bits) ==> r < 0x1_0000_0000
  {
    if bits / QUIET % 2 == 1 then bits else bits + QUIET
  }

  /** `f32_to_bf16_rne`, the addition wrapping at 32 bits. */
  function Narrow(bits: U32): U16 {
    if NaN(bits) then Quieted(bits) / HALF
    else (bits + (0x7fff + bits / HALF % 2)) % 0x1_0000_0000 / HALF
  }

  /** `bf16_bits_to_f32` */
  function Widen(h: U16): U32 {
    h * HALF
  }

  // ---- what a magnitude pattern is worth ----

  /** One step between neighbouring patterns, in units of the smallest positive f32. */
  function Ulp(p: nat): (u: nat)
    ensures u > 0
  {
    if p / 0x80_0000 == 0 then 1 else Pow2(p / 0x80_0000 - 1)
  }

  /** The magnitude of a non-negative pattern in those units; past the largest finite pattern the exponent keeps growing,
      which is how IEEE 754-2019 section 4.3.1 decides overflow. */
  function Magnitude(p: nat): nat {
    if p / 0x80_0000 == 0 then p else (0x80_0000 + p % 0x80_0000) * Ulp(p)
  }

  lemma NextPattern(p: nat)
    ensures Magnitude(p + 1) == Magnitude(p) + Ulp(p)
  {
    var e := p / 0x80_0000;
    if (p + 1) / 0x80_0000 == e {
      assert (p + 1) % 0x80_0000 == p % 0x80_0000 + 1;
      if e > 0 { assert (0x80_0000 + p % 0x80_0000 + 1) * Ulp(p) == (0x80_0000 + p % 0x80_0000) * Ulp(p) + Ulp(p); }
    } else {
      assert (p + 1) / 0x80_0000 == e + 1 && (p + 1) % 0x80_0000 == 0 && p % 0x80_0000 == 0x7f_ffff;
      if e == 0 {
        assert Pow2(0) == 1;
      } else {
        assert Pow2(e) == 2 * Pow2(e - 1);
      }
    }
  }

  /** Magnitudes are strictly increasing in the pattern. */
  lemma {:induction false} Increasing(p: nat, q: nat)
    requires p < q
    ensures Magnitude(p) < Magnitude(q)
    decreases q - p
  {
    NextPattern(q - 1);
    if p < q - 1 { Increasing(p, q - 1); }
  }

  lemma SameUlp(b: nat, l: nat)
    requires l < HALF
    ensures Ulp(b * HALF + l) == Ulp(b * HALF)
  {
    assert (b * HALF + l) / 0x80_0000 == b * HALF / 0x80_0000;
  }

  function Steps(l: nat, u: nat): nat { l * u }

  lemma StepsMore(l: nat, u: nat)
    ensures Steps(0, u) == 0 && (l > 0 ==> Steps(l, u) == Steps(l - 1, u) + u)
  {
  }

  /** The patterns between two neighbouring bf16 patterns are equally spaced. */
  lemma {:induction false} EvenlySpaced(b: nat, l: nat)
    requires l <= HALF
    ensures Magnitude(b * HALF + l) == Magnitude(b * HALF) + Steps(l, Ulp(b * HALF))
    decreases l
  {
    hide Magnitude, Ulp, Steps;
    StepsMore(l, Ulp(b * HALF));
    if l > 0 {
      EvenlySpaced(b, l - 1);
      NextPattern(b * HALF + (l - 1));
      SameUlp(b, l - 1);
    }
  }

  function Distance(x: nat, y: nat): nat { if x < y then y - x else x - y }

  // ---- rounding ----

  /** The rounded upper half: up past the middle, and at the middle towards the even neighbour. */
  function Rounded(p: nat): nat {
    var b, l := p / HALF, p % HALF;
    if l > 0x8000 || (l == 0x8000 && b % 2 == 1) then b + 1 else b
  }

  /** The addition never wraps, the sign is kept, and the magnitude is rounded. */
  lemma NarrowRounds(bits: U32)
    requires !NaN(bits)
    ensures Narrow(bits) == bits / SIGN * 0x8000 + Rounded(bits % SIGN)
    ensures Rounded(bits % SIGN) <= 0x7f80
  {
    var s, p := bits / SIGN, bits % SIGN;
    var b, l := p / HALF, p % HALF;
    assert bits == s * SIGN + p && s <= 1;
    assert bits / HALF == s * 0x8000 + b;
    assert bits / HALF % 2 == b % 2;
    var sum := bits + (0x7fff + b % 2);
    assert sum == (s * 0x8000 + b) * HALF + (l + 0x7fff + b % 2);
    assert sum < 0x1_0000_0000;
  }

  /** Candidate `q` for the magnitude pattern `p` is no farther away than candidate `k`, and if both are equally far
      and differ then `q` is even. */
  ghost predicate Beats(p: nat, q: nat, k: nat) {
    var near, other := Distance(Magnitude(q * HALF), Magnitude(p)), Distance(Magnitude(k * HALF), Magnitude(p));
    near <= other && (near == other && k != q ==> q % 2 == 0)
  }

  /** Round to nearest, ties to even, measured in the represented values. */
  lemma RoundedNearest(p: nat, k: nat)
    ensures Beats(p, Rounded(p), k)
  {
    hide Magnitude, Ulp, Steps, Beats;
    var b, l := p / HALF, p % HALF;
    var u := Ulp(b * HALF);
    assert p == b * HALF + l;
    EvenlySpaced(b, l);
    EvenlySpaced(b, HALF);
    assert b * HALF + HALF == (b + 1) * HALF;
    Gaps(l, u);
    if k < b { Increasing(k * HALF, b * HALF); }
    if k > b + 1 { Increasing((b + 1) * HALF, k * HALF); }
    Decide(p, b, l, k, Magnitude(b * HALF), Magnitude((b + 1) * HALF), Magnitude(k * HALF), Steps(l, u), Steps(HALF - l, u));
  }

  lemma Decide(p: nat, b: nat, l: nat, k: nat, lower: nat, upper: nat, other: nat, x: nat, y: nat)
    requires b == p / HALF && l == p % HALF
    requires lower == Magnitude(b * HALF) && upper == Magnitude((b + 1) * HALF) && other == Magnitude(k * HALF)
    requires Magnitude(p) == lower + x && upper == Magnitude(p) + y
    requires (l < 0x8000 ==> x < y) && (l == 0x8000 ==> x == y) && (l > 0x8000 ==> x > y)
    requires (k < b ==> other < lower) && (k > b + 1 ==> other > upper)
    ensures Beats(p, Rounded(p), k)
  {
    hide Magnitude, Ulp;
  }

  lemma Gaps(l: nat, u: nat)
    requires l <= HALF && u > 0
    ensures Steps(HALF, u) == Steps(l, u) + Steps(HALF - l, u)
    ensures l < 0x8000 ==> Steps(l, u) < Steps(HALF - l, u)
    ensures l == 0x8000 ==> Steps(l, u) == Steps(HALF - l, u)
    ensures l > 0x8000 ==> Steps(l, u) > Steps(HALF - l, u)
  {
    hide Steps;
    StepsAdd(l, HALF - l, u);
    if l < 0x8000 { StepsAdd(l, HALF - l - l, u); }
    if l > 0x8000 { StepsAdd(HALF - l, l + l - HALF, u); }
  }

  lemma StepsAdd(a: nat, b: nat, u: nat)
    requires u > 0
    ensures Steps(a + b, u) == Steps(a, u) + Steps(b, u) && (b > 0 ==> Steps(b, u) > 0)
  {
    assert (a + b) * u == a * u + b * u;
  }

  /** The sign is kept and no other bf16 magnitude, infinity included, is a better candidate. */
  ghost predicate Nearest(bits: U32, h: U16) {
    && h / 0x8000 == bits / SIGN
    && forall k :: 0 <= k <= 0x7f80 ==> Beats(bits % SIGN, h % 0x8000, k)
  }

  /** Every value that is not a NaN becomes the nearest bf16 value with ties to even, its pattern moves by at most half
      a bf16 step, infinities are kept. */
  lemma NarrowNearest(bits: U32)
    requires !NaN(bits)
    ensures Nearest(bits, Narrow(bits))
    ensures Distance(Widen(Narrow(bits)), bits) <= 0x8000
    ensures bits % SIGN == INFINITY ==> Widen(Narrow(bits)) == bits
    ensures bits % HALF == 0 ==> Widen(Narrow(bits)) == bits
  {
    hide Beats, Narrow;
    NarrowRounds(bits);
    var h, q := Narrow(bits), Rounded(bits % SIGN);
    assert h % 0x8000 == q && h / 0x8000 == bits / SIGN;
    forall k | 0 <= k <= 0x7f80 ensures Beats(bits % SIGN, q, k) { RoundedNearest(bits % SIGN, k); }
  }

  /** A NaN stays a NaN, and only a NaN becomes one; of a NaN sign, exponent and the upper payload bits stay, with the quiet
      bit set. */
  lemma NarrowNaN(bits: U32)
    ensures NaN(Widen(Narrow(bits))) <==> NaN(bits)
    ensures NaN(bits) ==>
              && Narrow(bits) / 0x80 == bits / 0x80_0000 && Narrow(bits) / 0x40 % 2 == 1
              && Narrow(bits) % 0x40 == bits / 0x1_0000 % 0x40
  {
    if NaN(bits) {
      NaNBits(bits);
      QuietNaN(Quieted(bits));
    } else {
      hide Narrow;
      NarrowRounds(bits);
      assert Widen(Narrow(bits)) % SIGN == Rounded(bits % SIGN) * HALF;
    }
  }

  lemma NaNBits(bits: U32)
    requires NaN(bits)
    ensures Narrow(bits) / 0x80 == bits / 0x80_0000 && Narrow(bits) / 0x40 % 2 == 1
    ensures Narrow(bits) % 0x40 == bits / 0x1_0000 % 0x40
  {
    var q, low := bits / QUIET, bits / HALF % 0x40;
    assert bits / HALF == q * 0x40 + low;
    if q % 2 == 1 {
      assert Narrow(bits) == q * 0x40 + low;
    } else {
      assert Narrow(bits) == (q + 1) * 0x40 + low;
    }
  }

  lemma QuietNaN(r: U32)
    requires NaN(r) && r / QUIET % 2 == 1
    ensures NaN(r / HALF * HALF) && r / HALF * HALF / QUIET % 2 == 1
  {
    var p := r % SIGN;
    assert p >= INFINITY + QUIET;
    assert r / HALF * HALF % SIGN == p / HALF * HALF >= INFINITY + QUIET;
  }

  /** Narrowing an already narrowed value changes nothing, NaN included. */
  lemma NarrowIdempotent(bits: U32)
    ensures Narrow(Widen(Narrow(bits))) == Narrow(bits)
  {
    var h := Narrow(bits);
    NarrowNaN(bits);
    if NaN(bits) {
      QuietNaN(Quieted(bits));
    } else {
      NarrowNearest(Widen(h));
    }
  }
}
