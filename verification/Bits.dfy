/** Bit masks: the sets of emitted object members. */
module Bits {
  import opened Prelude

  /** `mask & (1 << j) != 0` */
  predicate Bit(m: nat, j: nat) {
    if j == 0 then m % 2 == 1 else Bit(m / 2, j - 1)
  }

  /** `mask | (1 << j)` */
  function SetBit(m: nat, j: nat): nat {
    if j == 0 then m / 2 * 2 + 1 else SetBit(m / 2, j - 1) * 2 + m % 2
  }

  /** `a & b` */
  function And(a: nat, b: nat): nat
    decreases b
  {
    if b == 0 then 0 else And(a / 2, b / 2) * 2 + (if a % 2 == 1 && b % 2 == 1 then 1 else 0)
  }

  ghost function MaskSet(m: nat, k: nat): set<nat> {
    set j | 0 <= j < k && Bit(m, j)
  }

  lemma {:induction false} SetBitBits(m: nat, j: nat, i: nat)
    ensures Bit(SetBit(m, j), i) <==> i == j || Bit(m, i)
    decreases j
  {
    var s := SetBit(m, j);
    if j == 0 {
      assert s % 2 == 1 && s / 2 == m / 2;
    } else {
      assert s % 2 == m % 2 && s / 2 == SetBit(m / 2, j - 1);
      if i > 0 { SetBitBits(m / 2, j - 1, i - 1); }
    }
  }

  lemma {:induction false} SetBitBelow(m: nat, j: nat, k: nat)
    requires m < Pow2(k) && j < k
    ensures SetBit(m, j) < Pow2(k)
    decreases k
  {
    var half := Pow2(k - 1);
    assert Pow2(k) == 2 * half && m / 2 < half;
    if j > 0 {
      SetBitBelow(m / 2, j - 1, k - 1);
      assert SetBit(m, j) == SetBit(m / 2, j - 1) * 2 + m % 2;
    }
  }

  lemma SetBitSet(m: nat, j: nat, k: nat)
    requires j < k
    ensures MaskSet(SetBit(m, j), k) == MaskSet(m, k) + {j}
  {
    forall i | 0 <= i < k ensures Bit(SetBit(m, j), i) <==> i == j || Bit(m, i) {
      SetBitBits(m, j, i);
    }
  }

  lemma {:induction false} ZeroBits(i: nat)
    ensures !Bit(0, i)
  {
    if i > 0 { ZeroBits(i - 1); }
  }

  lemma {:induction false} SomeBit(m: nat, k: nat)
    requires 0 < m < Pow2(k)
    ensures exists j: nat :: j < k && Bit(m, j)
    decreases k
  {
    if m % 2 == 1 {
      assert Bit(m, 0);
    } else {
      SomeBit(m / 2, k - 1);
      var j: nat :| j < k - 1 && Bit(m / 2, j);
      assert Bit(m, j + 1);
    }
  }

  /** The empty mask is the only one with no member. */
  lemma MaskEmpty(m: nat, k: nat)
    requires m < Pow2(k)
    ensures MaskSet(m, k) == {} <==> m == 0
  {
    if m == 0 {
      forall i | 0 <= i < k ensures !Bit(0, i) { ZeroBits(i); }
    } else {
      SomeBit(m, k);
      var j: nat :| j < k && Bit(m, j);
      assert j in MaskSet(m, k);
    }
  }

  ghost predicate BitsWithin(b: nat, a: nat) {
    forall j: nat :: Bit(b, j) ==> Bit(a, j)
  }

  lemma BitsWithinHalf(a: nat, b: nat)
    ensures BitsWithin(b, a) <==> BitsWithin(b / 2, a / 2) && (b % 2 == 1 ==> a % 2 == 1)
  {
    if BitsWithin(b, a) {
      assert Bit(b, 0) ==> Bit(a, 0);
      forall j: nat | Bit(b / 2, j) ensures Bit(a / 2, j) {
        assert Bit(b, j + 1);
        assert Bit(a, j + 1);
      }
    }
    if BitsWithin(b / 2, a / 2) && (b % 2 == 1 ==> a % 2 == 1) {
      forall j: nat | Bit(b, j) ensures Bit(a, j) {
        if j > 0 { assert Bit(b / 2, j - 1); }
      }
    }
  }

  /** `a & b == b` says that every bit of `b` is in `a`. */
  lemma {:induction false} AndAll(a: nat, b: nat)
    ensures And(a, b) == b <==> BitsWithin(b, a)
    ensures And(a, b) <= b
    decreases b
  {
    if b == 0 {
      forall j: nat ensures !Bit(0, j) { ZeroBits(j); }
    } else {
      hide BitsWithin;
      AndAll(a / 2, b / 2);
      BitsWithinHalf(a, b);
    }
  }

  lemma {:induction false} NoBitsAbove(b: nat, k: nat, j: nat)
    requires b < Pow2(k) && j >= k
    ensures !Bit(b, j)
    decreases k
  {
    if k == 0 {
      ZeroBits(j);
    } else {
      NoBitsAbove(b / 2, k - 1, j - 1);
    }
  }

  lemma AndSubset(a: nat, b: nat, k: nat)
    requires b < Pow2(k)
    ensures And(a, b) == b <==> MaskSet(b, k) <= MaskSet(a, k)
  {
    AndAll(a, b);
    if MaskSet(b, k) <= MaskSet(a, k) {
      forall j: nat | Bit(b, j) ensures Bit(a, j) {
        if j >= k { NoBitsAbove(b, k, j); }
        assert j in MaskSet(b, k);
      }
    }
    if BitsWithin(b, a) {
      forall j | j in MaskSet(b, k) ensures j in MaskSet(a, k) {
        assert Bit(b, j);
      }
    }
  }

  // ---- how many members remain, over all masks ----

  function Unset(m: nat, k: nat): nat {
    if k == 0 then 0 else (if m % 2 == 0 then 1 else 0) + Unset(m / 2, k - 1)
  }

  /** The number of (mask, unemitted member) pairs with mask below `n`. */
  function Pairs(k: nat, n: nat): nat {
    if n == 0 then 0 else Pairs(k, n - 1) + Unset(n - 1, k)
  }

  lemma {:induction false} PairsDouble(k: nat, n: nat)
    ensures Pairs(k + 1, 2 * n) == 2 * Pairs(k, n) + n
  {
    if n > 0 {
      PairsDouble(k, n - 1);
      var q := n - 1;
      assert Unset(2 * q, k + 1) == 1 + Unset(q, k) by { assert 2 * q / 2 == q && 2 * q % 2 == 0; }
      assert Unset(2 * q + 1, k + 1) == Unset(q, k) by { assert (2 * q + 1) / 2 == q && (2 * q + 1) % 2 == 1; }
      assert Pairs(k + 1, 2 * n) == Pairs(k + 1, 2 * n - 1) + Unset(2 * n - 1, k + 1);
      assert Pairs(k + 1, 2 * n - 1) == Pairs(k + 1, 2 * n - 2) + Unset(2 * n - 2, k + 1);
    }
  }

  /** Over all `2^k` masks there are `k 2^(k-1)` pairs. */
  lemma {:induction false} PairsTotal(k: nat)
    ensures 2 * Pairs(k, Pow2(k)) == k * Pow2(k)
  {
    if k == 0 {
      assert Pairs(0, 1) == 0;
    } else {
      var half := Pow2(k - 1);
      assert Pow2(k) == 2 * half;
      hide Pairs, Pow2;
      PairsTotal(k - 1);
      PairsDouble(k - 1, half);
      assert 2 * Pairs(k, 2 * half) == 2 * ((k - 1) * half) + 2 * half == k * (2 * half);
    }
  }

  lemma {:induction false} UnsetStep(m: nat, k: nat)
    ensures Unset(m, k + 1) == Unset(m, k) + if Bit(m, k) then 0 else 1
    decreases k
  {
    if k > 0 { UnsetStep(m / 2, k - 1); }
  }
}
