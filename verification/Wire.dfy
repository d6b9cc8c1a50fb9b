/** Little-endian byte strings. */
module Wire {
  import opened Tables

  type Byte = b: nat | b < 256

  function Pow256(n: nat): (r: nat)
    ensures r > 0
  {
    if n == 0 then 1 else 256 * Pow256(n - 1)
  }

  /** `to_le_bytes` at a width of `n` bytes: higher bits are lost. */
  function LE(n: nat, x: nat): (r: seq<Byte>)
    ensures |r| == n
  {
    if n == 0 then [] else [x % 256] + LE(n - 1, x / 256)
  }

  function FromLE(bs: seq<Byte>): (r: nat)
    decreases |bs|
  {
    if bs == [] then 0 else bs[0] + 256 * FromLE(bs[1..])
  }

  /** Byte `k` is the digit of weight 256^k: the lowest comes first. */
  lemma {:induction false} LittleEndian(n: nat, x: nat, k: nat)
    requires k < n
    ensures LE(n, x)[k] == x / Pow256(k) % 256
  {
    if k > 0 {
      LittleEndian(n - 1, x / 256, k - 1);
      DivDiv(x, Pow256(k - 1));
    }
  }

  lemma DivDiv(x: nat, p: nat)
    requires p > 0
    ensures x / 256 / p == x / (256 * p)
  {
    var q, r := x / 256 / p, x / 256 % p;
    assert x / 256 == q * p + r;
    assert x == q * (256 * p) + (256 * r + x % 256);
    DivModIs(x, 256 * p, q, 256 * r + x % 256);
  }

  /** Reading back what was written gives the number modulo the width. */
  lemma {:induction false} ReadWritten(n: nat, x: nat)
    ensures FromLE(LE(n, x)) == x % Pow256(n)
  {
    if n == 0 {
      assert LE(0, x) == [];
    } else {
      ReadWritten(n - 1, x / 256);
      assert LE(n, x)[1..] == LE(n - 1, x / 256);
      DigitMod(x, Pow256(n - 1));
    }
  }

  lemma DigitMod(x: nat, p: nat)
    requires p > 0
    ensures x % (256 * p) == x % 256 + 256 * ((x / 256) % p)
  {
    var q, r := (x / 256) / p, (x / 256) % p;
    assert x / 256 == q * p + r;
    assert x == q * (256 * p) + (256 * r + x % 256);
    DivModIs(x, 256 * p, q, 256 * r + x % 256);
  }

  /** Writing is one-to-one below the width's bound. */
  lemma WrittenOnce(n: nat, x: nat, y: nat)
    requires x < Pow256(n) && y < Pow256(n) && LE(n, x) == LE(n, y)
    ensures x == y
  {
    ReadWritten(n, x);
    ReadWritten(n, y);
    SmallMod(x, Pow256(n));
    SmallMod(y, Pow256(n));
  }

  lemma SmallMod(x: nat, d: nat)
    requires x < d
    ensures x % d == x
  {
  }

  lemma Widths()
    ensures Pow256(1) == 0x100 && Pow256(2) == 0x1_0000 && Pow256(4) == 0x1_0000_0000
    ensures Pow256(8) == 0x1_0000_0000_0000_0000
  {
    assert Pow256(3) == 0x100_0000;
    assert Pow256(5) == 0x100_0000_0000;
    assert Pow256(6) == 0x1_0000_0000_0000;
    assert Pow256(7) == 0x100_0000_0000_0000;
  }

  /** Two equal concatenations with heads of one length. */
  lemma SameHeads<T>(a: seq<T>, r: seq<T>, b: seq<T>, s: seq<T>)
    requires |a| == |b| && a + r == b + s
    ensures a == b && r == s
  {
    assert a == (a + r)[..|a|] && b == (b + s)[..|b|];
    assert r == (a + r)[|a|..] && s == (b + s)[|b|..];
  }

  lemma SliceOfSlice<T>(s: seq<T>, a: nat, b: nat, c: nat, d: nat)
    requires a <= b <= |s| && c <= d <= b - a
    ensures s[a..b][c..d] == s[a + c..a + d]
  {
    var t := s[a..b];
    assert forall i :: c <= i < d ==> t[c..d][i - c] == t[i] == s[a + i] == s[a + c..a + d][i - c];
    assert t[c..d] == s[a + c..a + d];
  }

  lemma {:induction false} ReadBound(bs: seq<Byte>)
    ensures FromLE(bs) < Pow256(|bs|)
    decreases |bs|
  {
    if bs != [] { ReadBound(bs[1..]); }
  }

  /** Writing what was read gives the bytes back. */
  lemma {:induction false} WrittenRead(bs: seq<Byte>)
    ensures LE(|bs|, FromLE(bs)) == bs
    decreases |bs|
  {
    if bs != [] {
      WrittenRead(bs[1..]);
      var x := FromLE(bs);
      assert x % 256 == bs[0] && x / 256 == FromLE(bs[1..]);
      assert bs == [bs[0]] + bs[1..];
    }
  }

  /** Bytes `at .. at + n` hold the number `x`, lowest byte first. */
  ghost predicate FieldAt(bytes: seq<Byte>, at: nat, n: nat, x: nat) {
    at + n <= |bytes| && forall k :: 0 <= k < n ==> bytes[at + k] == x / Pow256(k) % 256
  }

  lemma FieldWritten(bytes: seq<Byte>, at: nat, n: nat, x: nat)
    requires at + n <= |bytes| && bytes[at..at + n] == LE(n, x)
    ensures FieldAt(bytes, at, n, x)
  {
    hide LE, Pow256;
    forall k | 0 <= k < n ensures bytes[at + k] == x / Pow256(k) % 256 {
      LittleEndian(n, x, k);
      assert bytes[at + k] == bytes[at..at + n][k];
    }
  }

  lemma FieldKept(a: seq<Byte>, b: seq<Byte>, at: nat, n: nat, x: nat)
    requires a <= b && FieldAt(a, at, n, x)
    ensures FieldAt(b, at, n, x)
  {
    hide Pow256;
    forall k | 0 <= k < n ensures b[at + k] == x / Pow256(k) % 256 {
      assert b[at + k] == a[at + k];
    }
  }

  /** A growing byte vector. */
  class ByteBuffer {
    var data: seq<Byte>

    constructor ()
      ensures data == []
    {
      data := [];
    }

    method Extend(bytes: seq<Byte>)
      modifies this
      ensures data == old(data) + bytes
    {
      data := data + bytes;
    }
  }
}
