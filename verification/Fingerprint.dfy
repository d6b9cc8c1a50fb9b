/** The geometry fingerprint: the byte stream fed to the hash, and why it determines the geometry metadata. */
module Fingerprints {
  import opened Wire

  type Key = seq<Byte>

  type U8T = x: int | 0 <= x < 0x100
  type I8T = x: int | -0x80 <= x < 0x80
  type U16T = x: int | 0 <= x < 0x1_0000
  type I16T = x: int | -0x8000 <= x < 0x8000
  type U32T = x: int | 0 <= x < 0x1_0000_0000
  type I32T = x: int | -0x8000_0000 <= x < 0x8000_0000
  type U64T = x: int | 0 <= x < 0x1_0000_0000_0000_0000
  type I64T = x: int | -0x8000_0000_0000_0000 <= x < 0x8000_0000_0000_0000

  /** A metadata value. Floats are their bit patterns and a string is its UTF-8 bytes. */
  datatype Value =
    | U8(u8: U8T) | I8(i8: I8T) | U16(u16: U16T) | I16(i16: I16T)
    | U32(u32: U32T) | I32(i32: I32T) | U64(u64: U64T) | I64(i64: I64T)
    | F32(bits32: U32T) | F64(bits64: U64T)
    | Bool(flag: bool)
    | Str(utf8: seq<Byte>)
    | Array(items: seq<Value>)

  /** Lengths fit their 64-bit counters. */
  ghost predicate Fits(v: Value)
    decreases v
  {
    match v
    case Str(s) => |s| < 0x1_0000_0000_0000_0000
    case Array(items) => |items| < 0x1_0000_0000_0000_0000 && forall i :: 0 <= i < |items| ==> Fits(items[i])
    case _ => true
  }

  // ---- the stream of one value ----

  /** Two's complement. */
  function Unsigned(x: int, modulus: nat): nat
    requires -(modulus as int) <= x
  {
    if x < 0 then x + modulus else x
  }

  function Tag(v: Value): Byte {
    match v
    case U8(_) => 1 case I8(_) => 2 case U16(_) => 3 case I16(_) => 4
    case U32(_) => 5 case I32(_) => 6 case U64(_) => 7 case I64(_) => 8
    case F32(_) => 9 case F64(_) => 10 case Bool(_) => 11 case Str(_) => 12 case Array(_) => 13
  }

  function Width(v: Value): nat {
    match v
    case U8(_) => 1 case I8(_) => 1 case U16(_) => 2 case I16(_) => 2
    case U32(_) => 4 case I32(_) => 4 case U64(_) => 8 case I64(_) => 8
    case F32(_) => 4 case F64(_) => 8 case Bool(_) => 1
    case Str(s) => |s| case Array(_) => 0
  }

  /** A fixed-width value as the number its bytes spell. */
  function Code(v: Value): nat {
    match v
    case U8(x) => x case I8(x) => Unsigned(x, 0x100)
    case U16(x) => x case I16(x) => Unsigned(x, 0x1_0000)
    case U32(x) => x case I32(x) => Unsigned(x, 0x1_0000_0000)
    case U64(x) => x case I64(x) => Unsigned(x, 0x1_0000_0000_0000_0000)
    case F32(x) => x case F64(x) => x
    case Bool(b) => if b then 1 else 0
    case Str(_) => 0
    case Array(_) => 0
  }

  function Payload(v: Value): (r: seq<Byte>)
    ensures |r| == Width(v)
  {
    match v
    case Str(s) => s
    case _ => LE(Width(v), Code(v))
  }

  /** The canonical bytes of a value. */
  function Fed(v: Value): (r: seq<Byte>)
    ensures r != [] && r[0] == Tag(v)
    decreases v, 1
  {
    match v
    case Array(items) => [Tag(v)] + LE(8, |items|) + FedAll(items)
    case _ => [Tag(v)] + LE(8, |Payload(v)|) + Payload(v)
  }

  function FedAll(items: seq<Value>): seq<Byte>
    decreases items, 0
  {
    if items == [] then [] else Fed(items[0]) + FedAll(items[1..])
  }

  /** A tag, the width as 64 bits, and a number of that width. */
  ghost predicate FixedAt(b: seq<Byte>, tag: Byte, n: nat, x: nat) {
    |b| == 9 + n && b[0] == tag && FieldAt(b, 1, 8, n) && FieldAt(b, 9, n, x)
  }

  /** The canonical bytes of every kind of value; negative numbers are in two's complement, so `%` here is the
      non-negative remainder. */
  lemma FedLayout(v: Value)
    ensures var b := Fed(v);
            match v
            case U8(x) => FixedAt(b, 1, 1, x)
            case I8(x) => FixedAt(b, 2, 1, x % 0x100)
            case U16(x) => FixedAt(b, 3, 2, x)
            case I16(x) => FixedAt(b, 4, 2, x % 0x1_0000)
            case U32(x) => FixedAt(b, 5, 4, x)
            case I32(x) => FixedAt(b, 6, 4, x % 0x1_0000_0000)
            case U64(x) => FixedAt(b, 7, 8, x)
            case I64(x) => FixedAt(b, 8, 8, x % 0x1_0000_0000_0000_0000)
            case F32(x) => FixedAt(b, 9, 4, x)
            case F64(x) => FixedAt(b, 10, 8, x)
            case Bool(x) => FixedAt(b, 11, 1, if x then 1 else 0)
            case Str(s) => |b| == 9 + |s| && b[0] == 12 && FieldAt(b, 1, 8, |s|) && b[9..] == s
            case Array(items) =>
              && |b| >= 9 && b[0] == 13 && FieldAt(b, 1, 8, |items|)
              && b[9..] == if items == [] then [] else Fed(items[0]) + FedAll(items[1..])
  {
    hide LE, FieldAt, Pow256;
    var b := Fed(v);
    if v.Array? {
      assert b[1..9] == LE(8, |v.items|);
      FieldWritten(b, 1, 8, |v.items|);
    } else {
      assert b[1..9] == LE(8, Width(v));
      FieldWritten(b, 1, 8, Width(v));
      if !v.Str? {
        assert b[9..9 + Width(v)] == LE(Width(v), Code(v));
        FieldWritten(b, 9, Width(v), Code(v));
      }
    }
  }

  lemma CodeOnce(v: Value, w: Value)
    requires !v.Array? && Tag(v) == Tag(w) && Payload(v) == Payload(w)
    ensures v == w
  {
    Widths();
    if !v.Str? { WrittenOnce(Width(v), Code(v), Code(w)); }
  }

  /** The value encoding is prefix-free: what follows it can never be mistaken for part of it. */
  lemma {:induction false} PrefixFree(v: Value, w: Value, r: seq<Byte>, s: seq<Byte>)
    requires Fits(v) && Fits(w) && Fed(v) + r == Fed(w) + s
    ensures v == w && r == s
    decreases v, 1
  {
    hide FedAll, LE, Pow256;
    assert Tag(v) == (Fed(v) + r)[0] == (Fed(w) + s)[0] == Tag(w);
    var n, m := Counter(v), Counter(w);
    var a, b := Rest(v), Rest(w);
    Framed(v);
    Framed(w);
    assert Fed(v) + r == ([Tag(v)] + LE(8, n)) + (a + r);
    assert Fed(w) + s == ([Tag(w)] + LE(8, m)) + (b + s);
    SameHeads([Tag(v)] + LE(8, n), a + r, [Tag(w)] + LE(8, m), b + s);
    SameHeads([Tag(v)], LE(8, n), [Tag(w)], LE(8, m));
    Widths();
    WrittenOnce(8, n, m);
    if v.Array? {
      AllPrefixFree(v.items, w.items, r, s);
    } else {
      SameHeads(a, r, b, s);
      CodeOnce(v, w);
    }
  }

  function Counter(v: Value): nat {
    if v.Array? then |v.items| else Width(v)
  }

  function Rest(v: Value): seq<Byte> {
    if v.Array? then FedAll(v.items) else Payload(v)
  }

  lemma Framed(v: Value)
    requires Fits(v)
    ensures Fed(v) == [Tag(v)] + LE(8, Counter(v)) + Rest(v) && Counter(v) < 0x1_0000_0000_0000_0000
    ensures !v.Array? ==> |Rest(v)| == Counter(v)
  {
  }

  lemma FedAllCons(x: Value, xs: seq<Value>)
    ensures FedAll([x] + xs) == Fed(x) + FedAll(xs)
  {
    hide Fed;
    assert ([x] + xs)[1..] == xs;
  }

  lemma {:induction false} AllPrefixFree(xs: seq<Value>, ys: seq<Value>, r: seq<Byte>, s: seq<Byte>)
    requires |xs| == |ys| && FedAll(xs) + r == FedAll(ys) + s
    requires forall i :: 0 <= i < |xs| ==> Fits(xs[i])
    requires forall i :: 0 <= i < |ys| ==> Fits(ys[i])
    ensures xs == ys && r == s
    decreases xs, 0
  {
    hide Fed, FedAll;
    FedNone();
    if xs == [] {
      assert [] + r == r && [] + s == s;
    } else {
      var x, y, xt, yt := xs[0], ys[0], xs[1..], ys[1..];
      assert xs == [x] + xt && ys == [y] + yt;
      FedAllCons(x, xt);
      FedAllCons(y, yt);
      assert Fed(x) + (FedAll(xt) + r) == FedAll(xs) + r;
      assert Fed(y) + (FedAll(yt) + s) == FedAll(ys) + s;
      PrefixFree(x, y, FedAll(xt) + r, FedAll(yt) + s);
      AllPrefixFree(xt, yt, r, s);
    }
  }

  // ---- keys in order ----

  /** Byte-wise lexicographic order. */
  predicate Before(a: Key, b: Key)
    decreases |a|
  {
    if b == [] then false
    else if a == [] then true
    else a[0] < b[0] || (a[0] == b[0] && Before(a[1..], b[1..]))
  }

  /** The first difference of two keys is at `i`, and `a` has the smaller byte there. */
  ghost predicate SmallerAt(a: Key, b: Key, i: nat) {
    i < |a| && i < |b| && a[i] < b[i] && forall j :: 0 <= j < i ==> a[j] == b[j]
  }

  /** A key comes before another if it is a proper prefix of it or has the smaller byte at the first difference. */
  lemma {:induction false} BeforeMeans(a: Key, b: Key)
    ensures Before(a, b) <==> a < b || exists i: nat :: SmallerAt(a, b, i)
    decreases |a|
  {
    if a != [] && b != [] {
      var x, y := a[1..], b[1..];
      BeforeMeans(x, y);
      assert a == [a[0]] + x && b == [b[0]] + y;
      if i: nat :| SmallerAt(x, y, i) && a[0] == b[0] {
        assert SmallerAt(a, b, i + 1);
      }
      if i: nat :| SmallerAt(a, b, i) && i > 0 {
        assert a[0] == b[0] && SmallerAt(x, y, i - 1);
      }
      if a[0] < b[0] { assert SmallerAt(a, b, 0); }
    }
  }

  lemma {:induction false} BeforeStrict(a: Key, b: Key)
    ensures !(Before(a, b) && Before(b, a)) && !Before(a, a)
    ensures Before(a, b) || a == b || Before(b, a)
    decreases |a|
  {
    if a != [] && b != [] && a[0] == b[0] {
      BeforeStrict(a[1..], b[1..]);
      assert a == [a[0]] + a[1..] && b == [b[0]] + b[1..];
    }
    if a != [] { BeforeStrict(a[1..], a[1..]); }
  }

  lemma {:induction false} BeforeTrans(a: Key, b: Key, c: Key)
    requires Before(a, b) && Before(b, c)
    ensures Before(a, c)
    decreases |a|
  {
    if a != [] && a[0] == b[0] == c[0] { BeforeTrans(a[1..], b[1..], c[1..]); }
  }

  ghost predicate Ascending(ks: seq<Key>) {
    forall i, j :: 0 <= i < j < |ks| ==> Before(ks[i], ks[j])
  }

  /** An ascending list of keys is determined by its members. */
  lemma {:induction false} AscendingUnique(a: seq<Key>, b: seq<Key>)
    requires Ascending(a) && Ascending(b) && forall k :: k in a <==> k in b
    ensures a == b
  {
    assert b != [] ==> b[0] in b;
    if a == [] {
    } else {
      assert a[0] in a && a[0] in b;
      assert b[0] in b && b[0] in a;
      BeforeStrict(a[0], b[0]);
      forall k ensures k in a[1..] <==> k in b[1..] {
        BeforeStrict(k, k);
        assert k in a[1..] <==> k in a && k != a[0];
        assert k in b[1..] <==> k in b && k != b[0];
      }
      AscendingUnique(a[1..], b[1..]);
      assert a == [a[0]] + a[1..] && b == [b[0]] + b[1..];
    }
  }

  function InsertKey(k: Key, ks: seq<Key>): seq<Key> {
    if ks == [] || Before(k, ks[0]) then [k] + ks else [ks[0]] + InsertKey(k, ks[1..])
  }

  lemma {:induction false} InsertKeySorts(k: Key, ks: seq<Key>)
    requires Ascending(ks) && k !in ks
    ensures Ascending(InsertKey(k, ks))
    ensures forall x :: x in InsertKey(k, ks) <==> x == k || x in ks
  {
    if ks == [] {
    } else if Before(k, ks[0]) {
      forall j | 0 <= j < |ks| ensures Before(k, ks[j]) {
        if j > 0 { BeforeTrans(k, ks[0], ks[j]); }
      }
    } else {
      BeforeStrict(k, ks[0]);
      InsertKeySorts(k, ks[1..]);
      var rest := InsertKey(k, ks[1..]);
      forall j | 0 <= j < |rest| ensures Before(ks[0], rest[j]) {
        assert rest[j] in rest;
      }
      assert forall x :: x in ks <==> x == ks[0] || x in ks[1..];
    }
  }

  /** The ascending listing of a set of keys. */
  ghost predicate IsOrder(ks: seq<Key>, s: set<Key>) {
    Ascending(ks) && forall k :: k in ks <==> k in s
  }

  // ---- the whole stream ----

  function Ascii(s: string): (r: Key)
    ensures |r| == |s|
  {
    seq(|s|, i requires 0 <= i < |s| => s[i] as int % 256)
  }

  predicate IsGeometry(k: Key) {
    k == Ascii("general.architecture") || Ascii("qwen35.") <= k
  }

  /** The geometry keys in bytes: "general.architecture", and whatever starts with "qwen35.". */
  lemma GeometryBytes(k: Key)
    ensures IsGeometry(k) <==>
            || k == [103, 101, 110, 101, 114, 97, 108, 46, 97, 114, 99, 104, 105, 116, 101, 99, 116, 117, 114, 101]
            || [113, 119, 101, 110, 51, 53, 46] <= k
  {
    assert Ascii("general.architecture") ==
           [103, 101, 110, 101, 114, 97, 108, 46, 97, 114, 99, 104, 105, 116, 101, 99, 116, 117, 114, 101];
    assert Ascii("qwen35.") == [113, 119, 101, 110, 51, 53, 46];
  }

  function GeometryKeys(m: map<Key, Value>): set<Key> {
    set k | k in m && IsGeometry(k)
  }

  /** The part of the metadata the fingerprint is about. */
  function Geometry(m: map<Key, Value>): map<Key, Value> {
    map k | k in GeometryKeys(m) :: m[k]
  }

  function Entry(k: Key, v: Value): seq<Byte> {
    k + [0] + Fed(v)
  }

  function Stream(ks: seq<Key>, m: map<Key, Value>): seq<Byte>
    requires forall k :: k in ks ==> k in m
  {
    if ks == [] then [] else Entry(ks[0], m[ks[0]]) + Stream(ks[1..], m)
  }

  lemma StreamCons(k: Key, ks: seq<Key>, m: map<Key, Value>)
    requires k in m && forall x :: x in ks ==> x in m
    ensures (forall x :: x in [k] + ks ==> x in m) && Stream([k] + ks, m) == Entry(k, m[k]) + Stream(ks, m)
  {
    hide Entry;
    assert ([k] + ks)[1..] == ks;
  }

  lemma {:induction false} StreamAppend(ks: seq<Key>, k: Key, m: map<Key, Value>)
    requires (forall x :: x in ks ==> x in m) && k in m
    ensures forall x :: x in ks + [k] ==> x in m
    ensures Stream(ks + [k], m) == Stream(ks, m) + Entry(k, m[k])
  {
    hide Entry;
    if ks == [] {
      StreamCons(k, [], m);
      assert ks + [k] == [k] + [];
    } else {
      var rest := ks[1..];
      StreamAppend(rest, k, m);
      StreamCons(ks[0], rest, m);
      StreamCons(ks[0], rest + [k], m);
      assert ks == [ks[0]] + rest && ks + [k] == [ks[0]] + (rest + [k]);
    }
  }

  /** Keys cannot run into what follows them as long as they hold no zero byte. */
  lemma {:induction false} KeyEnds(a: Key, r: seq<Byte>, b: Key, s: seq<Byte>)
    requires 0 !in a && 0 !in b && a + [0] + r == b + [0] + s
    ensures a == b && r == s
    decreases |a|
  {
    var x, y := a + [0] + r, b + [0] + s;
    assert x[0] == if a == [] then 0 else a[0];
    assert y[0] == if b == [] then 0 else b[0];
    if a == [] || b == [] {
      assert a == [] && b == [];
      assert x[1..] == r && y[1..] == s;
    } else {
      assert x[1..] == a[1..] + [0] + r && y[1..] == b[1..] + [0] + s;
      KeyEnds(a[1..], r, b[1..], s);
      assert a == [a[0]] + a[1..] && b == [b[0]] + b[1..];
    }
  }

  ghost predicate Listed(ks: seq<Key>, m: map<Key, Value>) {
    forall k :: k in ks ==> k in m && Fits(m[k]) && 0 !in k
  }

  /** Equal streams come from the same keys with the same values. */
  lemma {:induction false} StreamInjective(ks: seq<Key>, m: map<Key, Value>, ls: seq<Key>, n: map<Key, Value>)
    requires Listed(ks, m) && Listed(ls, n) && Stream(ks, m) == Stream(ls, n)
    ensures ks == ls && forall k :: k in ks ==> m[k] == n[k]
  {
    hide Fed;
    if ks != [] && ls != [] {
      var k, l := ks[0], ls[0];
      assert k in ks && l in ls;
      var p, q := Stream(ks[1..], m), Stream(ls[1..], n);
      assert k + [0] + (Fed(m[k]) + p) == Entry(k, m[k]) + p;
      assert l + [0] + (Fed(n[l]) + q) == Entry(l, n[l]) + q;
      KeyEnds(k, Fed(m[k]) + p, l, Fed(n[l]) + q);
      PrefixFree(m[k], n[l], p, q);
      StreamInjective(ks[1..], m, ls[1..], n);
      assert ks == [k] + ks[1..] && ls == [l] + ls[1..];
    }
  }

  /** What the fingerprint feeds to the hash. */
  ghost predicate IsCanonical(stream: seq<Byte>, m: map<Key, Value>) {
    exists ks :: IsOrder(ks, GeometryKeys(m)) && stream == Stream(ks, m)
  }

  /** Metadata whose geometry keys hold no zero byte and whose geometry lengths fit. */
  ghost predicate WellKeyed(m: map<Key, Value>) {
    forall k :: k in GeometryKeys(m) ==> Fits(m[k]) && 0 !in k
  }

  /** The fed bytes agree exactly when the geometry metadata agrees, key by key and value by value. */
  lemma CanonicalIff(m: map<Key, Value>, x: seq<Byte>, n: map<Key, Value>, y: seq<Byte>)
    requires WellKeyed(m) && WellKeyed(n) && IsCanonical(x, m) && IsCanonical(y, n)
    ensures x == y <==> Geometry(m) == Geometry(n)
  {
    hide IsGeometry, Stream, Geometry;
    var ks :| IsOrder(ks, GeometryKeys(m)) && x == Stream(ks, m);
    var ls :| IsOrder(ls, GeometryKeys(n)) && y == Stream(ls, n);
    if x == y {
      StreamInjective(ks, m, ls, n);
      SameGeometry(m, n, ks);
    }
    if Geometry(m) == Geometry(n) {
      GeometryParts(m);
      GeometryParts(n);
      AscendingUnique(ks, ls);
      StreamSame(ks, m, n);
    }
  }

  lemma GeometryParts(m: map<Key, Value>)
    ensures Geometry(m).Keys == GeometryKeys(m) && forall k :: k in GeometryKeys(m) ==> k in m && Geometry(m)[k] == m[k]
  {
  }

  lemma SameGeometry(m: map<Key, Value>, n: map<Key, Value>, ks: seq<Key>)
    requires IsOrder(ks, GeometryKeys(m)) && IsOrder(ks, GeometryKeys(n)) && forall k :: k in ks ==> m[k] == n[k]
    ensures Geometry(m) == Geometry(n)
  {
    hide IsGeometry;
    assert forall k :: k in Geometry(m) <==> k in Geometry(n);
  }

  lemma {:induction false} StreamSame(ks: seq<Key>, m: map<Key, Value>, n: map<Key, Value>)
    requires forall k :: k in ks ==> k in m && k in n && m[k] == n[k]
    ensures Stream(ks, m) == Stream(ks, n)
  {
    if ks != [] { StreamSame(ks[1..], m, n); }
  }

  /** With a zero byte inside a key the terminator, which is not escaped, does not end it: under every name of the model's own
      namespace there are a geometry that has it and one that has not, feeding the same bytes. */
  lemma ZeroByteCollides(k: Key)
    requires Ascii("qwen35.") <= k
    ensures exists m: map<Key, Value>, n: map<Key, Value>, x ::
              IsCanonical(x, m) && IsCanonical(x, n) && k in Geometry(m) && k !in Geometry(n)
  {
    hide Fed, LE, Stream, GeometryKeys, Ascii, IsCanonical, Entry;
    var tail := [0] + Fed(U8(0));
    var head := k + [0] + [12] + LE(8, |tail|);
    var m, n := map[k := Str(tail)], map[head := U8(0)];
    LongerName(k, k);
    LongerName(k, head);
    OneKey(k, m);
    OneKey(head, n);
    StrFed(tail);
    EntrySplit(k, LE(8, |tail|), Fed(U8(0)), Str(tail), U8(0), head, tail);
    assert Stream([k], m) == Stream([head], n);
    assert k in Geometry(m) && k !in Geometry(n);
  }

  ghost const ARCH: Key := Ascii("general.architecture")

  /** Geometry keys other than the architecture come behind it and start with another byte. */
  lemma OtherKeys(k: Key)
    requires IsGeometry(k) && k != ARCH
    ensures k != [] && k[0] == 113 && ARCH != [] && ARCH[0] == 103 && !Before(k, ARCH)
  {
    assert k[0] == Ascii("qwen35.")[0];
  }

  /** Either the architecture comes first, or no key starts with its byte. */
  lemma ArchitectureFirst(ks: seq<Key>, m: map<Key, Value>)
    requires IsOrder(ks, GeometryKeys(m))
    ensures ARCH in m ==> ks != [] && ks[0] == ARCH
    ensures ARCH !in m && ks != [] ==> ks[0] != [] && ks[0][0] == 113
  {
    hide Before, Ascii, ARCH;
    assert forall k :: k in ks ==> IsGeometry(k);
    assert IsGeometry(ARCH) by { ArchitectureIs(); }
    if ARCH in m {
      assert ARCH in GeometryKeys(m) && ARCH in ks;
      assert ks[0] in ks;
      if ks[0] != ARCH { OtherKeys(ks[0]); }
    } else if ks != [] {
      assert ks[0] in ks;
      assert ks[0] != ARCH;
      OtherKeys(ks[0]);
    }
  }

  lemma ArchitectureIs()
    ensures IsGeometry(ARCH)
  {
  }

  /** Whatever zero bytes the other keys hold, equal streams agree on the architecture. */
  lemma ArchitectureDetermined(m: map<Key, Value>, n: map<Key, Value>, x: seq<Byte>)
    requires IsCanonical(x, m) && IsCanonical(x, n)
    requires forall k :: k in GeometryKeys(m) ==> Fits(m[k])
    requires forall k :: k in GeometryKeys(n) ==> Fits(n[k])
    ensures ARCH in m <==> ARCH in n
    ensures ARCH in m ==> m[ARCH] == n[ARCH]
  {
    hide Fed, Stream, IsGeometry, Ascii, ARCH;
    var ks :| IsOrder(ks, GeometryKeys(m)) && x == Stream(ks, m);
    var ls :| IsOrder(ls, GeometryKeys(n)) && x == Stream(ls, n);
    ArchitectureFirst(ks, m);
    ArchitectureFirst(ls, n);
    FirstByte(ks, m);
    FirstByte(ls, n);
    if ARCH in m {
      ArchitectureByte();
      assert ARCH in n;
      assert ks[0] in ks && ls[0] in ls;
      var p, q := Stream(ks[1..], m), Stream(ls[1..], n);
      assert x == ARCH + [0] + Fed(m[ARCH]) + p == ARCH + [0] + Fed(n[ARCH]) + q;
      assert x[|ARCH| + 1..] == Fed(m[ARCH]) + p == Fed(n[ARCH]) + q;
      PrefixFree(m[ARCH], n[ARCH], p, q);
    } else if ARCH in n {
      ArchitectureByte();
      assert false;
    }
  }

  lemma ArchitectureByte()
    ensures ARCH != [] && ARCH[0] == 103
  {
  }

  lemma FirstByte(ks: seq<Key>, m: map<Key, Value>)
    requires forall k :: k in ks ==> k in m
    ensures ks == [] ==> Stream(ks, m) == []
    ensures ks != [] ==> (forall k :: k in ks[1..] ==> k in m) && Stream(ks, m) == ks[0] + [0] + Fed(m[ks[0]]) + Stream(ks[1..], m)
    ensures ks != [] && ks[0] != [] ==> Stream(ks, m) != [] && Stream(ks, m)[0] == ks[0][0]
  {
    hide Fed;
  }

  lemma LongerName(k: Key, head: Key)
    requires Ascii("qwen35.") <= k && k <= head
    ensures IsGeometry(head)
  {
    hide Ascii;
  }

  /** Both sides of the collision spell the same bytes. */
  lemma EntrySplit(k: Key, count: seq<Byte>, byte: seq<Byte>, v: Value, w: Value, head: Key, tail: seq<Byte>)
    requires Fed(v) == [12] + count + tail && Fed(w) == byte && tail == [0] + byte && head == k + [0] + [12] + count
    ensures Entry(k, v) == Entry(head, w)
  {
    hide Fed;
    assert k + [0] + ([12] + count + ([0] + byte)) == (k + [0] + [12] + count) + [0] + byte;
  }

  lemma StrFed(s: seq<Byte>)
    ensures Fed(Str(s)) == [12] + LE(8, |s|) + s
  {
    hide LE, FedAll, Fed;
    FedIs(Str(s));
  }

  lemma OneKey(k: Key, m: map<Key, Value>)
    requires m.Keys == {k} && IsGeometry(k)
    ensures GeometryKeys(m) == {k} && IsOrder([k], GeometryKeys(m)) && Stream([k], m) == Entry(k, m[k])
    ensures IsCanonical(Stream([k], m), m)
  {
    hide IsGeometry, Entry;
    assert GeometryKeys(m) == {k};
    assert [k][1..] == [];
    assert Stream([k], m) == Entry(k, m[k]) + Stream([], m);
  }

  // ---- the code ----

  /** The hash seen as the bytes it has been fed. */
  class Hasher {
    var fed: seq<Byte>

    constructor ()
      ensures fed == []
    {
      fed := [];
    }

    method Update(bytes: seq<Byte>)
      modifies this
      ensures fed == old(fed) + bytes
    {
      fed := fed + bytes;
    }

    /** Tag, length, bytes. */
    method Le(tag: Byte, bytes: seq<Byte>)
      modifies this
      ensures fed == old(fed) + ([tag] + LE(8, |bytes|) + bytes)
    {
      Update([tag]);
      Update(LE(8, |bytes|));
      Update(bytes);
    }

    /** `feed_value` on a present value. */
    method FeedValue(v: Value)
      modifies this
      ensures fed == old(fed) + Fed(v)
      decreases v
    {
      hide Fed, FedAll, LE, Payload;
      FedIs(v);
      match v
      case Array(items) =>
        Update([13]);
        Update(LE(8, |items|));
        ghost var start := fed;
        FedNone();
        for i := 0 to |items|
          invariant fed == start + FedAll(items[..i])
        {
          FeedValue(items[i]);
          FedAllAppend(items[..i], items[i]);
          assert items[..i + 1] == items[..i] + [items[i]];
        }
        assert items[..|items|] == items;
      case _ =>
        Le(Tag(v), Payload(v));
    }
  }

  lemma FedNone()
    ensures FedAll([]) == []
  {
  }

  lemma FedIs(v: Value)
    ensures v.Array? ==> Fed(v) == [13] + LE(8, |v.items|) + FedAll(v.items)
    ensures !v.Array? ==> Fed(v) == [Tag(v)] + LE(8, |Payload(v)|) + Payload(v)
  {
    hide LE, FedAll, Payload;
  }

  lemma {:induction false} FedAllAppend(xs: seq<Value>, v: Value)
    ensures FedAll(xs + [v]) == FedAll(xs) + Fed(v)
  {
    hide Fed, FedAll;
    FedNone();
    if xs == [] {
      assert xs + [v] == [v] + [];
      FedAllCons(v, []);
      assert Fed(v) + [] == [] + Fed(v);
    } else {
      var rest := xs[1..];
      FedAllAppend(rest, v);
      assert xs == [xs[0]] + rest && xs + [v] == [xs[0]] + (rest + [v]);
      FedAllCons(xs[0], rest);
      FedAllCons(xs[0], rest + [v]);
      assert Fed(xs[0]) + (FedAll(rest) + Fed(v)) == (Fed(xs[0]) + FedAll(rest)) + Fed(v);
    }
  }

  /** The geometry keys, collected in whatever order the hash map yields them and then sorted. */
  method SortedKeys(m: map<Key, Value>) returns (keys: seq<Key>)
    ensures IsOrder(keys, GeometryKeys(m))
  {
    keys := [];
    var todo := m.Keys;
    while todo != {}
      invariant todo <= m.Keys
      invariant IsOrder(keys, GeometryKeys(m) - todo)
      decreases |todo|
    {
      var k :| k in todo;
      if IsGeometry(k) {
        InsertKeySorts(k, keys);
        keys := InsertKey(k, keys);
      }
      todo := todo - {k};
    }
    assert GeometryKeys(m) - {} == GeometryKeys(m);
  }

  lemma NothingFed(m: map<Key, Value>)
    ensures Stream([], m) == []
  {
  }

  lemma EntryIs(k: Key, v: Value)
    ensures forall before: seq<Byte> :: before + k + [0] + Fed(v) == before + Entry(k, v)
  {
    hide Fed;
    forall before: seq<Byte> ensures before + k + [0] + Fed(v) == before + Entry(k, v) {
      assert before + k + [0] + Fed(v) == before + (k + [0] + Fed(v));
    }
  }

  /** `geometry_fingerprint` for any hash function: the digest of the canonical stream. */
  method GeometryFingerprint<Digest>(m: map<Key, Value>, hash: seq<Byte> -> Digest) returns (d: Digest)
    ensures exists stream :: IsCanonical(stream, m) && d == hash(stream)
  {
    hide Fed, Stream, IsGeometry, Entry;
    var keys := SortedKeys(m);
    NothingFed(m);
    var hasher := new Hasher();
    assert forall k :: k in keys ==> k in m;
    for i := 0 to |keys|
      invariant forall k :: k in keys[..i] ==> k in m
      invariant hasher.fed == Stream(keys[..i], m)
    {
      var k := keys[i];
      assert k in keys;
      hasher.Update(k);
      hasher.Update([0]);
      hasher.FeedValue(m[k]);
      EntryIs(k, m[k]);
      StreamAppend(keys[..i], k, m);
      assert keys[..i + 1] == keys[..i] + [k];
    }
    assert keys[..|keys|] == keys;
    d := hash(hasher.fed);
    assert IsCanonical(hasher.fed, m);
  }
}
