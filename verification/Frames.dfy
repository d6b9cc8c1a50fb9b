/** The activation wire frame: a magic, a 16-byte header and a payload of f32 or bf16 scalars. */
module Frames {
  import opened Prelude
  import opened Wire
  import opened Bf16

  datatype Dtype = F32 | BF16 {
    function Tag(): Byte { if F32? then 0 else 1 }

    /** Bytes per scalar on the wire. */
    function Width(): nat { if F32? then 4 else 2 }

    /** The wire pattern of one scalar. */
    function Code(v: U32): nat { if F32? then v else Narrow(v) }

    /** The scalar a wire pattern stands for. */
    function Lift(x: nat): U32
      requires x < Pow256(Width())
    {
      Widths();
      if F32? then x else Widen(x)
    }
  }

  function FromTag(tag: Byte): Option<Dtype> {
    if tag == 0 then Some(F32) else if tag == 1 then Some(BF16) else None
  }

  datatype FrameError =
    | ShortPrefix(len: nat)
    | BadMagic
    | ReservedSet
    | UnknownDtype(tag: Byte)
    | ShortPayload(have: nat, need: nat)
    | RaggedPayload(len: nat)

  datatype Header = Header(seqId: U32, pos: U32, nTok: U16, dtype: Byte, reserved: Byte, payloadLen: U32)

  const MAGIC: seq<Byte> := [77, 65, 70, 49]
  const PREFIX: nat := 20

  // ---- the header ----

  function HeaderBytes(h: Header): (r: seq<Byte>)
    ensures |r| == PREFIX
  {
    MAGIC + LE(4, h.seqId) + LE(4, h.pos) + LE(2, h.nTok) + [h.dtype, h.reserved] + LE(4, h.payloadLen)
  }

  method EncodeHeader(h: Header, out: ByteBuffer)
    modifies out
    ensures out.data == old(out.data) + HeaderBytes(h)
  {
    hide LE;
    out.Extend(MAGIC);
    out.Extend(LE(4, h.seqId));
    out.Extend(LE(4, h.pos));
    out.Extend(LE(2, h.nTok));
    out.Extend([h.dtype, h.reserved]);
    out.Extend(LE(4, h.payloadLen));
  }

  function Read32(bytes: seq<Byte>, off: nat): U32
    requires off + 4 <= |bytes|
  {
    ReadBound(bytes[off..off + 4]);
    Widths();
    FromLE(bytes[off..off + 4])
  }

  function Read16(bytes: seq<Byte>, off: nat): U16
    requires off + 2 <= |bytes|
  {
    ReadBound(bytes[off..off + 2]);
    Widths();
    FromLE(bytes[off..off + 2])
  }

  /** `ActivationFrameHeader::decode` */
  function DecodeHeader(bytes: seq<Byte>): (r: Result<Header, FrameError>)
    ensures r.Ok? ==> |bytes| >= PREFIX
  {
    if |bytes| < PREFIX then Err(ShortPrefix(|bytes|))
    else if bytes[..4] != MAGIC then Err(BadMagic)
    else
      var h := Header(Read32(bytes, 4), Read32(bytes, 8), Read16(bytes, 12), bytes[14], bytes[15], Read32(bytes, 16));
      if h.reserved != 0 then Err(ReservedSet) else Ok(h)
  }

  lemma FieldRead(n: nat, x: nat, bytes: seq<Byte>)
    requires x < Pow256(n) && bytes == LE(n, x)
    ensures FromLE(bytes) == x
  {
    ReadWritten(n, x);
    SmallMod(x, Pow256(n));
  }

  /** An encoded header is read back whatever follows it, unless its reserved byte is set. */
  lemma HeaderRoundTrip(h: Header, rest: seq<Byte>)
    ensures DecodeHeader(HeaderBytes(h) + rest) == if h.reserved == 0 then Ok(h) else Err(ReservedSet)
  {
    hide LE, FromLE, Pow256;
    Widths();
    var bytes := HeaderBytes(h) + rest;
    assert bytes[..4] == MAGIC;
    assert bytes[4..8] == LE(4, h.seqId) && bytes[8..12] == LE(4, h.pos) && bytes[12..14] == LE(2, h.nTok);
    assert bytes[14] == h.dtype && bytes[15] == h.reserved && bytes[16..20] == LE(4, h.payloadLen);
    FieldRead(4, h.seqId, bytes[4..8]);
    FieldRead(4, h.pos, bytes[8..12]);
    FieldRead(2, h.nTok, bytes[12..14]);
    FieldRead(4, h.payloadLen, bytes[16..20]);
  }

  /** Whatever decodes is the encoding of what it decodes to: no two byte strings of one length share a header. */
  lemma HeaderUnique(bytes: seq<Byte>)
    requires DecodeHeader(bytes).Ok?
    ensures bytes[..PREFIX] == HeaderBytes(DecodeHeader(bytes).value) && DecodeHeader(bytes).value.reserved == 0
  {
    hide LE, FromLE, Pow256;
    WrittenRead(bytes[4..8]);
    WrittenRead(bytes[8..12]);
    WrittenRead(bytes[12..14]);
    WrittenRead(bytes[16..20]);
    assert bytes[..PREFIX] == bytes[..4] + bytes[4..8] + bytes[8..12] + bytes[12..14] + bytes[14..16] + bytes[16..20];
    assert bytes[14..16] == [bytes[14], bytes[15]];
  }

  /** The wire layout of a header: the magic "MAF1", then every field at its offset. */
  lemma HeaderLayout(h: Header)
    ensures var b := HeaderBytes(h);
            && b[..4] == [77, 65, 70, 49] && FieldAt(b, 4, 4, h.seqId) && FieldAt(b, 8, 4, h.pos) && FieldAt(b, 12, 2, h.nTok)
            && b[14] == h.dtype && b[15] == h.reserved && FieldAt(b, 16, 4, h.payloadLen)
  {
    hide LE, FieldAt;
    var b := HeaderBytes(h);
    assert b[4..8] == LE(4, h.seqId) && b[8..12] == LE(4, h.pos) && b[12..14] == LE(2, h.nTok) && b[16..20] == LE(4, h.payloadLen);
    FieldWritten(b, 4, 4, h.seqId);
    FieldWritten(b, 8, 4, h.pos);
    FieldWritten(b, 12, 2, h.nTok);
    FieldWritten(b, 16, 4, h.payloadLen);
  }

  // ---- the payload ----

  function PayloadBytes(values: seq<U32>, d: Dtype): (r: seq<Byte>)
    ensures |r| == |values| * d.Width()
  {
    if values == [] then []
    else
      var init := values[..|values| - 1];
      assert |init| * d.Width() + d.Width() == |values| * d.Width();
      PayloadBytes(init, d) + LE(d.Width(), d.Code(values[|values| - 1]))
  }

  function Frame(seqId: U32, pos: U32, nTok: U16, values: seq<U32>, d: Dtype): seq<Byte> {
    HeaderBytes(FrameHeader(seqId, pos, nTok, values, d)) + PayloadBytes(values, d)
  }

  /** The payload length is cast to 32 bits. */
  function FrameHeader(seqId: U32, pos: U32, nTok: U16, values: seq<U32>, d: Dtype): Header {
    Header(seqId, pos, nTok, d.Tag(), 0, |values| * d.Width() % 0x1_0000_0000)
  }

  /** `ActivationFrame::encode_into` appends one frame. */
  method Encode(seqId: U32, pos: U32, nTok: U16, values: seq<U32>, d: Dtype, out: ByteBuffer)
    modifies out
    ensures out.data == old(out.data) + Frame(seqId, pos, nTok, values, d)
  {
    hide HeaderBytes, LE;
    EncodeHeader(FrameHeader(seqId, pos, nTok, values, d), out);
    ghost var start := out.data;
    for i := 0 to |values|
      invariant out.data == start + PayloadBytes(values[..i], d)
    {
      PayloadGrows(values, i, d);
      out.Extend(LE(d.Width(), d.Code(values[i])));
    }
    assert values[..|values|] == values;
  }

  lemma PayloadGrows(values: seq<U32>, i: nat, d: Dtype)
    requires i < |values|
    ensures PayloadBytes(values[..0], d) == []
    ensures PayloadBytes(values[..i + 1], d) == PayloadBytes(values[..i], d) + LE(d.Width(), d.Code(values[i]))
  {
    assert values[..i + 1][..i] == values[..i];
  }

  lemma ScalarRange(i: nat, n: nat, w: nat)
    requires i < n
    ensures i * w + w == (i + 1) * w <= n * w
  {
  }

  /** The bytes of scalar `i`. */
  function Chunk(payload: seq<Byte>, i: nat, w: nat): (r: seq<Byte>)
    requires (i + 1) * w <= |payload|
    ensures |r| == w
  {
    assert i * w + w == (i + 1) * w;
    payload[i * w..i * w + w]
  }

  /** The scalars of a payload. */
  function Scalars(payload: seq<Byte>, d: Dtype): (r: seq<U32>)
    requires |payload| % d.Width() == 0
    ensures |r| == |payload| / d.Width()
  {
    seq(|payload| / d.Width(), i requires 0 <= i < |payload| / d.Width() => ScalarAt(payload, d, i))
  }

  function ScalarAt(payload: seq<Byte>, d: Dtype, i: nat): U32
    requires |payload| % d.Width() == 0 && i < |payload| / d.Width()
  {
    ScalarRange(i, |payload| / d.Width(), d.Width());
    ReadBound(Chunk(payload, i, d.Width()));
    d.Lift(FromLE(Chunk(payload, i, d.Width())))
  }

  /** What arrives at the other end: exact for f32, rounded for bf16. */
  function Carried(values: seq<U32>, d: Dtype): (r: seq<U32>)
    ensures |r| == |values|
  {
    if d.F32? then values else seq(|values|, i requires 0 <= i < |values| => Widen(Narrow(values[i])))
  }

  lemma {:induction false} PayloadChunk(values: seq<U32>, d: Dtype, i: nat)
    requires i < |values|
    ensures (i + 1) * d.Width() <= |PayloadBytes(values, d)|
    ensures Chunk(PayloadBytes(values, d), i, d.Width()) == LE(d.Width(), d.Code(values[i]))
    decreases |values|
  {
    hide LE;
    var w, n := d.Width(), |values| - 1;
    var init := values[..n];
    ScalarRange(i, |values|, w);
    if i < n {
      PayloadChunk(init, d, i);
      ScalarRange(i, n, w);
      assert PayloadBytes(values, d)[..n * w] == PayloadBytes(init, d);
      assert Chunk(PayloadBytes(values, d), i, w) == Chunk(PayloadBytes(init, d), i, w);
    } else {
      assert Chunk(PayloadBytes(values, d), n, w) == LE(w, d.Code(values[n]));
    }
  }

  /** Reading the first `n` scalars of an encoded payload. */
  lemma PayloadRoundTrip(values: seq<U32>, d: Dtype, n: nat)
    requires n <= |values|
    ensures n * d.Width() <= |PayloadBytes(values, d)| && n * d.Width() % d.Width() == 0
    ensures Scalars(PayloadBytes(values, d)[..n * d.Width()], d) == Carried(values[..n], d)
  {
    hide LE, FromLE, PayloadBytes, Narrow, Pow256;
    var w := d.Width();
    var all := PayloadBytes(values, d);
    Whole(n, w);
    assert n * w <= |values| * w;
    var payload := all[..n * w];
    forall i | 0 <= i < n ensures Scalars(payload, d)[i] == Carried(values[..n], d)[i] {
      PayloadChunk(values, d, i);
      ScalarRange(i, n, w);
      assert Chunk(payload, i, w) == Chunk(all, i, w);
      Widths();
      FieldRead(w, d.Code(values[i]), Chunk(payload, i, w));
    }
  }

  /** The wire layout of a frame: its header, and scalar `i` in the four or two bytes from `20 + 4i` or `20 + 2i` on. */
  lemma FrameLayout(seqId: U32, pos: U32, nTok: U16, values: seq<U32>, d: Dtype)
    ensures var b, w := Frame(seqId, pos, nTok, values, d), if d.F32? then 4 else 2;
            && |b| == 20 + |values| * w && b[..4] == [77, 65, 70, 49]
            && FieldAt(b, 4, 4, seqId) && FieldAt(b, 8, 4, pos) && FieldAt(b, 12, 2, nTok)
            && b[14] == (if d.F32? then 0 else 1) && b[15] == 0 && FieldAt(b, 16, 4, |values| * w % 0x1_0000_0000)
            && forall i :: 0 <= i < |values| ==>
                 FieldAt(b, 20 + i * w, w, if d.F32? then values[i] else Narrow(values[i]))
  {
    hide LE, FieldAt, HeaderBytes, PayloadBytes, Narrow;
    var h := FrameHeader(seqId, pos, nTok, values, d);
    var b, w := Frame(seqId, pos, nTok, values, d), d.Width();
    HeaderLayout(h);
    FieldKept(HeaderBytes(h), b, 4, 4, seqId);
    FieldKept(HeaderBytes(h), b, 8, 4, pos);
    FieldKept(HeaderBytes(h), b, 12, 2, nTok);
    FieldKept(HeaderBytes(h), b, 16, 4, h.payloadLen);
    forall i | 0 <= i < |values| ensures FieldAt(b, 20 + i * w, w, d.Code(values[i])) {
      PayloadChunk(values, d, i);
      ScalarRange(i, |values|, w);
      assert b[20 + i * w..20 + i * w + w] == Chunk(PayloadBytes(values, d), i, w);
      FieldWritten(b, 20 + i * w, w, d.Code(values[i]));
    }
  }

  lemma Whole(n: nat, w: nat)
    requires w == 4 || w == 2
    ensures n * w % w == 0 && n * w / w == n
  {
  }

  // ---- the frame ----

  /** What `ActivationFrame::decode_into` makes of a byte string. */
  function Decoded(bytes: seq<Byte>): Result<(Header, seq<U32>), FrameError> {
    match DecodeHeader(bytes)
    case Err(e) => Err(e)
    case Ok(h) =>
      match FromTag(h.dtype)
      case None => Err(UnknownDtype(h.dtype))
      case Some(d) =>
        var payload := bytes[PREFIX..];
        if |payload| < h.payloadLen then Err(ShortPayload(|payload|, h.payloadLen))
        else if h.payloadLen % d.Width() != 0 then Err(RaggedPayload(h.payloadLen))
        else Ok((h, Scalars(payload[..h.payloadLen], d)))
  }

  /** Every refusal and its cause, read off the bytes in the order of the checks; what decodes holds the numbers at the
      offsets of the wire layout. */
  lemma DecodeOutcome(bytes: seq<Byte>)
    ensures match Decoded(bytes)
            case Err(ShortPrefix(n)) => n == |bytes| < 20
            case Err(BadMagic) => |bytes| >= 20 && bytes[..4] != [77, 65, 70, 49]
            case Err(ReservedSet) => |bytes| >= 20 && bytes[..4] == [77, 65, 70, 49] && bytes[15] != 0
            case Err(UnknownDtype(t)) => HeaderSound(bytes) && t == bytes[14] > 1
            case Err(ShortPayload(have, need)) =>
              HeaderSound(bytes) && bytes[14] <= 1 && have == |bytes| - 20 < need < 0x1_0000_0000 && FieldAt(bytes, 16, 4, need)
            case Err(RaggedPayload(len)) =>
              && HeaderSound(bytes) && bytes[14] <= 1 && FieldAt(bytes, 16, 4, len) && len <= |bytes| - 20
              && len % (if bytes[14] == 0 then 4 else 2) != 0
            case Ok(x) =>
              && HeaderSound(bytes) && x.0.dtype == bytes[14] <= 1 && FieldAt(bytes, 4, 4, x.0.seqId) && FieldAt(bytes, 8, 4, x.0.pos)
              && FieldAt(bytes, 12, 2, x.0.nTok) && FieldAt(bytes, 16, 4, x.0.payloadLen) && x.0.payloadLen <= |bytes| - 20
              && |x.1| * (if bytes[14] == 0 then 4 else 2) == x.0.payloadLen
  {
    hide LE, FromLE, FieldAt, Pow256;
    if |bytes| >= 20 {
      WrittenRead(bytes[4..8]);
      WrittenRead(bytes[8..12]);
      WrittenRead(bytes[12..14]);
      WrittenRead(bytes[16..20]);
      FieldWritten(bytes, 4, 4, Read32(bytes, 4));
      FieldWritten(bytes, 8, 4, Read32(bytes, 8));
      FieldWritten(bytes, 12, 2, Read16(bytes, 12));
      FieldWritten(bytes, 16, 4, Read32(bytes, 16));
    }
  }

  predicate HeaderSound(bytes: seq<Byte>) {
    |bytes| >= 20 && bytes[..4] == [77, 65, 70, 49] && bytes[15] == 0
  }

  /** A float vector whose capacity is reused. */
  class FloatBuffer {
    var data: seq<U32>

    constructor ()
    {
      data := [];
    }
  }

  /** Decodes into a reused vector; a refusal leaves the vector as it was. */
  method DecodeInto(bytes: seq<Byte>, out: FloatBuffer) returns (r: Result<Header, FrameError>)
    modifies out
    ensures match Decoded(bytes)
            case Ok(x) => r == Ok(x.0) && out.data == x.1
            case Err(e) => r == Err(e) && out.data == old(out.data)
  {
    hide DecodeHeader, LE, FromLE;
    var header := DecodeHeader(bytes);
    if header.Err? {
      return Err(header.error);
    }
    var h := header.value;
    var d := FromTag(h.dtype);
    if d.None? {
      return Err(UnknownDtype(h.dtype));
    }
    var payload := bytes[PREFIX..];
    if |payload| < h.payloadLen {
      return Err(ShortPayload(|payload|, h.payloadLen));
    }
    payload := payload[..h.payloadLen];
    var w := d.value.Width();
    if |payload| % w != 0 {
      return Err(RaggedPayload(|payload|));
    }
    var n := |payload| / w;
    out.data := seq(n, _ => 0);
    for i := 0 to n
      invariant |out.data| == n
      invariant forall j :: 0 <= j < i ==> out.data[j] == ScalarAt(payload, d.value, j)
    {
      out.data := out.data[i := ScalarAt(payload, d.value, i)];
    }
    assert out.data == Scalars(payload, d.value);
    return Ok(h);
  }

  /** How many scalars of the payload the 32-bit length field still covers. */
  function Covered(n: nat, d: Dtype): (k: nat)
    ensures k <= n && k * d.Width() == n * d.Width() % 0x1_0000_0000
    ensures k == n <==> n * d.Width() < 0x1_0000_0000
  {
    n * d.Width() % 0x1_0000_0000 / d.Width()
  }

  /** Decoding a frame gives back its header and the scalars its length field covers, whatever bytes follow: all of the
      values, exact or rounded, if and only if the payload is shorter than 2^32 bytes. */
  lemma FrameRoundTrip(seqId: U32, pos: U32, nTok: U16, values: seq<U32>, d: Dtype, trailing: seq<Byte>)
    ensures Decoded(Frame(seqId, pos, nTok, values, d) + trailing) ==
            Ok((FrameHeader(seqId, pos, nTok, values, d), Carried(values[..Covered(|values|, d)], d)))
    ensures Carried(values[..Covered(|values|, d)], d) == Carried(values, d) <==> |values| * d.Width() < 0x1_0000_0000
  {
    hide HeaderBytes, DecodeHeader, PayloadBytes, LE, Scalars, Carried, Covered;
    var h := FrameHeader(seqId, pos, nTok, values, d);
    var payload := PayloadBytes(values, d);
    var bytes := Frame(seqId, pos, nTok, values, d) + trailing;
    assert bytes == HeaderBytes(h) + (payload + trailing);
    HeaderRoundTrip(h, payload + trailing);
    var k := Covered(|values|, d);
    PayloadRoundTrip(values, d, k);
    assert bytes[PREFIX..] == payload + trailing;
    assert (payload + trailing)[..k * d.Width()] == payload[..k * d.Width()];
    if k == |values| { assert values[..k] == values; }
  }

  /** A frame cut short anywhere is refused. */
  lemma PrefixRefused(seqId: U32, pos: U32, nTok: U16, values: seq<U32>, d: Dtype, k: nat)
    requires |values| * d.Width() < 0x1_0000_0000 && k < |Frame(seqId, pos, nTok, values, d)|
    ensures Decoded(Frame(seqId, pos, nTok, values, d)[..k]).Err?
  {
    hide HeaderBytes, DecodeHeader, PayloadBytes, LE, Scalars;
    var h := FrameHeader(seqId, pos, nTok, values, d);
    var bytes := Frame(seqId, pos, nTok, values, d)[..k];
    ShortHeader(bytes);
    if k >= PREFIX {
      assert bytes == HeaderBytes(h) + bytes[PREFIX..];
      HeaderRoundTrip(h, bytes[PREFIX..]);
    }
  }

  lemma ShortHeader(bytes: seq<Byte>)
    ensures |bytes| < PREFIX ==> DecodeHeader(bytes).Err?
  {
  }

  /** Sending on what was received loses nothing more: the second frame is the first. */
  lemma Resent(seqId: U32, pos: U32, nTok: U16, values: seq<U32>, d: Dtype)
    ensures Frame(seqId, pos, nTok, Carried(values, d), d) == Frame(seqId, pos, nTok, values, d)
  {
    PayloadResent(values, d);
  }

  lemma {:induction false} PayloadResent(values: seq<U32>, d: Dtype)
    ensures PayloadBytes(Carried(values, d), d) == PayloadBytes(values, d)
  {
    hide Narrow, LE;
    if values != [] {
      var init, last := values[..|values| - 1], values[|values| - 1];
      PayloadResent(init, d);
      NarrowIdempotent(last);
      assert Carried(values, d)[..|values| - 1] == Carried(init, d);
    }
  }
}
