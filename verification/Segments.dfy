/** Layer ranges, the stage contract, and the per-range cache segment: written, restored, refused. */
module Segments {
  import opened Prelude
  import opened Wire
  import opened Bf16
  import opened Frames

  // ---- layer windows and the stage contract ----

  /** A half-open window of layers. */
  datatype LayerRange = LayerRange(lo: U32, hi: U32) {
    predicate Ok(nLayer: nat) { lo < hi <= nLayer }
    predicate IsFirst() { lo == 0 }
    predicate IsLast(nLayer: nat) { hi == nLayer }
  }

  datatype StageError =
    | EmptyRange(r: LayerRange)
    | PastEnd(r: LayerRange, nLayer: nat)
    | ArchMismatch
    | GeometryMismatch
    | ArtifactMismatch
    | DtypeMismatch
    | NoTile(upstream: LayerRange, downstream: LayerRange)

  function Validate(r: LayerRange, nLayer: nat): (e: Option<StageError>)
    ensures e.None? <==> r.Ok(nLayer)
    ensures e == Some(EmptyRange(r)) <==> r.lo >= r.hi
    ensures e == Some(PastEnd(r, nLayer)) <==> r.lo < r.hi && r.hi > nLayer
  {
    if r.lo >= r.hi then Some(EmptyRange(r))
    else if r.hi > nLayer then Some(PastEnd(r, nLayer))
    else None
  }

  datatype Handshake = Handshake(arch: string, geometry: seq<Byte>, artifact: seq<Byte>, range: LayerRange, dtype: Dtype)

  /** One model, one set of weights and one activation dtype on both sides. */
  predicate SameModel(a: Handshake, b: Handshake) {
    a.arch == b.arch && a.geometry == b.geometry && a.artifact == b.artifact && a.dtype == b.dtype
  }

  /** `StageHandshake::verify_pair`: a pair passes exactly when the identities agree, both windows lie within the model and
      the downstream one starts where the upstream one ends. A refusal names the first mismatch in the order of the fields. */
  function VerifyPair(down: Handshake, up: Handshake, nLayer: nat): (e: Option<StageError>)
    ensures e.None? <==>
              && SameModel(down, up) && up.range.lo < up.range.hi == down.range.lo < down.range.hi <= nLayer
    ensures e == Some(ArchMismatch) <==> down.arch != up.arch
    ensures e == Some(GeometryMismatch) <==> down.arch == up.arch && down.geometry != up.geometry
    ensures e == Some(ArtifactMismatch) <==>
              down.arch == up.arch && down.geometry == up.geometry && down.artifact != up.artifact
    ensures e == Some(DtypeMismatch) <==>
              down.arch == up.arch && down.geometry == up.geometry && down.artifact == up.artifact && down.dtype != up.dtype
    ensures e.Some? && e.value.EmptyRange? <==>
              SameModel(down, up) && (up.range.lo >= up.range.hi || (up.range.hi <= nLayer && down.range.lo >= down.range.hi))
    ensures e.Some? && e.value.EmptyRange? ==> e.value.r == if up.range.lo >= up.range.hi then up.range else down.range
    ensures e.Some? && e.value.PastEnd? <==>
              && SameModel(down, up) && up.range.lo < up.range.hi
              && (up.range.hi > nLayer || (down.range.lo < down.range.hi && down.range.hi > nLayer))
    ensures e.Some? && e.value.PastEnd? ==> e.value == PastEnd(if up.range.hi > nLayer then up.range else down.range, nLayer)
    ensures e.Some? && e.value.NoTile? ==> e.value == NoTile(up.range, down.range) && up.range.hi != down.range.lo
  {
    if down.arch != up.arch then Some(ArchMismatch)
    else if down.geometry != up.geometry then Some(GeometryMismatch)
    else if down.artifact != up.artifact then Some(ArtifactMismatch)
    else if down.dtype != up.dtype then Some(DtypeMismatch)
    else if !up.range.Ok(nLayer) then Validate(up.range, nLayer)
    else if !down.range.Ok(nLayer) then Validate(down.range, nLayer)
    else if up.range.hi != down.range.lo then Some(NoTile(up.range, down.range))
    else None
  }

  /** A pipeline: every adjacent pair passes, the first stage is first and the last is last. */
  ghost predicate Pipeline(stages: seq<Handshake>, nLayer: nat) {
    && stages != [] && stages[0].range.IsFirst() && stages[|stages| - 1].range.IsLast(nLayer)
    && forall i :: 0 < i < |stages| ==> VerifyPair(stages[i], stages[i - 1], nLayer) == None
  }

  /** The layers the stages run, one stage after the other. */
  function LayersRun(stages: seq<Handshake>): seq<nat> {
    if stages == [] then []
    else
      var r := stages[|stages| - 1].range;
      LayersRun(stages[..|stages| - 1]) + (if r.lo < r.hi then seq(r.hi - r.lo, i requires 0 <= i => r.lo + i) else [])
  }

  lemma {:induction false} LayersUpTo(stages: seq<Handshake>, nLayer: nat)
    requires stages != [] && stages[0].range.lo == 0 && stages[0].range.lo < stages[0].range.hi
    requires forall i :: 0 < i < |stages| ==> VerifyPair(stages[i], stages[i - 1], nLayer) == None
    ensures LayersRun(stages) == seq(stages[|stages| - 1].range.hi, i => i)
  {
    var n := |stages| - 1;
    if n == 0 {
      assert stages[..0] == [] && LayersRun([]) == [];
    } else {
      LayersUpTo(stages[..n], nLayer);
      assert VerifyPair(stages[n], stages[n - 1], nLayer) == None;
    }
  }

  /** Whatever its stages, a pipeline runs every layer exactly once, in order, on one model, one set of weights and one
      activation dtype. */
  lemma PipelineRunsAll(stages: seq<Handshake>, nLayer: nat)
    requires Pipeline(stages, nLayer) && nLayer > 0
    ensures LayersRun(stages) == seq(nLayer, i => i)
    ensures forall i :: 0 <= i < |stages| ==>
              && stages[i].arch == stages[0].arch && stages[i].geometry == stages[0].geometry
              && stages[i].artifact == stages[0].artifact && stages[i].dtype == stages[0].dtype
  {
    if |stages| > 1 { assert VerifyPair(stages[1], stages[0], nLayer) == None; }
    LayersUpTo(stages, nLayer);
    forall i | 0 <= i < |stages|
      ensures stages[i].arch == stages[0].arch && stages[i].geometry == stages[0].geometry
      ensures stages[i].artifact == stages[0].artifact && stages[i].dtype == stages[0].dtype
    {
      OneModel(stages, nLayer, i);
    }
  }

  lemma {:induction false} OneModel(stages: seq<Handshake>, nLayer: nat, i: nat)
    requires i < |stages| && forall k :: 0 < k < |stages| ==> VerifyPair(stages[k], stages[k - 1], nLayer) == None
    ensures stages[i].arch == stages[0].arch && stages[i].geometry == stages[0].geometry
    ensures stages[i].artifact == stages[0].artifact && stages[i].dtype == stages[0].dtype
  {
    if i > 0 {
      OneModel(stages, nLayer, i - 1);
      assert VerifyPair(stages[i], stages[i - 1], nLayer) == None;
    }
  }

  /** The stages of one model cut at the given points. */
  function Cut(h: Handshake, points: seq<U32>): (stages: seq<Handshake>)
    requires points != []
    ensures |stages| == |points| - 1
  {
    seq(|points| - 1, i requires 0 <= i < |points| - 1 => h.(range := LayerRange(points[i], points[i + 1])))
  }

  /** Cutting the layers at any increasing points gives a pipeline, and there is no other: the stage contract refuses no
      correct placement and lets no wrong one pass. */
  lemma PipelineIff(stages: seq<Handshake>, nLayer: nat)
    requires nLayer > 0
    ensures Pipeline(stages, nLayer) <==>
            exists h: Handshake, points: seq<U32> ::
              && |points| > 1 && StrictlySorted(points) && points[0] == 0 && points[|points| - 1] == nLayer
              && stages == Cut(h, points)
  {
    if Pipeline(stages, nLayer) {
      var points := PointsOf(stages, nLayer);
      forall i | 0 <= i < |stages| ensures SameModel(stages[i], stages[0]) { OneModel(stages, nLayer, i); }
      assert stages == Cut(stages[0], points);
    } else if h: Handshake, points: seq<U32> :|
      && |points| > 1 && StrictlySorted(points) && points[0] == 0 && points[|points| - 1] == nLayer && stages == Cut(h, points) {
      CutPasses(h, points, nLayer);
      assert false;
    }
  }

  lemma CutPasses(h: Handshake, points: seq<U32>, nLayer: nat)
    requires |points| > 1 && StrictlySorted(points) && points[0] == 0 && points[|points| - 1] == nLayer
    ensures Pipeline(Cut(h, points), nLayer)
  {
    var stages := Cut(h, points);
    forall i | 0 < i < |stages| ensures VerifyPair(stages[i], stages[i - 1], nLayer) == None {
      assert points[i - 1] < points[i] < points[i + 1] <= points[|points| - 1];
    }
  }

  /** The boundaries of a pipeline. */
  lemma PointsOf(stages: seq<Handshake>, nLayer: nat) returns (points: seq<U32>)
    requires Pipeline(stages, nLayer) && nLayer > 0
    ensures |points| == |stages| + 1 && StrictlySorted(points) && points[0] == 0 && points[|stages|] == nLayer
    ensures forall i :: 0 <= i < |stages| ==> stages[i].range == LayerRange(points[i], points[i + 1])
  {
    var n := |stages|;
    points := seq(n + 1, i requires 0 <= i <= n => if i < n then stages[i].range.lo else stages[n - 1].range.hi);
    forall i | 0 <= i < n ensures points[i] < points[i + 1] && stages[i].range.hi == points[i + 1] {
      if i + 1 < n { assert VerifyPair(stages[i + 1], stages[i], nLayer) == None; }
      if i > 0 { assert VerifyPair(stages[i], stages[i - 1], nLayer) == None; }
    }
    StepsSorted(points);
  }

  lemma {:induction false} StepsSorted(points: seq<U32>)
    requires forall i :: 0 < i < |points| ==> points[i - 1] < points[i]
    ensures StrictlySorted(points)
  {
    if points != [] {
      var n := |points| - 1;
      StepsSorted(points[..n]);
      forall i, j | 0 <= i < j < |points| ensures points[i] < points[j] {
        if j == n && i < n - 1 { assert points[..n][i] < points[..n][n - 1]; }
        if j < n { assert points[..n][i] < points[..n][j]; }
      }
    }
  }

  // ---- the cache ----

  datatype LayerType = Attention | DeltaNet

  /** The state one layer keeps, as the two buffers a segment carries for it: key and value rows of an attention layer,
      recurrent and convolution state of a DeltaNet layer. */
  datatype LayerState = LayerState(first: seq<U32>, second: seq<U32>)

  /** The cache of a model: every layer has a key and a value buffer, and a recurrent and a convolution buffer. */
  class HybridCache {
    var kv: seq<LayerState>
    var gdn: seq<LayerState>
    var fillPos: nat

    constructor (kv0: seq<LayerState>, gdn0: seq<LayerState>, fill: nat)
      ensures kv == kv0 && gdn == gdn0 && fillPos == fill
    {
      kv, gdn, fillPos := kv0, gdn0, fill;
    }
  }

  /** What a segment carries of layer `i`. */
  function Slot(kv: seq<LayerState>, gdn: seq<LayerState>, types: seq<LayerType>, i: nat): LayerState
    requires i < |types| == |kv| == |gdn|
  {
    if types[i].Attention? then kv[i] else gdn[i]
  }

  /** The layer count as the 32-bit number the code works with. */
  function Count(types: seq<LayerType>): (n: U32)
    ensures n <= |types|
    ensures |types| < 0x1_0000_0000 ==> n == |types|
  {
    |types| % 0x1_0000_0000
  }

  datatype SegmentError =
    | BadRange(e: StageError)
    | CacheShape
    | Truncated
    | NotASegment
    | HeaderMismatch
    | LayerShape(layer: nat)
    | KindMismatch(layer: nat)

  // ---- the wire form ----

  const MHS1: seq<Byte> := [77, 72, 83, 49]

  function Kind(t: LayerType): Byte { if t.Attention? then 0 else 1 }

  /** A length-prefixed vector of 32-bit patterns. */
  function VectorBytes(v: seq<U32>): seq<Byte> {
    LE(4, |v|) + PayloadBytes(v, F32)
  }

  function LayerBytes(t: LayerType, s: LayerState): seq<Byte> {
    [Kind(t), 0, 0, 0] + VectorBytes(s.first) + VectorBytes(s.second)
  }

  function HeadBytes(r: LayerRange, nLayer: U32, fill: nat): (b: seq<Byte>)
    ensures |b| == 20
  {
    MHS1 + LE(4, r.lo) + LE(4, r.hi) + LE(4, nLayer) + LE(4, fill)
  }

  /** The layers `[lo, hi)`, one after the other. */
  function Body(kv: seq<LayerState>, gdn: seq<LayerState>, types: seq<LayerType>, lo: nat, hi: nat): seq<Byte>
    requires lo <= hi <= |types| == |kv| == |gdn|
    decreases hi - lo
  {
    if lo == hi then [] else LayerBytes(types[lo], Slot(kv, gdn, types, lo)) + Body(kv, gdn, types, lo + 1, hi)
  }

  function Segment(kv: seq<LayerState>, gdn: seq<LayerState>, types: seq<LayerType>, r: LayerRange, fill: nat): seq<Byte>
    requires |types| == |kv| == |gdn| && r.Ok(Count(types))
  {
    HeadBytes(r, Count(types), fill) + Body(kv, gdn, types, r.lo, r.hi)
  }

  lemma BodyUnfold(kv: seq<LayerState>, gdn: seq<LayerState>, types: seq<LayerType>, lo: nat, hi: nat)
    requires lo <= hi <= |types| == |kv| == |gdn|
    ensures lo == hi ==> Body(kv, gdn, types, lo, hi) == []
    ensures lo < hi ==> Body(kv, gdn, types, lo, hi) ==
                        LayerBytes(types[lo], Slot(kv, gdn, types, lo)) + Body(kv, gdn, types, lo + 1, hi)
  {
    hide LayerBytes, Slot;
  }

  lemma {:induction false} BodyGrows(kv: seq<LayerState>, gdn: seq<LayerState>, types: seq<LayerType>, lo: nat, i: nat)
    requires lo <= i < |types| == |kv| == |gdn|
    ensures Body(kv, gdn, types, lo, i + 1) == Body(kv, gdn, types, lo, i) + LayerBytes(types[i], Slot(kv, gdn, types, i))
    decreases i - lo
  {
    hide LayerBytes, Slot, Body;
    BodyUnfold(kv, gdn, types, lo, i);
    BodyUnfold(kv, gdn, types, lo, i + 1);
    if lo == i {
      BodyUnfold(kv, gdn, types, i + 1, i + 1);
      var last := LayerBytes(types[i], Slot(kv, gdn, types, i));
      assert last + [] == last == [] + last;
    } else {
      BodyGrows(kv, gdn, types, lo + 1, i);
      var first := LayerBytes(types[lo], Slot(kv, gdn, types, lo));
      var middle, last := Body(kv, gdn, types, lo + 1, i), LayerBytes(types[i], Slot(kv, gdn, types, i));
      assert first + (middle + last) == (first + middle) + last;
    }
  }

  /** `HybridStateSegment::encode_into` */
  method EncodeInto(cache: HybridCache, types: seq<LayerType>, r: LayerRange, out: ByteBuffer) returns (e: Option<SegmentError>)
    modifies out
    ensures e.None? <==> r.Ok(Count(types)) && |cache.kv| == |types| == |cache.gdn|
    ensures e.Some? ==> e.value == if r.Ok(Count(types)) then CacheShape else BadRange(Validate(r, Count(types)).value)
    ensures e.None? ==> out.data == old(out.data) + Segment(cache.kv, cache.gdn, types, r, cache.fillPos)
    ensures e.Some? ==> out.data == old(out.data)
  {
    hide LE, VectorBytes, Count, Slot, Body;
    var bad := Validate(r, Count(types));
    if bad.Some? {
      return Some(BadRange(bad.value));
    }
    if |cache.kv| != |types| || |cache.gdn| != |types| {
      return Some(CacheShape);
    }
    ghost var before := out.data;
    out.Extend(MHS1);
    out.Extend(LE(4, r.lo));
    out.Extend(LE(4, r.hi));
    out.Extend(LE(4, Count(types)));
    out.Extend(LE(4, cache.fillPos));
    assert out.data == before + HeadBytes(r, Count(types), cache.fillPos);
    var i: nat := r.lo;
    BodyUnfold(cache.kv, cache.gdn, types, r.lo, r.lo);
    while i < r.hi
      invariant r.lo <= i <= r.hi
      invariant out.data == before + HeadBytes(r, Count(types), cache.fillPos) + Body(cache.kv, cache.gdn, types, r.lo, i)
    {
      var s := Slot(cache.kv, cache.gdn, types, i);
      BodyGrows(cache.kv, cache.gdn, types, r.lo, i);
      out.Extend([Kind(types[i]), 0, 0, 0]);
      out.Extend(VectorBytes(s.first));
      out.Extend(VectorBytes(s.second));
      i := i + 1;
    }
    return None;
  }

  // ---- reading ----

  /** A vector at the front of a byte string, with what follows it; `None` when the string ends too early. */
  function TakeVector(bytes: seq<Byte>): (r: Option<(seq<U32>, seq<Byte>)>)
    ensures r.Some? ==> |r.value.1| < |bytes|
  {
    if |bytes| < 4 then None
    else
      var n := Read32(bytes, 0);
      if |bytes| < 4 + n * 4 then None
      else Some((Scalars(bytes[4..4 + n * 4], F32), bytes[4 + n * 4..]))
  }

  /** One layer at the front of a byte string: its state and what follows. */
  function TakeLayer(bytes: seq<Byte>, i: nat, t: LayerType, shape: LayerState): Result<(LayerState, seq<Byte>), SegmentError> {
    if |bytes| < 4 then Err(Truncated)
    else if bytes[0] != Kind(t) then Err(KindMismatch(i))
    else
      match TakeVector(bytes[4..])
      case None => Err(Truncated)
      case Some(a) =>
        match TakeVector(a.1)
        case None => Err(Truncated)
        case Some(b) =>
          if |shape.first| != |a.0| || |shape.second| != |b.0| then Err(LayerShape(i))
          else Ok((LayerState(a.0, b.0), b.1))
  }

  /** The header of a segment for exactly this range of a model with this many layers: its fill position. */
  function TakeHead(bytes: seq<Byte>, r: LayerRange, nLayer: U32): Result<U32, SegmentError> {
    if |bytes| < 4 then Err(Truncated)
    else if bytes[..4] != MHS1 then Err(NotASegment)
    else if |bytes| < 20 then Err(Truncated)
    else if Read32(bytes, 4) != r.lo || Read32(bytes, 8) != r.hi || Read32(bytes, 12) != nLayer then Err(HeaderMismatch)
    else Ok(Read32(bytes, 16))
  }

  /** A vector written is the vector read, whatever follows. */
  lemma VectorRoundTrip(v: seq<U32>, rest: seq<Byte>)
    requires |v| < 0x1_0000_0000
    ensures TakeVector(VectorBytes(v) + rest) == Some((v, rest))
  {
    hide LE, FromLE, PayloadBytes, Scalars, Pow256;
    var bytes := VectorBytes(v) + rest;
    Widths();
    assert bytes[0..4] == LE(4, |v|);
    FieldRead(4, |v|, bytes[0..4]);
    PayloadRoundTrip(v, F32, |v|);
    assert v[..|v|] == v;
    assert bytes[4..4 + |v| * 4] == PayloadBytes(v, F32) == PayloadBytes(v, F32)[..|v| * 4];
    assert bytes[4 + |v| * 4..] == rest;
  }

  /** A vector cut short is not read. */
  lemma VectorCut(v: seq<U32>, bytes: seq<Byte>)
    requires |v| < 0x1_0000_0000 && bytes < VectorBytes(v)
    ensures TakeVector(bytes) == None
  {
    hide LE, FromLE, Pow256;
    if |bytes| >= 4 {
      Widths();
      assert bytes[0..4] == VectorBytes(v)[0..4] == LE(4, |v|);
      FieldRead(4, |v|, bytes[0..4]);
    }
  }

  /** Both vectors fit their 32-bit length prefix. */
  predicate Small(s: LayerState) {
    |s.first| < 0x1_0000_0000 && |s.second| < 0x1_0000_0000
  }

  /** No bytes at all restore a layer with a vector of 2^32 entries or more: its length prefix was cut. */
  lemma LongRefused(bytes: seq<Byte>, i: nat, t: LayerType, shape: LayerState)
    requires !Small(shape)
    ensures TakeLayer(bytes, i, t, shape).Err?
  {
    if |bytes| >= 4 {
      var a := TakeVector(bytes[4..]);
      if a.Some? {
        TakenShort(bytes[4..]);
        TakenShort(a.value.1);
      }
    }
  }

  lemma TakenShort(bytes: seq<Byte>)
    ensures var r := TakeVector(bytes); r.Some? ==> |r.value.0| < 0x1_0000_0000
  {
    if |bytes| >= 4 {
      hide FromLE, Scalars;
      var n: nat := Read32(bytes, 0);
      if |bytes| >= 4 + n * 4 { ScalarCount(bytes, n); }
    }
  }

  lemma ScalarCount(bytes: seq<Byte>, n: nat)
    requires |bytes| >= 4 + n * 4
    ensures |Scalars(bytes[4..4 + n * 4], F32)| == n
  {
    assert |bytes[4..4 + n * 4]| == n * 4;
  }

  predicate SameShape(s: LayerState, t: LayerState) {
    |s.first| == |t.first| && |s.second| == |t.second|
  }

  lemma LayerRoundTrip(i: nat, t: LayerType, s: LayerState, shape: LayerState, rest: seq<Byte>)
    requires Small(s) && SameShape(s, shape)
    ensures TakeLayer(LayerBytes(t, s) + rest, i, t, shape) == Ok((s, rest))
  {
    hide VectorBytes, TakeVector;
    var bytes := LayerBytes(t, s) + rest;
    assert bytes[4..] == VectorBytes(s.first) + (VectorBytes(s.second) + rest);
    VectorRoundTrip(s.first, VectorBytes(s.second) + rest);
    VectorRoundTrip(s.second, rest);
  }

  /** A layer cut short is refused. */
  lemma LayerCut(i: nat, t: LayerType, s: LayerState, shape: LayerState, bytes: seq<Byte>)
    requires Small(s) && bytes < LayerBytes(t, s)
    ensures TakeLayer(bytes, i, t, shape) == Err(Truncated)
  {
    hide VectorBytes, TakeVector;
    var all := LayerBytes(t, s);
    if |bytes| >= 4 {
      assert bytes[0] == all[0];
      var a, b := VectorBytes(s.first), VectorBytes(s.second);
      var tail := bytes[4..];
      assert all[4..] == a + b && tail < a + b;
      if |tail| < |a| {
        assert tail < a;
        VectorCut(s.first, tail);
      } else {
        var more := tail[|a|..];
        assert tail == a + more && more < b;
        VectorRoundTrip(s.first, more);
        VectorCut(s.second, more);
      }
    }
  }

  // ---- what the bytes mean ----

  /** A length-prefixed vector at an offset. */
  ghost predicate VectorAt(b: seq<Byte>, at: nat, v: seq<U32>) {
    && at + 4 + 4 * |v| <= |b| && FieldAt(b, at, 4, |v|)
    && forall i :: 0 <= i < |v| ==> FieldAt(b, at + 4 + 4 * i, 4, v[i])
  }

  lemma VectorWritten(b: seq<Byte>, at: nat, v: seq<U32>)
    requires at + 4 + 4 * |v| <= |b| && b[at..at + 4 + 4 * |v|] == VectorBytes(v)
    ensures VectorAt(b, at, v)
  {
    hide LE, FieldAt, PayloadBytes;
    var whole := VectorBytes(v);
    assert b[at..at + 4] == whole[..4] == LE(4, |v|);
    FieldWritten(b, at, 4, |v|);
    var payload := PayloadBytes(v, F32);
    assert payload == whole[4..] == b[at + 4..at + 4 + 4 * |v|];
    forall i | 0 <= i < |v| ensures FieldAt(b, at + 4 + 4 * i, 4, v[i]) {
      PayloadChunk(v, F32, i);
      ScalarRange(i, |v|, 4);
      SliceOfSlice(b, at + 4, at + 4 + 4 * |v|, i * 4, i * 4 + 4);
      FieldWritten(b, at + 4 + 4 * i, 4, v[i]);
    }
  }

  /** The wire layout of a segment's header, "MHS1" and four numbers, and of one layer: kind 0 with keys and values or kind
      1 with recurrent and convolution state, three zero bytes, both vectors with their lengths. */
  lemma SegmentLayout(r: LayerRange, nLayer: U32, fill: nat, t: LayerType, s: LayerState)
    ensures var b := HeadBytes(r, nLayer, fill);
            && b[..4] == [77, 72, 83, 49] && FieldAt(b, 4, 4, r.lo) && FieldAt(b, 8, 4, r.hi)
            && FieldAt(b, 12, 4, nLayer) && FieldAt(b, 16, 4, fill)
    ensures var b := LayerBytes(t, s);
            && |b| == 12 + 4 * |s.first| + 4 * |s.second| && b[..4] == [if t == Attention then 0 else 1, 0, 0, 0]
            && VectorAt(b, 4, s.first) && VectorAt(b, 8 + 4 * |s.first|, s.second)
  {
    hide LE, FieldAt, PayloadBytes, VectorAt, Body;
    var b := HeadBytes(r, nLayer, fill);
    assert b[4..8] == LE(4, r.lo) && b[8..12] == LE(4, r.hi) && b[12..16] == LE(4, nLayer) && b[16..20] == LE(4, fill);
    FieldWritten(b, 4, 4, r.lo);
    FieldWritten(b, 8, 4, r.hi);
    FieldWritten(b, 12, 4, nLayer);
    FieldWritten(b, 16, 4, fill);
    var l := LayerBytes(t, s);
    assert l[4..8 + 4 * |s.first|] == VectorBytes(s.first);
    assert l[8 + 4 * |s.first|..12 + 4 * |s.first| + 4 * |s.second|] == VectorBytes(s.second);
    VectorWritten(l, 4, s.first);
    VectorWritten(l, 8 + 4 * |s.first|, s.second);
  }

  /** A header is taken exactly when it is the header of this range of this model, for some fill position; a refusal says
      what the bytes lack. */
  lemma HeadOutcome(bytes: seq<Byte>, r: LayerRange, nLayer: U32)
    ensures match TakeHead(bytes, r, nLayer)
            case Ok(fill) => |bytes| >= 20 && bytes[..20] == HeadBytes(r, nLayer, fill)
            case Err(e) =>
              && (|bytes| >= 20 ==> forall fill :: bytes[..20] != HeadBytes(r, nLayer, fill))
              && (e == Truncated <==> |bytes| < 4 || (|bytes| < 20 && bytes[..4] == [77, 72, 83, 49]))
              && (e == NotASegment <==> |bytes| >= 4 && bytes[..4] != [77, 72, 83, 49])
              && (e == HeaderMismatch <==> |bytes| >= 20 && bytes[..4] == [77, 72, 83, 49])
  {
    hide LE, FromLE, Pow256;
    if |bytes| >= 20 {
      var fill := Read32(bytes, 16);
      WrittenRead(bytes[4..8]);
      WrittenRead(bytes[8..12]);
      WrittenRead(bytes[12..16]);
      WrittenRead(bytes[16..20]);
      if TakeHead(bytes, r, nLayer).Ok? {
        assert bytes[..20] == bytes[..4] + bytes[4..8] + bytes[8..12] + bytes[12..16] + bytes[16..20];
      }
      forall fill | bytes[..20] == HeadBytes(r, nLayer, fill) ensures TakeHead(bytes, r, nLayer).Ok? {
        assert bytes == HeadBytes(r, nLayer, fill) + bytes[20..];
        HeadRoundTrip(r, nLayer, fill, bytes[20..]);
      }
    }
  }

  /** What is read of a vector is what was written of it. */
  lemma VectorUnique(bytes: seq<Byte>)
    ensures match TakeVector(bytes)
            case Some(x) => bytes == VectorBytes(x.0) + x.1 && |x.0| < 0x1_0000_0000
            case None => |bytes| < 4 || |bytes| < 4 + Read32(bytes, 0) * 4
  {
    hide LE, FromLE, Pow256;
    if |bytes| >= 4 {
      var n: nat := Read32(bytes, 0);
      if |bytes| >= 4 + n * 4 {
        WrittenRead(bytes[0..4]);
        var payload := bytes[4..4 + n * 4];
        PayloadRead(payload);
        assert bytes == bytes[0..4] + payload + bytes[4 + n * 4..];
      }
    }
  }

  /** Writing the scalars of a payload of whole f32 words gives the payload back. */
  lemma {:induction false} PayloadRead(payload: seq<Byte>)
    requires |payload| % 4 == 0
    ensures PayloadBytes(Scalars(payload, F32), F32) == payload
    decreases |payload|
  {
    hide LE, FromLE, Pow256;
    if payload != [] {
      var k := |payload| - 4;
      var init, last := payload[..k], payload[k..];
      var values := Scalars(payload, F32);
      var n := |values| - 1;
      PayloadRead(init);
      WrittenRead(last);
      assert Chunk(payload, n, 4) == last;
      forall i | 0 <= i < n ensures values[i] == Scalars(init, F32)[i] {
        ScalarRange(i, n, 4);
        SliceOfSlice(payload, 0, k, i * 4, i * 4 + 4);
      }
      assert values[..n] == Scalars(init, F32);
      assert payload == init + last;
    }
  }

  /** The bytes of one layer, up to the three reserved ones, which a restore does not look at. */
  ghost predicate LayerSent(bytes: seq<Byte>, t: LayerType, s: LayerState) {
    var b := LayerBytes(t, s);
    |b| <= |bytes| && bytes[0] == b[0] && bytes[4..|b|] == b[4..]
  }

  /** A layer is taken exactly when its bytes come first, for a state of the expected shape whose vectors fit their
      prefixes; a refusal says what is wrong with them. */
  lemma LayerOutcome(bytes: seq<Byte>, i: nat, t: LayerType, shape: LayerState)
    ensures match TakeLayer(bytes, i, t, shape)
            case Ok(x) =>
              && SameShape(x.0, shape) && Small(x.0) && LayerSent(bytes, t, x.0) && x.1 == bytes[|LayerBytes(t, x.0)|..]
            case Err(e) =>
              && (forall s :: SameShape(s, shape) && Small(s) ==> !LayerSent(bytes, t, s))
              && (e == KindMismatch(i) <==> |bytes| >= 4 && bytes[0] != (if t == Attention then 0 else 1))
              && (e == LayerShape(i) <==>
                    exists s: LayerState :: LayerSent(bytes, t, s) && Small(s) && !SameShape(s, shape))
              && (e == KindMismatch(i) || e == LayerShape(i) || e == Truncated)
  {
    hide VectorBytes, TakeVector;
    var taken := TakeLayer(bytes, i, t, shape);
    if |bytes| >= 4 && bytes[0] == Kind(t) {
      VectorUnique(bytes[4..]);
      var a := TakeVector(bytes[4..]);
      if a.Some? {
        VectorUnique(a.value.1);
        var b := TakeVector(a.value.1);
        if b.Some? {
          var s := LayerState(a.value.0, b.value.0);
          LayerRead(bytes, t, s, b.value.1);
        }
      }
    }
    forall s | Small(s) && LayerSent(bytes, t, s)
      ensures taken == if SameShape(s, shape) then Ok((s, bytes[|LayerBytes(t, s)|..])) else Err(LayerShape(i))
    {
      SentTaken(bytes, i, t, s, shape);
    }
  }

  lemma LayerRead(bytes: seq<Byte>, t: LayerType, s: LayerState, rest: seq<Byte>)
    requires |bytes| >= 4 && bytes[0] == Kind(t) && bytes[4..] == VectorBytes(s.first) + (VectorBytes(s.second) + rest)
    ensures LayerSent(bytes, t, s) && rest == bytes[|LayerBytes(t, s)|..]
  {
    hide VectorBytes;
    var vectors := VectorBytes(s.first) + VectorBytes(s.second);
    assert LayerBytes(t, s)[4..] == vectors;
    assert bytes[4..] == vectors + rest;
    assert bytes[4..4 + |vectors|] == vectors && bytes[4 + |vectors|..] == rest;
  }

  lemma SentTaken(bytes: seq<Byte>, i: nat, t: LayerType, s: LayerState, shape: LayerState)
    requires Small(s) && LayerSent(bytes, t, s)
    ensures TakeLayer(bytes, i, t, shape) ==
            if SameShape(s, shape) then Ok((s, bytes[|LayerBytes(t, s)|..])) else Err(LayerShape(i))
  {
    hide VectorBytes, TakeVector;
    var b := LayerBytes(t, s);
    var rest := bytes[|b|..];
    assert bytes[4..] == bytes[4..|b|] + rest && b[4..] == VectorBytes(s.first) + VectorBytes(s.second);
    assert bytes[4..] == VectorBytes(s.first) + (VectorBytes(s.second) + rest);
    VectorRoundTrip(s.first, VectorBytes(s.second) + rest);
    VectorRoundTrip(s.second, rest);
  }

  // ---- restoring ----

  /** The cache after the layers from `i` to `hi` have been read, or as far as they could be. */
  datatype Restored = Restored(kv: seq<LayerState>, gdn: seq<LayerState>, error: Option<SegmentError>)

  function RestoreFrom(bytes: seq<Byte>, kv: seq<LayerState>, gdn: seq<LayerState>, types: seq<LayerType>, i: nat, hi: nat): Restored
    requires i <= hi <= |types| == |kv| == |gdn|
    decreases hi - i
  {
    if i == hi then Restored(kv, gdn, None)
    else
      match TakeLayer(bytes, i, types[i], Slot(kv, gdn, types, i))
      case Err(e) => Restored(kv, gdn, Some(e))
      case Ok(x) =>
        if types[i].Attention? then RestoreFrom(x.1, kv[i := x.0], gdn, types, i + 1, hi)
        else RestoreFrom(x.1, kv, gdn[i := x.0], types, i + 1, hi)
  }

  /** Why a restore is refused before any layer is touched, in the order of the checks. */
  function RestoreRefusal(bytes: seq<Byte>, kvLayers: nat, types: seq<LayerType>, r: LayerRange): Option<SegmentError> {
    match Validate(r, Count(types))
    case Some(e) => Some(BadRange(e))
    case None =>
      match TakeHead(bytes, r, Count(types))
      case Err(e) => Some(e)
      case Ok(_) => if kvLayers != |types| then Some(CacheShape) else None
  }

  /** `HybridStateSegment::restore_into`: layers are written as they are read, the tracker only after the last. The
      caller's cache is shaped for the model. */
  method RestoreInto(bytes: seq<Byte>, cache: HybridCache, types: seq<LayerType>, r: LayerRange) returns (e: Option<SegmentError>)
    requires |cache.gdn| == |types|
    modifies cache
    ensures match RestoreRefusal(bytes, old(|cache.kv|), types, r)
            case Some(refusal) => e == Some(refusal) && cache.kv == old(cache.kv) && cache.gdn == old(cache.gdn)
            case None =>
              && |bytes| >= 20 && r.Ok(Count(types)) && |old(cache.kv)| == |types|
              && var after := RestoreFrom(bytes[20..], old(cache.kv), old(cache.gdn), types, r.lo, r.hi);
              cache.kv == after.kv && cache.gdn == after.gdn && e == after.error
    ensures e == RestoreError(bytes, old(cache.kv), old(cache.gdn), types, r)
    ensures cache.fillPos == if e.None? && |bytes| >= 20 then Read32(bytes, 16) else old(cache.fillPos)
  {
    hide TakeLayer, FromLE, Count;
    var bad := Validate(r, Count(types));
    if bad.Some? {
      return Some(BadRange(bad.value));
    }
    var head := TakeHead(bytes, r, Count(types));
    if head.Err? {
      return Some(head.error);
    }
    if |cache.kv| != |types| {
      return Some(CacheShape);
    }
    ghost var after := RestoreFrom(bytes[20..], cache.kv, cache.gdn, types, r.lo, r.hi);
    var rest := bytes[20..];
    var i: nat := r.lo;
    while i < r.hi
      invariant r.lo <= i <= r.hi && |cache.kv| == |types| == |cache.gdn| && cache.fillPos == old(cache.fillPos)
      invariant after == RestoreFrom(rest, cache.kv, cache.gdn, types, i, r.hi)
    {
      var taken := TakeLayer(rest, i, types[i], Slot(cache.kv, cache.gdn, types, i));
      if taken.Err? {
        return Some(taken.error);
      }
      if types[i].Attention? {
        cache.kv := cache.kv[i := taken.value.0];
      } else {
        cache.gdn := cache.gdn[i := taken.value.0];
      }
      rest := taken.value.1;
      i := i + 1;
    }
    cache.fillPos := head.value;
    return None;
  }

  // ---- what a restore does ----

  /** The target cache with the layers of `[lo, hi)` taken over from the source. */
  function Overlaid(kv: seq<LayerState>, gdn: seq<LayerState>, kv0: seq<LayerState>, gdn0: seq<LayerState>, types: seq<LayerType>,
                    lo: nat, hi: nat): (r: (seq<LayerState>, seq<LayerState>))
    requires |types| == |kv| == |gdn| == |kv0| == |gdn0|
    ensures |r.0| == |r.1| == |types|
  {
    (seq(|types|, i requires 0 <= i < |types| => if lo <= i < hi && types[i].Attention? then kv[i] else kv0[i]),
     seq(|types|, i requires 0 <= i < |types| => if lo <= i < hi && types[i].DeltaNet? then gdn[i] else gdn0[i]))
  }

  /** Two caches of one shape. */
  ghost predicate Matching(kv: seq<LayerState>, gdn: seq<LayerState>, kv0: seq<LayerState>, gdn0: seq<LayerState>, types: seq<LayerType>) {
    && |types| == |kv| == |gdn| == |kv0| == |gdn0|
    && forall i :: 0 <= i < |types| ==> SameShape(Slot(kv, gdn, types, i), Slot(kv0, gdn0, types, i))
  }

  /** Every vector of the layers `[lo, hi)` fits its length prefix. */
  ghost predicate Short(kv: seq<LayerState>, gdn: seq<LayerState>, types: seq<LayerType>, lo: nat, hi: nat)
    requires hi <= |types| == |kv| == |gdn|
  {
    forall i :: lo <= i < hi ==> Small(Slot(kv, gdn, types, i))
  }

  /** Whatever bytes arrive, and however far the restore gets: no layer outside the range is touched, no buffer changes
      its length, and an attention layer's DeltaNet state stays as it was (and the other way round). */
  ghost predicate Untouched(x: Restored, kv: seq<LayerState>, gdn: seq<LayerState>, types: seq<LayerType>, lo: nat, hi: nat)
    requires |types| == |kv| == |gdn|
  {
    && |x.kv| == |x.gdn| == |types|
    && (forall j :: 0 <= j < |types| ==> SameShape(x.kv[j], kv[j]) && SameShape(x.gdn[j], gdn[j]))
    && (forall j :: 0 <= j < |types| && !(lo <= j < hi && types[j].Attention?) ==> x.kv[j] == kv[j])
    && (forall j :: 0 <= j < |types| && !(lo <= j < hi && types[j].DeltaNet?) ==> x.gdn[j] == gdn[j])
  }

  lemma {:induction false} RestoreKeeps(bytes: seq<Byte>, kv: seq<LayerState>, gdn: seq<LayerState>, types: seq<LayerType>,
                                        i: nat, hi: nat)
    requires i <= hi <= |types| == |kv| == |gdn|
    ensures Untouched(RestoreFrom(bytes, kv, gdn, types, i, hi), kv, gdn, types, i, hi)
    decreases hi - i
  {
    if i < hi {
      var taken := TakeLayer(bytes, i, types[i], Slot(kv, gdn, types, i));
      if taken.Ok? {
        TakenShape(bytes, i, types[i], Slot(kv, gdn, types, i));
        hide TakeLayer;
        if types[i].Attention? {
          RestoreKeeps(taken.value.1, kv[i := taken.value.0], gdn, types, i + 1, hi);
        } else {
          RestoreKeeps(taken.value.1, kv, gdn[i := taken.value.0], types, i + 1, hi);
        }
      }
    }
  }

  lemma TakenShape(bytes: seq<Byte>, i: nat, t: LayerType, shape: LayerState)
    requires TakeLayer(bytes, i, t, shape).Ok?
    ensures SameShape(TakeLayer(bytes, i, t, shape).value.0, shape)
  {
    hide TakeVector;
  }

  lemma OverlaidStep(kv: seq<LayerState>, gdn: seq<LayerState>, kv0: seq<LayerState>, gdn0: seq<LayerState>, types: seq<LayerType>,
                     i: nat, hi: nat)
    requires Matching(kv, gdn, kv0, gdn0, types) && i < hi <= |types|
    ensures var s := Slot(kv, gdn, types, i);
            var kv1, gdn1 := if types[i].Attention? then kv0[i := s] else kv0, if types[i].Attention? then gdn0 else gdn0[i := s];
            Matching(kv, gdn, kv1, gdn1, types) &&
            Overlaid(kv, gdn, kv1, gdn1, types, i + 1, hi) == Overlaid(kv, gdn, kv0, gdn0, types, i, hi)
  {
    var s := Slot(kv, gdn, types, i);
    var kv1, gdn1 := if types[i].Attention? then kv0[i := s] else kv0, if types[i].Attention? then gdn0 else gdn0[i := s];
    var a, b := Overlaid(kv, gdn, kv1, gdn1, types, i + 1, hi), Overlaid(kv, gdn, kv0, gdn0, types, i, hi);
    assert a.0 == b.0 && a.1 == b.1;
  }

  lemma {:induction false} BodyRoundTrip(kv: seq<LayerState>, gdn: seq<LayerState>, kv0: seq<LayerState>, gdn0: seq<LayerState>,
                                         types: seq<LayerType>, i: nat, hi: nat, rest: seq<Byte>)
    requires Matching(kv, gdn, kv0, gdn0, types) && i <= hi <= |types|
    ensures var x := Overlaid(kv, gdn, kv0, gdn0, types, i, hi);
            var out := RestoreFrom(Body(kv, gdn, types, i, hi) + rest, kv0, gdn0, types, i, hi);
            if Short(kv, gdn, types, i, hi) then out == Restored(x.0, x.1, None) else out.error.Some?
    decreases hi - i
  {
    hide LayerBytes, TakeLayer, Overlaid, Small;
    if i == hi {
      NothingOverlaid(kv, gdn, kv0, gdn0, types, hi);
    } else if !Small(Slot(kv, gdn, types, i)) {
      SameSmall(Slot(kv, gdn, types, i), Slot(kv0, gdn0, types, i));
      LongRefused(Body(kv, gdn, types, i, hi) + rest, i, types[i], Slot(kv0, gdn0, types, i));
    } else {
      var s := Slot(kv, gdn, types, i);
      assert Short(kv, gdn, types, i, hi) <==> Short(kv, gdn, types, i + 1, hi);
      var tail := Body(kv, gdn, types, i + 1, hi) + rest;
      assert Body(kv, gdn, types, i, hi) + rest == LayerBytes(types[i], s) + tail;
      LayerRoundTrip(i, types[i], s, Slot(kv0, gdn0, types, i), tail);
      OverlaidStep(kv, gdn, kv0, gdn0, types, i, hi);
      if types[i].Attention? {
        BodyRoundTrip(kv, gdn, kv0[i := s], gdn0, types, i + 1, hi, rest);
      } else {
        BodyRoundTrip(kv, gdn, kv0, gdn0[i := s], types, i + 1, hi, rest);
      }
    }
  }

  lemma SameSmall(s: LayerState, t: LayerState)
    requires SameShape(s, t)
    ensures Small(s) == Small(t)
  {
  }

  lemma NothingOverlaid(kv: seq<LayerState>, gdn: seq<LayerState>, kv0: seq<LayerState>, gdn0: seq<LayerState>, types: seq<LayerType>, hi: nat)
    requires |types| == |kv| == |gdn| == |kv0| == |gdn0|
    ensures Overlaid(kv, gdn, kv0, gdn0, types, hi, hi) == (kv0, gdn0)
  {
    var x := Overlaid(kv, gdn, kv0, gdn0, types, hi, hi);
    assert x.0 == kv0 && x.1 == gdn0;
  }

  lemma HeadRoundTrip(r: LayerRange, nLayer: U32, fill: nat, rest: seq<Byte>)
    ensures TakeHead(HeadBytes(r, nLayer, fill) + rest, r, nLayer) == Ok(fill % 0x1_0000_0000)
    ensures (HeadBytes(r, nLayer, fill) + rest)[20..] == rest
    ensures Read32(HeadBytes(r, nLayer, fill) + rest, 16) == fill % 0x1_0000_0000
  {
    hide LE, FromLE, Pow256;
    Widths();
    var bytes := HeadBytes(r, nLayer, fill) + rest;
    assert bytes[..4] == MHS1;
    assert bytes[4..8] == LE(4, r.lo) && bytes[8..12] == LE(4, r.hi);
    assert bytes[12..16] == LE(4, nLayer) && bytes[16..20] == LE(4, fill);
    FieldRead(4, r.lo, bytes[4..8]);
    FieldRead(4, r.hi, bytes[8..12]);
    FieldRead(4, nLayer, bytes[12..16]);
    ReadWritten(4, fill);
  }

  /** Restoring a segment into any cache of the same shape takes over exactly the layers of the range and the tracker
      (below 2^32), and touches no other layer, if and only if every vector of the range is shorter than 2^32; otherwise it
      is refused. Bytes after the segment are ignored. */
  lemma SegmentRoundTrip(kv: seq<LayerState>, gdn: seq<LayerState>, kv0: seq<LayerState>, gdn0: seq<LayerState>,
                         types: seq<LayerType>, r: LayerRange, fill: nat, rest: seq<Byte>)
    requires Matching(kv, gdn, kv0, gdn0, types) && r.Ok(Count(types))
    ensures var bytes := Segment(kv, gdn, types, r, fill) + rest;
            && RestoreRefusal(bytes, |kv0|, types, r) == None && |bytes| >= 20
            && (Read32(bytes, 16) == fill <==> fill < 0x1_0000_0000)
            && var x := Overlaid(kv, gdn, kv0, gdn0, types, r.lo, r.hi);
            var out := RestoreFrom(bytes[20..], kv0, gdn0, types, r.lo, r.hi);
            if Short(kv, gdn, types, r.lo, r.hi) then out == Restored(x.0, x.1, None) else out.error.Some?
  {
    hide HeadBytes, Body, TakeHead, RestoreFrom, Overlaid, FromLE, Short, Count;
    var body := Body(kv, gdn, types, r.lo, r.hi);
    var bytes := Segment(kv, gdn, types, r, fill) + rest;
    assert bytes == HeadBytes(r, Count(types), fill) + (body + rest);
    HeadRoundTrip(r, Count(types), fill, body + rest);
    BodyRoundTrip(kv, gdn, kv0, gdn0, types, r.lo, r.hi, rest);
  }

  /** The layers `[i, hi)` of a cache at the front of a byte string, up to the reserved bytes. */
  ghost predicate BodySent(bytes: seq<Byte>, kv: seq<LayerState>, gdn: seq<LayerState>, types: seq<LayerType>, i: nat, hi: nat)
    requires i <= hi <= |types| == |kv| == |gdn|
    decreases hi - i
  {
    i < hi ==>
      var s := Slot(kv, gdn, types, i);
      && LayerSent(bytes, types[i], s)
      && BodySent(bytes[|LayerBytes(types[i], s)|..], kv, gdn, types, i + 1, hi)
  }

  /** What a cache of the same shape would have to send for this restore to go through: the layers the restore leaves
      behind, and nothing else. */
  lemma {:induction false} BodyOutcome(bytes: seq<Byte>, kv0: seq<LayerState>, gdn0: seq<LayerState>, types: seq<LayerType>,
                                       i: nat, hi: nat)
    requires i <= hi <= |types| == |kv0| == |gdn0|
    ensures var out := RestoreFrom(bytes, kv0, gdn0, types, i, hi);
            && |out.kv| == |out.gdn| == |types|
            && (out.error == None ==>
                  && Matching(out.kv, out.gdn, kv0, gdn0, types) && Short(out.kv, out.gdn, types, i, hi)
                  && BodySent(bytes, out.kv, out.gdn, types, i, hi))
    decreases hi - i
  {
    hide LayerBytes, LayerSent, Small, TakeLayer;
    RestoreKeeps(bytes, kv0, gdn0, types, i, hi);
    if i < hi {
      var taken := TakeLayer(bytes, i, types[i], Slot(kv0, gdn0, types, i));
      LayerOutcome(bytes, i, types[i], Slot(kv0, gdn0, types, i));
      if taken.Ok? {
        var kv1 := if types[i].Attention? then kv0[i := taken.value.0] else kv0;
        var gdn1 := if types[i].Attention? then gdn0 else gdn0[i := taken.value.0];
        BodyOutcome(taken.value.1, kv1, gdn1, types, i + 1, hi);
        RestoreKeeps(taken.value.1, kv1, gdn1, types, i + 1, hi);
      }
    }
  }

  /** Whatever cache sends its layers, up to the reserved bytes, they are taken over. */
  lemma {:induction false} BodyTaken(bytes: seq<Byte>, kv: seq<LayerState>, gdn: seq<LayerState>, kv0: seq<LayerState>,
                                     gdn0: seq<LayerState>, types: seq<LayerType>, i: nat, hi: nat)
    requires Matching(kv, gdn, kv0, gdn0, types) && i <= hi <= |types|
    requires Short(kv, gdn, types, i, hi) && BodySent(bytes, kv, gdn, types, i, hi)
    ensures var x := Overlaid(kv, gdn, kv0, gdn0, types, i, hi);
            RestoreFrom(bytes, kv0, gdn0, types, i, hi) == Restored(x.0, x.1, None)
    decreases hi - i
  {
    hide LayerBytes, TakeLayer, Overlaid, Small;
    if i == hi {
      NothingOverlaid(kv, gdn, kv0, gdn0, types, hi);
    } else {
      var s := Slot(kv, gdn, types, i);
      var tail := bytes[|LayerBytes(types[i], s)|..];
      SentTaken(bytes, i, types[i], s, Slot(kv0, gdn0, types, i));
      OverlaidStep(kv, gdn, kv0, gdn0, types, i, hi);
      if types[i].Attention? {
        BodyTaken(tail, kv, gdn, kv0[i := s], gdn0, types, i + 1, hi);
      } else {
        BodyTaken(tail, kv, gdn, kv0, gdn0[i := s], types, i + 1, hi);
      }
    }
  }

  /** What a clean restore of `bytes` into this range of a cache needs: the header of exactly this range and layer count, and
      behind it the layers of some cache of the same shape, kind by kind and vector by vector. */
  ghost predicate SegmentFor(bytes: seq<Byte>, kv: seq<LayerState>, gdn: seq<LayerState>, types: seq<LayerType>, r: LayerRange,
                             fill: U32)
    requires r.hi <= |types| == |kv| == |gdn|
  {
    && |bytes| >= 20 && bytes[..20] == HeadBytes(r, Count(types), fill) && r.lo <= r.hi
    && BodySent(bytes[20..], kv, gdn, types, r.lo, r.hi) && Short(kv, gdn, types, r.lo, r.hi)
  }

  /** The restore without its buffers: the refusal before any layer, or what the layers give. */
  function RestoreError(bytes: seq<Byte>, kv0: seq<LayerState>, gdn0: seq<LayerState>, types: seq<LayerType>, r: LayerRange): Option<SegmentError>
    requires |gdn0| == |types|
  {
    match RestoreRefusal(bytes, |kv0|, types, r)
    case Some(e) => Some(e)
    case None => RestoreFrom(bytes[20..], kv0, gdn0, types, r.lo, r.hi).error
  }

  /** A restore reports no error if and only if the bytes are a segment of exactly the requested range, up to the reserved
      bytes and whatever follows it; the cache then holds what the segment says. */
  lemma RestoredIff(bytes: seq<Byte>, kv0: seq<LayerState>, gdn0: seq<LayerState>, types: seq<LayerType>, r: LayerRange)
    requires |gdn0| == |types| == |kv0|
    ensures RestoreError(bytes, kv0, gdn0, types, r) == None <==>
            r.Ok(Count(types)) && exists kv, gdn, fill: U32 :: Matching(kv, gdn, kv0, gdn0, types) && SegmentFor(bytes, kv, gdn, types, r, fill)
    ensures RestoreError(bytes, kv0, gdn0, types, r) == None ==>
            var out := RestoreFrom(bytes[20..], kv0, gdn0, types, r.lo, r.hi);
            |out.kv| == |out.gdn| == |types| && SegmentFor(bytes, out.kv, out.gdn, types, r, Read32(bytes, 16))
  {
    hide HeadBytes, BodySent, TakeHead, RestoreFrom, Short, FromLE, Count;
    HeadOutcome(bytes, r, Count(types));
    if RestoreError(bytes, kv0, gdn0, types, r) == None {
      BodyOutcome(bytes[20..], kv0, gdn0, types, r.lo, r.hi);
      var out := RestoreFrom(bytes[20..], kv0, gdn0, types, r.lo, r.hi);
      TakenFill(bytes, r, Count(types));
      assert Matching(out.kv, out.gdn, kv0, gdn0, types) && SegmentFor(bytes, out.kv, out.gdn, types, r, Read32(bytes, 16));
    } else if kv, gdn, fill: U32 :|
      r.Ok(Count(types)) && Matching(kv, gdn, kv0, gdn0, types) && SegmentFor(bytes, kv, gdn, types, r, fill) {
      BodyTaken(bytes[20..], kv, gdn, kv0, gdn0, types, r.lo, r.hi);
      assert false;
    }
  }

  lemma TakenFill(bytes: seq<Byte>, r: LayerRange, nLayer: U32)
    requires TakeHead(bytes, r, nLayer).Ok?
    ensures |bytes| >= 20 && TakeHead(bytes, r, nLayer).value == Read32(bytes, 16)
  {
    hide FromLE;
  }

  /** A segment that is restored was sent for this range of a model with this many layers, and the kinds of its layers are
      the kinds of the model's. */
  lemma OnlyOwnSegment(kv: seq<LayerState>, gdn: seq<LayerState>, sent: seq<LayerType>, s: LayerRange, fill: nat, rest: seq<Byte>,
                       kv0: seq<LayerState>, gdn0: seq<LayerState>, types: seq<LayerType>, r: LayerRange)
    requires |sent| == |kv| == |gdn| && s.Ok(Count(sent)) && Short(kv, gdn, sent, s.lo, s.hi)
    requires |gdn0| == |types| == |kv0|
    requires RestoreError(Segment(kv, gdn, sent, s, fill) + rest, kv0, gdn0, types, r) == None
    ensures s == r && Count(sent) == Count(types) && forall i :: r.lo <= i < r.hi ==> sent[i] == types[i]
  {
    hide HeadBytes, Body, TakeHead, RestoreFrom, Short, FromLE, Count;
    var bytes := Segment(kv, gdn, sent, s, fill) + rest;
    var body := Body(kv, gdn, sent, s.lo, s.hi);
    assert bytes == HeadBytes(s, Count(sent), fill) + (body + rest);
    HeadOutcome(bytes, r, Count(types));
    TakenFill(bytes, r, Count(types));
    HeadsDiffer(s, Count(sent), fill, r, Count(types), Read32(bytes, 16));
    assert bytes[20..] == body + rest;
    KindsAgree(kv, gdn, sent, body + rest, rest, kv0, gdn0, types, r.lo, r.hi);
  }

  lemma HeadsDiffer(s: LayerRange, m: U32, fill: nat, r: LayerRange, n: U32, fill': nat)
    requires HeadBytes(s, m, fill) == HeadBytes(r, n, fill')
    ensures s == r && m == n
  {
    hide LE, FromLE, Pow256;
    HeadRoundTrip(s, m, fill, []);
    var a, b := HeadBytes(s, m, fill), HeadBytes(r, n, fill');
    assert a[4..8] == LE(4, s.lo) && b[4..8] == LE(4, r.lo);
    assert a[8..12] == LE(4, s.hi) && b[8..12] == LE(4, r.hi);
    assert a[12..16] == LE(4, m) && b[12..16] == LE(4, n);
    Widths();
    WrittenOnce(4, s.lo, r.lo);
    WrittenOnce(4, s.hi, r.hi);
    WrittenOnce(4, m, n);
  }

  lemma {:induction false} KindsAgree(kv: seq<LayerState>, gdn: seq<LayerState>, sent: seq<LayerType>, bytes: seq<Byte>, rest: seq<Byte>,
                                      kv0: seq<LayerState>, gdn0: seq<LayerState>, types: seq<LayerType>, i: nat, hi: nat)
    requires i <= hi <= |sent| == |kv| == |gdn| && Short(kv, gdn, sent, i, hi) && bytes == Body(kv, gdn, sent, i, hi) + rest
    requires hi <= |types| == |kv0| == |gdn0| && RestoreFrom(bytes, kv0, gdn0, types, i, hi).error == None
    ensures forall j :: i <= j < hi ==> sent[j] == types[j]
    decreases hi - i
  {
    hide VectorBytes, TakeLayer, Small;
    if i < hi {
      var s, shape := Slot(kv, gdn, sent, i), Slot(kv0, gdn0, types, i);
      var b := LayerBytes(sent[i], s);
      var tail := Body(kv, gdn, sent, i + 1, hi) + rest;
      assert bytes == b + tail;
      LayerOutcome(bytes, i, types[i], shape);
      assert bytes[0] == b[0];
      assert LayerSent(bytes, sent[i], s);
      SentTaken(bytes, i, sent[i], s, shape);
      assert bytes[|b|..] == tail;
      if types[i].Attention? {
        KindsAgree(kv, gdn, sent, tail, rest, kv0[i := s], gdn0, types, i + 1, hi);
      } else {
        KindsAgree(kv, gdn, sent, tail, rest, kv0, gdn0[i := s], types, i + 1, hi);
      }
    }
  }

  /** A segment cut short anywhere is refused, as truncated unless a vector too long for its prefix is met before the end;
      the tracker then keeps its value. */
  lemma {:induction false} BodyCut(kv: seq<LayerState>, gdn: seq<LayerState>, kv0: seq<LayerState>, gdn0: seq<LayerState>,
                                   types: seq<LayerType>, i: nat, hi: nat, bytes: seq<Byte>)
    requires Matching(kv, gdn, kv0, gdn0, types) && i <= hi <= |types| && bytes < Body(kv, gdn, types, i, hi)
    ensures var e := RestoreFrom(bytes, kv0, gdn0, types, i, hi).error;
            e.Some? && (Short(kv, gdn, types, i, hi) ==> e == Some(Truncated))
    decreases hi - i
  {
    hide LayerBytes, TakeLayer, Overlaid, Small;
    var s := Slot(kv, gdn, types, i);
    var a := LayerBytes(types[i], s);
    var shape := Slot(kv0, gdn0, types, i);
    if !Small(s) {
      SameSmall(s, shape);
      LongRefused(bytes, i, types[i], shape);
    } else if |bytes| < |a| {
      assert bytes < a;
      LayerCut(i, types[i], s, shape, bytes);
    } else {
      assert Short(kv, gdn, types, i, hi) <==> Short(kv, gdn, types, i + 1, hi);
      var more := bytes[|a|..];
      assert bytes == a + more && more < Body(kv, gdn, types, i + 1, hi);
      LayerRoundTrip(i, types[i], s, shape, more);
      OverlaidStep(kv, gdn, kv0, gdn0, types, i, hi);
      if types[i].Attention? {
        BodyCut(kv, gdn, kv0[i := s], gdn0, types, i + 1, hi, more);
      } else {
        BodyCut(kv, gdn, kv0, gdn0[i := s], types, i + 1, hi, more);
      }
    }
  }

  lemma SegmentCut(kv: seq<LayerState>, gdn: seq<LayerState>, kv0: seq<LayerState>, gdn0: seq<LayerState>,
                   types: seq<LayerType>, r: LayerRange, fill: nat, k: nat)
    requires Matching(kv, gdn, kv0, gdn0, types) && r.Ok(Count(types)) && k < |Segment(kv, gdn, types, r, fill)|
    ensures var bytes := Segment(kv, gdn, types, r, fill)[..k];
            if k < 20 then RestoreRefusal(bytes, |kv0|, types, r) == Some(Truncated)
            else
              && RestoreRefusal(bytes, |kv0|, types, r) == None
              && var e := RestoreFrom(bytes[20..], kv0, gdn0, types, r.lo, r.hi).error;
              e.Some? && (Short(kv, gdn, types, r.lo, r.hi) ==> e == Some(Truncated))
  {
    hide LE, Body, RestoreFrom, FromLE, Count, Short;
    var head, body := HeadBytes(r, Count(types), fill), Body(kv, gdn, types, r.lo, r.hi);
    var bytes := Segment(kv, gdn, types, r, fill)[..k];
    if k < 20 {
      if k >= 4 { assert bytes[..4] == MHS1; }
    } else {
      assert bytes == head + body[..k - 20];
      HeadRoundTrip(r, Count(types), fill, body[..k - 20]);
      BodyCut(kv, gdn, kv0, gdn0, types, r.lo, r.hi, body[..k - 20]);
    }
  }

  // ---- tilings ----

  /** Ranges that follow one another from layer `at` to the end. */
  ghost predicate Tiles(ranges: seq<LayerRange>, at: nat, nLayer: nat)
    decreases |ranges|
  {
    if ranges == [] then at == nLayer
    else ranges[0].lo == at && ranges[0].Ok(nLayer) && Tiles(ranges[1..], ranges[0].hi, nLayer)
  }

  /** Restoring one segment after the other. */
  function RestoreAll(kv: seq<LayerState>, gdn: seq<LayerState>, kv0: seq<LayerState>, gdn0: seq<LayerState>,
                      types: seq<LayerType>, ranges: seq<LayerRange>, fill: nat): Restored
    requires |types| == |kv| == |gdn| == |kv0| == |gdn0| && forall i :: 0 <= i < |ranges| ==> ranges[i].Ok(Count(types))
    decreases |ranges|
  {
    if ranges == [] then Restored(kv0, gdn0, None)
    else
      var r := ranges[0];
      var bytes := Segment(kv, gdn, types, r, fill);
      match RestoreRefusal(bytes, |kv0|, types, r)
      case Some(e) => Restored(kv0, gdn0, Some(e))
      case None =>
        var x := RestoreFrom(bytes[20..], kv0, gdn0, types, r.lo, r.hi);
        if x.error.Some? || |x.kv| != |types| || |x.gdn| != |types| then x
        else RestoreAll(kv, gdn, x.kv, x.gdn, types, ranges[1..], fill)
  }

  /** Restoring the segments of a tiling reproduces what the source cache holds of every layer from `at` on, if and only if
      all their vectors are shorter than 2^32. */
  lemma {:induction false} TilingRestores(kv: seq<LayerState>, gdn: seq<LayerState>, kv0: seq<LayerState>, gdn0: seq<LayerState>,
                                          types: seq<LayerType>, ranges: seq<LayerRange>, at: nat, fill: nat)
    requires Matching(kv, gdn, kv0, gdn0, types) && Tiles(ranges, at, Count(types)) && at <= Count(types)
    requires forall i :: 0 <= i < |ranges| ==> ranges[i].Ok(Count(types))
    ensures var x := Overlaid(kv, gdn, kv0, gdn0, types, at, Count(types));
            var out := RestoreAll(kv, gdn, kv0, gdn0, types, ranges, fill);
            if Short(kv, gdn, types, at, Count(types)) then out == Restored(x.0, x.1, None) else out.error.Some?
    decreases |ranges|
  {
    hide Segment, RestoreFrom, RestoreRefusal, Overlaid, Count, Small;
    if ranges == [] {
      NothingOverlaid(kv, gdn, kv0, gdn0, types, Count(types));
    } else {
      var r := ranges[0];
      SegmentRoundTrip(kv, gdn, kv0, gdn0, types, r, fill, []);
      assert Segment(kv, gdn, types, r, fill) + [] == Segment(kv, gdn, types, r, fill);
      var x := Overlaid(kv, gdn, kv0, gdn0, types, r.lo, r.hi);
      ShortSplit(kv, gdn, types, r.lo, r.hi, Count(types));
      if Short(kv, gdn, types, r.lo, r.hi) {
        OverlaidTwice(kv, gdn, kv0, gdn0, types, r.lo, r.hi, Count(types));
        TilingRestores(kv, gdn, x.0, x.1, types, ranges[1..], r.hi, fill);
      }
    }
  }

  lemma ShortSplit(kv: seq<LayerState>, gdn: seq<LayerState>, types: seq<LayerType>, lo: nat, mid: nat, hi: nat)
    requires lo <= mid <= hi <= |types| == |kv| == |gdn|
    ensures Short(kv, gdn, types, lo, hi) <==> Short(kv, gdn, types, lo, mid) && Short(kv, gdn, types, mid, hi)
  {
    hide Small, Slot;
  }

  lemma OverlaidTwice(kv: seq<LayerState>, gdn: seq<LayerState>, kv0: seq<LayerState>, gdn0: seq<LayerState>, types: seq<LayerType>,
                      lo: nat, mid: nat, hi: nat)
    requires Matching(kv, gdn, kv0, gdn0, types) && lo <= mid <= hi <= |types|
    ensures var x := Overlaid(kv, gdn, kv0, gdn0, types, lo, mid);
            Matching(kv, gdn, x.0, x.1, types) &&
            Overlaid(kv, gdn, x.0, x.1, types, mid, hi) == Overlaid(kv, gdn, kv0, gdn0, types, lo, hi)
  {
    var x := Overlaid(kv, gdn, kv0, gdn0, types, lo, mid);
    var a, b := Overlaid(kv, gdn, x.0, x.1, types, mid, hi), Overlaid(kv, gdn, kv0, gdn0, types, lo, hi);
    assert a.0 == b.0 && a.1 == b.1;
  }

  /** A tiling of the whole model leaves, on every layer, the source's state of that layer, if and only if no vector is too
      long for its length prefix. */
  lemma TilingIsWhole(kv: seq<LayerState>, gdn: seq<LayerState>, kv0: seq<LayerState>, gdn0: seq<LayerState>,
                      types: seq<LayerType>, ranges: seq<LayerRange>, fill: nat)
    requires Matching(kv, gdn, kv0, gdn0, types) && Tiles(ranges, 0, Count(types))
    requires forall j :: 0 <= j < |ranges| ==> ranges[j].Ok(Count(types))
    ensures var x := RestoreAll(kv, gdn, kv0, gdn0, types, ranges, fill);
            && (x.error == None <==> Short(kv, gdn, types, 0, Count(types)))
            && (x.error == None ==>
                  && |x.kv| == |types| == |x.gdn|
                  && forall i :: 0 <= i < Count(types) ==> Slot(x.kv, x.gdn, types, i) == Slot(kv, gdn, types, i))
  {
    hide RestoreAll, Count, Short;
    TilingRestores(kv, gdn, kv0, gdn0, types, ranges, 0, fill);
  }
}
