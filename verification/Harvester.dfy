/**
  The capture-block parser of `harvester.rs`, against the producer whose layout the
  harvester dossier establishes.
 */
module Harvester {
  import opened LittleEndian
  import opened Machine
  import opened Wrappers

  const MAGIC: seq<byte> := [0x65, 0x72, 0x75, 0x74, 0x70, 0x61, 0x63, 0x00]
  const HEADER_LEN: nat := 0x18
  const PLANE_DESC_LEN: nat := 0x30

  datatype PlaneDescriptor = PlaneDescriptor(
    pixelFormat: u32, width: u64, height: u64, depth: u64, bytesPerRow: u64, bytesPerImage: u64)

  datatype HarvesterError = BadMagic | WrongType(ty: u16) | Truncated

  datatype CaptureBlock = CaptureBlock(bytes: seq<byte>, metadataSize: nat, planeCount: u64)

  /** Where the descriptors end, if that can be computed. */
  function PlanesEnd(planeCount: u64): Option<usize> {
    var descriptors := CheckedMul(planeCount, PLANE_DESC_LEN);
    if descriptors.None? then None else CheckedAdd(descriptors.value, HEADER_LEN)
  }

  /** `CaptureBlock::parse` */
  function Parse(bytes: seq<byte>): Result<CaptureBlock, HarvesterError> {
    if |bytes| < HEADER_LEN || bytes[..8] != MAGIC then
      Failure(BadMagic)
    else if U16At(bytes, 0x0a) != 1 then
      Failure(WrongType(U16At(bytes, 0x0a)))
    else
      var metadataSize := U32At(bytes, 0x0c);
      var planeCount := U64At(bytes, 0x10);
      var planesEnd := PlanesEnd(planeCount);
      if planesEnd.None? || metadataSize > |bytes| || planesEnd.value > |bytes| then Failure(Truncated)
      else Success(CaptureBlock(bytes, metadataSize, planeCount))
  }

  /** `plane`: the descriptor, unless the index or the bytes run out. */
  function Plane(block: CaptureBlock, i: u64): Option<PlaneDescriptor> {
    if i >= block.planeCount then
      None
    else
      var o := PlanesEnd(i);
      if o.None? then
        None
      else
        var end := CheckedAdd(o.value, PLANE_DESC_LEN);
        if end.None? || end.value > |block.bytes| then None
        else Some(DescriptorAt(block.bytes, o.value))
  }

  function DescriptorAt(b: seq<byte>, o: nat): PlaneDescriptor
    requires o + PLANE_DESC_LEN <= |b|
  {
    PlaneDescriptor(U64At(b, o) % U32_LIMIT, U64At(b, o + 0x08), U64At(b, o + 0x10), U64At(b, o + 0x18),
                    U64At(b, o + 0x20), U64At(b, o + 0x28))
  }

  /** `data`: everything after the metadata; slicing past the end would panic. */
  function Payload(block: CaptureBlock): seq<byte>
    requires block.metadataSize <= |block.bytes|
  {
    block.bytes[block.metadataSize..]
  }

  /** On a parsed block no access fails: its payload is in bounds, every plane below the
      count has a descriptor at its own offset, and no other plane has one. */
  lemma ParsedAccess(bytes: seq<byte>, i: u64)
    requires Parse(bytes).Success?
    ensures var block := Parse(bytes).value;
            && block.bytes == bytes
            && block.metadataSize <= |bytes|
            && (Plane(block, i).Some? <==> i < block.planeCount)
            && (i < block.planeCount ==>
                  && HEADER_LEN + PLANE_DESC_LEN * i + PLANE_DESC_LEN <= |bytes|
                  && Plane(block, i) == Some(DescriptorAt(bytes, HEADER_LEN + PLANE_DESC_LEN * i)))
  {
  }

  // ---------------------------------------------------------------------------
  // The producer
  // ---------------------------------------------------------------------------

  /** `(0x30 * count + 0x117) & ~0xff` */
  function RequiredSize(count: nat): nat {
    (PLANE_DESC_LEN * count + 0x117) / 0x100 * 0x100
  }

  /** The required size is the least multiple of 256 that holds the header and descriptors. */
  lemma RequiredSizeIsLeast(count: nat)
    ensures RequiredSize(count) % 0x100 == 0
    ensures HEADER_LEN + PLANE_DESC_LEN * count <= RequiredSize(count)
    ensures forall size: nat | size % 0x100 == 0 && HEADER_LEN + PLANE_DESC_LEN * count <= size ::
              RequiredSize(count) <= size
  {
  }

  /** One descriptor as the producer copies it: six words. */
  function Fields(d: PlaneDescriptor): (words: seq<u64>)
    ensures |words| == 6
  {
    [d.pixelFormat, d.width, d.height, d.depth, d.bytesPerRow, d.bytesPerImage]
  }

  /** The descriptors one after the other. */
  function AllFields(planes: seq<PlaneDescriptor>): (words: seq<u64>)
    ensures |words| == 6 * |planes|
    ensures forall i, j | 0 <= i < |planes| && 0 <= j < 6 :: words[6 * i + j] == Fields(planes[i])[j]
  {
    if planes == [] then [] else AllFields(planes[..|planes| - 1]) + Fields(planes[|planes| - 1])
  }

  function HeaderBytes(version: u16, metadataSize: u32, planeCount: u64): (b: seq<byte>)
    ensures |b| == HEADER_LEN
  {
    MAGIC + U16Bytes(version) + U16Bytes(1) + U32Bytes(metadataSize) + U64Bytes(planeCount)
  }

  /** What follows the header: the descriptors, and zeros up to the required size. */
  function Tables(planes: seq<PlaneDescriptor>): (b: seq<byte>)
    ensures |b| == RequiredSize(|planes|) - HEADER_LEN
    ensures forall i | PLANE_DESC_LEN * |planes| <= i < |b| :: b[i] == 0
  {
    RequiredSizeIsLeast(|planes|);
    Words64(AllFields(planes)) + seq(RequiredSize(|planes|) - (HEADER_LEN + PLANE_DESC_LEN * |planes|), i => 0)
  }

  /** The metadata of a version 2 texture block. */
  function Metadata(planes: seq<PlaneDescriptor>): (b: seq<byte>)
    requires RequiredSize(|planes|) < U32_LIMIT
    ensures |b| == RequiredSize(|planes|)
  {
    RequiredSizeIsLeast(|planes|);
    HeaderBytes(2, RequiredSize(|planes|), |planes|) + Tables(planes)
  }

  /** A block as the producer lays it out. */
  function Produce(planes: seq<PlaneDescriptor>, payload: seq<byte>): seq<byte>
    requires RequiredSize(|planes|) < U32_LIMIT
  {
    Metadata(planes) + payload
  }

  lemma HeaderReads(version: u16, metadataSize: u32, planeCount: u64, rest: seq<byte>)
    ensures var b := HeaderBytes(version, metadataSize, planeCount) + rest;
            && b[..8] == MAGIC && U16At(b, 0x08) == version && U16At(b, 0x0a) == 1
            && U32At(b, 0x0c) == metadataSize && U64At(b, 0x10) == planeCount
  {
    var h := HeaderBytes(version, metadataSize, planeCount);
    ReadBefore(h, rest, 0x10);
    ReadAfter(MAGIC + U16Bytes(version) + U16Bytes(1) + U32Bytes(metadataSize), U64Bytes(planeCount), 0);
    var u := U32Bytes(metadataSize);
    assert h[0x0c] == u[0] && h[0x0d] == u[1] && h[0x0e] == u[2] && h[0x0f] == u[3];
  }

  /** A header parses, given enough bytes behind it. */
  lemma HeaderParses(version: u16, metadataSize: u32, planeCount: u64, rest: seq<byte>)
    requires metadataSize <= HEADER_LEN + |rest|
    requires PLANE_DESC_LEN * planeCount <= |rest| && HEADER_LEN + PLANE_DESC_LEN * planeCount <= USIZE_MAX
    ensures var b := HeaderBytes(version, metadataSize, planeCount) + rest;
            Parse(b) == Success(CaptureBlock(b, metadataSize, planeCount)) && U16At(b, 0x08) == version
  {
    HeaderReads(version, metadataSize, planeCount, rest);
  }

  lemma AfterMetadata(planes: seq<PlaneDescriptor>, payload: seq<byte>)
    requires RequiredSize(|planes|) < U32_LIMIT
    ensures Produce(planes, payload)[RequiredSize(|planes|)..] == payload
  {
  }

  /** Round trip: a produced block parses, to exactly the planes that were written and
      exactly the payload. */
  lemma ProducedBlockParses(planes: seq<PlaneDescriptor>, payload: seq<byte>)
    requires RequiredSize(|planes|) < U32_LIMIT
    ensures Parse(Produce(planes, payload)).Success?
    ensures var block := Parse(Produce(planes, payload)).value;
            && block.planeCount == |planes|
            && Payload(block) == payload
            && forall i: u64 :: Plane(block, i) == if i < |planes| then Some(planes[i]) else None
  {
    RequiredSizeIsLeast(|planes|);
    ProducedHeader(planes, payload);
    AfterMetadata(planes, payload);
    var bytes := Produce(planes, payload);
    forall i: u64
      ensures Plane(Parse(bytes).value, i) == if i < |planes| then Some(planes[i]) else None
    {
      ParsedAccess(bytes, i);
      if i < |planes| {
        ProducedPlane(planes, payload, i);
      }
    }
  }

  lemma ProducedHeader(planes: seq<PlaneDescriptor>, payload: seq<byte>)
    requires RequiredSize(|planes|) < U32_LIMIT
    ensures var bytes := Produce(planes, payload);
            Parse(bytes) == Success(CaptureBlock(bytes, RequiredSize(|planes|), |planes|))
  {
    RequiredSizeIsLeast(|planes|);
    HeaderParses(2, RequiredSize(|planes|), |planes|, Tables(planes) + payload);
    Regroup(HeaderBytes(2, RequiredSize(|planes|), |planes|), Tables(planes), payload);
  }

  lemma Regroup(a: seq<byte>, b: seq<byte>, c: seq<byte>)
    ensures (a + b) + c == a + (b + c)
  {
  }

  lemma ProducedPlane(planes: seq<PlaneDescriptor>, payload: seq<byte>, i: nat)
    requires RequiredSize(|planes|) < U32_LIMIT && i < |planes|
    ensures var o := HEADER_LEN + PLANE_DESC_LEN * i;
            && o + PLANE_DESC_LEN <= |Produce(planes, payload)|
            && DescriptorAt(Produce(planes, payload), o) == planes[i]
  {
    ProducedLength(planes, payload);
    var o := HEADER_LEN + PLANE_DESC_LEN * i;
    forall j | 0 <= j < 6 ensures U64At(Produce(planes, payload), o + 8 * j) == Fields(planes[i])[j] {
      ProducedWord(planes, payload, i, j);
    }
    SixWords(Produce(planes, payload), o, planes[i]);
  }

  lemma SixWords(b: seq<byte>, o: nat, d: PlaneDescriptor)
    requires o + PLANE_DESC_LEN <= |b|
    requires forall j | 0 <= j < 6 :: U64At(b, o + 8 * j) == Fields(d)[j]
    ensures DescriptorAt(b, o) == d
  {
    var w := Fields(d);
    assert U64At(b, o + 8 * 0) == w[0] && U64At(b, o + 8 * 1) == w[1] && U64At(b, o + 8 * 2) == w[2];
    assert U64At(b, o + 8 * 3) == w[3] && U64At(b, o + 8 * 4) == w[4] && U64At(b, o + 8 * 5) == w[5];
  }

  lemma ProducedWord(planes: seq<PlaneDescriptor>, payload: seq<byte>, i: nat, j: nat)
    requires RequiredSize(|planes|) < U32_LIMIT && i < |planes| && j < 6
    ensures HEADER_LEN + PLANE_DESC_LEN * i + 8 * j + 8 <= |Produce(planes, payload)|
    ensures U64At(Produce(planes, payload), HEADER_LEN + PLANE_DESC_LEN * i + 8 * j) == Fields(planes[i])[j]
  {
    ProducedLength(planes, payload);
    TablesWord(planes, i, j);
    var header, at := HeaderBytes(2, RequiredSize(|planes|), |planes|), 8 * (6 * i + j);
    assert HEADER_LEN + PLANE_DESC_LEN * i + 8 * j == |header| + at;
    WordBehindHeader(header, Tables(planes), payload, at);
  }

  lemma ProducedLength(planes: seq<PlaneDescriptor>, payload: seq<byte>)
    requires RequiredSize(|planes|) < U32_LIMIT
    ensures HEADER_LEN + PLANE_DESC_LEN * |planes| <= RequiredSize(|planes|)
    ensures |Produce(planes, payload)| == RequiredSize(|planes|) + |payload|
  {
    RequiredSizeIsLeast(|planes|);
  }

  lemma TablesWord(planes: seq<PlaneDescriptor>, i: nat, j: nat)
    requires i < |planes| && j < 6
    ensures 8 * (6 * i + j) + 8 <= |Tables(planes)|
    ensures U64At(Tables(planes), 8 * (6 * i + j)) == Fields(planes[i])[j]
  {
    RequiredSizeIsLeast(|planes|);
    Words64At(AllFields(planes), 6 * i + j);
    ReadBefore(Words64(AllFields(planes)),
               seq(RequiredSize(|planes|) - (HEADER_LEN + PLANE_DESC_LEN * |planes|), i => 0), 8 * (6 * i + j));
  }

  lemma WordBehindHeader(header: seq<byte>, tables: seq<byte>, payload: seq<byte>, o: nat)
    requires o + 8 <= |tables|
    ensures U64At(header + tables + payload, |header| + o) == U64At(tables, o)
  {
    ReadAfter(header, tables, o);
    ReadBefore(header + tables, payload, |header| + o);
  }

  // ---------------------------------------------------------------------------
  // Where the parser stops short of the format
  // ---------------------------------------------------------------------------

  ghost function PlaneEnd(i: nat): nat {
    HEADER_LEN + PLANE_DESC_LEN * (i + 1)
  }

  /** The parser accepts a metadata size that does not cover the descriptors. A block's
      payload starts after every one of its descriptors exactly when the size covers them. */
  lemma PayloadAfterDescriptors(bytes: seq<byte>)
    requires Parse(bytes).Success?
    ensures var block := Parse(bytes).value;
            (forall i | 0 <= i < block.planeCount :: PlaneEnd(i) <= |bytes| - |Payload(block)|)
            <==> (block.planeCount == 0 || HEADER_LEN + PLANE_DESC_LEN * block.planeCount <= block.metadataSize)
  {
    var block := Parse(bytes).value;
    if block.planeCount > 0 {
      assert PlaneEnd(block.planeCount - 1) == HEADER_LEN + PLANE_DESC_LEN * block.planeCount;
    }
  }

  /** Such a block exists: one plane, and a payload that starts with the whole block. */
  lemma OverlapAccepted() returns (bytes: seq<byte>)
    ensures Parse(bytes).Success? && Parse(bytes).value.planeCount == 1
    ensures Payload(Parse(bytes).value) == bytes
  {
    var rest: seq<byte> := seq(PLANE_DESC_LEN, i => 0);
    bytes := HeaderBytes(2, 0, 1) + rest;
    HeaderReads(2, 0, 1, rest);
    assert bytes[0..] == bytes;
  }

  /** The payload the framework's own getter returns: past a further 16 bytes in version 1. */
  function FrameworkPayload(bytes: seq<byte>): Option<seq<byte>>
    requires Parse(bytes).Success?
  {
    var start := Parse(bytes).value.metadataSize + if U16At(bytes, 0x08) == 1 then 0x10 else 0;
    if start <= |bytes| then Some(bytes[start..]) else None
  }

  /** The parser does not apply the version 1 adjustment: its payload is the framework's
      exactly when the version is not 1. */
  lemma PayloadAgreesWithFramework(bytes: seq<byte>)
    requires Parse(bytes).Success?
    ensures FrameworkPayload(bytes) == Some(Payload(Parse(bytes).value)) <==> U16At(bytes, 0x08) != 1
  {
    var block := Parse(bytes).value;
    if U16At(bytes, 0x08) == 1 && FrameworkPayload(bytes).Some? {
      assert |FrameworkPayload(bytes).value| == |Payload(block)| - 0x10;
    }
  }

  /** An accepted version 1 block whose payload, all of 16 bytes, is not the framework's. */
  lemma VersionOneAccepted() returns (bytes: seq<byte>)
    ensures Parse(bytes).Success? && U16At(bytes, 0x08) == 1
    ensures |Payload(Parse(bytes).value)| == 0x10 && FrameworkPayload(bytes) == Some([])
  {
    var rest: seq<byte> := seq(0x10, i => 0);
    bytes := HeaderBytes(1, HEADER_LEN, 0) + rest;
    HeaderParses(1, HEADER_LEN, 0, rest);
    assert bytes[HEADER_LEN + 0x10..] == [];
  }

  // ---------------------------------------------------------------------------
  // What is refused
  // ---------------------------------------------------------------------------

  /** A buffer starts with the eight bytes of the reversed tag "capture". */
  ghost predicate Tagged(bytes: seq<byte>) {
    && |bytes| >= 24
    && bytes[0] == 0x65 && bytes[1] == 0x72 && bytes[2] == 0x75 && bytes[3] == 0x74
    && bytes[4] == 0x70 && bytes[5] == 0x61 && bytes[6] == 0x63 && bytes[7] == 0x00
  }

  /** Exactly what is refused, and as what: a missing tag before another type, and that before
      descriptors or metadata that do not fit. */
  lemma ParseExactly(bytes: seq<byte>)
    requires |bytes| <= 0xffff_ffff_ffff_ffff
    ensures Parse(bytes) == Failure(BadMagic) <==> !Tagged(bytes)
    ensures Tagged(bytes) && U16At(bytes, 10) != 1 ==> Parse(bytes) == Failure(WrongType(U16At(bytes, 10)))
    ensures Tagged(bytes) && U16At(bytes, 10) == 1 ==>
              var fits := U32At(bytes, 12) <= |bytes| && 24 + 48 * U64At(bytes, 16) <= |bytes|;
              && (fits ==> Parse(bytes) == Success(CaptureBlock(bytes, U32At(bytes, 12), U64At(bytes, 16))))
              && (!fits ==> Parse(bytes) == Failure(Truncated))
  {
    if |bytes| >= 24 {
      assert bytes[..8] == MAGIC <==> Tagged(bytes) by {
        if Tagged(bytes) {
          assert bytes[..8] == MAGIC;
        }
        if bytes[..8] == MAGIC {
          assert forall i | 0 <= i < 8 :: bytes[i] == bytes[..8][i] == MAGIC[i];
        }
      }
    }
  }
}
