/**
  Whole info tables, record encoding, and the lossless decoder of the probes that the
  texture layout is a projection of.
 */
module RecordTables {
  import opened LittleEndian
  import opened Machine
  import opened Records
  import opened Wrappers

  // ---------------------------------------------------------------------------
  // Tables
  // ---------------------------------------------------------------------------

  function ChunkAt(info: seq<byte>, i: nat): Chunk
    requires STRIDE * i + STRIDE <= |info|
  {
    info[STRIDE * i..STRIDE * i + STRIDE]
  }

  /** `info.chunks_exact(STRIDE).map(decode)` */
  function DecodeTable(layout: Layout, info: seq<byte>): (records: seq<Record>)
    requires |info| % STRIDE == 0
    ensures |records| == |info| / STRIDE
    ensures forall i | 0 <= i < |records| :: records[i] == Decode(layout, ChunkAt(info, i))
  {
    seq(|info| / STRIDE, i requires 0 <= i < |info| / STRIDE => Decode(layout, ChunkAt(info, i)))
  }

  /** The kernel over whole tables: two tables decode alike exactly when they are as long
      and agree on every byte the layout does not drop. */
  lemma TableKernel(layout: Layout, a: seq<byte>, b: seq<byte>)
    requires |a| % STRIDE == 0 && |b| % STRIDE == 0
    ensures DecodeTable(layout, a) == DecodeTable(layout, b)
       <==> (&& |a| == |b|
             && forall j | 0 <= j < |a| && !Dropped(layout, j % STRIDE) :: a[j] == b[j])
  {
    if DecodeTable(layout, a) == DecodeTable(layout, b) {
      forall j | 0 <= j < |a| && !Dropped(layout, j % STRIDE) ensures a[j] == b[j] {
        assert DecodeTable(layout, a)[j / STRIDE] == DecodeTable(layout, b)[j / STRIDE];
        ByteOfChunk(layout, a, b, j);
      }
    }
    if |a| == |b| && forall j | 0 <= j < |a| && !Dropped(layout, j % STRIDE) :: a[j] == b[j] {
      forall i | 0 <= i < |a| / STRIDE ensures DecodeTable(layout, a)[i] == DecodeTable(layout, b)[i] {
        ChunkOfBytes(layout, a, b, i);
      }
    }
  }

  lemma ByteOfChunk(layout: Layout, a: seq<byte>, b: seq<byte>, j: nat)
    requires |a| == |b| && |a| % STRIDE == 0 && j < |a| && !Dropped(layout, j % STRIDE)
    requires Decode(layout, ChunkAt(a, j / STRIDE)) == Decode(layout, ChunkAt(b, j / STRIDE))
    ensures a[j] == b[j]
  {
    ChunkOfIndex(|a|, j, j / STRIDE, j % STRIDE);
    ByteInChunk(layout, a, b, j / STRIDE, j % STRIDE);
  }

  lemma ChunkOfIndex(len: nat, j: nat, i: nat, x: nat)
    requires len % STRIDE == 0 && j < len && i == j / STRIDE && x == j % STRIDE
    ensures STRIDE * i + x == j && STRIDE * i + STRIDE <= len && x < STRIDE
  {
  }

  lemma ByteInChunk(layout: Layout, a: seq<byte>, b: seq<byte>, i: nat, x: nat)
    requires |a| == |b| && STRIDE * i + STRIDE <= |a| && x < STRIDE && !Dropped(layout, x)
    requires Decode(layout, ChunkAt(a, i)) == Decode(layout, ChunkAt(b, i))
    ensures a[STRIDE * i + x] == b[STRIDE * i + x]
  {
    var c, d := ChunkAt(a, i), ChunkAt(b, i);
    ChunkKernel(layout, c, d);
    assert c[x] == d[x];
  }

  lemma ChunkOfBytes(layout: Layout, a: seq<byte>, b: seq<byte>, i: nat)
    requires |a| == |b| && STRIDE * i + STRIDE <= |a|
    requires forall j | 0 <= j < |a| && !Dropped(layout, j % STRIDE) :: a[j] == b[j]
    ensures Decode(layout, ChunkAt(a, i)) == Decode(layout, ChunkAt(b, i))
  {
    forall x | 0 <= x < STRIDE && !Dropped(layout, x) ensures ChunkAt(a, i)[x] == ChunkAt(b, i)[x] {
      assert (STRIDE * i + x) % STRIDE == x;
      assert a[STRIDE * i + x] == b[STRIDE * i + x];
    }
    ChunkKernel(layout, ChunkAt(a, i), ChunkAt(b, i));
  }

  // ---------------------------------------------------------------------------
  // Encoding a record
  // ---------------------------------------------------------------------------

  /** The map keeps exactly the listed slots. */
  ghost predicate NamesAre(m: map<string, u32>, offsets: seq<Slot>, name: Slot -> string) {
    forall n :: n in m <==> exists o :: o in offsets && name(o) == n
  }

  ghost predicate HasLayout(layout: Layout, r: Record) {
    match layout
    case Texture => r.TextureRecord? && r.slice < 0x1_0000 && r.plane < 0x100 && r.level < 0x100
    case Buffer => r.BufferRecord?
    case Heap => r.HeapRecord?
    case Accel => r.AccelRecord?
    case Pipeline => r.PipelineRecord?
    case Wireframe => r.WireframeRecord?
  }

  /** A record a layout can produce. */
  ghost predicate WellFormed(layout: Layout, r: Record) {
    HasLayout(layout, r) && NamesAre(r.unmapped, UnmappedOffsets(layout), OffsetName)
  }

  ghost function KeptWords(m: map<string, u32>, name: Slot -> string): (kept: seq<u32>)
    ensures |kept| == 20
    ensures forall k | 0 <= k < 20 && name(4 * k) in m :: kept[k] == m[name(4 * k)]
  {
    seq(20, k requires 0 <= k < 20 => if name(4 * k) in m then m[name(4 * k)] else 0)
  }

  /** The twenty words of the chunk a record is encoded in; the part of a word its layout
      drops is zero. */
  ghost function Arrange(layout: Layout, r: Record, kept: seq<u32>): (word: seq<u32>)
    requires HasLayout(layout, r) && |kept| == 20
    ensures |word| == 20
    ensures forall k | 0 <= k < 20 && Keeps(layout, k) :: word[k] == kept[k]
  {
    match layout
    case Texture =>
      [r.requestOrdinal, kept[1], r.streamRef, kept[3], kept[4], kept[5], r.dataOffset, r.size, kept[8], kept[9],
       kept[10], kept[11], r.width, r.height + 0x1_0000 * r.depth, r.pixelFormat, kept[15], r.bytesPerRow,
       r.bytesPerImage, 0x1_0000 * r.slice, 0x100 * r.plane + r.level]
    case Pipeline =>
      [r.pipelineId, kept[1], r.handle % U32_LIMIT, r.handle / U32_LIMIT, kept[4], kept[5], r.dataOffset, r.size]
      + kept[8..]
    case Wireframe =>
      kept[..4] + [r.dispatchUid, kept[5], r.dataOffset, r.size] + kept[8..12]
      + [r.width, r.height, r.pixelFormat] + kept[15..]
    case _ =>
      kept[..2] + [r.streamRef] + kept[3..6] + [r.dataOffset, r.size] + kept[8..]
  }

  ghost function Words(layout: Layout, r: Record): (word: seq<u32>)
    requires WellFormed(layout, r)
    ensures |word| == 20
  {
    Arrange(layout, r, KeptWords(r.unmapped, OffsetName))
  }

  ghost function Assemble(word: seq<u32>): Chunk
    requires |word| == 20
  {
    seq(80, i requires 0 <= i < 80 => U32Bytes(word[i / 4])[i % 4])
  }

  lemma AssembledWord(word: seq<u32>, k: nat)
    requires |word| == 20 && k < 20
    ensures U32At(Assemble(word), 4 * k) == word[k]
    ensures U16At(Assemble(word), 4 * k) == word[k] % 0x1_0000
    ensures U16At(Assemble(word), 4 * k + 2) == word[k] / 0x1_0000
  {
    assert (4 * k + 1) / 4 == k && (4 * k + 2) / 4 == k && (4 * k + 3) / 4 == k;
  }

  ghost function Encode(layout: Layout, r: Record): Chunk
    requires WellFormed(layout, r)
  {
    Assemble(Words(layout, r))
  }

  /** A chunk that holds every listed word of a map yields the map. */
  lemma RestoreCollected(c: Chunk, offsets: seq<Slot>, name: Slot -> string, m: map<string, u32>)
    requires Distinct(name) && NamesAre(m, offsets, name)
    requires forall o | o in offsets :: name(o) in m && U32At(c, o) == m[name(o)]
    ensures Collected(c, offsets, name) == m
  {
    CollectedHolds(c, offsets, name);
    forall n | n in m ensures Collected(c, offsets, name)[n] == m[n] {
      var o :| o in offsets && name(o) == n;
    }
  }

  lemma EncodedUnmapped(layout: Layout, r: Record)
    requires WellFormed(layout, r)
    ensures UnmappedOf(Encode(layout, r), UnmappedOffsets(layout)) == r.unmapped
  {
    var c, offsets := Encode(layout, r), UnmappedOffsets(layout);
    OffsetNamesDistinct();
    KeptOffsets(layout);
    forall o | o in offsets ensures OffsetName(o) in r.unmapped && U32At(c, o) == r.unmapped[OffsetName(o)] {
      KeptSlot(layout, r, o);
    }
    RestoreCollected(c, offsets, OffsetName, r.unmapped);
  }

  lemma KeptSlot(layout: Layout, r: Record, o: Slot)
    requires WellFormed(layout, r) && o in UnmappedOffsets(layout) && Keeps(layout, o / 4)
    ensures OffsetName(o) in r.unmapped && U32At(Encode(layout, r), o) == r.unmapped[OffsetName(o)]
  {
    assert o == 4 * (o / 4);
    AssembledWord(Words(layout, r), o / 4);
  }

  /** Decoding inverts encoding, in all six layouts. */
  lemma RecordRoundTrip(layout: Layout, r: Record)
    requires WellFormed(layout, r)
    ensures Decode(layout, Encode(layout, r)) == r
  {
    EncodedUnmapped(layout, r);
    ArrangedFields(layout, r, KeptWords(r.unmapped, OffsetName));
  }

  ghost predicate HoldsWords(c: Chunk, w: seq<u32>) {
    && |w| == 20
    && forall k | 0 <= k < 20 ::
         && U32At(c, 4 * k) == w[k]
         && U16At(c, 4 * k) == w[k] % 0x1_0000
         && U16At(c, 4 * k + 2) == w[k] / 0x1_0000
  }

  lemma AssembledHolds(w: seq<u32>)
    requires |w| == 20
    ensures HoldsWords(Assemble(w), w)
  {
    forall k | 0 <= k < 20
      ensures && U32At(Assemble(w), 4 * k) == w[k]
              && U16At(Assemble(w), 4 * k) == w[k] % 0x1_0000
              && U16At(Assemble(w), 4 * k + 2) == w[k] / 0x1_0000
    {
      AssembledWord(w, k);
    }
  }

  /** Where each layout's own fields stand among the words. */
  ghost predicate FieldsStand(layout: Layout, r: Record, w: seq<u32>)
    requires HasLayout(layout, r) && |w| == 20
  {
    && w[6] == r.dataOffset && w[7] == r.size
    && match layout
       case Texture =>
         && w[0] == r.requestOrdinal && w[2] == r.streamRef && w[12] == r.width
         && w[13] == r.height + 0x1_0000 * r.depth && w[14] == r.pixelFormat && w[16] == r.bytesPerRow
         && w[17] == r.bytesPerImage && w[18] == 0x1_0000 * r.slice && w[19] == 0x100 * r.plane + r.level
       case Wireframe =>
         w[4] == r.dispatchUid && w[12] == r.width && w[13] == r.height && w[14] == r.pixelFormat
       case Pipeline =>
         w[0] == r.pipelineId && w[2] == r.handle % U32_LIMIT && w[3] == r.handle / U32_LIMIT
       case _ => w[2] == r.streamRef
  }

  lemma ArrangedStand(layout: Layout, r: Record, kept: seq<u32>)
    requires HasLayout(layout, r) && |kept| == 20
    ensures FieldsStand(layout, r, Arrange(layout, r, kept))
  {
  }

  lemma ArrangedFields(layout: Layout, r: Record, kept: seq<u32>)
    requires HasLayout(layout, r) && |kept| == 20
    ensures Interpret(layout, Assemble(Arrange(layout, r, kept)), r.unmapped) == r
  {
    ArrangedStand(layout, r, kept);
    AssembledHolds(Arrange(layout, r, kept));
    StandingFields(layout, r, Arrange(layout, r, kept), Assemble(Arrange(layout, r, kept)));
  }

  /** A chunk that holds a record's words reads as the record. */
  lemma StandingFields(layout: Layout, r: Record, w: seq<u32>, c: Chunk)
    requires HasLayout(layout, r) && HoldsWords(c, w) && FieldsStand(layout, r, w)
    ensures Interpret(layout, c, r.unmapped) == r
  {
    match layout {
      case Texture => TextureFields(r, w, c);
      case Wireframe => WireframeFields(r, w, c);
      case Pipeline => PipelineFields(r, w, c);
      case _ => IdentityFields(layout, r, w, c);
    }
  }

  lemma TextureFields(r: Record, w: seq<u32>, c: Chunk)
    requires HasLayout(Texture, r) && HoldsWords(c, w) && FieldsStand(Texture, r, w)
    ensures Interpret(Texture, c, r.unmapped) == r
  {
  }

  lemma WireframeFields(r: Record, w: seq<u32>, c: Chunk)
    requires HasLayout(Wireframe, r) && HoldsWords(c, w) && FieldsStand(Wireframe, r, w)
    ensures Interpret(Wireframe, c, r.unmapped) == r
  {
  }

  lemma PipelineFields(r: Record, w: seq<u32>, c: Chunk)
    requires HasLayout(Pipeline, r) && HoldsWords(c, w) && FieldsStand(Pipeline, r, w)
    ensures Interpret(Pipeline, c, r.unmapped) == r
  {
  }

  lemma IdentityFields(layout: Layout, r: Record, w: seq<u32>, c: Chunk)
    requires layout.Buffer? || layout.Heap? || layout.Accel?
    requires HasLayout(layout, r) && HoldsWords(c, w) && FieldsStand(layout, r, w)
    ensures Interpret(layout, c, r.unmapped) == r
  {
  }

  /** Every decoded record is one its layout can produce. */
  lemma DecodedWellFormed(layout: Layout, c: Chunk)
    ensures WellFormed(layout, Decode(layout, c))
  {
    OffsetNamesDistinct();
    CollectedHolds(c, UnmappedOffsets(layout), OffsetName);
  }

  /** Encoding inverts decoding exactly on the chunks whose dropped bytes are zero; so for
      buffers, heaps, acceleration structures and pipelines, on every chunk. */
  lemma ChunkRoundTrip(layout: Layout, c: Chunk)
    ensures WellFormed(layout, Decode(layout, c))
    ensures Encode(layout, Decode(layout, c)) == c <==> forall i | 0 <= i < STRIDE && Dropped(layout, i) :: c[i] == 0
  {
    DecodedWellFormed(layout, c);
    var r := Decode(layout, c);
    EncodedDropsZero(layout, r);
    assert Decode(layout, Encode(layout, r)) == Decode(layout, c) by { RecordRoundTrip(layout, r); }
    SameOutsideDropped(layout, Encode(layout, r), c);
  }

  lemma SameOutsideDropped(layout: Layout, e: Chunk, c: Chunk)
    requires Decode(layout, e) == Decode(layout, c)
    requires forall i | 0 <= i < STRIDE && Dropped(layout, i) :: e[i] == 0
    ensures e == c <==> forall i | 0 <= i < STRIDE && Dropped(layout, i) :: c[i] == 0
  {
    ChunkKernel(layout, e, c);
    if forall i | 0 <= i < STRIDE && Dropped(layout, i) :: c[i] == 0 {
      forall i | 0 <= i < STRIDE ensures e[i] == c[i] {
      }
      assert e == c;
    }
  }

  lemma EncodedDropsZero(layout: Layout, r: Record)
    requires WellFormed(layout, r)
    ensures forall i | 0 <= i < STRIDE && Dropped(layout, i) :: Encode(layout, r)[i] == 0
  {
    ArrangedDropsZero(layout, r, KeptWords(r.unmapped, OffsetName));
  }

  lemma ArrangedDropsZero(layout: Layout, r: Record, kept: seq<u32>)
    requires HasLayout(layout, r) && |kept| == 20
    ensures forall i | 0 <= i < STRIDE && Dropped(layout, i) :: Assemble(Arrange(layout, r, kept))[i] == 0
  {
    ArrangedStand(layout, r, kept);
    AssembledHolds(Arrange(layout, r, kept));
    StandingDropsZero(layout, r, Arrange(layout, r, kept), Assemble(Arrange(layout, r, kept)));
  }

  lemma StandingDropsZero(layout: Layout, r: Record, w: seq<u32>, c: Chunk)
    requires HasLayout(layout, r) && HoldsWords(c, w) && FieldsStand(layout, r, w)
    ensures forall i | 0 <= i < STRIDE && Dropped(layout, i) :: c[i] == 0
  {
    match layout {
      case Texture =>
        assert U16At(c, 4 * 18) == w[18] % 0x1_0000 == 0;
        assert U16At(c, 4 * 19 + 2) == w[19] / 0x1_0000 == 0;
      case Wireframe =>
        assert U16At(c, 4 * 13 + 2) == w[13] / 0x1_0000 == 0;
      case _ =>
    }
  }

  // ---------------------------------------------------------------------------
  // The probe decoder
  // ---------------------------------------------------------------------------

  datatype InfoRecord = InfoRecord(
    requestOrdinal: u32, streamRef: u32, dataOffset: u32, size: u32, width: u32, height: u16, depth: u16,
    pixelFormat: u32, bytesPerRow: u32, bytesPerImage: u32, unmapped: map<string, u32>)

  datatype TableError = TrailingBytes(len: nat, stride: nat)

  function DecodeInfo(c: Chunk): InfoRecord {
    InfoRecord(U32At(c, 0x00), U32At(c, 0x08), U32At(c, 0x18), U32At(c, 0x1c), U32At(c, 0x30), U16At(c, 0x34),
               U16At(c, 0x36), U32At(c, 0x38), U32At(c, 0x40), U32At(c, 0x44), UnmappedOf(c, PROBE_UNMAPPED))
  }

  /** `parse_records`, pushing record by record and inserting slot by slot. */
  method ParseRecords(info: seq<byte>) returns (r: Result<seq<InfoRecord>, TableError>)
    ensures r.Failure? <==> |info| % STRIDE != 0
    ensures r.Failure? ==> r.error == TrailingBytes(|info|, STRIDE)
    ensures r.Success? ==>
              && |r.value| == |info| / STRIDE
              && forall i | 0 <= i < |r.value| :: r.value[i] == DecodeInfo(ChunkAt(info, i))
  {
    if |info| % STRIDE != 0 {
      return Failure(TrailingBytes(|info|, STRIDE));
    }
    var out: seq<InfoRecord> := [];
    for i := 0 to |info| / STRIDE
      invariant |out| == i
      invariant forall x | 0 <= x < i :: out[x] == DecodeInfo(ChunkAt(info, x))
    {
      var record := ParseInfo(ChunkAt(info, i));
      out := out + [record];
    }
    r := Success(out);
  }

  method ParseInfo(c: Chunk) returns (r: InfoRecord)
    ensures r == DecodeInfo(c)
  {
    var unmapped := CollectUnmapped(c, PROBE_UNMAPPED);
    r := InfoRecord(U32At(c, 0x00), U32At(c, 0x08), U32At(c, 0x18), U32At(c, 0x1c), U32At(c, 0x30), U16At(c, 0x34),
                    U16At(c, 0x36), U32At(c, 0x38), U32At(c, 0x40), U32At(c, 0x44), unmapped);
  }

  /** What the texture layout makes of a probe record: the two self-describing words are
      split into slice, plane and level, and are no longer kept. */
  function Project(r: InfoRecord): Record
    requires OffsetName(0x48) in r.unmapped && OffsetName(0x4c) in r.unmapped
  {
    var slice, planeLevel := r.unmapped[OffsetName(0x48)], r.unmapped[OffsetName(0x4c)];
    TextureRecord(r.streamRef, r.requestOrdinal, r.dataOffset, r.size, r.width, r.height, r.depth, r.pixelFormat,
                  r.bytesPerRow, r.bytesPerImage, slice / 0x1_0000, planeLevel / 0x100 % 0x100,
                  planeLevel % 0x100, r.unmapped - {OffsetName(0x48), OffsetName(0x4c)})
  }

  /** The texture decoder factors through the probe decoder. */
  lemma TextureFactorsThroughProbe(c: Chunk)
    ensures OffsetName(0x48) in DecodeInfo(c).unmapped && OffsetName(0x4c) in DecodeInfo(c).unmapped
    ensures Decode(Texture, c) == Project(DecodeInfo(c))
  {
    ProbeKeepsTwoMore();
    OffsetNamesDistinct();
    CollectTwoMore(c, TEXTURE_UNMAPPED, PROBE_UNMAPPED, 0x48, 0x4c, OffsetName);
  }

  /** Collecting two slots more adds those two words and nothing else. */
  lemma CollectTwoMore(c: Chunk, fewer: seq<Slot>, more: seq<Slot>, x: Slot, y: Slot, name: Slot -> string)
    requires Distinct(name)
    requires forall o: nat :: o in more <==> o in fewer || o == x || o == y
    requires x !in fewer && y !in fewer
    ensures var all := Collected(c, more, name);
            && name(x) in all && all[name(x)] == U32At(c, x)
            && name(y) in all && all[name(y)] == U32At(c, y)
            && Collected(c, fewer, name) == all - {name(x), name(y)}
  {
    var all, kept := Collected(c, more, name), Collected(c, fewer, name);
    assert x in more && y in more;
    assert name(x) in all && all[name(x)] == U32At(c, x) && name(y) in all && all[name(y)] == U32At(c, y) by {
      CollectedHolds(c, more, name);
    }
    forall n ensures n in kept <==> n in all && n != name(x) && n != name(y)
             ensures n in kept && n in all ==> kept[n] == all[n] {
      CollectTwoMoreAt(c, fewer, more, x, y, name, n);
    }
    assert kept == all - {name(x), name(y)};
  }

  lemma CollectTwoMoreAt(c: Chunk, fewer: seq<Slot>, more: seq<Slot>, x: Slot, y: Slot, name: Slot -> string, n: string)
    requires Distinct(name)
    requires forall o: nat :: o in more <==> o in fewer || o == x || o == y
    requires x !in fewer && y !in fewer
    ensures var all, kept := Collected(c, more, name), Collected(c, fewer, name);
            && (n in kept <==> n in all && n != name(x) && n != name(y))
            && (n in kept && n in all ==> kept[n] == all[n])
  {
    CollectedHolds(c, more, name);
    CollectedHolds(c, fewer, name);
    if n in Collected(c, more, name) {
      var o :| o in more && name(o) == n;
      if o in fewer {
        assert name(o) in Collected(c, fewer, name);
      }
    }
  }

  lemma ProbeKeepsTwoMore()
    ensures forall o: nat :: o in PROBE_UNMAPPED <==> o in TEXTURE_UNMAPPED || o == 0x48 || o == 0x4c
    ensures 0x48 !in TEXTURE_UNMAPPED && 0x4c !in TEXTURE_UNMAPPED
  {
  }

  /** The probe decoder loses nothing. */
  lemma ProbeLossless(a: Chunk, b: Chunk)
    requires DecodeInfo(a) == DecodeInfo(b)
    ensures a == b
  {
    SameUnmapped(a, b, PROBE_UNMAPPED);
    TextureFactorsThroughProbe(a);
    TextureFactorsThroughProbe(b);
    ChunkKernel(Texture, a, b);
    assert 0x48 in PROBE_UNMAPPED && 0x4c in PROBE_UNMAPPED;
    SameU32(a, b, 0x48);
    SameU32(a, b, 0x4c);
    forall i | 0 <= i < STRIDE ensures a[i] == b[i] {
    }
  }
}
