/**
  The 80-byte records of a reply's info table: six layouts over one stride, what each
  keeps of a chunk, and the lossless probe decoder the texture layout factors through.
 */
module Records {
  import opened LittleEndian
  import opened Machine

  const STRIDE: nat := 80

  type Chunk = c: seq<byte> | |c| == 80 witness seq(80, i => 0)

  /** The offset of one of a chunk's twenty words. */
  type Slot = o: nat | o < 80 && o % 4 == 0

  const TEXTURE_UNMAPPED: seq<Slot> := [0x04, 0x0c, 0x10, 0x14, 0x20, 0x24, 0x28, 0x2c, 0x3c]
  const IDENTITY_UNMAPPED: seq<Slot> :=
    [0x00, 0x04, 0x0c, 0x10, 0x14, 0x20, 0x24, 0x28, 0x2c, 0x30, 0x34, 0x38, 0x3c, 0x40, 0x44, 0x48, 0x4c]
  const PIPELINE_UNMAPPED: seq<Slot> :=
    [0x04, 0x10, 0x14, 0x20, 0x24, 0x28, 0x2c, 0x30, 0x34, 0x38, 0x3c, 0x40, 0x44, 0x48, 0x4c]
  const WIREFRAME_UNMAPPED: seq<Slot> :=
    [0x00, 0x04, 0x08, 0x0c, 0x14, 0x20, 0x24, 0x28, 0x2c, 0x3c, 0x40, 0x44, 0x48, 0x4c]
  const PROBE_UNMAPPED: seq<Slot> := [0x04, 0x0c, 0x10, 0x14, 0x20, 0x24, 0x28, 0x2c, 0x3c, 0x48, 0x4c]

  /** The key an unmapped slot is kept under. */
  function OffsetName(o: Slot): string {
    match o
    case 0x00 => "0x00"
    case 0x04 => "0x04"
    case 0x08 => "0x08"
    case 0x0c => "0x0c"
    case 0x10 => "0x10"
    case 0x14 => "0x14"
    case 0x18 => "0x18"
    case 0x1c => "0x1c"
    case 0x20 => "0x20"
    case 0x24 => "0x24"
    case 0x28 => "0x28"
    case 0x2c => "0x2c"
    case 0x30 => "0x30"
    case 0x34 => "0x34"
    case 0x38 => "0x38"
    case 0x3c => "0x3c"
    case 0x40 => "0x40"
    case 0x44 => "0x44"
    case 0x48 => "0x48"
    case _ => "0x4c"
  }

  /** The value a name spells in its last two hexadecimal digits. */
  ghost function Spelled(name: string): nat
    requires |name| == 4
  {
    HexDigit(name[2]) * 0x10 + HexDigit(name[3])
  }

  ghost function HexDigit(c: char): nat {
    if c == 'c' then 12 else if '0' <= c <= '9' then (c as int) - ('0' as int) else 0
  }

  /** No two slots share a name. */
  lemma OffsetNameSpells(o: Slot)
    ensures |OffsetName(o)| == 4 && Spelled(OffsetName(o)) == o
  {
    var k := o / 4;
    assert o == 4 * k;
    if k < 10 {
      assert k == 0 || k == 1 || k == 2 || k == 3 || k == 4 || k == 5 || k == 6 || k == 7 || k == 8 || k == 9;
    } else {
      assert k == 10 || k == 11 || k == 12 || k == 13 || k == 14 || k == 15 || k == 16 || k == 17 || k == 18 || k == 19;
    }
  }

  /** The words at the listed slots, inserted in order under the names given. */
  function Collected(c: Chunk, offsets: seq<Slot>, name: Slot -> string): map<string, u32> {
    if offsets == [] then map[]
    else
      var n := |offsets| - 1;
      Collected(c, offsets[..n], name)[name(offsets[n]) := U32At(c, offsets[n])]
  }

  /** The slots a layout does not interpret, kept by name. */
  function UnmappedOf(c: Chunk, offsets: seq<Slot>): map<string, u32> {
    Collected(c, offsets, OffsetName)
  }

  /** `unmapped_of`, with its map filled in place. */
  method CollectUnmapped(c: Chunk, offsets: seq<Slot>) returns (unmapped: map<string, u32>)
    ensures unmapped == UnmappedOf(c, offsets)
    ensures forall name :: name in unmapped <==> exists o :: o in offsets && OffsetName(o) == name
    ensures forall o | o in offsets :: OffsetName(o) in unmapped && unmapped[OffsetName(o)] == U32At(c, o)
  {
    unmapped := map[];
    for i := 0 to |offsets|
      invariant unmapped == UnmappedOf(c, offsets[..i])
    {
      assert offsets[..i + 1][..i] == offsets[..i];
      unmapped := unmapped[OffsetName(offsets[i]) := U32At(c, offsets[i])];
    }
    assert offsets[..|offsets|] == offsets;
    OffsetNamesDistinct();
    CollectedHolds(c, offsets, OffsetName);
  }

  ghost predicate Distinct(name: Slot -> string) {
    forall o, p :: name(o) == name(p) ==> o == p
  }

  lemma OffsetNamesDistinct()
    ensures Distinct(OffsetName)
  {
    forall o, p | OffsetName(o) == OffsetName(p) ensures o == p {
      OffsetNameSpells(o);
      OffsetNameSpells(p);
    }
  }

  /** Every listed slot is there under its own name, with its own word, and nothing else. */
  lemma {:induction false} CollectedHolds(c: Chunk, offsets: seq<Slot>, name: Slot -> string)
    requires Distinct(name)
    ensures forall n :: n in Collected(c, offsets, name) <==> exists o :: o in offsets && name(o) == n
    ensures forall o | o in offsets ::
              name(o) in Collected(c, offsets, name) && Collected(c, offsets, name)[name(o)] == U32At(c, o)
    decreases |offsets|
  {
    if offsets != [] {
      var last := offsets[|offsets| - 1];
      assert offsets == offsets[..|offsets| - 1] + [last];
      CollectedHolds(c, offsets[..|offsets| - 1], name);
    }
  }

  lemma SameCollected(a: Chunk, b: Chunk, offsets: seq<Slot>, name: Slot -> string)
    requires Distinct(name)
    ensures Collected(a, offsets, name) == Collected(b, offsets, name)
       <==> forall o | o in offsets :: U32At(a, o) == U32At(b, o)
  {
    if o :| o in offsets && U32At(a, o) != U32At(b, o) {
      DifferentCollected(a, b, offsets, name, o);
    } else {
      EqualCollected(a, b, offsets, name);
    }
  }

  lemma DifferentCollected(a: Chunk, b: Chunk, offsets: seq<Slot>, name: Slot -> string, o: Slot)
    requires Distinct(name) && o in offsets && U32At(a, o) != U32At(b, o)
    ensures Collected(a, offsets, name) != Collected(b, offsets, name)
  {
    CollectedHolds(a, offsets, name);
    CollectedHolds(b, offsets, name);
    assert Collected(a, offsets, name)[name(o)] != Collected(b, offsets, name)[name(o)];
  }

  lemma EqualCollected(a: Chunk, b: Chunk, offsets: seq<Slot>, name: Slot -> string)
    requires Distinct(name)
    requires forall o | o in offsets :: U32At(a, o) == U32At(b, o)
    ensures Collected(a, offsets, name) == Collected(b, offsets, name)
    decreases |offsets|
  {
    if offsets != [] {
      EqualCollected(a, b, offsets[..|offsets| - 1], name);
    }
  }

  /** The kept maps of two chunks are equal exactly when the words they keep are. */
  lemma SameUnmapped(a: Chunk, b: Chunk, offsets: seq<Slot>)
    ensures UnmappedOf(a, offsets) == UnmappedOf(b, offsets)
       <==> forall o | o in offsets :: U32At(a, o) == U32At(b, o)
  {
    OffsetNamesDistinct();
    SameCollected(a, b, offsets, OffsetName);
  }

  // ---------------------------------------------------------------------------
  // The six layouts
  // ---------------------------------------------------------------------------

  datatype Layout = Texture | Buffer | Heap | Accel | Pipeline | Wireframe

  datatype Record =
    | TextureRecord(streamRef: u32, requestOrdinal: u32, dataOffset: u32, size: u32, width: u32, height: u16,
                    depth: u16, pixelFormat: u32, bytesPerRow: u32, bytesPerImage: u32, slice: u32,
                    plane: u32, level: u32, unmapped: map<string, u32>)
    | BufferRecord(streamRef: u32, dataOffset: u32, size: u32, unmapped: map<string, u32>)
    | HeapRecord(streamRef: u32, dataOffset: u32, size: u32, unmapped: map<string, u32>)
    | AccelRecord(streamRef: u32, dataOffset: u32, size: u32, unmapped: map<string, u32>)
    | PipelineRecord(pipelineId: u32, handle: u64, dataOffset: u32, size: u32, unmapped: map<string, u32>)
    | WireframeRecord(dispatchUid: u32, width: u32, height: u16, pixelFormat: u32, dataOffset: u32, size: u32,
                      unmapped: map<string, u32>)

  function UnmappedOffsets(layout: Layout): seq<Slot> {
    match layout
    case Texture => TEXTURE_UNMAPPED
    case Pipeline => PIPELINE_UNMAPPED
    case Wireframe => WIREFRAME_UNMAPPED
    case _ => IDENTITY_UNMAPPED
  }

  /** The fields a layout reads, beside the slots it keeps. */
  function Interpret(layout: Layout, c: Chunk, unmapped: map<string, u32>): Record {
    match layout
    case Texture =>
      var planeLevel := U32At(c, 0x4c);
      TextureRecord(U32At(c, 0x08), U32At(c, 0x00), U32At(c, 0x18), U32At(c, 0x1c), U32At(c, 0x30),
                    U16At(c, 0x34), U16At(c, 0x36), U32At(c, 0x38), U32At(c, 0x40), U32At(c, 0x44),
                    U32At(c, 0x48) / 0x1_0000, planeLevel / 0x100 % 0x100, planeLevel % 0x100, unmapped)
    case Buffer => BufferRecord(U32At(c, 0x08), U32At(c, 0x18), U32At(c, 0x1c), unmapped)
    case Heap => HeapRecord(U32At(c, 0x08), U32At(c, 0x18), U32At(c, 0x1c), unmapped)
    case Accel => AccelRecord(U32At(c, 0x08), U32At(c, 0x18), U32At(c, 0x1c), unmapped)
    case Pipeline => PipelineRecord(U32At(c, 0x00), U64At(c, 0x08), U32At(c, 0x18), U32At(c, 0x1c), unmapped)
    case Wireframe =>
      WireframeRecord(U32At(c, 0x10), U32At(c, 0x30), U16At(c, 0x34), U32At(c, 0x38), U32At(c, 0x18),
                      U32At(c, 0x1c), unmapped)
  }

  /** `Record::decode` */
  function Decode(layout: Layout, c: Chunk): Record {
    Interpret(layout, c, UnmappedOf(c, UnmappedOffsets(layout)))
  }

  /** The bytes a layout neither interprets nor keeps. */
  predicate Dropped(layout: Layout, i: nat) {
    match layout
    case Texture => 0x48 <= i < 0x4a || 0x4e <= i < 0x50
    case Wireframe => 0x36 <= i < 0x38
    case _ => false
  }

  ghost predicate SameWord(a: Chunk, b: Chunk, k: nat)
    requires k < 20
  {
    a[4 * k] == b[4 * k] && a[4 * k + 1] == b[4 * k + 1] && a[4 * k + 2] == b[4 * k + 2] && a[4 * k + 3] == b[4 * k + 3]
  }

  /** Agreement word by word is agreement byte by byte. */
  lemma TextureCover(a: Chunk, b: Chunk)
    ensures (forall i | 0 <= i < STRIDE && !Dropped(Texture, i) :: a[i] == b[i])
       <==> (&& (forall k | 0 <= k < 18 :: SameWord(a, b, k))
             && a[0x4a] == b[0x4a] && a[0x4b] == b[0x4b] && a[0x4c] == b[0x4c] && a[0x4d] == b[0x4d])
  {
    LeadingCover(a, b, 18);
    assert forall i | 0 <= i < 0x48 :: !Dropped(Texture, i);
  }

  lemma LeadingCover(a: Chunk, b: Chunk, n: nat)
    requires n <= 20
    ensures (forall i | 0 <= i < 4 * n :: a[i] == b[i]) <==> forall k | 0 <= k < n :: SameWord(a, b, k)
  {
    WordOfByte(a, b);
  }

  lemma WireframeCover(a: Chunk, b: Chunk)
    ensures (forall i | 0 <= i < STRIDE && !Dropped(Wireframe, i) :: a[i] == b[i])
       <==> (&& (forall k | 0 <= k < 20 && k != 13 :: SameWord(a, b, k))
             && a[0x34] == b[0x34] && a[0x35] == b[0x35])
  {
    WordOfByte(a, b);
  }

  lemma WholeCover(a: Chunk, b: Chunk)
    ensures (forall i | 0 <= i < STRIDE :: a[i] == b[i]) <==> forall k | 0 <= k < 20 :: SameWord(a, b, k)
  {
    WordOfByte(a, b);
  }

  lemma WordOfByte(a: Chunk, b: Chunk)
    ensures forall i | 0 <= i < STRIDE :: SameWord(a, b, i / 4) ==> a[i] == b[i]
  {
    forall i | 0 <= i < STRIDE ensures SameWord(a, b, i / 4) ==> a[i] == b[i] {
      assert i == 4 * (i / 4) + i % 4;
    }
  }

  lemma SameU32Words(a: Chunk, b: Chunk)
    ensures forall k | 0 <= k < 20 :: U32At(a, 4 * k) == U32At(b, 4 * k) <==> SameWord(a, b, k)
  {
    forall k | 0 <= k < 20 ensures U32At(a, 4 * k) == U32At(b, 4 * k) <==> SameWord(a, b, k) {
      SameU32(a, b, 4 * k);
    }
  }

  /** The exact kernel of every layout: two chunks decode alike exactly when they agree on
      every byte the layout does not drop. */
  lemma ChunkKernel(layout: Layout, a: Chunk, b: Chunk)
    ensures Decode(layout, a) == Decode(layout, b)
       <==> forall i | 0 <= i < STRIDE && !Dropped(layout, i) :: a[i] == b[i]
  {
    match layout {
      case Texture =>
        TextureKernel(a, b);
        TextureCover(a, b);
      case Wireframe =>
        WireframeKernel(a, b);
        WireframeCover(a, b);
      case Pipeline =>
        PipelineKernel(a, b);
        WholeCover(a, b);
      case _ =>
        IdentityKernel(layout, a, b);
        WholeCover(a, b);
    }
  }

  /** No two different chunks decode alike. */
  ghost predicate DropsNothing(layout: Layout) {
    forall a: Chunk, b: Chunk :: Decode(layout, a) == Decode(layout, b) ==> a == b
  }

  /** The documented promise that nothing is dropped holds of every layout but two. */
  lemma DropsNothingExactly(layout: Layout)
    ensures DropsNothing(layout) <==> layout != Texture && layout != Wireframe
  {
    if layout == Texture || layout == Wireframe {
      var a, b := TwoChunksOneRecord(layout);
      assert !DropsNothing(layout);
    } else {
      forall a: Chunk, b: Chunk | Decode(layout, a) == Decode(layout, b) ensures a == b {
        ChunkKernel(layout, a, b);
      }
    }
  }

  /** Two chunks that differ in a dropped byte and decode alike. */
  lemma TwoChunksOneRecord(layout: Layout) returns (a: Chunk, b: Chunk)
    requires layout == Texture || layout == Wireframe
    ensures a != b && Decode(layout, a) == Decode(layout, b)
  {
    var zeros: seq<byte> := seq(STRIDE, i => 0);
    var at := if layout == Texture then 0x48 else 0x36;
    a, b := zeros, zeros[at := 1];
    assert a[at] != b[at];
    ChunkKernel(layout, a, b);
  }

  /** The words each layout keeps under a name. */
  ghost predicate Keeps(layout: Layout, k: nat) {
    match layout
    case Texture => k == 1 || 3 <= k <= 5 || 8 <= k <= 11 || k == 15
    case Pipeline => k == 1 || 4 <= k <= 5 || 8 <= k < 20
    case Wireframe => k <= 3 || k == 5 || 8 <= k <= 11 || 15 <= k < 20
    case _ => k <= 1 || 3 <= k <= 5 || 8 <= k < 20
  }

  lemma KeptOffsets(layout: Layout)
    ensures forall o: nat :: o in UnmappedOffsets(layout) <==> KeptAt(layout, o)
  {
    forall o: nat ensures o in UnmappedOffsets(layout) <==> KeptAt(layout, o) {
      match layout {
        case Texture => assert o in TEXTURE_UNMAPPED <==> KeptAt(layout, o);
        case Pipeline => assert o in PIPELINE_UNMAPPED <==> KeptAt(layout, o);
        case Wireframe => assert o in WIREFRAME_UNMAPPED <==> KeptAt(layout, o);
        case _ => assert o in IDENTITY_UNMAPPED <==> KeptAt(layout, o);
      }
    }
  }

  ghost predicate KeptAt(layout: Layout, o: nat) {
    o % 4 == 0 && o < STRIDE && Keeps(layout, o / 4)
  }

  /** The kept maps are equal exactly when the kept words are. */
  lemma SameKept(layout: Layout, a: Chunk, b: Chunk)
    ensures UnmappedOf(a, UnmappedOffsets(layout)) == UnmappedOf(b, UnmappedOffsets(layout))
       <==> forall k | 0 <= k < 20 && Keeps(layout, k) :: SameWord(a, b, k)
  {
    var offsets := UnmappedOffsets(layout);
    SameUnmapped(a, b, offsets);
    KeptOffsets(layout);
    SameU32Words(a, b);
    if forall o | o in offsets :: U32At(a, o) == U32At(b, o) {
      forall k | 0 <= k < 20 && Keeps(layout, k) ensures SameWord(a, b, k) {
        assert (4 * k) / 4 == k && 4 * k in offsets;
      }
    }
    if forall k | 0 <= k < 20 && Keeps(layout, k) :: SameWord(a, b, k) {
      forall o | o in offsets ensures U32At(a, o) == U32At(b, o) {
        assert o == 4 * (o / 4) && SameWord(a, b, o / 4);
      }
    }
  }

  lemma TextureKernel(a: Chunk, b: Chunk)
    ensures Decode(Texture, a) == Decode(Texture, b)
       <==> (&& (forall k | 0 <= k < 18 :: SameWord(a, b, k))
             && a[0x4a] == b[0x4a] && a[0x4b] == b[0x4b] && a[0x4c] == b[0x4c] && a[0x4d] == b[0x4d])
  {
    SameKept(Texture, a, b);
    SameU32Words(a, b);
    SameU16(a, b, 0x34);
    SameU16(a, b, 0x36);
    SameU16(a, b, 0x4a);
    HighHalf(a);
    HighHalf(b);
    LowBytes(a);
    LowBytes(b);
    TextureReads(a, b);
  }

  /** The words the texture layout interprets. */
  lemma TextureReads(a: Chunk, b: Chunk)
    ensures (forall k | 0 <= k < 18 :: SameWord(a, b, k))
       <==> (&& (forall k | 0 <= k < 20 && Keeps(Texture, k) :: SameWord(a, b, k))
             && SameWord(a, b, 0) && SameWord(a, b, 2) && SameWord(a, b, 6) && SameWord(a, b, 7)
             && SameWord(a, b, 12) && SameWord(a, b, 13) && SameWord(a, b, 14) && SameWord(a, b, 16)
             && SameWord(a, b, 17))
  {
  }

  lemma HighHalf(c: Chunk)
    ensures U32At(c, 0x48) / 0x1_0000 == U16At(c, 0x4a)
  {
  }

  lemma LowBytes(c: Chunk)
    ensures U32At(c, 0x4c) / 0x100 % 0x100 == c[0x4d] && U32At(c, 0x4c) % 0x100 == c[0x4c]
  {
    var rest := (c[0x4e] as int) + 0x100 * (c[0x4f] as int);
    assert U32At(c, 0x4c) == (c[0x4c] as int) + 0x100 * ((c[0x4d] as int) + 0x100 * rest);
    LowDigit(c[0x4c], (c[0x4d] as int) + 0x100 * rest);
    LowDigit(c[0x4d], rest);
  }

  lemma LowDigit(low: byte, rest: nat)
    ensures ((low as int) + 0x100 * rest) % 0x100 == low && ((low as int) + 0x100 * rest) / 0x100 == rest
  {
  }

  lemma WireframeKernel(a: Chunk, b: Chunk)
    ensures Decode(Wireframe, a) == Decode(Wireframe, b)
       <==> (&& (forall k | 0 <= k < 20 && k != 13 :: SameWord(a, b, k))
             && a[0x34] == b[0x34] && a[0x35] == b[0x35])
  {
    SameKept(Wireframe, a, b);
    SameU32Words(a, b);
    SameU16(a, b, 0x34);
    assert (forall k | 0 <= k < 20 && k != 13 :: SameWord(a, b, k))
      <==> (&& (forall k | 0 <= k < 20 && Keeps(Wireframe, k) :: SameWord(a, b, k))
            && SameWord(a, b, 4) && SameWord(a, b, 6) && SameWord(a, b, 7) && SameWord(a, b, 12) && SameWord(a, b, 14));
  }

  lemma PipelineKernel(a: Chunk, b: Chunk)
    ensures Decode(Pipeline, a) == Decode(Pipeline, b) <==> forall k | 0 <= k < 20 :: SameWord(a, b, k)
  {
    SameKept(Pipeline, a, b);
    SameU32Words(a, b);
    SameU64(a, b, 0x08);
    assert (forall k | 0 <= k < 20 :: SameWord(a, b, k))
      <==> (&& (forall k | 0 <= k < 20 && Keeps(Pipeline, k) :: SameWord(a, b, k))
            && SameWord(a, b, 0) && SameWord(a, b, 2) && SameWord(a, b, 3) && SameWord(a, b, 6) && SameWord(a, b, 7));
  }

  lemma IdentityKernel(layout: Layout, a: Chunk, b: Chunk)
    requires layout.Buffer? || layout.Heap? || layout.Accel?
    ensures Decode(layout, a) == Decode(layout, b) <==> forall k | 0 <= k < 20 :: SameWord(a, b, k)
  {
    SameKept(layout, a, b);
    SameU32Words(a, b);
    assert (forall k | 0 <= k < 20 :: SameWord(a, b, k))
      <==> (&& (forall k | 0 <= k < 20 && Keeps(layout, k) :: SameWord(a, b, k))
            && SameWord(a, b, 2) && SameWord(a, b, 6) && SameWord(a, b, 7));
  }
}
