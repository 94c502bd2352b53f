/**
  `Reply::decode` and the payload slices of both crates: the one validation that keeps
  every later slice in bounds, and the aligned copy the high-level crate slices instead.
 */
module Payloads {
  import opened LittleEndian
  import opened Machine
  import opened Records
  import opened RecordTables
  import opened ReplyEnvelope
  import opened Wrappers
  import Formats
  import Images
  import Strides

  /** A decoded reply owns the raw one. */
  datatype Reply = Reply(raw: RawReply, records: seq<Record>)

  /** `offset.checked_add(size)` lies within `limit`. */
  predicate Fits(r: Record, limit: nat) {
    var end := CheckedAdd(r.dataOffset, r.size);
    end.Some? && end.value <= limit
  }

  /** The validation loop: the first record whose range leaves the blob is the error. */
  function Validate(records: seq<Record>, limit: nat): Result<(), ShapeError> {
    if records == [] then
      Success(())
    else
      var n := |records| - 1;
      var _ :- Validate(records[..n], limit);
      if Fits(records[n], limit) then Success(())
      else Failure(PayloadOutOfRange(records[n].dataOffset, records[n].size))
  }

  function DecodeReply(layout: Layout, raw: RawReply): Result<Reply, ShapeError> {
    if |raw.info| % STRIDE != 0 then
      Failure(InfoNotMultiple(|raw.info|))
    else
      var records := DecodeTable(layout, raw.info);
      var _ :- Validate(records, |raw.data|);
      Success(Reply(raw, records))
  }

  /** Validation succeeds exactly when every record fits; otherwise it names the first
      that does not. */
  lemma {:induction false} ValidateExact(records: seq<Record>, limit: nat)
    ensures Validate(records, limit).Success? <==> forall i | 0 <= i < |records| :: Fits(records[i], limit)
    ensures forall n | 0 <= n < |records| && !Fits(records[n], limit)
                    && (forall i | 0 <= i < n :: Fits(records[i], limit)) ::
              Validate(records, limit) == Failure(PayloadOutOfRange(records[n].dataOffset, records[n].size))
    decreases |records|
  {
    if records != [] {
      var n := |records| - 1;
      ValidateExact(records[..n], limit);
      forall i | 0 <= i < n ensures records[..n][i] == records[i] {
      }
    }
  }

  /** The loop that validates the records one by one. */
  method CheckRecords(records: seq<Record>, limit: nat) returns (r: Result<(), ShapeError>)
    ensures r == Validate(records, limit)
  {
    ValidateExact(records, limit);
    for i := 0 to |records|
      invariant forall x | 0 <= x < i :: Fits(records[x], limit)
    {
      if !Fits(records[i], limit) {
        return Failure(PayloadOutOfRange(records[i].dataOffset, records[i].size));
      }
    }
    r := Success(());
  }

  /** `Reply::decode`, collecting the records and then validating them. */
  method Decode(layout: Layout, raw: RawReply) returns (r: Result<Reply, ShapeError>)
    ensures r == DecodeReply(layout, raw)
  {
    if |raw.info| % STRIDE != 0 {
      return Failure(InfoNotMultiple(|raw.info|));
    }
    var records := DecodeTable(layout, raw.info);
    var checked := CheckRecords(records, |raw.data|);
    r := if checked.Success? then Success(Reply(raw, records)) else Failure(checked.error);
  }

  /** Decoding succeeds exactly when the table divides into records and every record's
      range lies in the blob; and then there is one record a chunk. */
  lemma DecodesExactly(layout: Layout, raw: RawReply)
    ensures DecodeReply(layout, raw).Success?
       <==> (&& |raw.info| % STRIDE == 0
             && forall i | 0 <= i < |raw.info| / STRIDE :: ChunkFits(ChunkAt(raw.info, i), |raw.data|))
    ensures DecodeReply(layout, raw).Success? ==>
              DecodeReply(layout, raw).value == Reply(raw, DecodeTable(layout, raw.info))
  {
    if |raw.info| % STRIDE == 0 {
      TableFits(layout, raw.info, |raw.data|);
    }
  }

  lemma TableFits(layout: Layout, info: seq<byte>, limit: nat)
    requires |info| % STRIDE == 0
    ensures Validate(DecodeTable(layout, info), limit).Success?
       <==> forall i | 0 <= i < |info| / STRIDE :: ChunkFits(ChunkAt(info, i), limit)
  {
    var records := DecodeTable(layout, info);
    ValidateExact(records, limit);
    forall i | 0 <= i < |records| ensures Fits(records[i], limit) <==> ChunkFits(ChunkAt(info, i), limit) {
      RecordFitsItsChunk(layout, ChunkAt(info, i), limit);
    }
  }

  lemma RecordFitsItsChunk(layout: Layout, c: Chunk, limit: nat)
    ensures Fits(Records.Decode(layout, c), limit) <==> ChunkFits(c, limit)
  {
    RangeWords(layout, c);
  }

  /** The range a chunk claims, read off its words 0x18 and 0x1c, lies within `limit`. */
  ghost predicate ChunkFits(c: Chunk, limit: nat) {
    U32At(c, 0x18) + U32At(c, 0x1c) <= limit
  }

  /** Every layout reads its range from the same two words. */
  lemma RangeWords(layout: Layout, c: Chunk)
    ensures Records.Decode(layout, c).dataOffset == U32At(c, 0x18)
    ensures Records.Decode(layout, c).size == U32At(c, 0x1c)
  {
  }

  /** `Reply::payload`: `data.get(offset..offset + size)`, or nothing. */
  function PayloadOf(reply: Reply, r: Record): seq<byte> {
    if r.dataOffset + r.size <= |reply.raw.data|
    then reply.raw.data[r.dataOffset..r.dataOffset + r.size] else []
  }

  /** For a reply's own records the empty fallback is unreachable: the payload is the
      record's whole range. */
  lemma PayloadIsTheRange(layout: Layout, raw: RawReply, i: nat)
    requires DecodeReply(layout, raw).Success?
    requires i < |DecodeReply(layout, raw).value.records|
    ensures var reply := DecodeReply(layout, raw).value;
            var r := reply.records[i];
            && r.dataOffset + r.size <= |raw.data|
            && PayloadOf(reply, r) == raw.data[r.dataOffset..r.dataOffset + r.size]
            && |PayloadOf(reply, r)| == r.size
  {
    RecordFits(layout, raw, i);
  }

  lemma RecordFits(layout: Layout, raw: RawReply, i: nat)
    requires DecodeReply(layout, raw).Success?
    requires i < |DecodeReply(layout, raw).value.records|
    ensures DecodeReply(layout, raw).value.raw == raw
    ensures Fits(DecodeReply(layout, raw).value.records[i], |raw.data|)
  {
    ValidateExact(DecodeTable(layout, raw.info), |raw.data|);
  }

  // ---------------------------------------------------------------------------
  // The aligned copy
  // ---------------------------------------------------------------------------

  const ALIGNMENT: nat := 16

  /** An owned byte buffer of whole 16-byte cells, at least one. Its start is aligned; an
      offset into it need not be. */
  class AlignedBuf {
    const data: array<byte>
    const len: nat
    const address: nat

    ghost predicate Valid() {
      address % ALIGNMENT == 0 && len <= data.Length
    }

    /** Copies `src` into fresh zeroed cells, placed at whichever cell the allocator gives. */
    constructor (src: seq<byte>, place: nat)
      ensures Valid() && fresh(data)
      ensures len == |src| && AsSlice() == src && address == ALIGNMENT * place
      ensures data.Length % ALIGNMENT == 0 && ALIGNMENT <= data.Length < |src| + 2 * ALIGNMENT
      ensures forall i | |src| <= i < data.Length :: data[i] == 0
    {
      var cells := if DivCeil(|src|, ALIGNMENT) > 1 then DivCeil(|src|, ALIGNMENT) else 1;
      var cell := new byte[ALIGNMENT * cells](_ => 0);
      for i := 0 to |src|
        invariant forall x | 0 <= x < i :: cell[x] == src[x]
        invariant forall x | i <= x < cell.Length :: cell[x] == 0
      {
        cell[i] := src[i];
      }
      data, len, address := cell, |src|, ALIGNMENT * place;
      new;
      assert data[..len] == src;
    }

    /** The bytes that were copied, and no more. */
    function AsSlice(): (s: seq<byte>)
      requires Valid()
      reads data
      ensures |s| == len
    {
      data[..len]
    }
  }

  /** A view of part of a shared buffer. */
  datatype View = View(buf: AlignedBuf, off: nat, len: nat) {

    /** The view lies in the buffer; slicing it panics otherwise. */
    ghost predicate InBounds() {
      buf.Valid() && off + len <= buf.len
    }

    function Bytes(): (s: seq<byte>)
      requires InBounds()
      reads buf.data
      ensures |s| == len
    {
      buf.AsSlice()[off..off + len]
    }

    function Address(): nat {
      buf.address + off
    }
  }

  /** The view of one record's range of a buffer. */
  function ViewOf(buf: AlignedBuf, r: Record): View {
    View(buf, r.dataOffset, r.size)
  }

  /** What every fetch method of `Capture` does with a reply: copy its blob once, and view
      each record's range of the copy. Every view is in bounds and reads the same bytes
      as the reply's own payload. */
  method ShareRecords(layout: Layout, raw: RawReply, reply: Reply, place: nat)
    returns (buf: AlignedBuf, views: seq<View>)
    requires DecodeReply(layout, raw) == Success(reply)
    ensures fresh(buf) && fresh(buf.data) && buf.Valid() && buf.AsSlice() == raw.data
    ensures |views| == |reply.records|
    ensures forall i | 0 <= i < |views| :: views[i] == ViewOf(buf, reply.records[i]) && views[i].InBounds()
    ensures forall i | 0 <= i < |views| :: views[i].Bytes() == PayloadOf(reply, reply.records[i])
  {
    DecodesExactly(layout, raw);
    buf := new AlignedBuf(reply.raw.data, place);
    views := ViewRecords(buf, reply.records);
    forall i | 0 <= i < |views| ensures views[i].InBounds() && views[i].Bytes() == PayloadOf(reply, reply.records[i]) {
      PayloadIsTheRange(layout, raw, i);
    }
  }

  method ViewRecords(buf: AlignedBuf, records: seq<Record>) returns (views: seq<View>)
    ensures |views| == |records|
    ensures forall i | 0 <= i < |views| :: views[i] == ViewOf(buf, records[i])
  {
    views := [];
    for i := 0 to |records|
      invariant |views| == i
      invariant forall x | 0 <= x < i :: views[x] == ViewOf(buf, records[x])
    {
      views := views + [ViewOf(buf, records[i])];
    }
  }

  // ---------------------------------------------------------------------------
  // Casting a texture's payload
  // ---------------------------------------------------------------------------

  /** `Texture::from_parts`, as far as the access paths read it. */
  function TextureImage(r: Record, v: View): Images.Image
    requires r.TextureRecord? && v.InBounds()
    reads v.buf.data
  {
    Images.Image(r.width, r.height, r.bytesPerRow, r.pixelFormat, Images.Slice(v.Bytes(), v.Address()))
  }

  /** `Wireframe::from_parts`. */
  function WireframeImage(r: Record, v: View): Images.Image
    requires r.WireframeRecord? && v.InBounds()
    reads v.buf.data
  {
    Images.WireframeImage(r.width, r.height, r.pixelFormat, Images.Slice(v.Bytes(), v.Address()))
  }

  /** The bytes of the shared copy in a record's range. */
  ghost function RangeOf(buf: AlignedBuf, r: Record): (bytes: seq<byte>)
    requires buf.Valid() && r.dataOffset + r.size <= buf.len
    reads buf.data
    ensures |bytes| == r.size
  {
    buf.AsSlice()[r.dataOffset..r.dataOffset + r.size]
  }

  /** In the record's own fields, wherever the shared copy is placed: a texture whose elements
      fit its format is cast exactly when its rows are unpadded, its range holds them and its
      offset is aligned. It then has a pixel for every place, and these are the leading bytes
      of the range. */
  lemma TextureCasts(r: Record, buf: AlignedBuf, p: Images.Element)
    requires r.TextureRecord? && ViewOf(buf, r).InBounds() && Images.FlatOf(r.pixelFormat, p.size)
    ensures var cast := Images.Pixels(TextureImage(r, ViewOf(buf, r)), p);
            && (cast.Success? <==>
                  && r.bytesPerRow == r.width * p.size && r.height * r.bytesPerRow <= r.size
                  && r.dataOffset % p.align == 0)
            && (cast.Success? ==>
                  && |cast.value| == r.width * r.height
                  && Strides.Joined(cast.value) == RangeOf(buf, r)[..r.height * r.bytesPerRow])
            && (r.bytesPerRow == r.width * p.size && r.height * r.bytesPerRow <= r.size && cast.Failure? ==>
                  cast.error == Images.Misaligned(p.align))
  {
    var img := TextureImage(r, ViewOf(buf, r));
    Images.PixelsExactly(img, p, p.size);
    Images.ElementExactly(img, p.size);
    Images.AspectBppIsElementSize(img);
    Images.AlignmentDivides(p);
    Images.SameOffset(buf.address, r.dataOffset, p.align);
    if Images.Pixels(img, p).Success? {
      CastGroups(img.payload.bytes[..img.height * img.bytesPerRow], p.size, r.width, r.height);
    }
  }

  lemma CastGroups(bytes: seq<byte>, n: nat, width: nat, height: nat)
    requires n > 0 && |bytes| == height * (width * n)
    ensures |Strides.Groups(bytes, n)| == width * height
    ensures Strides.Joined(Strides.Groups(bytes, n)) == bytes
  {
    assert height * (width * n) == (width * height) * n;
    Strides.GroupAt(bytes, n, width * height);
    Strides.JoinedGroupsTimes(bytes, n, width * height);
  }

  /** Packed, byte `x` of row `y` of a texture is byte `y * bytes_per_row + x` of its range. */
  lemma TexturePacks(r: Record, buf: AlignedBuf, n: nat)
    requires r.TextureRecord? && ViewOf(buf, r).InBounds() && Images.FlatOf(r.pixelFormat, n)
    ensures var packed := Images.PackedBytes(TextureImage(r, ViewOf(buf, r)));
            if r.width * n <= r.bytesPerRow && r.height * r.bytesPerRow <= r.size
            then && packed.Success?
                 && Strides.Tightened(packed.value.bytes, r.width * n, RangeOf(buf, r), r.bytesPerRow, r.height)
            else packed == Failure(Images.Truncated)
  {
    var img := TextureImage(r, ViewOf(buf, r));
    Images.AccessErrors(img, Images.ElementType(1, 1), n);
    if Images.PackedBytes(img).Success? {
      Images.PackedPlaces(img, n);
    }
  }

  /** The same of a compressed texture, in rows of blocks. */
  lemma TexturePacksBlocks(r: Record, buf: AlignedBuf, width: nat, height: nat, bytes: nat)
    requires r.TextureRecord? && ViewOf(buf, r).InBounds() && Formats.BlockOf(r.pixelFormat, width, height, bytes)
    ensures 4 <= width && 4 <= height && bytes > 0
    ensures var blocks := Images.BlocksOf(TextureImage(r, ViewOf(buf, r)));
            && blocks.Success? && Images.RealBlocks(blocks.value)
            && Images.BlocksPacked(Images.PackedBlocks(blocks.value), DivCeil(r.width, width) * bytes,
                                   RangeOf(buf, r), r.bytesPerRow / bytes * bytes, DivCeil(r.height, height))
  {
    Images.PackedBlockPlaces(TextureImage(r, ViewOf(buf, r)), width, height, bytes);
  }

  /** A colour wireframe is cast exactly when its rows fit 32 bits, its range holds them all and
      its offset is aligned; and then it is the leading bytes of the range. */
  lemma WireframeCasts(r: Record, buf: AlignedBuf, p: Images.Element)
    requires r.WireframeRecord? && ViewOf(buf, r).InBounds() && Formats.ColorOfBytes(r.pixelFormat, p.size)
    ensures var cast := Images.Pixels(WireframeImage(r, ViewOf(buf, r)), p);
            && (cast.Success? <==>
                  && r.width * p.size < 0x1_0000_0000 && r.height * (r.width * p.size) <= r.size
                  && r.dataOffset % p.align == 0)
            && (cast.Success? ==>
                  && |cast.value| == r.width * r.height
                  && Strides.Joined(cast.value) == RangeOf(buf, r)[..r.height * (r.width * p.size)])
  {
    var img := WireframeImage(r, ViewOf(buf, r));
    Formats.ColorsExactly(r.pixelFormat, p.size);
    Images.CutExactly(r.width * p.size);
    Images.PixelsExactly(img, p, p.size);
    Images.ElementExactly(img, p.size);
    Images.AspectBppIsElementSize(img);
    Images.AlignmentDivides(p);
    Images.SameOffset(buf.address, r.dataOffset, p.align);
    if Images.Pixels(img, p).Success? {
      CastGroups(img.payload.bytes[..img.height * img.bytesPerRow], p.size, r.width, r.height);
    }
  }
}
