/**
  The access paths of `image.rs` over one strided image: `pixels`, `rows` and
  `packed_bytes` for plain formats, `packed_blocks` for compressed ones.
 */
module Images {
  import opened Formats
  import opened Machine
  import opened Strides
  import opened Wrappers

  /** A borrowed byte slice and the address it starts at. */
  datatype Slice = Slice(bytes: seq<byte>, address: nat)

  datatype Image = Image(width: u32, height: u32, bytesPerRow: u32, pixelFormat: u32, payload: Slice)

  /** A `Pod` element type, by size and alignment; Rust sizes are multiples of alignments. */
  type Element = e: ElementType | e.align > 0 && e.size % e.align == 0 witness ElementType(1, 1)
  datatype ElementType = ElementType(size: nat, align: nat)

  datatype ImageError =
    | Padded(bytesPerRow: u32, rowLen: u32)
    | Misaligned(align: nat)
    | Truncated
    | WrongCategory
    | FormatMismatch(requested: nat, actual: nat)
    | UnknownFormat(raw: u32)

  /** Elements, each as the group of bytes it is cast from. */
  type Elements = seq<seq<byte>>

  // ---------------------------------------------------------------------------
  // Sizes and bounds
  // ---------------------------------------------------------------------------

  /** The present aspect's own element size. */
  function AspectBpp(img: Image): Result<nat, ImageError> {
    match KindOf(img.pixelFormat)
    case Color(bytesPerPixel, _) => Success(bytesPerPixel)
    case DepthStencil(depth, stencil, _) =>
      if depth.Some? && stencil.None? then Success(if depth.value.Unorm16? then 2 else 4)
      else if depth.None? && stencil.Some? then Success(1)
      else Failure(WrongCategory)
    case Compressed(_, _, _) => Failure(WrongCategory)
    case Unknown => Failure(UnknownFormat(img.pixelFormat))
  }

  lemma AspectBppIsElementSize(img: Image)
    ensures AspectBpp(img).Success? ==> ElementSize(AspectBpp(img).value)
  {
    TableGeometry(img.pixelFormat);
  }

  function CheckedBpp(img: Image, p: Element): Result<nat, ImageError> {
    var bpp :- AspectBpp(img);
    if p.size != bpp then Failure(FormatMismatch(p.size, bpp)) else Success(bpp)
  }

  /** `height * bytes_per_row`, if a row fits the stride and the rows fit the payload. */
  function CheckedLen(img: Image, bpp: nat): Result<nat, ImageError> {
    var rowLen := CheckedMul(img.width, bpp);
    if rowLen.None? || img.bytesPerRow < rowLen.value then Failure(Truncated)
    else
      var need := CheckedMul(img.height, img.bytesPerRow);
      if need.None? || |img.payload.bytes| < need.value then Failure(Truncated)
      else Success(need.value)
  }

  /** No checked product of the plain paths overflows: the check is the plain comparison. */
  lemma CheckedLenExact(img: Image, bpp: nat)
    requires bpp <= 16
    ensures img.width * bpp <= 0xffff_ffff_ffff_ffff
    ensures img.height * img.bytesPerRow <= 0xffff_ffff_ffff_ffff
    ensures CheckedLen(img, bpp)
         == if img.width * bpp <= img.bytesPerRow && img.height * img.bytesPerRow <= |img.payload.bytes|
            then Success(img.height * img.bytesPerRow) else Failure(Truncated)
  {
    ProductBound(img.width, bpp, U32_LIMIT - 1, 16);
    ProductBound(img.height, img.bytesPerRow, U32_LIMIT - 1, U32_LIMIT - 1);
  }

  // ---------------------------------------------------------------------------
  // Casting and the plain paths
  // ---------------------------------------------------------------------------

  /** `bytemuck::try_cast_slice` from bytes to elements of a positive size. */
  function TryCast(bytes: seq<byte>, address: nat, p: Element): Result<Elements, ImageError>
    requires p.size > 0
  {
    if address % p.align != 0 || |bytes| % p.size != 0 then Failure(Misaligned(p.align))
    else Success(Groups(bytes, p.size))
  }

  function Pixels(img: Image, p: Element): Result<Elements, ImageError> {
    var bpp :- CheckedBpp(img, p);
    var rowLen := img.width * bpp;
    if img.bytesPerRow != rowLen then
      Failure(Padded(img.bytesPerRow, rowLen % U32_LIMIT))
    else
      var need :- CheckedLen(img, bpp);
      AspectBppIsElementSize(img);
      TryCast(img.payload.bytes[..need], img.payload.address, p)
  }

  /** Each of the first `n` rows, cast. */
  function CastRows(bytes: seq<byte>, address: nat, stride: nat, rowLen: nat, n: nat, p: Element)
    : Result<seq<Elements>, ImageError>
    requires p.size > 0 && RowsFit(|bytes|, stride, rowLen, n)
  {
    if n == 0 then
      Success([])
    else
      var rows :- CastRows(bytes, address, stride, rowLen, n - 1, p);
      var row :- CastRow(bytes, address, stride, rowLen, n - 1, p);
      Success(rows + [row])
  }

  /** Row `y`, cast. */
  function CastRow(bytes: seq<byte>, address: nat, stride: nat, rowLen: nat, y: nat, p: Element)
    : Result<Elements, ImageError>
    requires p.size > 0 && RowsFit(|bytes|, stride, rowLen, y + 1)
  {
    TryCast(Row(bytes, stride, rowLen, y), address + y * stride, p)
  }

  function Rows(img: Image, p: Element): Result<seq<Elements>, ImageError> {
    var bpp :- CheckedBpp(img, p);
    var _ :- CheckedLen(img, bpp);
    CheckedRowsFit(img, bpp);
    AspectBppIsElementSize(img);
    CastRows(img.payload.bytes, img.payload.address, img.bytesPerRow, img.width * bpp, img.height, p)
  }

  lemma CheckedRowsFit(img: Image, bpp: nat)
    requires CheckedLen(img, bpp).Success?
    ensures RowsFit(|img.payload.bytes|, img.bytesPerRow, img.width * bpp, img.height)
  {
    RowsFitWhole(|img.payload.bytes|, img.bytesPerRow, img.width * bpp, img.height);
  }

  /** `rows`, with its eager loop. */
  method CollectRows(img: Image, p: Element) returns (r: Result<seq<Elements>, ImageError>)
    ensures r == Rows(img, p)
  {
    var bpp := CheckedBpp(img, p);
    if bpp.Failure? {
      return Failure(bpp.error);
    }
    var need := CheckedLen(img, bpp.value);
    if need.Failure? {
      return Failure(need.error);
    }
    CheckedRowsFit(img, bpp.value);
    AspectBppIsElementSize(img);
    r := CollectCastRows(img.payload.bytes, img.payload.address, img.bytesPerRow, img.width * bpp.value, img.height, p);
  }

  method CollectCastRows(bytes: seq<byte>, address: nat, stride: nat, rowLen: nat, n: nat, p: Element)
    returns (r: Result<seq<Elements>, ImageError>)
    requires p.size > 0 && RowsFit(|bytes|, stride, rowLen, n)
    ensures r == CastRows(bytes, address, stride, rowLen, n, p)
  {
    var rows: seq<Elements> := [];
    for y := 0 to n
      invariant RowsFit(|bytes|, stride, rowLen, y)
      invariant CastRows(bytes, address, stride, rowLen, y, p) == Success(rows)
    {
      RowsFitFewer(|bytes|, stride, rowLen, y + 1, n);
      CastOneMoreRow(bytes, address, stride, rowLen, y, p);
      var row := CastRow(bytes, address, stride, rowLen, y, p);
      if row.Failure? {
        CastRowsPrefixFails(bytes, address, stride, rowLen, y + 1, n, p);
        return Failure(row.error);
      }
      rows := rows + [row.value];
    }
    r := Success(rows);
  }

  lemma CastOneMoreRow(bytes: seq<byte>, address: nat, stride: nat, rowLen: nat, y: nat, p: Element)
    requires p.size > 0 && RowsFit(|bytes|, stride, rowLen, y) && RowsFit(|bytes|, stride, rowLen, y + 1)
    ensures var rows := CastRows(bytes, address, stride, rowLen, y, p);
            var row := CastRow(bytes, address, stride, rowLen, y, p);
            CastRows(bytes, address, stride, rowLen, y + 1, p)
            == if rows.Failure? then rows
               else if row.Failure? then Failure(row.error)
               else Success(rows.value + [row.value])
  {
  }

  /** A row that cannot be cast is the error of all the rows. */
  lemma {:induction false} CastRowsPrefixFails(bytes: seq<byte>, address: nat, stride: nat, rowLen: nat,
                                               n: nat, m: nat, p: Element)
    requires p.size > 0 && n <= m
    requires RowsFit(|bytes|, stride, rowLen, m) && RowsFit(|bytes|, stride, rowLen, n)
    requires CastRows(bytes, address, stride, rowLen, n, p).Failure?
    ensures CastRows(bytes, address, stride, rowLen, m, p) == CastRows(bytes, address, stride, rowLen, n, p)
    decreases m
  {
    if n < m {
      RowsFitFewer(|bytes|, stride, rowLen, m - 1, m);
      CastRowsPrefixFails(bytes, address, stride, rowLen, n, m - 1, p);
    }
  }

  /** Packed bytes, and whether they are still borrowed from the payload. */
  datatype Packed = Packed(bytes: seq<byte>, borrowed: bool)

  function PackedBytes(img: Image): Result<Packed, ImageError> {
    var bpp :- AspectBpp(img);
    var need :- CheckedLen(img, bpp);
    CheckedRowsFit(img, bpp);
    var rowLen := img.width * bpp;
    if img.bytesPerRow == rowLen then Success(Packed(img.payload.bytes[..need], true))
    else Success(Packed(Strided(img.payload.bytes, img.bytesPerRow, rowLen, img.height), false))
  }

  /** `packed_bytes`, with its copying loop. */
  method PackBytes(img: Image) returns (r: Result<Packed, ImageError>)
    ensures r == PackedBytes(img)
  {
    var bpp := AspectBpp(img);
    if bpp.Failure? {
      return Failure(bpp.error);
    }
    var need := CheckedLen(img, bpp.value);
    if need.Failure? {
      return Failure(need.error);
    }
    CheckedRowsFit(img, bpp.value);
    var rowLen := img.width * bpp.value;
    if img.bytesPerRow == rowLen {
      return Success(Packed(img.payload.bytes[..need.value], true));
    }
    var out := CopyRows(img.payload.bytes, img.bytesPerRow, rowLen, img.height);
    r := Success(Packed(out, false));
  }

  /** The row loop both packing paths run. */
  method CopyRows(bytes: seq<byte>, stride: nat, rowLen: nat, n: nat) returns (out: seq<byte>)
    requires RowsFit(|bytes|, stride, rowLen, n)
    ensures out == Strided(bytes, stride, rowLen, n)
  {
    out := [];
    for y := 0 to n
      invariant RowsFit(|bytes|, stride, rowLen, y)
      invariant out == Strided(bytes, stride, rowLen, y)
    {
      RowsFitFewer(|bytes|, stride, rowLen, y + 1, n);
      out := out + Row(bytes, stride, rowLen, y);
    }
  }

  // ---------------------------------------------------------------------------
  // The plain paths agree
  // ---------------------------------------------------------------------------

  /** The packed bytes are the leading tight part of every row and nothing more, whether
      they were copied or borrowed, and they are borrowed exactly when there is no padding. */
  lemma PackedBytesExact(img: Image)
    requires PackedBytes(img).Success?
    ensures AspectBpp(img).Success?
    ensures var rowLen := img.width * AspectBpp(img).value;
            var packed := PackedBytes(img).value;
            && |packed.bytes| == img.height * rowLen
            && (packed.borrowed <==> img.bytesPerRow == rowLen)
            && RowsFit(|img.payload.bytes|, img.bytesPerRow, rowLen, img.height)
            && packed.bytes == Strided(img.payload.bytes, img.bytesPerRow, rowLen, img.height)
  {
    var rowLen := img.width * AspectBpp(img).value;
    CheckedRowsFit(img, AspectBpp(img).value);
    if img.bytesPerRow == rowLen {
      StridedTight(img.payload.bytes, rowLen, img.height);
    }
    StridedLength(img.payload.bytes, img.bytesPerRow, rowLen, img.height);
  }

  /** `rows` succeeds exactly when the element fits the format, the bounds hold and every
      row starts aligned. */
  lemma RowsExact(img: Image, p: Element)
    ensures Rows(img, p).Success?
       <==> (&& CheckedBpp(img, p).Success?
             && CheckedLen(img, p.size).Success?
             && RowsAligned(img, p))
  {
    AspectBppIsElementSize(img);
    if CheckedBpp(img, p).Success? && CheckedLen(img, p.size).Success? {
      CheckedRowsFit(img, p.size);
      CastRowsExact(img.payload.bytes, img.payload.address, img.bytesPerRow, img.width * p.size, img.height, p,
                    img.width);
    }
  }

  /** Every row of the image starts at a multiple of the element's alignment. */
  ghost predicate RowsAligned(img: Image, p: Element) {
    StartsAligned(img.payload.address, img.bytesPerRow, img.height, p.align)
  }

  ghost predicate StartsAligned(address: nat, stride: nat, n: nat, align: nat)
    requires align > 0
  {
    forall y | 0 <= y < n :: RowAligned(address, stride, y, align)
  }

  ghost predicate RowAligned(address: nat, stride: nat, y: nat, align: nat)
    requires align > 0
  {
    (address + y * stride) % align == 0
  }

  lemma {:induction false} CastRowsExact(bytes: seq<byte>, address: nat, stride: nat, rowLen: nat, n: nat,
                                         p: Element, width: nat)
    requires p.size > 0 && RowsFit(|bytes|, stride, rowLen, n) && rowLen == width * p.size
    ensures CastRows(bytes, address, stride, rowLen, n, p).Success?
       <==> StartsAligned(address, stride, n, p.align)
    ensures CastRows(bytes, address, stride, rowLen, n, p).Success? ==>
              && |CastRows(bytes, address, stride, rowLen, n, p).value| == n
              && Flatten(CastRows(bytes, address, stride, rowLen, n, p).value)
                 == Groups(Strided(bytes, stride, rowLen, n), p.size)
    decreases n
  {
    if n == 0 {
      assert Groups([], p.size) == [];
    } else {
      RowsFitFewer(|bytes|, stride, rowLen, n - 1, n);
      CastRowsExact(bytes, address, stride, rowLen, n - 1, p, width);
      MultipleDivides(width, p.size);
      var row := Row(bytes, stride, rowLen, n - 1);
      assert CastRow(bytes, address, stride, rowLen, n - 1, p).Success?
        <==> RowAligned(address, stride, n - 1, p.align);
      if CastRows(bytes, address, stride, rowLen, n, p).Success? {
        var rows := CastRows(bytes, address, stride, rowLen, n - 1, p).value;
        StridedGroups(bytes, stride, rowLen, n, p, width);
        FlattenSnoc(rows, Groups(row, p.size));
      }
    }
  }

  lemma StridedGroups(bytes: seq<byte>, stride: nat, rowLen: nat, n: nat, p: Element, width: nat)
    requires p.size > 0 && n > 0 && RowsFit(|bytes|, stride, rowLen, n) && rowLen == width * p.size
    ensures RowsFit(|bytes|, stride, rowLen, n - 1)
    ensures Groups(Strided(bytes, stride, rowLen, n), p.size)
         == Groups(Strided(bytes, stride, rowLen, n - 1), p.size) + Groups(Row(bytes, stride, rowLen, n - 1), p.size)
  {
    RowsFitFewer(|bytes|, stride, rowLen, n - 1, n);
    StridedLength(bytes, stride, rowLen, n - 1);
    StridedDivides(n - 1, width, p.size);
    GroupsConcat(Strided(bytes, stride, rowLen, n - 1), Row(bytes, stride, rowLen, n - 1), p.size);
  }

  /** The flattened rows are the packed bytes, grouped into elements. */
  lemma RowsArePacked(img: Image, p: Element)
    requires Rows(img, p).Success?
    ensures PackedBytes(img).Success?
    ensures |Rows(img, p).value| == img.height
    ensures p.size > 0 && Flatten(Rows(img, p).value) == Groups(PackedBytes(img).value.bytes, p.size)
    ensures Joined(Flatten(Rows(img, p).value)) == PackedBytes(img).value.bytes
  {
    AspectBppIsElementSize(img);
    CheckedRowsFit(img, p.size);
    PackedBytesExact(img);
    CastRowsExact(img.payload.bytes, img.payload.address, img.bytesPerRow, img.width * p.size, img.height, p,
                  img.width);
    StridedDivides(img.height, img.width, p.size);
    JoinedGroups(PackedBytes(img).value.bytes, p.size);
  }

  /** `pixels` succeeds exactly when `rows` does, the rows are unpadded and the image starts
      aligned - which the rows themselves require unless there are none - and then both are
      the same elements. So where `pixels` succeeds, `rows` succeeds with them, and they are
      the packed bytes, which were borrowed. */
  lemma PixelsAreRows(img: Image, p: Element)
    ensures Pixels(img, p).Success?
       <==> (&& Rows(img, p).Success?
             && img.bytesPerRow == img.width * p.size
             && img.payload.address % p.align == 0)
    ensures Pixels(img, p).Success? ==>
              && Rows(img, p).Success?
              && Flatten(Rows(img, p).value) == Pixels(img, p).value
              && PackedBytes(img) == Success(Packed(Joined(Pixels(img, p).value), true))
  {
    AspectBppIsElementSize(img);
    if CheckedBpp(img, p).Success? && CheckedLen(img, p.size).Success? && img.bytesPerRow == img.width * p.size {
      CheckedLenExact(img, p.size);
      StridedDivides(img.height, img.width, p.size);
      if img.payload.address % p.align == 0 {
        forall y | 0 <= y < img.height ensures RowAligned(img.payload.address, img.bytesPerRow, y, p.align) {
          AlignedRow(img.payload.address, y, img.width, p.size, p.align);
        }
        RowsExact(img, p);
        RowsArePacked(img, p);
        PackedBytesExact(img);
      }
    }
    RowsExact(img, p);
  }

  /** In a buffer that starts at a multiple of 16, a sub-slice of sufficient unpadded rows is cast
      exactly when its offset is a multiple of the element's alignment, and is misaligned otherwise. */
  lemma PixelsNeedAlignedOffset(img: Image, p: Element, base: nat, off: nat)
    requires base % 16 == 0 && img.payload.address == base + off
    requires CheckedBpp(img, p).Success? && CheckedLen(img, p.size).Success?
    requires img.bytesPerRow == img.width * p.size
    ensures Pixels(img, p).Success? <==> off % p.align == 0
    ensures Pixels(img, p).Failure? ==> Pixels(img, p).error == Misaligned(p.align)
  {
    AspectBppIsElementSize(img);
    AlignmentDivides(p);
    CheckedLenExact(img, p.size);
    StridedDivides(img.height, img.width, p.size);
    SameOffset(base, off, p.align);
  }

  /** An element of any format is aligned to a divisor of 16. */
  lemma AlignmentDivides(p: Element)
    requires ElementSize(p.size)
    ensures p.align == 1 || p.align == 2 || p.align == 4 || p.align == 8 || p.align == 16
  {
    assert p.align <= p.size;
  }

  lemma SameOffset(base: nat, off: nat, align: nat)
    requires base % 16 == 0 && (align == 1 || align == 2 || align == 4 || align == 8 || align == 16)
    ensures (base + off) % align == 0 <==> off % align == 0
  {
    FactorDivides(base, align, 16, if align == 1 then 16 else if align == 2 then 8 else if align == 4 then 4
                                   else if align == 8 then 2 else 1);
    OffsetRemains(base, off, align);
  }

  /** The documented promise of `pixels`: `raw` is byte-aligned if any image of it succeeds. */
  ghost predicate PromisesByteAlignment(raw: u32) {
    forall img: Image, p: Element | img.pixelFormat == raw && Pixels(img, p).Success? :: ByteAligned(KindOf(raw))
  }

  /** The code never tests it, so the promise holds exactly of the formats that are not packed
      colour; of a packed one it fails. */
  lemma ByteAlignmentExactly(raw: u32)
    ensures PromisesByteAlignment(raw) <==> !(KindOf(raw).Color? && !KindOf(raw).byteAligned)
  {
    if KindOf(raw).Color? {
      var img, p := SomePixels(raw);
      if PromisesByteAlignment(raw) {
        assert ByteAligned(KindOf(raw));
      }
    } else {
      forall img: Image, p: Element | img.pixelFormat == raw && Pixels(img, p).Success?
        ensures ByteAligned(KindOf(raw))
      {
        assert AspectBpp(img).Success?;
      }
    }
  }

  /** Every colour format has an image on which `pixels` succeeds. */
  lemma SomePixels(raw: u32) returns (img: Image, p: Element)
    requires KindOf(raw).Color?
    ensures img.pixelFormat == raw && Pixels(img, p).Success?
  {
    TableGeometry(raw);
    var n := KindOf(raw).bytesPerPixel;
    var bytes := seq(n, i => 0);
    img, p := Image(1, 1, n, raw, Slice(bytes, 0)), ElementType(n, 1);
    assert bytes[..n] == bytes;
  }

  /** Format 40, whose pixel packs three channels into two bytes, is accepted. */
  lemma PackedPixelAccepted(raw: u32) returns (img: Image, p: Element)
    requires raw == 40
    ensures KindOf(raw).Color? && !ByteAligned(KindOf(raw))
    ensures img.pixelFormat == raw && Pixels(img, p).Success?
  {
    assert [5, 6, 5][1] != [5, 6, 5][0];
    img, p := SomePixels(raw);
  }

  // ---------------------------------------------------------------------------
  // Compressed blocks
  // ---------------------------------------------------------------------------

  datatype Blocks = Blocks(bytes: seq<byte>, blockWidth: nat, blockHeight: nat, blockBytes: nat,
                           blocksPerRow: nat, width: u32, height: u32)

  /** `blocks`: the stride in whole blocks is the wire stride, floor-divided. */
  function BlocksOf(img: Image): Result<Blocks, ImageError> {
    TableGeometry(img.pixelFormat);
    match KindOf(img.pixelFormat)
    case Compressed(blockWidth, blockHeight, blockBytes) =>
      Success(Blocks(img.payload.bytes, blockWidth, blockHeight, blockBytes, img.bytesPerRow / blockBytes,
                     img.width, img.height))
    case _ => Failure(WrongCategory)
  }

  /** The geometry every `Blocks` of a real format has. */
  ghost predicate RealBlocks(b: Blocks) {
    && 4 <= b.blockWidth <= 12 && 4 <= b.blockHeight <= 12
    && (b.blockBytes == 8 || b.blockBytes == 16)
    && b.blocksPerRow * b.blockBytes < U32_LIMIT
  }

  function Columns(b: Blocks): nat
    requires b.blockWidth > 0
  {
    DivCeil(b.width, b.blockWidth)
  }

  function BlockRows(b: Blocks): nat
    requires b.blockHeight > 0
  {
    DivCeil(b.height, b.blockHeight)
  }

  function ExpectedLen(b: Blocks): nat
    requires b.blockWidth > 0 && b.blockHeight > 0
  {
    SaturatingMul(SaturatingMul(Columns(b), BlockRows(b)), b.blockBytes)
  }

  function PackedBlocks(b: Blocks): Result<Packed, ImageError>
    requires RealBlocks(b)
  {
    var tightRow := SaturatingMul(Columns(b), b.blockBytes);
    var fetchedRow := SaturatingMul(b.blocksPerRow, b.blockBytes);
    if fetchedRow < tightRow then
      Failure(Truncated)
    else
      var need := CheckedMul(BlockRows(b), fetchedRow);
      if need.None? || |b.bytes| < need.value then
        Failure(Truncated)
      else if fetchedRow == tightRow then
        Success(Packed(b.bytes[..if ExpectedLen(b) < |b.bytes| then ExpectedLen(b) else |b.bytes|], true))
      else
        RowsFitWhole(|b.bytes|, fetchedRow, tightRow, BlockRows(b));
        Success(Packed(Strided(b.bytes, fetchedRow, tightRow, BlockRows(b)), false))
  }

  /** `packed_blocks`, with its copying loop. */
  method PackBlocks(b: Blocks) returns (r: Result<Packed, ImageError>)
    requires RealBlocks(b)
    ensures r == PackedBlocks(b)
  {
    var tightRow := SaturatingMul(Columns(b), b.blockBytes);
    var fetchedRow := SaturatingMul(b.blocksPerRow, b.blockBytes);
    if fetchedRow < tightRow {
      return Failure(Truncated);
    }
    var need := CheckedMul(BlockRows(b), fetchedRow);
    if need.None? || |b.bytes| < need.value {
      return Failure(Truncated);
    }
    if fetchedRow == tightRow {
      var end := if ExpectedLen(b) < |b.bytes| then ExpectedLen(b) else |b.bytes|;
      return Success(Packed(b.bytes[..end], true));
    }
    RowsFitWhole(|b.bytes|, fetchedRow, tightRow, BlockRows(b));
    var out := CopyRows(b.bytes, fetchedRow, tightRow, BlockRows(b));
    r := Success(Packed(out, false));
  }

  /** Packing succeeds exactly when a fetched row holds a tight one and the rows fit. Then
      no saturated value was ever observed: the length is the exact product, the expected
      length. The borrowed and the copied results are both the leading tight part of every
      fetched row. */
  lemma PackedBlocksExact(b: Blocks)
    requires RealBlocks(b)
    ensures var tightRow, fetchedRow := Columns(b) * b.blockBytes, b.blocksPerRow * b.blockBytes;
            && (PackedBlocks(b).Success? <==> tightRow <= fetchedRow && BlockRows(b) * fetchedRow <= |b.bytes|)
            && (PackedBlocks(b).Success? ==>
                  && RowsFit(|b.bytes|, fetchedRow, tightRow, BlockRows(b))
                  && PackedBlocks(b).value.bytes == Strided(b.bytes, fetchedRow, tightRow, BlockRows(b))
                  && (PackedBlocks(b).value.borrowed <==> fetchedRow == tightRow)
                  && |PackedBlocks(b).value.bytes| == Columns(b) * BlockRows(b) * b.blockBytes == ExpectedLen(b))
  {
    BlockProducts(b);
    var tightRow, fetchedRow := Columns(b) * b.blockBytes, b.blocksPerRow * b.blockBytes;
    if tightRow <= fetchedRow && BlockRows(b) * fetchedRow <= |b.bytes| {
      RowsFitWhole(|b.bytes|, fetchedRow, tightRow, BlockRows(b));
      StridedLength(b.bytes, fetchedRow, tightRow, BlockRows(b));
      ProductMonotone(BlockRows(b), tightRow, fetchedRow);
      ExpectedLenExact(b);
      if fetchedRow == tightRow {
        StridedTight(b.bytes, tightRow, BlockRows(b));
      }
    }
  }

  /** The row lengths and the total that packing checks never leave the address space. */
  lemma BlockProducts(b: Blocks)
    requires RealBlocks(b)
    ensures Columns(b) * b.blockBytes <= 0xffff_ffff_ffff_ffff
    ensures BlockRows(b) * (b.blocksPerRow * b.blockBytes) <= 0xffff_ffff_ffff_ffff
  {
    DivCeilSmall(b.width, b.blockWidth);
    DivCeilSmall(b.height, b.blockHeight);
    ProductBound(Columns(b), b.blockBytes, U32_LIMIT - 1, 16);
    ProductBound(BlockRows(b), b.blocksPerRow * b.blockBytes, U32_LIMIT - 1, U32_LIMIT - 1);
  }

  /** The expected length is the exact product when that fits the address space, and the
      largest address otherwise. */
  lemma ExpectedLenExact(b: Blocks)
    requires RealBlocks(b)
    ensures var product := Columns(b) * BlockRows(b) * b.blockBytes;
            && ExpectedLen(b) == (if product <= 0xffff_ffff_ffff_ffff then product else 0xffff_ffff_ffff_ffff)
            && product == BlockRows(b) * (Columns(b) * b.blockBytes)
  {
    var cols, rows := Columns(b), BlockRows(b);
    assert cols * rows <= USIZE_MAX by {
      DivCeilSmall(b.width, b.blockWidth);
      DivCeilSmall(b.height, b.blockHeight);
      ProductBound(cols, rows, U32_LIMIT - 1, U32_LIMIT - 1);
    }
    SaturatesOnce(cols * rows, b.blockBytes);
    Reassociate(rows, cols, b.blockBytes);
  }

  lemma SaturatesOnce(cells: nat, size: nat)
    requires cells <= USIZE_MAX
    ensures SaturatingMul(SaturatingMul(cells, 1), size)
         == if cells * size <= USIZE_MAX then cells * size else USIZE_MAX
  {
  }

  /** It always fits for the 16-bit heights a record carries. */
  lemma RecordLenFits(b: Blocks)
    requires RealBlocks(b) && b.height < 0x1_0000
    ensures ExpectedLen(b) == Columns(b) * BlockRows(b) * b.blockBytes
  {
    var cols, rows := Columns(b), BlockRows(b);
    DivCeilSmall(b.width, b.blockWidth);
    DivCeilSmall(b.height, b.blockHeight);
    ProductBound(cols, rows, U32_LIMIT, 0x1_0000);
    ProductBound(cols * rows, b.blockBytes, U32_LIMIT * 0x1_0000, 16);
    ExpectedLenExact(b);
  }

  /** It need not fit for a 32-bit one. */
  lemma ExpectedLenSaturates() returns (b: Blocks)
    ensures RealBlocks(b) && ExpectedLen(b) == 0xffff_ffff_ffff_ffff < Columns(b) * BlockRows(b) * b.blockBytes
  {
    b := Blocks([], 4, 4, 16, 0, 0xffff_ffff, 0xffff_ffff);
    assert Columns(b) == 0x4000_0000 && BlockRows(b) == 0x4000_0000;
    ExpectedLenExact(b);
  }

  /** The blocks of an image keep its wire stride exactly when that is a whole number of
      blocks; otherwise every row but the first starts early. */
  lemma WireStrideHonoured(img: Image)
    requires BlocksOf(img).Success?
    ensures RealBlocks(BlocksOf(img).value)
    ensures var b := BlocksOf(img).value;
            forall y: nat :: y * (b.blocksPerRow * b.blockBytes) == y * img.bytesPerRow
                        <==> (y == 0 || img.bytesPerRow % b.blockBytes == 0)
  {
    TableGeometry(img.pixelFormat);
    var b := BlocksOf(img).value;
    var fetchedRow := b.blocksPerRow * b.blockBytes;
    assert fetchedRow == img.bytesPerRow - img.bytesPerRow % b.blockBytes;
    forall y: nat
      ensures y * fetchedRow == y * img.bytesPerRow <==> (y == 0 || img.bytesPerRow % b.blockBytes == 0)
    {
      if y > 0 && fetchedRow < img.bytesPerRow { StrictlyLess(y, fetchedRow, img.bytesPerRow); }
    }
  }

  // ---------------------------------------------------------------------------
  // Wireframes
  // ---------------------------------------------------------------------------

  /** The nominal bytes per pixel, or zero for compressed and unknown formats. */
  function NominalBpp(raw: u32): nat {
    match KindOf(raw)
    case Color(bytesPerPixel, _) => bytesPerPixel
    case DepthStencil(_, _, bytesPerPixel) => bytesPerPixel
    case _ => 0
  }

  /** `Wireframe::from_parts`: the record has no stride, so it is derived, in `u32`. */
  function WireframeImage(width: u32, height: u16, pixelFormat: u32, payload: Slice): Image {
    Image(width, height, width * NominalBpp(pixelFormat) % U32_LIMIT, pixelFormat, payload)
  }

  /** A wireframe keeps its size and format. Its stride is of nominal pixels: those of colour, of
      each depth or stencil format with its padding, and none for the rest. */
  lemma WireframeExactly(width: u32, height: u16, pixelFormat: u32, payload: Slice, n: nat)
    requires ColorOfBytes(pixelFormat, n) || (n == 2 && pixelFormat == 250) || (n == 4 && pixelFormat in {252, 262})
             || (n == 1 && pixelFormat == 253) || (n == 8 && pixelFormat in {260, 261})
             || (n == 0 && pixelFormat !in {250, 252, 253, 260, 261, 262}
                 && forall m :: !ColorOfBytes(pixelFormat, m))
    ensures WireframeImage(width, height, pixelFormat, payload)
         == Image(width, height, width * n % 0x1_0000_0000, pixelFormat, payload)
  {
    ColorsExactly(pixelFormat, n);
    AspectsExactly(pixelFormat);
    if KindOf(pixelFormat).Color? {
      ColorsExactly(pixelFormat, KindOf(pixelFormat).bytesPerPixel);
    }
  }

  /** The derived stride is right for colour, as long as the product fits 32 bits: such a
      wireframe is never reported as padded. For a depth or stencil format it is right exactly
      when the aspect has no padding of its own. */
  lemma WireframeUnpadded(width: u32, height: u16, pixelFormat: u32, payload: Slice, p: Element)
    requires CheckedBpp(WireframeImage(width, height, pixelFormat, payload), p).Success?
    ensures var img := WireframeImage(width, height, pixelFormat, payload);
            Pixels(img, p).Failure? && Pixels(img, p).error.Padded?
            <==> (width > 0 && (pixelFormat == 261 || pixelFormat == 262)) || width * p.size >= U32_LIMIT
  {
    var img := WireframeImage(width, height, pixelFormat, payload);
    AspectOrColor(pixelFormat);
    var nominal := NominalBpp(pixelFormat);
    assert nominal == p.size || (nominal == 8 && p.size == 1) || (nominal == 4 && p.size == 1);
    WrappedStride(width, nominal, p.size);
  }

  /** A stride cut to 32 bits is the row's own length only if nothing was cut. */
  lemma WrappedStride(width: u32, nominal: nat, size: nat)
    requires nominal == size || (nominal == 8 && size == 1) || (nominal == 4 && size == 1)
    ensures width * nominal % U32_LIMIT == width * size <==> width * size < U32_LIMIT && (nominal == size || width == 0)
  {
    if nominal == size {
      CutExactly(width * size);
    } else if nominal == 8 {
      CutEightfold(width);
    } else {
      CutFourfold(width);
    }
  }

  lemma CutExactly(n: nat)
    ensures n % U32_LIMIT == n <==> n < U32_LIMIT
  {
  }

  lemma CutEightfold(n: u32)
    ensures n * 8 % U32_LIMIT == n <==> n == 0
  {
  }

  lemma CutFourfold(n: u32)
    ensures n * 4 % U32_LIMIT == n <==> n == 0
  {
  }

  lemma AspectOrColor(raw: u32)
    ensures KindOf(raw).DepthStencil? ==>
              raw == 250 || raw == 252 || raw == 253 || raw == 260 || raw == 261 || raw == 262
    ensures raw >= 250 ==> !KindOf(raw).Color?
  {
    if raw < 60 { SmallColors(raw); } else if raw < 130 { WideColors(raw); }
  }

  // ---------------------------------------------------------------------------
  // Every outcome, by format number and size
  // ---------------------------------------------------------------------------

  /** One element of the format is `n` bytes: a pixel of colour, or of the one aspect there is. */
  ghost predicate FlatOf(raw: u32, n: nat) {
    || ColorOfBytes(raw, n)
    || (n == 2 && raw == 250) || (n == 4 && raw == 252) || (n == 1 && raw in {253, 261, 262})
  }

  ghost predicate SomeBlock(raw: u32) {
    exists width, height, bytes :: BlockOf(raw, width, height, bytes)
  }

  /** The element size of every format that has one, and what is wrong with the others. */
  lemma ElementExactly(img: Image, n: nat)
    ensures AspectBpp(img) == Success(n) <==> FlatOf(img.pixelFormat, n)
    ensures AspectBpp(img).Failure? ==>
              AspectBpp(img).error
              == if SomeBlock(img.pixelFormat) || img.pixelFormat == 260 then WrongCategory
                 else UnknownFormat(img.pixelFormat)
  {
    var raw := img.pixelFormat;
    ColorsExactly(raw, n);
    AspectsExactly(raw);
    if KindOf(raw).Compressed? {
      var kind := KindOf(raw);
      BlocksExactly(raw, kind.blockWidth, kind.blockHeight, kind.blockBytes);
    }
    if width, height, bytes :| BlockOf(raw, width, height, bytes) {
      BlocksExactly(raw, width, height, bytes);
    }
  }

  /** Every outcome of `pixels`, given the element size of the format: the first of what is
      wrong, in this order, or the leading bytes in elements. */
  lemma PixelsExactly(img: Image, p: Element, n: nat)
    requires FlatOf(img.pixelFormat, n)
    ensures Pixels(img, p)
         == if p.size != n then Failure(FormatMismatch(p.size, n))
            else if img.bytesPerRow != img.width * n then
              Failure(Padded(img.bytesPerRow, img.width * n % 0x1_0000_0000))
            else if |img.payload.bytes| < img.height * img.bytesPerRow then Failure(Truncated)
            else if img.payload.address % p.align != 0 then Failure(Misaligned(p.align))
            else Success(Groups(img.payload.bytes[..img.height * img.bytesPerRow], n))
  {
    ElementExactly(img, n);
    AspectBppIsElementSize(img);
    CheckedLenExact(img, n);
    StridedDivides(img.height, img.width, n);
  }

  /** What `rows` and `packed_bytes` answer when they fail. */
  lemma AccessErrors(img: Image, p: Element, n: nat)
    requires FlatOf(img.pixelFormat, n)
    ensures var short := img.bytesPerRow < img.width * n || |img.payload.bytes| < img.height * img.bytesPerRow;
            && (PackedBytes(img).Failure? <==> short)
            && (short ==> PackedBytes(img).error == Truncated)
            && (Rows(img, p).Failure? ==>
                  Rows(img, p).error == if p.size != n then FormatMismatch(p.size, n)
                                        else if short then Truncated
                                        else Misaligned(p.align))
  {
    ElementExactly(img, n);
    AspectBppIsElementSize(img);
    CheckedLenExact(img, n);
    if CheckedBpp(img, p).Success? && CheckedLen(img, n).Success? {
      CheckedRowsFit(img, n);
      MultipleDivides(img.width, n);
      CastRowsError(img.payload.bytes, img.payload.address, img.bytesPerRow, img.width * n, img.height, p);
    }
  }

  lemma {:induction false} CastRowsError(bytes: seq<byte>, address: nat, stride: nat, rowLen: nat, n: nat, p: Element)
    requires p.size > 0 && RowsFit(|bytes|, stride, rowLen, n)
    ensures var rows := CastRows(bytes, address, stride, rowLen, n, p);
            rows.Failure? ==> rows.error == Misaligned(p.align)
    decreases n
  {
    if n > 0 {
      RowsFitFewer(|bytes|, stride, rowLen, n - 1, n);
      CastRowsError(bytes, address, stride, rowLen, n - 1, p);
    }
  }

  /** Packed bytes, place by place: byte `x` of row `y` is byte `y * bytes_per_row + x`. */
  lemma PackedPlaces(img: Image, n: nat)
    requires FlatOf(img.pixelFormat, n) && PackedBytes(img).Success?
    ensures Tightened(PackedBytes(img).value.bytes, img.width * n, img.payload.bytes, img.bytesPerRow, img.height)
  {
    ElementExactly(img, n);
    PackedBytesExact(img);
    StridedTightens(img.payload.bytes, img.bytesPerRow, img.width * n, img.height);
  }

  /** The blocks of an image, by format number: its own size in whole blocks over its bytes. */
  lemma BlocksOfExactly(img: Image, width: nat, height: nat, bytes: nat)
    ensures BlockOf(img.pixelFormat, width, height, bytes) ==>
              && bytes > 0
              && BlocksOf(img) == Success(Blocks(img.payload.bytes, width, height, bytes, img.bytesPerRow / bytes,
                                                 img.width, img.height))
    ensures BlocksOf(img).Failure? <==> !SomeBlock(img.pixelFormat)
    ensures BlocksOf(img).Failure? ==> BlocksOf(img).error == WrongCategory
  {
    var raw := img.pixelFormat;
    BlocksExactly(raw, width, height, bytes);
    TableGeometry(raw);
    if KindOf(raw).Compressed? {
      var kind := KindOf(raw);
      BlocksExactly(raw, kind.blockWidth, kind.blockHeight, kind.blockBytes);
    }
    if w, h, b :| BlockOf(raw, w, h, b) {
      BlocksExactly(raw, w, h, b);
    }
  }

  /** Packed blocks of an image, place by place, over the fetched stride of whole blocks. */
  lemma PackedBlockPlaces(img: Image, width: nat, height: nat, bytes: nat)
    requires BlockOf(img.pixelFormat, width, height, bytes)
    ensures 4 <= width && 4 <= height && bytes > 0 && BlocksOf(img).Success? && RealBlocks(BlocksOf(img).value)
    ensures BlocksPacked(PackedBlocks(BlocksOf(img).value), DivCeil(img.width, width) * bytes, img.payload.bytes,
                         img.bytesPerRow / bytes * bytes, DivCeil(img.height, height))
  {
    BlocksOfExactly(img, width, height, bytes);
    WireStrideHonoured(img);
    BlockPlaces(BlocksOf(img).value);
  }

  /** What packing `rows` rows gives: the leading tight part of each, if they fit. */
  ghost predicate BlocksPacked(packed: Result<Packed, ImageError>, tight: nat, bytes: seq<byte>, stride: nat,
                               rows: nat)
  {
    if tight <= stride && rows * stride <= |bytes|
    then packed.Success? && Tightened(packed.value.bytes, tight, bytes, stride, rows)
    else packed == Failure(Truncated)
  }

  lemma BlockPlaces(b: Blocks)
    requires RealBlocks(b)
    ensures BlocksPacked(PackedBlocks(b), Columns(b) * b.blockBytes, b.bytes, b.blocksPerRow * b.blockBytes,
                         BlockRows(b))
  {
    PackedBlocksExact(b);
    if PackedBlocks(b).Success? {
      StridedTightens(b.bytes, b.blocksPerRow * b.blockBytes, Columns(b) * b.blockBytes, BlockRows(b));
    }
  }
}
