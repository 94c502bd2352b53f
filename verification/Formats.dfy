/** What the image code and the descriptor join need of a raw `MTLPixelFormat`. */
module Formats {
  import opened Machine
  import opened Wrappers

  datatype DepthKind = Unorm16 | Float32

  datatype StencilKind = Uint8

  datatype FormatKind =
    | Color(bytesPerPixel: nat, byteAligned: bool)
    | DepthStencil(depth: Option<DepthKind>, stencil: Option<StencilKind>, bytesPerPixel: nat)
    | Compressed(blockWidth: nat, blockHeight: nat, blockBytes: nat)
    | Unknown

  /** A colour format from its channel widths in bits. */
  function ColorOf(bits: seq<nat>): FormatKind
    requires |bits| > 0
  {
    Color(Total(bits) / 8, forall i | 0 <= i < |bits| :: bits[i] == bits[0] && bits[i] % 8 == 0)
  }

  function Total(bits: seq<nat>): nat {
    if bits == [] then 0 else bits[0] + Total(bits[1..])
  }

  /** The footprint of an ASTC format, by its distance from the first of its family. */
  function Astc(n: int): FormatKind {
    match n
    case 0 => Compressed(4, 4, 16)
    case 1 => Compressed(5, 4, 16)
    case 2 => Compressed(5, 5, 16)
    case 3 => Compressed(6, 5, 16)
    case 4 => Compressed(6, 6, 16)
    case 6 => Compressed(8, 5, 16)
    case 7 => Compressed(8, 6, 16)
    case 8 => Compressed(8, 8, 16)
    case 9 => Compressed(10, 5, 16)
    case 10 => Compressed(10, 6, 16)
    case 11 => Compressed(10, 8, 16)
    case 12 => Compressed(10, 10, 16)
    case 13 => Compressed(12, 10, 16)
    case 14 => Compressed(12, 12, 16)
    case _ => Unknown
  }

  /** `format_kind`, keeping element sizes, block geometry and aspects. */
  function KindOf(raw: u32): FormatKind {
    if raw < 60 then SmallColor(raw)
    else if raw < 130 then WideColor(raw)
    else if raw < 186 then BlockCompressed(raw)
    else if raw < 204 then Astc(raw - 186)
    else if raw < 222 then Astc(raw - 204)
    else if raw < 240 then Astc(raw - 222)
    else DepthOrStencil(raw)
  }

  function SmallColor(raw: u32): FormatKind {
    if raw == 1 || 10 <= raw <= 14 then ColorOf([8])
    else if raw == 20 || 22 <= raw <= 25 then ColorOf([16])
    else if 30 <= raw <= 34 then ColorOf([8, 8])
    else if raw == 40 then ColorOf([5, 6, 5])
    else if raw == 41 then ColorOf([1, 5, 5, 5])
    else if raw == 42 then ColorOf([4, 4, 4, 4])
    else if raw == 43 then ColorOf([5, 5, 5, 1])
    else if 53 <= raw <= 55 then ColorOf([32])
    else Unknown
  }

  function WideColor(raw: u32): FormatKind {
    if raw == 60 || 62 <= raw <= 65 then ColorOf([16, 16])
    else if 70 <= raw <= 74 || 80 <= raw <= 81 then ColorOf([8, 8, 8, 8])
    else if 90 <= raw <= 91 || raw == 94 then ColorOf([10, 10, 10, 2])
    else if raw == 92 then ColorOf([11, 11, 10])
    else if raw == 93 then Color(4, false)  // its shared exponent belongs to no channel
    else if 103 <= raw <= 105 then ColorOf([32, 32])
    else if raw == 110 || 112 <= raw <= 115 then ColorOf([16, 16, 16, 16])
    else if 123 <= raw <= 125 then ColorOf([32, 32, 32, 32])
    else Unknown
  }

  function BlockCompressed(raw: u32): FormatKind {
    if 130 <= raw <= 131 || 140 <= raw <= 141 then Compressed(4, 4, 8)
    else if 132 <= raw <= 135 || 142 <= raw <= 143 || 150 <= raw <= 153 then Compressed(4, 4, 16)
    else if 160 <= raw <= 161 || 164 <= raw <= 165 then Compressed(8, 4, 8)
    else if 162 <= raw <= 163 || 166 <= raw <= 167 then Compressed(4, 4, 8)
    else if raw == 170 || raw == 172 || 180 <= raw <= 183 then Compressed(4, 4, 8)
    else if raw == 174 || raw == 176 || 178 <= raw <= 179 then Compressed(4, 4, 16)
    else Unknown
  }

  function DepthOrStencil(raw: u32): FormatKind {
    if raw == 250 then DepthStencil(Some(Unorm16), None, 2)
    else if raw == 252 then DepthStencil(Some(Float32), None, 4)
    else if raw == 253 then DepthStencil(None, Some(Uint8), 1)
    else if raw == 260 then DepthStencil(Some(Float32), Some(Uint8), 8)
    else if raw == 261 then DepthStencil(None, Some(Uint8), 8)
    else if raw == 262 then DepthStencil(None, Some(Uint8), 4)
    else Unknown
  }

  predicate IsCombinedDepthStencil(kind: FormatKind) {
    kind.DepthStencil? && kind.depth.Some? && kind.stencil.Some?
  }

  /** `byte_aligned`: a flat array of one element type, by the table's own account. */
  predicate ByteAligned(kind: FormatKind) {
    match kind
    case Color(_, byteAligned) => byteAligned
    case DepthStencil(depth, stencil, _) => depth.Some? != stencil.Some?
    case _ => false
  }

  /** Of the whole table one format is combined. */
  lemma OneCombinedFormat(raw: u32)
    ensures IsCombinedDepthStencil(KindOf(raw)) <==> raw == 260
  {
    if raw < 60 { SmallColors(raw); } else if raw < 130 { WideColors(raw); }
  }

  /** Elements take a power of two of bytes, at most 16. */
  ghost predicate ElementSize(n: nat) {
    n == 1 || n == 2 || n == 4 || n == 8 || n == 16
  }

  lemma SmallColors(raw: u32)
    requires raw < 60
    ensures SmallColor(raw).Color? ==> ElementSize(SmallColor(raw).bytesPerPixel)
    ensures SmallColor(raw).Color? || SmallColor(raw).Unknown?
  {
    Totals();
  }

  lemma WideColors(raw: u32)
    requires 60 <= raw < 130
    ensures WideColor(raw).Color? ==> ElementSize(WideColor(raw).bytesPerPixel)
    ensures WideColor(raw).Color? || WideColor(raw).Unknown?
  {
    Totals();
  }

  lemma Totals()
    ensures forall a :: Total([a]) == a
    ensures forall a, b :: Total([a, b]) == a + b
    ensures forall a, b, c :: Total([a, b, c]) == a + b + c
    ensures forall a, b, c, d :: Total([a, b, c, d]) == a + b + c + d
  {
    forall a ensures Total([a]) == a {
      assert [a][1..] == [];
    }
    forall a, b ensures Total([a, b]) == a + b {
      assert [a, b][1..] == [b];
    }
    forall a, b, c ensures Total([a, b, c]) == a + b + c {
      assert [a, b, c][1..] == [b, c];
    }
    forall a, b, c, d ensures Total([a, b, c, d]) == a + b + c + d {
      assert [a, b, c, d][1..] == [b, c, d];
    }
  }

  /** The geometry of every format in the table. */
  lemma TableGeometry(raw: u32)
    ensures var kind := KindOf(raw);
            && (kind.Color? ==> ElementSize(kind.bytesPerPixel))
            && (kind.Compressed? ==>
                  && 4 <= kind.blockWidth <= 12 && 4 <= kind.blockHeight <= 12
                  && (kind.blockBytes == 8 || kind.blockBytes == 16))
  {
    if raw < 60 { SmallColors(raw); } else if raw < 130 { WideColors(raw); }
  }

  // ---------------------------------------------------------------------------
  // The table, by size and by shape
  // ---------------------------------------------------------------------------

  /** The colour formats whose pixel is one byte, two, four, eight and sixteen. */
  ghost predicate ColorOfBytes(raw: u32, n: nat) {
    match n
    case 1 => raw in {1, 10, 11, 12, 13, 14}
    case 2 => raw in {20, 22, 23, 24, 25, 30, 31, 32, 33, 34, 40, 41, 42, 43}
    case 4 => raw in {53, 54, 55, 60, 62, 63, 64, 65, 70, 71, 72, 73, 74, 80, 81, 90, 91, 92, 93, 94}
    case 8 => raw in {103, 104, 105, 110, 112, 113, 114, 115}
    case 16 => raw in {123, 124, 125}
    case _ => false
  }

  /** The colour formats whose channels are not all of one whole number of bytes. */
  ghost predicate PackedColor(raw: u32) {
    raw in {40, 41, 42, 43, 90, 91, 92, 93, 94}
  }

  /** Every colour format has its own pixel size, and alignment unless it is packed. */
  lemma ColorsExactly(raw: u32, n: nat)
    ensures (KindOf(raw).Color? && KindOf(raw).bytesPerPixel == n) <==> ColorOfBytes(raw, n)
    ensures KindOf(raw).Color? ==> (KindOf(raw).byteAligned <==> !PackedColor(raw))
  {
    if raw < 60 { SmallColorsExactly(raw, n); } else if raw < 130 { WideColorsExactly(raw, n); }
  }

  lemma SmallColorsExactly(raw: u32, n: nat)
    requires raw < 60
    ensures (SmallColor(raw).Color? && SmallColor(raw).bytesPerPixel == n) <==> ColorOfBytes(raw, n)
    ensures SmallColor(raw).Color? ==> (SmallColor(raw).byteAligned <==> !PackedColor(raw))
  {
    Totals();
    assert [5, 6, 5][1] != [5, 6, 5][0] && [1, 5, 5, 5][1] != [1, 5, 5, 5][0] && [5, 5, 5, 1][3] != [5, 5, 5, 1][0];
    assert [4, 4, 4, 4][0] % 8 != 0;
  }

  lemma WideColorsExactly(raw: u32, n: nat)
    requires 60 <= raw < 130
    ensures (WideColor(raw).Color? && WideColor(raw).bytesPerPixel == n) <==> ColorOfBytes(raw, n)
    ensures WideColor(raw).Color? ==> (WideColor(raw).byteAligned <==> !PackedColor(raw))
  {
    Totals();
    assert [10, 10, 10, 2][3] != [10, 10, 10, 2][0] && [11, 11, 10][2] != [11, 11, 10][0];
  }

  /** The texels of an ASTC block, by the place of the format in each of its three families. */
  const ASTC_SHAPES: seq<(nat, nat)> := [
    (4, 4), (5, 4), (5, 5), (6, 5), (6, 6), (0, 0), (8, 5), (8, 6), (8, 8), (10, 5), (10, 6), (10, 8), (10, 10),
    (12, 10), (12, 12)]

  ghost predicate AstcPlace(raw: u32, i: nat) {
    i < 15 && i != 5 && raw in {186 + i, 204 + i, 222 + i}
  }

  ghost predicate BlockOf(raw: u32, width: nat, height: nat, bytes: nat) {
    || (bytes == 8 && (width, height) == (4, 4)
        && raw in {130, 131, 140, 141, 162, 163, 166, 167, 170, 172, 180, 181, 182, 183})
    || (bytes == 8 && (width, height) == (8, 4) && raw in {160, 161, 164, 165})
    || (bytes == 16 && (width, height) == (4, 4)
        && raw in {132, 133, 134, 135, 142, 143, 150, 151, 152, 153, 174, 176, 178, 179})
    || (bytes == 16 && exists i: nat :: AstcPlace(raw, i) && (width, height) == ASTC_SHAPES[i])
  }

  /** Every compressed format has its own block. */
  lemma BlocksExactly(raw: u32, width: nat, height: nat, bytes: nat)
    ensures KindOf(raw) == Compressed(width, height, bytes) <==> BlockOf(raw, width, height, bytes)
  {
    if raw < 60 {
      SmallColors(raw);
    } else if raw < 130 {
      WideColors(raw);
    } else if 186 <= raw < 240 {
      var i := (raw - 186) % 18;
      AstcExactly(raw, i);
      forall j: nat | AstcPlace(raw, j) ensures j == i {
      }
    }
  }

  lemma AstcExactly(raw: u32, i: nat)
    requires 186 <= raw < 240 && i == (raw - 186) % 18
    ensures AstcPlace(raw, i) ==> KindOf(raw) == Compressed(ASTC_SHAPES[i].0, ASTC_SHAPES[i].1, 16)
    ensures !AstcPlace(raw, i) ==> KindOf(raw) == Unknown
  {
  }

  /** The depth and stencil formats, one by one. */
  lemma AspectsExactly(raw: u32)
    ensures KindOf(raw).DepthStencil? <==> raw in {250, 252, 253, 260, 261, 262}
    ensures KindOf(250) == DepthStencil(Some(Unorm16), None, 2)
    ensures KindOf(252) == DepthStencil(Some(Float32), None, 4)
    ensures KindOf(253) == DepthStencil(None, Some(Uint8), 1)
    ensures KindOf(260) == DepthStencil(Some(Float32), Some(Uint8), 8)
    ensures KindOf(261) == DepthStencil(None, Some(Uint8), 8)
    ensures KindOf(262) == DepthStencil(None, Some(Uint8), 4)
  {
    if raw < 60 { SmallColors(raw); } else if raw < 130 { WideColors(raw); }
  }
}
