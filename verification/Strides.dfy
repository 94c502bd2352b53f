/** Strided rows of bytes, groups of bytes, and the arithmetic both need. */
module Strides {
  import opened Machine

  // ---------------------------------------------------------------------------
  // Products
  // ---------------------------------------------------------------------------

  lemma ProductMonotone(n: nat, a: nat, b: nat)
    requires a <= b
    ensures n * a <= n * b
  {
    assert n * b - n * a == n * (b - a);
  }

  lemma ProductBound(a: nat, b: nat, x: nat, y: nat)
    requires a <= x && b <= y
    ensures a * b <= x * y
  {
    ProductMonotone(a, b, y);
    ProductMonotone(y, a, x);
  }

  lemma StrictlyLess(y: nat, a: nat, b: nat)
    requires y > 0 && a < b
    ensures y * a < y * b
  {
    ProductMonotone(y, a + 1, b);
  }

  lemma Reassociate(a: nat, b: nat, c: nat)
    ensures a * (b * c) == b * a * c
  {
  }

  /** A factor of a product is no larger than it. */
  lemma Factor(a: nat, b: nat)
    requires b > 0
    ensures a <= a * b
  {
    ProductMonotone(a, 1, b);
  }

  /** Quotient and remainder are unique. */
  lemma DivModUnique(x: nat, q: nat, r: nat, n: nat)
    requires n > 0 && x == q * n + r && r < n
    ensures x / n == q && x % n == r
  {
    var q', r' := x / n, x % n;
    assert x == q' * n + r';
    if q' < q {
      ProductMonotone(n, q' + 1, q);
    } else if q < q' {
      ProductMonotone(n, q + 1, q');
    }
  }

  lemma MultipleDivides(k: nat, n: nat)
    requires n > 0
    ensures (k * n) % n == 0
  {
    DivModUnique(k * n, k, 0, n);
  }

  /** What a multiple divides, its factors divide. */
  lemma FactorDivides(x: nat, n: nat, m: nat, k: nat)
    requires n > 0 && m == k * n && m > 0 && x % m == 0
    ensures x % n == 0
  {
    var q := x / m;
    assert x == q * m;
    assert q * (k * n) == (q * k) * n;
    MultipleDivides(q * k, n);
  }

  lemma OffsetRemains(base: nat, off: nat, n: nat)
    requires n > 0 && base % n == 0
    ensures (base + off) % n == off % n
  {
    var k, q, r := base / n, off / n, off % n;
    assert base == k * n && off == q * n + r;
    assert base + off == (k + q) * n + r;
    DivModUnique(base + off, k + q, r, n);
  }

  lemma StridedDivides(rows: nat, width: nat, n: nat)
    requires n > 0
    ensures (rows * (width * n)) % n == 0
  {
    assert rows * (width * n) == (rows * width) * n;
    MultipleDivides(rows * width, n);
  }

  /** A stride of whole elements keeps the alignment of the first row. */
  lemma AlignedRow(address: nat, y: nat, width: nat, size: nat, align: nat)
    requires align > 0 && size % align == 0 && address % align == 0
    ensures (address + y * (width * size)) % align == 0
  {
    var k := size / align;
    assert size == k * align;
    assert y * (width * size) == (y * width * k) * align by {
      assert y * (width * (k * align)) == (y * width * k) * align;
    }
    var a := address / align;
    assert address == a * align;
    assert address + y * (width * size) == (a + y * width * k) * align;
    MultipleDivides(a + y * width * k, align);
  }

  /** The quotient rounded up is the least number of blocks that covers. */
  lemma DivCeilCovers(a: nat, b: nat)
    requires b > 0
    ensures DivCeil(a, b) * b >= a
    ensures DivCeil(a, b) > 0 ==> (DivCeil(a, b) - 1) * b < a
  {
  }

  lemma DivCeilSmall(a: nat, b: nat)
    requires b > 0
    ensures DivCeil(a, b) <= a
  {
    DivCeilCovers(a, b);
    if DivCeil(a, b) > a {
      ProductMonotone(b, a, DivCeil(a, b) - 1);
      Factor(a, b);
    }
  }

  // ---------------------------------------------------------------------------
  // Rows
  // ---------------------------------------------------------------------------

  /** `n` rows of `width` bytes, a stride apart, lie within `len` bytes. */
  predicate RowsFit(len: nat, stride: nat, width: nat, n: nat) {
    width <= stride && (n == 0 || (n - 1) * stride + width <= len)
  }

  lemma RowsFitWhole(len: nat, stride: nat, width: nat, n: nat)
    requires width <= stride && n * stride <= len
    ensures RowsFit(len, stride, width, n)
  {
    if n > 0 {
      assert n * stride == (n - 1) * stride + stride;
    }
  }

  lemma RowsFitFewer(len: nat, stride: nat, width: nat, n: nat, m: nat)
    requires RowsFit(len, stride, width, m) && n <= m
    ensures RowsFit(len, stride, width, n)
  {
    if n > 0 {
      ProductMonotone(stride, n - 1, m - 1);
    }
  }

  function Row(bytes: seq<byte>, stride: nat, width: nat, y: nat): (row: seq<byte>)
    requires RowsFit(|bytes|, stride, width, y + 1)
    ensures |row| == width
  {
    bytes[y * stride..y * stride + width]
  }

  /** The rows, one after the other without their padding. */
  function Strided(bytes: seq<byte>, stride: nat, width: nat, n: nat): seq<byte>
    requires RowsFit(|bytes|, stride, width, n)
  {
    if n == 0 then []
    else
      RowsFitFewer(|bytes|, stride, width, n - 1, n);
      Strided(bytes, stride, width, n - 1) + Row(bytes, stride, width, n - 1)
  }

  lemma {:induction false} StridedLength(bytes: seq<byte>, stride: nat, width: nat, n: nat)
    requires RowsFit(|bytes|, stride, width, n)
    ensures |Strided(bytes, stride, width, n)| == n * width
    decreases n
  {
    if n > 0 {
      RowsFitFewer(|bytes|, stride, width, n - 1, n);
      StridedLength(bytes, stride, width, n - 1);
      assert n * width == (n - 1) * width + width;
    }
  }

  /** Byte `x` of row `y` of the strided bytes is byte `x` of row `y` of the strided rows. */
  lemma {:induction false} StridedByte(bytes: seq<byte>, stride: nat, width: nat, n: nat, y: nat, x: nat)
    requires RowsFit(|bytes|, stride, width, n)
    requires y < n && x < width
    ensures y * stride + x < |bytes| && y * width + x < n * width == |Strided(bytes, stride, width, n)|
    ensures Strided(bytes, stride, width, n)[y * width + x] == bytes[y * stride + x]
    decreases n
  {
    StridedPlace(bytes, stride, width, n, y, x);
    RowsFitFewer(|bytes|, stride, width, n - 1, n);
    StridedLength(bytes, stride, width, n - 1);
    var before, last := Strided(bytes, stride, width, n - 1), Row(bytes, stride, width, n - 1);
    assert Strided(bytes, stride, width, n) == before + last;
    if y < n - 1 {
      StridedByte(bytes, stride, width, n - 1, y, x);
    } else {
      assert (before + last)[|before| + x] == last[x];
    }
  }

  lemma StridedPlace(bytes: seq<byte>, stride: nat, width: nat, n: nat, y: nat, x: nat)
    requires RowsFit(|bytes|, stride, width, n) && y < n && x < width
    ensures y * stride + x < |bytes| && y * width + x < n * width == |Strided(bytes, stride, width, n)|
  {
    PlaceInBytes(|bytes|, stride, width, n, y, x);
    StridedLength(bytes, stride, width, n);
    PlaceInRow(width, n, y, x);
  }

  lemma PlaceInBytes(len: nat, stride: nat, width: nat, n: nat, y: nat, x: nat)
    requires RowsFit(len, stride, width, n) && y < n && x < width
    ensures y * stride + x < len
  {
    RowsFitFewer(len, stride, width, y + 1, n);
  }

  /** Place `x` of row `y` comes before the end of row `n - 1`. */
  lemma PlaceInRow(width: nat, n: nat, y: nat, x: nat)
    requires y < n && x < width
    ensures y * width + x < n * width
  {
    ProductMonotone(width, y + 1, n);
    assert (y + 1) * width == y * width + width;
  }

  /** Rows without padding are the leading bytes themselves. */
  lemma {:induction false} StridedTight(bytes: seq<byte>, width: nat, n: nat)
    requires RowsFit(|bytes|, width, width, n)
    ensures n * width <= |bytes|
    ensures Strided(bytes, width, width, n) == bytes[..n * width]
    decreases n
  {
    if n > 0 {
      RowsFitFewer(|bytes|, width, width, n - 1, n);
      StridedTight(bytes, width, n - 1);
      assert n * width == (n - 1) * width + width;
    }
  }

  // ---------------------------------------------------------------------------
  // Groups
  // ---------------------------------------------------------------------------

  /** The bytes cut into whole groups of `n`. */
  function Groups(bytes: seq<byte>, n: nat): seq<seq<byte>>
    requires n > 0
  {
    if |bytes| < n then [] else [bytes[..n]] + Groups(bytes[n..], n)
  }

  /** The groups, one after the other. */
  ghost function Joined(groups: seq<seq<byte>>): seq<byte> {
    if groups == [] then [] else groups[0] + Joined(groups[1..])
  }

  ghost function Flatten(rows: seq<seq<seq<byte>>>): seq<seq<byte>> {
    if rows == [] then [] else Flatten(rows[..|rows| - 1]) + rows[|rows| - 1]
  }

  lemma FlattenSnoc(rows: seq<seq<seq<byte>>>, row: seq<seq<byte>>)
    ensures Flatten(rows + [row]) == Flatten(rows) + row
  {
    assert (rows + [row])[..|rows|] == rows;
  }

  lemma GroupsConcat(a: seq<byte>, b: seq<byte>, n: nat)
    requires n > 0 && |a| % n == 0
    ensures Groups(a + b, n) == Groups(a, n) + Groups(b, n)
  {
    GroupsConcatTimes(a, b, n, |a| / n);
  }

  lemma {:induction false} GroupsConcatTimes(a: seq<byte>, b: seq<byte>, n: nat, k: nat)
    requires n > 0 && |a| == k * n
    ensures Groups(a + b, n) == Groups(a, n) + Groups(b, n)
    decreases k
  {
    if k == 0 {
      assert a + b == b;
    } else {
      assert k * n == (k - 1) * n + n;
      assert (a + b)[..n] == a[..n] && (a + b)[n..] == a[n..] + b;
      GroupsConcatTimes(a[n..], b, n, k - 1);
    }
  }

  lemma JoinedGroups(bytes: seq<byte>, n: nat)
    requires n > 0 && |bytes| % n == 0
    ensures Joined(Groups(bytes, n)) == bytes
  {
    JoinedGroupsTimes(bytes, n, |bytes| / n);
  }

  lemma {:induction false} JoinedGroupsTimes(bytes: seq<byte>, n: nat, k: nat)
    requires n > 0 && |bytes| == k * n
    ensures Joined(Groups(bytes, n)) == bytes
    decreases k
  {
    if k > 0 {
      assert k * n == (k - 1) * n + n;
      JoinedGroupsTimes(bytes[n..], n, k - 1);
      assert Groups(bytes, n)[1..] == Groups(bytes[n..], n);
      assert bytes == bytes[..n] + bytes[n..];
    }
  }

  /** Group `g` is the bytes at its own place. */
  ghost predicate InPlace(groups: seq<seq<byte>>, bytes: seq<byte>, n: nat, g: nat) {
    g < |groups| && g * n + n <= |bytes| && groups[g] == bytes[g * n..g * n + n]
  }

  /** There are as many groups as fit, each in its place. */
  lemma {:induction false} GroupAt(bytes: seq<byte>, n: nat, k: nat)
    requires n > 0 && |bytes| == k * n
    ensures |Groups(bytes, n)| == k
    ensures forall g: nat | g < k :: InPlace(Groups(bytes, n), bytes, n, g)
    decreases k
  {
    if k > 0 {
      assert k * n == (k - 1) * n + n;
      GroupAt(bytes[n..], n, k - 1);
      forall g: nat | g < k ensures InPlace(Groups(bytes, n), bytes, n, g) {
        if g > 0 {
          assert InPlace(Groups(bytes[n..], n), bytes[n..], n, g - 1);
          PlaceBehind(Groups(bytes[n..], n), bytes, n, g - 1);
        }
      }
    }
  }

  lemma PlaceBehind(rest: seq<seq<byte>>, bytes: seq<byte>, n: nat, g: nat)
    requires n > 0 && |bytes| >= n && InPlace(rest, bytes[n..], n, g)
    ensures InPlace([bytes[..n]] + rest, bytes, n, g + 1)
  {
    var next := (g + 1) * n;
    assert next == g * n + n;
    SliceBehind(bytes, n, g * n, next);
    assert ([bytes[..n]] + rest)[g + 1] == rest[g];
  }

  lemma SliceBehind(bytes: seq<byte>, n: nat, at: nat, next: nat)
    requires n <= |bytes| && at + n <= |bytes[n..]| && next == at + n
    ensures next + n <= |bytes| && bytes[n..][at..at + n] == bytes[next..next + n]
  {
  }

  /** Byte `x` of row `y` of the tight bytes is that of the fetched ones. */
  ghost predicate SamePlace(tight: seq<byte>, width: nat, bytes: seq<byte>, stride: nat, y: nat, x: nat) {
    y * width + x < |tight| && y * stride + x < |bytes| && tight[y * width + x] == bytes[y * stride + x]
  }

  /** The tight bytes are the first `width` of every fetched row, in order, and no more. */
  ghost predicate Tightened(tight: seq<byte>, width: nat, bytes: seq<byte>, stride: nat, rows: nat) {
    && |tight| == rows * width
    && forall y: nat, x: nat | y < rows && x < width :: SamePlace(tight, width, bytes, stride, y, x)
  }

  lemma StridedTightens(bytes: seq<byte>, stride: nat, width: nat, rows: nat)
    requires RowsFit(|bytes|, stride, width, rows)
    ensures Tightened(Strided(bytes, stride, width, rows), width, bytes, stride, rows)
  {
    StridedLength(bytes, stride, width, rows);
    forall y: nat, x: nat | y < rows && x < width
      ensures SamePlace(Strided(bytes, stride, width, rows), width, bytes, stride, y, x)
    {
      StridedByte(bytes, stride, width, rows, y, x);
    }
  }
}
