/** The little-endian readers of `util.rs`, and when two buffers read the same. */
module LittleEndian {
  import opened Machine

  function U16At(b: seq<byte>, o: nat): u16
    requires o + 2 <= |b|
  {
    (b[o] as int) + 0x100 * (b[o + 1] as int)
  }

  function U32At(b: seq<byte>, o: nat): u32
    requires o + 4 <= |b|
  {
    (b[o] as int) + 0x100 * (b[o + 1] as int) + 0x1_0000 * (b[o + 2] as int) + 0x100_0000 * (b[o + 3] as int)
  }

  function U64At(b: seq<byte>, o: nat): u64
    requires o + 8 <= |b|
  {
    U32At(b, o) + U32_LIMIT * U32At(b, o + 4)
  }

  /** The bytes `to_le_bytes` gives, least significant first. */
  function U16Bytes(n: u16): (b: seq<byte>)
    ensures |b| == 2 && U16At(b, 0) == n
  {
    [n % 0x100, n / 0x100]
  }

  function U32Bytes(n: u32): (b: seq<byte>)
    ensures |b| == 4 && U32At(b, 0) == n
  {
    [n % 0x100, n / 0x100 % 0x100, n / 0x1_0000 % 0x100, n / 0x100_0000]
  }

  function U64Bytes(n: u64): (b: seq<byte>)
    ensures |b| == 8 && U64At(b, 0) == n
  {
    var low, high := U32Bytes(n % U32_LIMIT), U32Bytes(n / U32_LIMIT);
    assert U32At(low + high, 0) == U32At(low, 0) && U32At(low + high, 4) == U32At(high, 0);
    low + high
  }

  /** A word of any width reads the same wherever its own bytes are the same. */
  lemma SameReads(a: seq<byte>, p: nat, b: seq<byte>, q: nat, n: nat)
    requires p + n <= |a| && q + n <= |b|
    requires a[p..p + n] == b[q..q + n]
    ensures n == 2 ==> U16At(a, p) == U16At(b, q)
    ensures n == 4 ==> U32At(a, p) == U32At(b, q)
    ensures n == 8 ==> U64At(a, p) == U64At(b, q)
  {
    var s, t := a[p..p + n], b[q..q + n];
    if n == 2 {
      assert U16At(a, p) == U16At(s, 0) && U16At(b, q) == U16At(t, 0);
    } else if n == 4 {
      assert U32At(a, p) == U32At(s, 0) && U32At(b, q) == U32At(t, 0);
    } else if n == 8 {
      assert U64At(a, p) == U64At(s, 0) && U64At(b, q) == U64At(t, 0);
    }
  }

  /** A word before or after a seam reads as it does in its own part. */
  lemma ReadBefore(a: seq<byte>, b: seq<byte>, o: nat)
    requires o + 8 <= |a|
    ensures U64At(a + b, o) == U64At(a, o)
  {
    assert (a + b)[o..o + 8] == a[o..o + 8];
    SameReads(a + b, o, a, o, 8);
  }

  lemma ReadAfter(a: seq<byte>, b: seq<byte>, o: nat)
    requires o + 8 <= |b|
    ensures U64At(a + b, |a| + o) == U64At(b, o)
  {
    assert (a + b)[|a| + o..|a| + o + 8] == b[o..o + 8];
    SameReads(a + b, |a| + o, b, o, 8);
  }

  /** Consecutive little-endian words. */
  function Words64(words: seq<u64>): (b: seq<byte>)
    ensures |b| == 8 * |words|
  {
    if words == [] then [] else Words64(words[..|words| - 1]) + U64Bytes(words[|words| - 1])
  }

  lemma {:induction false} Words64At(words: seq<u64>, i: nat)
    requires i < |words|
    ensures U64At(Words64(words), 8 * i) == words[i]
    decreases |words|
  {
    var n := |words| - 1;
    if i < n {
      Words64At(words[..n], i);
      ReadBefore(Words64(words[..n]), U64Bytes(words[n]), 8 * i);
    } else {
      ReadAfter(Words64(words[..n]), U64Bytes(words[n]), 0);
    }
  }

  /** Two words read the same exactly when their bytes are the same. */
  lemma SameU16(a: seq<byte>, b: seq<byte>, o: nat)
    requires o + 2 <= |a| && o + 2 <= |b|
    ensures U16At(a, o) == U16At(b, o) <==> (a[o] == b[o] && a[o + 1] == b[o + 1])
  {
    assert U16At(a, o) % 0x100 == a[o] && U16At(b, o) % 0x100 == b[o];
  }

  lemma SameU32(a: seq<byte>, b: seq<byte>, o: nat)
    requires o + 4 <= |a| && o + 4 <= |b|
    ensures U32At(a, o) == U32At(b, o)
       <==> (a[o] == b[o] && a[o + 1] == b[o + 1] && a[o + 2] == b[o + 2] && a[o + 3] == b[o + 3])
  {
    if U32At(a, o) == U32At(b, o) {
      SameDigits(a[o], a[o + 1], a[o + 2], a[o + 3], b[o], b[o + 1], b[o + 2], b[o + 3]);
    }
  }

  lemma SameDigits(a0: byte, a1: byte, a2: byte, a3: byte, b0: byte, b1: byte, b2: byte, b3: byte)
    requires (a0 as int) + 0x100 * (a1 as int) + 0x1_0000 * (a2 as int) + 0x100_0000 * (a3 as int)
          == (b0 as int) + 0x100 * (b1 as int) + 0x1_0000 * (b2 as int) + 0x100_0000 * (b3 as int)
    ensures a0 == b0 && a1 == b1 && a2 == b2 && a3 == b3
  {
    SameDigit(a0, b0, (a1 as int) + 0x100 * (a2 as int) + 0x1_0000 * (a3 as int),
              (b1 as int) + 0x100 * (b2 as int) + 0x1_0000 * (b3 as int));
    SameDigit(a1, b1, (a2 as int) + 0x100 * (a3 as int), (b2 as int) + 0x100 * (b3 as int));
    SameDigit(a2, b2, a3 as int, b3 as int);
  }

  lemma SameDigit(a: byte, b: byte, restA: int, restB: int)
    requires (a as int) + 0x100 * restA == (b as int) + 0x100 * restB
    ensures a == b && restA == restB
  {
  }

  lemma SameU64(a: seq<byte>, b: seq<byte>, o: nat)
    requires o + 8 <= |a| && o + 8 <= |b|
    ensures U64At(a, o) == U64At(b, o)
       <==> (&& a[o] == b[o] && a[o + 1] == b[o + 1] && a[o + 2] == b[o + 2] && a[o + 3] == b[o + 3]
             && a[o + 4] == b[o + 4] && a[o + 5] == b[o + 5] && a[o + 6] == b[o + 6] && a[o + 7] == b[o + 7])
  {
    SameU32(a, b, o);
    SameU32(a, b, o + 4);
    SameHalves(U32At(a, o), U32At(a, o + 4), U32At(b, o), U32At(b, o + 4));
  }

  lemma SameHalves(lowA: u32, highA: u32, lowB: u32, highB: u32)
    ensures lowA + U32_LIMIT * highA == lowB + U32_LIMIT * highB <==> lowA == lowB && highA == highB
  {
  }
}
