/**
 * The additive checksum over the save-data region: a 32-bit byte sum whose
 * little-endian bytes are read back big-endian.
 */
module Checksum {
  import opened Bytes
  import opened Wrappers
  import opened Constants

  const TWO_32: nat := 0x1_0000_0000

  /** The mathematical sum of the bytes of d. */
  function ByteSum(d: seq<u8>): nat
  {
    if |d| == 0 then 0 else ByteSum(d[..|d| - 1]) + d[|d| - 1]
  }

  /** `data.iter().fold(0, |y, x| y + *x as u32)`, each step wrapping at 2^32. */
  function FoldWrapping(d: seq<u8>): u32
  {
    if |d| == 0 then 0 else (FoldWrapping(d[..|d| - 1]) + d[|d| - 1]) % TWO_32
  }

  /** Swapping the four bytes of a 32-bit value, written with arithmetic only. */
  function ByteSwap32(v: u32): u32
  {
    (v % 0x100) * 0x100_0000
    + (v / 0x100 % 0x100) * 0x1_0000
    + (v / 0x1_0000 % 0x100) * 0x100
    + v / 0x100_0000
  }

  /** `calculate_checksum`: encode the fold little-endian, read it back big-endian. */
  function CalculateChecksum(d: seq<u8>): u32
  {
    assert Pow256(4) == TWO_32;
    DecodeBE(EncodeLE(FoldWrapping(d), 4))
  }

  /** `checksum_is_valid`: Pass on a match, otherwise the calculated value. */
  function ChecksumIsValid(d: seq<u8>, checksum: u32): (r: Outcome<u32>)
    ensures r == Pass <==> CalculateChecksum(d) == checksum
    ensures r.Fail? ==> r.error == CalculateChecksum(d) && r.error != checksum
  {
    var calculated := CalculateChecksum(d);
    if calculated == checksum then Pass else Fail(calculated)
  }

  /** The wrapping fold is the byte sum taken modulo 2^32. */
  lemma {:induction false} FoldIsSumModulo(d: seq<u8>)
    ensures FoldWrapping(d) == ByteSum(d) % TWO_32
    decreases |d|
  {
    if |d| > 0 {
      FoldIsSumModulo(d[..|d| - 1]);
    }
  }

  lemma {:induction false} ByteSumBound(d: seq<u8>)
    ensures ByteSum(d) <= 255 * |d|
    decreases |d|
  {
    if |d| > 0 {
      ByteSumBound(d[..|d| - 1]);
    }
  }

  /**
   * On inputs no longer than the save-data region every intermediate value of
   * the fold stays below 2^32, so the u32 accumulator never overflows and the
   * fold is the plain byte sum.
   */
  lemma FoldNeverWraps(d: seq<u8>)
    requires |d| <= SAVE_DATA_LAST + 1
    ensures forall k :: 0 <= k <= |d| ==> ByteSum(d[..k]) < TWO_32
    ensures FoldWrapping(d) == ByteSum(d)
  {
    forall k | 0 <= k <= |d|
      ensures ByteSum(d[..k]) < TWO_32
    {
      ByteSumBound(d[..k]);
    }
    assert d[..|d|] == d;
    FoldIsSumModulo(d);
  }

  /** Dividing by 256 twice or three times is dividing by 2^16 or 2^24. */
  lemma DivideBy256Repeatedly(v: nat)
    ensures v / 256 / 256 == v / 0x1_0000
    ensures v / 256 / 256 / 256 == v / 0x100_0000
  {
  }

  /** The four little-endian bytes of a 32-bit value. */
  lemma EncodeLE4(v: u32)
    ensures EncodeLE(v, 4) == [v % 0x100, v / 0x100 % 0x100, v / 0x1_0000 % 0x100, v / 0x100_0000]
  {
    DivideBy256Repeatedly(v);
    var v1, v2, v3 := v / 256, v / 256 / 256, v / 256 / 256 / 256;
    assert EncodeLE(v3, 1) == [v3 % 256];
    assert EncodeLE(v2, 2) == [v2 % 256] + EncodeLE(v3, 1);
    assert EncodeLE(v1, 3) == [v1 % 256] + EncodeLE(v2, 2);
    assert EncodeLE(v, 4) == [v % 256] + EncodeLE(v1, 3);
  }

  /** The checksum is the byte-swapped 32-bit byte sum. */
  lemma ChecksumIsSwappedSum(d: seq<u8>)
    ensures CalculateChecksum(d) == ByteSwap32(ByteSum(d) % TWO_32)
  {
    var v := FoldWrapping(d);
    FoldIsSumModulo(d);
    var le := EncodeLE(v, 4);
    EncodeLE4(v);
    var be := Reverse(le);
    assert be == [le[3], le[2], le[1], le[0]];
    DecodeLE4(be);
  }

  /** Validating data against its own checksum always passes. */
  lemma OwnChecksumIsValid(d: seq<u8>)
    ensures ChecksumIsValid(d, CalculateChecksum(d)) == Pass
  {
  }
}
