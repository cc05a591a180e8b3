/**
 * Fixed-width unsigned integers over byte sequences: little- and big-endian
 * encodings, reads and writes at an offset, and the `Vec<u8>` editing
 * primitives (`insert`, `remove`) the converter uses.
 */
module Bytes {

  type u8 = x: int | 0 <= x < 0x100
  type u16 = x: int | 0 <= x < 0x1_0000
  type u32 = x: int | 0 <= x < 0x1_0000_0000

  /** 256 to the power n: one more than the largest n-byte value. */
  function Pow256(n: nat): (r: nat)
    ensures r > 0
  {
    if n == 0 then 1 else 256 * Pow256(n - 1)
  }

  /** The value of `bs` read least-significant byte first. */
  function DecodeLE(bs: seq<u8>): (v: nat)
    ensures v < Pow256(|bs|)
  {
    if |bs| == 0 then 0
    else
      var rest := DecodeLE(bs[1..]);
      assert 256 * rest <= 256 * (Pow256(|bs| - 1) - 1);
      bs[0] + 256 * rest
  }

  /** The n low-order bytes of v, least-significant first. */
  function EncodeLE(v: nat, n: nat): (bs: seq<u8>)
    ensures |bs| == n
  {
    if n == 0 then [] else [v % 256] + EncodeLE(v / 256, n - 1)
  }

  lemma {:induction false} DecodeEncodeLE(v: nat, n: nat)
    requires v < Pow256(n)
    ensures DecodeLE(EncodeLE(v, n)) == v
    decreases n
  {
    if n > 0 {
      assert v / 256 < Pow256(n - 1);
      DecodeEncodeLE(v / 256, n - 1);
      assert EncodeLE(v, n)[1..] == EncodeLE(v / 256, n - 1);
    }
  }

  lemma {:induction false} EncodeDecodeLE(bs: seq<u8>)
    ensures EncodeLE(DecodeLE(bs), |bs|) == bs
    decreases |bs|
  {
    if |bs| > 0 {
      var rest := DecodeLE(bs[1..]);
      assert (bs[0] + 256 * rest) % 256 == bs[0];
      assert (bs[0] + 256 * rest) / 256 == rest;
      EncodeDecodeLE(bs[1..]);
    }
  }

  /** Two byte strings of one width with the same little-endian value are equal. */
  lemma DecodeLEInjective(a: seq<u8>, b: seq<u8>)
    requires |a| == |b| && DecodeLE(a) == DecodeLE(b)
    ensures a == b
  {
    EncodeDecodeLE(a);
    EncodeDecodeLE(b);
  }

  /** The little-endian value of four bytes, spelled out. */
  lemma DecodeLE4(bs: seq<u8>)
    requires |bs| == 4
    ensures DecodeLE(bs) == bs[0] as int + 0x100 * (bs[1] as int) + 0x1_0000 * (bs[2] as int) + 0x100_0000 * (bs[3] as int)
  {
    var t1, t2, t3 := bs[1..], bs[2..], bs[3..];
    assert t1[1..] == t2 && t2[1..] == t3 && t3[1..] == [];
    assert DecodeLE(t3) == bs[3];
    assert DecodeLE(t2) == bs[2] + 256 * DecodeLE(t3);
    assert DecodeLE(t1) == bs[1] + 256 * DecodeLE(t2);
  }

  function Reverse<T>(s: seq<T>): (r: seq<T>)
    ensures |r| == |s|
    ensures forall i :: 0 <= i < |s| ==> r[i] == s[|s| - 1 - i]
  {
    if |s| == 0 then [] else Reverse(s[1..]) + [s[0]]
  }

  lemma ReverseReverse<T>(s: seq<T>)
    ensures Reverse(Reverse(s)) == s
  {
    assert forall i :: 0 <= i < |s| ==> Reverse(Reverse(s))[i] == s[i];
  }

  /** The value of `bs` read most-significant byte first. */
  function DecodeBE(bs: seq<u8>): (v: nat)
    ensures v < Pow256(|bs|)
  {
    DecodeLE(Reverse(bs))
  }

  /** The n low-order bytes of v, most-significant first. */
  function EncodeBE(v: nat, n: nat): (bs: seq<u8>)
    ensures |bs| == n
  {
    Reverse(EncodeLE(v, n))
  }

  lemma DecodeEncodeBE(v: nat, n: nat)
    requires v < Pow256(n)
    ensures DecodeBE(EncodeBE(v, n)) == v
  {
    ReverseReverse(EncodeLE(v, n));
    DecodeEncodeLE(v, n);
  }

  lemma EncodeDecodeBE(bs: seq<u8>)
    ensures EncodeBE(DecodeBE(bs), |bs|) == bs
  {
    EncodeDecodeLE(Reverse(bs));
    ReverseReverse(bs);
  }

  /** `LittleEndian::read_u32` on the four bytes at p. */
  function ReadU32LE(s: seq<u8>, p: nat): u32
    requires p + 4 <= |s|
  {
    assert Pow256(4) == 0x1_0000_0000;
    DecodeLE(s[p..p + 4])
  }

  /** `BigEndian::read_u32` on the four bytes at p. */
  function ReadU32BE(s: seq<u8>, p: nat): u32
    requires p + 4 <= |s|
  {
    assert Pow256(4) == 0x1_0000_0000;
    DecodeBE(s[p..p + 4])
  }

  /** Overwrite the bytes at p with `bs`; nothing else changes. */
  function WriteBytes(s: seq<u8>, p: nat, bs: seq<u8>): (r: seq<u8>)
    requires p + |bs| <= |s|
    ensures |r| == |s|
    ensures r[p..p + |bs|] == bs
    ensures forall i :: 0 <= i < |s| && !(p <= i < p + |bs|) ==> r[i] == s[i]
  {
    s[..p] + bs + s[p + |bs|..]
  }

  /** `LittleEndian::write_u16_into` on the two bytes at p. */
  function WriteU16LE(s: seq<u8>, p: nat, v: u16): (r: seq<u8>)
    requires p + 2 <= |s|
    ensures |r| == |s|
    ensures DecodeLE(r[p..p + 2]) == v
    ensures forall i :: 0 <= i < |s| && !(p <= i < p + 2) ==> r[i] == s[i]
  {
    DecodeEncodeLE(v, 2);
    WriteBytes(s, p, EncodeLE(v, 2))
  }

  /** `LittleEndian::write_u32_into` on the four bytes at p. */
  function WriteU32LE(s: seq<u8>, p: nat, v: u32): (r: seq<u8>)
    requires p + 4 <= |s|
    ensures |r| == |s|
    ensures ReadU32LE(r, p) == v
    ensures forall i :: 0 <= i < |s| && !(p <= i < p + 4) ==> r[i] == s[i]
  {
    DecodeEncodeLE(v, 4);
    WriteBytes(s, p, EncodeLE(v, 4))
  }

  /** `BigEndian::write_u32` on the four bytes at p. */
  function WriteU32BE(s: seq<u8>, p: nat, v: u32): (r: seq<u8>)
    requires p + 4 <= |s|
    ensures |r| == |s|
    ensures ReadU32BE(r, p) == v
    ensures forall i :: 0 <= i < |s| && !(p <= i < p + 4) ==> r[i] == s[i]
  {
    DecodeEncodeBE(v, 4);
    WriteBytes(s, p, EncodeBE(v, 4))
  }

  /** `Vec::insert`: x lands at p and everything from p on moves one place right. */
  function InsertByte(s: seq<u8>, p: nat, x: u8): (r: seq<u8>)
    requires p <= |s|
    ensures |r| == |s| + 1
    ensures r[p] == x
    ensures forall i :: 0 <= i < p ==> r[i] == s[i]
    ensures forall i :: p <= i < |s| ==> r[i + 1] == s[i]
  {
    s[..p] + [x] + s[p..]
  }

  /** `Vec::remove`: the byte at p goes and everything after it moves one place left. */
  function RemoveByte(s: seq<u8>, p: nat): (r: seq<u8>)
    requires p < |s|
    ensures |r| == |s| - 1
    ensures forall i :: 0 <= i < p ==> r[i] == s[i]
    ensures forall i :: p <= i < |r| ==> r[i] == s[i + 1]
  {
    s[..p] + s[p + 1..]
  }

  /** Removing what was just inserted at the same place gives the original back. */
  lemma RemoveInsertByte(s: seq<u8>, p: nat, x: u8)
    requires p <= |s|
    ensures RemoveByte(InsertByte(s, p, x), p) == s
  {
    var r := RemoveByte(InsertByte(s, p, x), p);
    assert forall i :: 0 <= i < |s| ==> r[i] == s[i];
  }
}
