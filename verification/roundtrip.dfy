/**
 * What the conversion does to the block table and the variant, and what
 * converting twice gives back.
 */
module RoundTrip {
  import opened Bytes
  import opened Constants
  import opened Enums
  import opened Checksum
  import opened Blocks
  import opened Classify
  import opened Load
  import opened SaveFiles

  /** The little-endian value of two bytes, spelled out. */
  lemma DecodeLE2(bs: seq<u8>)
    requires |bs| == 2
    ensures DecodeLE(bs) == bs[0] as int + 0x100 * (bs[1] as int)
  {
    assert bs[1..][1..] == [];
  }

  /**
   * A u32 prefix below 2^16 has zero high bytes, so the u16 at the same place
   * carries the whole value.
   */
  lemma SmallPrefix(s: seq<u8>)
    requires 4 <= |s| && ReadU32LE(s, 0) < U16_MODULUS
    ensures s[2] == 0 && s[3] == 0
    ensures DecodeLE(s[..2]) == ReadU32LE(s, 0)
  {
    DecodeLE4(s[0..4]);
    DecodeLE2(s[..2]);
  }

  /** A u32 whose high bytes are zero is the u16 of its low bytes. */
  lemma PrefixFromLowHalf(s: seq<u8>, v: nat)
    requires 4 <= |s| && s[2] == 0 && s[3] == 0 && DecodeLE(s[..2]) == v
    ensures ReadU32LE(s, 0) == v
  {
    DecodeLE4(s[0..4]);
    DecodeLE2(s[..2]);
  }

  lemma BelowModulus(v: int)
    requires 0 <= v < U16_MODULUS
    ensures v % U16_MODULUS == v
  {
  }

  /** Equal bytes give equal u32 reads. */
  lemma ReadOfEqualSlices(s: seq<u8>, p: nat, t: seq<u8>, q: nat)
    requires p + 4 <= |s| && q + 4 <= |t|
    requires s[p] == t[q] && s[p + 1] == t[q + 1] && s[p + 2] == t[q + 2] && s[p + 3] == t[q + 3]
    ensures ReadU32LE(s, p) == ReadU32LE(t, q)
  {
    assert s[p..p + 4] == t[q..q + 4];
  }

  /** Equal slices agree at each position they cover. */
  lemma SliceEqualAt(s: seq<u8>, t: seq<u8>, p: nat, n: nat, i: nat)
    requires p <= i < p + n <= |s| && p + n <= |t| && s[p..p + n] == t[p..p + n]
    ensures s[i] == t[i]
  {
    assert s[i] == s[p..p + n][i - p];
  }

  /** The few numbers about a block table the conversion depends on. */
  lemma TableBounds(x: seq<u8>, b: seq<Block>)
    requires IsBlockTable(x, b)
    ensures b[0].index == 4 && b[0].size == ReadU32LE(x, 0) && b[0].end == 4 + b[0].size
    ensures b[0].end + 4 <= b[22].index <= b[22].end && b[22].index <= |x|
  {
    ChainLayout(x, 0, b);
    ChainOrdered(x, 0, b, 0, 22);
  }

  /**
   * The block table after the marker goes into block 0: block 0 is 4 bytes
   * longer and every later block sits 4 bytes further on.
   */
  function Grown(b: seq<Block>): (r: seq<Block>)
    requires |b| == BLOCK_COUNT && b[0].size + 4 < TWO_32
    ensures |r| == BLOCK_COUNT
    ensures r[0] == Block(b[0].index, b[0].size + 4, b[0].end + 4)
    ensures forall i :: 1 <= i < BLOCK_COUNT ==> r[i] == Block(b[i].index + 4, b[i].size, b[i].end + 4)
  {
    seq(BLOCK_COUNT, i requires 0 <= i < BLOCK_COUNT =>
      if i == 0 then Block(b[0].index, b[0].size + 4, b[0].end + 4)
      else Block(b[i].index + 4, b[i].size, b[i].end + 4))
  }

  /**
   * If y holds block 0's grown size in its first prefix and carries x's bytes
   * four places on from the marker offset to the end of block 22, then y's
   * block table is x's, grown.
   */
  lemma GrownTable(x: seq<u8>, b: seq<Block>, y: seq<u8>)
    requires IsBlockTable(x, b)
    requires b[0].size + 4 < TWO_32 && MARKER_OFFSET <= b[0].end && b[22].end <= |x| && b[22].end + 4 <= |y|
    requires 4 <= |y| && ReadU32LE(y, 0) == b[0].size + 4
    requires forall i :: MARKER_OFFSET <= i < b[22].end ==> y[i + 4] == x[i]
    ensures IsBlockTable(y, Grown(b))
  {
    var g := Grown(b);
    forall i | 0 <= i < BLOCK_COUNT
      ensures WellLocated(y, g[i])
    {
      GrownBlock(x, b, y, i);
    }
    forall i | 0 <= i < BLOCK_COUNT - 1
      ensures Follows(g[i], g[i + 1])
    {
    }
  }

  /** One block of GrownTable's conclusion. */
  lemma GrownBlock(x: seq<u8>, b: seq<Block>, y: seq<u8>, i: nat)
    requires IsBlockTable(x, b)
    requires b[0].size + 4 < TWO_32 && MARKER_OFFSET <= b[0].end && b[22].end <= |x| && b[22].end + 4 <= |y|
    requires 4 <= |y| && ReadU32LE(y, 0) == b[0].size + 4
    requires forall i :: MARKER_OFFSET <= i < b[22].end ==> y[i + 4] == x[i]
    requires i < BLOCK_COUNT
    ensures WellLocated(y, Grown(b)[i])
  {
    var g := Grown(b);
    TableBounds(x, b);
    if i == 0 {
      assert g[0] == Block(4, ReadU32LE(y, 0), 4 + ReadU32LE(y, 0));
    } else {
      ChainOrdered(x, 0, b, 0, i);
      if i < 22 {
        ChainOrdered(x, 0, b, i, 22);
      }
      var p := b[i].index - 4;
      assert WellLocated(x, b[i]);
      ReadOfEqualSlices(y, p + 4, x, p);
      assert g[i] == Block(p + 8, ReadU32LE(y, p + 4), p + 8 + ReadU32LE(y, p + 4));
    }
  }

  /**
   * The block table reads only prefixes that lie before block 22's data, so a
   * buffer agreeing with x up to there has the same table.
   */
  lemma AgreeingPrefixKeepsTable(x: seq<u8>, b: seq<Block>, z: seq<u8>, n: nat)
    requires IsBlockTable(x, b)
    requires b[22].index <= n <= |z| && n <= |x| && z[..n] == x[..n]
    ensures IsBlockTable(z, b)
  {
    ChainLayout(x, 0, b);
    forall i | 0 <= i < BLOCK_COUNT
      ensures WellLocated(z, b[i])
    {
      if i < 22 {
        ChainOrdered(x, 0, b, i, 22);
      }
      var p := b[i].index - 4;
      assert z[p] == z[..n][p] && z[p + 1] == z[..n][p + 1] && z[p + 2] == z[..n][p + 2] && z[p + 3] == z[..n][p + 3];
      ReadOfEqualSlices(z, p, x, p);
    }
  }

  /**
   * The conditions under which converting a Retail buffer x with table b is
   * undone by converting back: block 0 contains the marker offset, its grown
   * size still fits the u16 field, the anchor after block 22 stays clear of
   * the checksum, and it holds at least 4 so lowering it does not underflow.
   */
  predicate RetailRoundTripFits(x: seq<u8>, b: seq<Block>)
  {
    && |x| == FILE_SIZE
    && IsBlockTable(x, b)
    && MARKER_OFFSET <= b[0].end
    && b[0].size + 4 < U16_MODULUS
    && b[22].end + 12 <= FILE_SIZE
    && ReadU32LE(x, b[22].end) >= 4
  }

  /** A fitting Retail buffer converts to Steam without panicking. */
  lemma FitsRetailToSteamSafe(x: seq<u8>, b: seq<Block>)
    requires RetailRoundTripFits(x, b)
    ensures RetailToSteamSafe(x, b)
  {
    TableBounds(x, b);
    InsertMarkerRead(x, b[22].end);
  }

  /**
   * What converting a fitting Retail buffer x to Steam leaves in y: x's table
   * grown, the marker's first byte, x's bytes before the marker in place and
   * those from the marker on four places further (save the anchor and the
   * last eight), and the anchor lowered by 4.
   */
  predicate SteamImage(x: seq<u8>, b: seq<Block>, y: seq<u8>)
    requires RetailRoundTripFits(x, b)
  {
    TableBounds(x, b);
    && |y| == FILE_SIZE
    && IsBlockTable(y, Grown(b))
    && y[MARKER_OFFSET] == STEAM_MARKER[0]
    && (forall i :: 2 <= i < MARKER_OFFSET ==> y[i] == x[i])
    && (forall i :: MARKER_OFFSET <= i < CHKSM_START - 4 && !InWindow(i, b[22].end) ==> y[i + 4] == x[i])
    && ReadU32LE(y, b[22].end + 4) == ReadU32LE(x, b[22].end) - 4
  }

  /** Export leaves every u32 of the save data as it was. */
  lemma ExportKeepsRead(r: seq<u8>, p: nat)
    requires CHKSM_END <= |r| && p + 4 <= CHKSM_START
    ensures ReadU32LE(Export(r), p) == ReadU32LE(r, p)
  {
    ReadOfEqualSlices(Export(r), p, r, p);
  }

  /** The converted buffer's first prefix holds block 0's grown size. */
  lemma RetailToSteamPrefix(x: seq<u8>, b: seq<Block>)
    requires RetailRoundTripFits(x, b) && RetailToSteamSafe(x, b)
    ensures ReadU32LE(RetailToSteam(x, b), 0) == b[0].size + 4
  {
    var r := RetailToSteam(x, b);
    var v := b[0].size + 4;
    BelowModulus(v);
    RetailToSteamBlock0Size(x, b);
    assert DecodeLE(r[..2]) == v;
    TableBounds(x, b);
    SmallPrefix(x);
    RetailToSteamShift(x, b);
    assert r[2] == 0 && r[3] == 0;
    PrefixFromLowHalf(r, v);
  }

  /** The exported Steam buffer's first prefix holds block 0's grown size. */
  lemma SteamBlock0Prefix(x: seq<u8>, b: seq<Block>)
    requires RetailRoundTripFits(x, b) && RetailToSteamSafe(x, b)
    ensures ReadU32LE(Export(RetailToSteam(x, b)), 0) == b[0].size + 4
  {
    RetailToSteamPrefix(x, b);
    ExportKeepsRead(RetailToSteam(x, b), 0);
  }

  /**
   * The exported Steam buffer keeps x's bytes before the marker and carries
   * those after it four places on, short of the anchor and the last eight.
   */
  lemma SteamBytes(x: seq<u8>, b: seq<Block>)
    requires RetailRoundTripFits(x, b) && RetailToSteamSafe(x, b)
    ensures var y := Export(RetailToSteam(x, b));
      && y[MARKER_OFFSET] == STEAM_MARKER[0]
      && (forall i :: 2 <= i < MARKER_OFFSET ==> y[i] == x[i])
      && (forall i :: MARKER_OFFSET <= i < CHKSM_START - 4 && !InWindow(i, b[22].end) ==> y[i + 4] == x[i])
  {
    TableBounds(x, b);
    RetailToSteamShift(x, b);
  }

  /** The exported Steam buffer's anchor is x's, lowered by 4. */
  lemma SteamAnchorValue(x: seq<u8>, b: seq<Block>)
    requires RetailRoundTripFits(x, b) && RetailToSteamSafe(x, b)
    ensures ReadU32LE(Export(RetailToSteam(x, b)), b[22].end + 4) == ReadU32LE(x, b[22].end) - 4
  {
    TableBounds(x, b);
    RetailToSteamAnchor(x, b);
    ExportKeepsRead(RetailToSteam(x, b), b[22].end + 4);
  }

  /** The exported Steam buffer is a Steam image of x. */
  lemma RetailToSteamLayout(x: seq<u8>, b: seq<Block>)
    requires RetailRoundTripFits(x, b) && RetailToSteamSafe(x, b)
    ensures SteamImage(x, b, Export(RetailToSteam(x, b)))
  {
    var y := Export(RetailToSteam(x, b));
    TableBounds(x, b);
    SteamBlock0Prefix(x, b);
    SteamBytes(x, b);
    SteamAnchorValue(x, b);
    GrownTable(x, b, y);
  }

  /** A Steam image of a fitting Retail buffer can be converted back without panicking. */
  lemma SteamImageConvertsBack(x: seq<u8>, b: seq<Block>, y: seq<u8>)
    requires RetailRoundTripFits(x, b) && SteamImage(x, b, y)
    ensures SteamToRetailSafe(y, Grown(b))
  {
    var c := Grown(b);
    TableBounds(x, b);
    var q := b[22].end;
    assert SteamAnchor(c) == q;
    ReadOfEqualSlices(SteamResized(y, c), q, y, q + 4);
  }

  /**
   * Converting a Steam image of x back to Retail restores every byte of x
   * before the last eight; the four after those come from y's checksum.
   */
  lemma SteamImageRestores(x: seq<u8>, b: seq<Block>, y: seq<u8>)
    requires RetailRoundTripFits(x, b) && SteamImage(x, b, y) && SteamToRetailSafe(y, Grown(b))
    ensures var z0 := SteamToRetail(y, Grown(b));
      && z0[..CHKSM_START - 4] == x[..CHKSM_START - 4]
      && z0[CHKSM_START - 4..CHKSM_START] == y[CHKSM_START..CHKSM_END]
  {
    var z0 := SteamToRetail(y, Grown(b));
    forall i | 0 <= i < CHKSM_START - 4
      ensures z0[i] == x[i]
    {
      RestoresByte(x, b, y, i);
    }
    RestoresTail(x, b, y);
  }

  /** One byte of SteamImageRestores's first conclusion. */
  lemma RestoresByte(x: seq<u8>, b: seq<Block>, y: seq<u8>, i: nat)
    requires RetailRoundTripFits(x, b) && SteamImage(x, b, y) && SteamToRetailSafe(y, Grown(b))
    requires i < CHKSM_START - 4
    ensures SteamToRetail(y, Grown(b))[i] == x[i]
  {
    var c := Grown(b);
    TableBounds(x, b);
    var q := b[22].end;
    assert SteamAnchor(c) == q;
    var z0 := SteamToRetail(y, c);
    if i < 2 {
      RestoresBlock0Size(x, b, y);
      SliceEqualAt(z0, x, 0, 2, i);
    } else if q <= i < q + 4 {
      RestoresAnchor(x, b, y);
      SliceEqualAt(z0, x, q, 4, i);
    } else {
      SteamToRetailShift(y, c);
    }
  }

  /** The four bytes before the checksum come from y's checksum after converting back. */
  lemma RestoresTail(x: seq<u8>, b: seq<Block>, y: seq<u8>)
    requires RetailRoundTripFits(x, b) && SteamImage(x, b, y) && SteamToRetailSafe(y, Grown(b))
    ensures SteamToRetail(y, Grown(b))[CHKSM_START - 4..CHKSM_START] == y[CHKSM_START..CHKSM_END]
  {
    var c := Grown(b);
    TableBounds(x, b);
    assert SteamAnchor(c) == b[22].end;
    SteamToRetailShift(y, c);
  }

  /** Converting back restores block 0's size field. */
  lemma RestoresBlock0Size(x: seq<u8>, b: seq<Block>, y: seq<u8>)
    requires RetailRoundTripFits(x, b) && SteamImage(x, b, y) && SteamToRetailSafe(y, Grown(b))
    ensures SteamToRetail(y, Grown(b))[..2] == x[..2]
  {
    var c := Grown(b);
    var z0 := SteamToRetail(y, c);
    TableBounds(x, b);
    assert c[0].size - 4 == b[0].size;
    BelowModulus(b[0].size);
    SteamToRetailBlock0Size(y, c);
    assert DecodeLE(z0[..2]) == b[0].size;
    SmallPrefix(x);
    assert DecodeLE(x[..2]) == b[0].size;
    DecodeLEInjective(z0[..2], x[..2]);
  }

  /** Converting back restores the anchor after block 22. */
  lemma RestoresAnchor(x: seq<u8>, b: seq<Block>, y: seq<u8>)
    requires RetailRoundTripFits(x, b) && SteamImage(x, b, y) && SteamToRetailSafe(y, Grown(b))
    ensures b[22].end + 4 <= |x|
    ensures SteamToRetail(y, Grown(b))[b[22].end..b[22].end + 4] == x[b[22].end..b[22].end + 4]
  {
    var c := Grown(b);
    var z0 := SteamToRetail(y, c);
    var q := b[22].end;
    TableBounds(x, b);
    SteamToRetailAnchor(y, c);
    DecodeLEInjective(z0[q..q + 4], x[q..q + 4]);
  }

  /** The first leg: a Retail save converts and exports to a Steam image of itself. */
  lemma RetailLeg(x: seq<u8>, b: seq<Block>)
    requires RetailRoundTripFits(x, b)
    ensures RetailToSteamSafe(x, b)
    ensures var y := Export(RetailToSteam(x, b));
      && SteamImage(x, b, y)
      && Walkable(y, 0, BLOCK_COUNT)
      && GenerateBlockInfo(y) == Grown(b)
  {
    FitsRetailToSteamSafe(x, b);
    var y := Export(RetailToSteam(x, b));
    RetailToSteamLayout(x, b);
    BlockTableUnique(y, Grown(b));
  }

  /** The second leg: a Steam image of x converts and exports back to x up to the checksum area. */
  lemma SteamLeg(x: seq<u8>, b: seq<Block>, y: seq<u8>)
    requires RetailRoundTripFits(x, b) && SteamImage(x, b, y)
    ensures SteamToRetailSafe(y, Grown(b))
    ensures var z := Export(SteamToRetail(y, Grown(b)));
      && |z| == FILE_SIZE
      && z[..CHKSM_START - 4] == x[..CHKSM_START - 4]
      && z[CHKSM_START - 4..CHKSM_START] == y[CHKSM_START..CHKSM_END]
      && Walkable(z, 0, BLOCK_COUNT)
      && GenerateBlockInfo(z) == b
  {
    SteamImageConvertsBack(x, b, y);
    SteamImageRestores(x, b, y);
    var z0 := SteamToRetail(y, Grown(b));
    var z := Export(z0);
    assert z[..CHKSM_START - 4] == z0[..CHKSM_START - 4];
    assert z[CHKSM_START - 4..CHKSM_START] == z0[CHKSM_START - 4..CHKSM_START];
    TableBounds(x, b);
    AgreeingPrefixKeepsTable(x, b, z, CHKSM_START - 4);
    BlockTableUnique(z, b);
  }

  /**
   * Converting a Retail save to Steam and back restores every byte before the
   * last eight. The four bytes just before the checksum come back holding the
   * intermediate Steam checksum, and the block table is the original one.
   */
  lemma RetailSteamRetail(x: seq<u8>, b: seq<Block>)
    requires RetailRoundTripFits(x, b)
    ensures Walkable(x, 0, BLOCK_COUNT) && GenerateBlockInfo(x) == b
    ensures RetailToSteamSafe(x, b)
    ensures var y := Export(RetailToSteam(x, b));
      && Walkable(y, 0, BLOCK_COUNT)
      && GenerateBlockInfo(y) == Grown(b)
      && SteamToRetailSafe(y, Grown(b))
      && var z := Export(SteamToRetail(y, Grown(b)));
      && |z| == FILE_SIZE
      && z[..CHKSM_START - 4] == x[..CHKSM_START - 4]
      && z[CHKSM_START - 4..CHKSM_START] == y[CHKSM_START..CHKSM_END]
      && Walkable(z, 0, BLOCK_COUNT)
      && GenerateBlockInfo(z) == b
  {
    BlockTableUnique(x, b);
    RetailLeg(x, b);
    SteamLeg(x, b, Export(RetailToSteam(x, b)));
  }
}
