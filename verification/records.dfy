/**
 * The round trip at the level of the `SaveFile` container: load a Retail
 * save, convert it, load the written buffer again, convert that, and load
 * the result.
 */
module Records {
  import opened Bytes
  import opened Constants
  import opened Enums
  import opened Wrappers
  import opened Blocks
  import opened Classify
  import opened Load
  import opened SaveFiles
  import opened RoundTrip

  /** A buffer that passes load becomes a container holding it, its block table and its variant. */
  lemma Loaded(path: string, x: seq<u8>)
    requires Walkable(x, 0, BLOCK_COUNT) && |x| == FILE_SIZE && ChecksumMatches(x)
    ensures New(path, x).Success?
    ensures New(path, x).value.file == x
    ensures New(path, x).value.blocks == GenerateBlockInfo(x)
    ensures New(path, x).value.saveType == FindSaveType(x, GenerateBlockInfo(x))
  {
    BlockTableUnique(x, New(path, x).value.blocks);
  }

  /** Converting a fitting Retail buffer writes a buffer whose block 1 keeps its size and whose marker byte is Steam's. */
  lemma ConvertedIsSteam(x: seq<u8>, b: seq<Block>, y: seq<u8>)
    requires RetailRoundTripFits(x, b) && SteamImage(x, b, y)
    requires FindSaveType(x, b) == Retail
    ensures FindSaveType(y, Grown(b)) == Steam
  {
    assert Grown(b)[1].size == b[1].size;
  }

  /** Converting back restores the Retail marker byte, so the buffer is classified as it was. */
  lemma RestoredKeepsType(x: seq<u8>, b: seq<Block>, z: seq<u8>)
    requires |x| == FILE_SIZE && |b| == BLOCK_COUNT && |z| == FILE_SIZE
    requires z[..CHKSM_START - 4] == x[..CHKSM_START - 4]
    ensures FindSaveType(z, b) == FindSaveType(x, b)
  {
    assert z[MARKER_OFFSET] == z[..CHKSM_START - 4][MARKER_OFFSET];
    ClassificationIsLocal(z, b, x, b);
  }

  /**
   * A Retail save that loads and fits the round trip converts to a save that
   * loads as Steam with the grown table; converting that gives a save that
   * loads as Retail again, with the original table and every byte before the
   * last eight of the original.
   */
  lemma RetailSaveRoundTrip(path: string, x: seq<u8>, b: seq<Block>)
    requires RetailRoundTripFits(x, b) && ChecksumMatches(x) && FindSaveType(x, b) == Retail
    ensures Walkable(x, 0, BLOCK_COUNT) && New(path, x).Success?
    ensures var sf := New(path, x).value;
      && sf.saveType == Retail && sf.file == x && sf.blocks == b && RetailToSteamSafe(x, b)
      && ConvertSave(sf).Success?
      && var y := ConvertSave(sf).value.file;
      && Walkable(y, 0, BLOCK_COUNT)
      && New(path, y).Success?
      && var sf2 := New(path, y).value;
      && sf2.saveType == Steam && sf2.file == y && sf2.blocks == Grown(b)
      && SteamToRetailSafe(y, sf2.blocks)
      && ConvertSave(sf2).Success?
      && var z := ConvertSave(sf2).value.file;
      && z[..CHKSM_START - 4] == x[..CHKSM_START - 4]
      && Walkable(z, 0, BLOCK_COUNT)
      && New(path, z).Success?
      && New(path, z).value.saveType == Retail
      && New(path, z).value.blocks == b
  {
    BlockTableUnique(x, b);
    Loaded(path, x);
    RetailLeg(x, b);
    var y := Export(RetailToSteam(x, b));
    ConvertedIsSteam(x, b, y);
    Loaded(path, y);
    SteamLeg(x, b, y);
    var z := Export(SteamToRetail(y, Grown(b)));
    Loaded(path, z);
    RestoredKeepsType(x, b, z);
  }
}
