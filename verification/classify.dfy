/** `find_save_type`: telling the variants apart from block 1's size and one marker byte. */
module Classify {
  import opened Bytes
  import opened Enums
  import opened Blocks

  /** Block 1's size in the PC saves, and in the two mobile ports. */
  const PC_BLOCK1_SIZE: nat := 0x0708
  const ANDROID_BLOCK1_SIZE: nat := 0x0764
  const IOS_BLOCK1_SIZE: nat := 0x075C

  /** The byte inspected in a PC save, and the values it holds in each release. */
  const MARKER_OFFSET: nat := 0x58
  const RETAIL_MARKER_BYTE: u8 := 0xE8
  const STEAM_MARKER_BYTE: u8 := 0xFD

  /**
   * Each variant is recognised exactly under its own condition, the byte at
   * MARKER_OFFSET only mattering for the PC block size; anything else is
   * Unknown.
   */
  function FindSaveType(s: seq<u8>, blocks: seq<Block>): (r: SaveType)
    requires |blocks| >= 2
    requires blocks[1].size == PC_BLOCK1_SIZE ==> MARKER_OFFSET < |s|
    ensures r == Retail <==> blocks[1].size == PC_BLOCK1_SIZE && s[MARKER_OFFSET] == RETAIL_MARKER_BYTE
    ensures r == Steam <==> blocks[1].size == PC_BLOCK1_SIZE && s[MARKER_OFFSET] == STEAM_MARKER_BYTE
    ensures r == Android <==> blocks[1].size == ANDROID_BLOCK1_SIZE
    ensures r == IOS <==> blocks[1].size == IOS_BLOCK1_SIZE
    ensures r == Unknown <==>
              || (blocks[1].size == PC_BLOCK1_SIZE
                  && s[MARKER_OFFSET] != RETAIL_MARKER_BYTE && s[MARKER_OFFSET] != STEAM_MARKER_BYTE)
              || blocks[1].size !in {PC_BLOCK1_SIZE, ANDROID_BLOCK1_SIZE, IOS_BLOCK1_SIZE}
  {
    if blocks[1].size == PC_BLOCK1_SIZE then
      var value := s[MARKER_OFFSET];
      if value == RETAIL_MARKER_BYTE then Retail
      else if value == STEAM_MARKER_BYTE then Steam
      else Unknown
    else if blocks[1].size == ANDROID_BLOCK1_SIZE then Android
    else if blocks[1].size == IOS_BLOCK1_SIZE then IOS
    else Unknown
  }

  /**
   * Classification reads only block 1's size and, for a PC save, the marker
   * byte: two buffers agreeing on those get the same variant.
   */
  lemma ClassificationIsLocal(s: seq<u8>, b: seq<Block>, s': seq<u8>, b': seq<Block>)
    requires |b| >= 2 && |b'| >= 2 && b[1].size == b'[1].size
    requires b[1].size == PC_BLOCK1_SIZE ==> MARKER_OFFSET < |s| && MARKER_OFFSET < |s'| && s[MARKER_OFFSET] == s'[MARKER_OFFSET]
    ensures FindSaveType(s, b) == FindSaveType(s', b')
  {
  }
}
