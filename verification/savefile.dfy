/**
 * The save-file container: loading, the checksum rewrite of `export`, and the
 * Retail <-> Steam conversion.
 */
module SaveFiles {
  import opened Bytes
  import opened Wrappers
  import opened Constants
  import opened Enums
  import opened Checksum
  import opened Blocks
  import opened Classify
  import opened Load

  /** The marker a Steam save carries at MARKER_OFFSET and a Retail save lacks. */
  const STEAM_MARKER: seq<u8> := [0xFD, 0x00, 0x00, 0x00]

  /** Where block 0's size is patched: the low two bytes of its u32 prefix. */
  const BLOCK0_SIZE_OFFSET: nat := 0
  const U16_MODULUS: nat := 0x1_0000

  /**
   * The container. `checksum`, `saveType` and `blocks` are computed once on
   * load; conversion only edits `file`, so after it they describe the old
   * buffer.
   */
  datatype SaveFile = SaveFile(
    checksum: u32,
    saveType: SaveType,
    file: seq<u8>,
    blocks: seq<Block>,
    saveLocation: string)

  datatype ConvertError = FormatNotSupported

  /** `SaveFile::new` on the bytes read from `savePath`. */
  function New(savePath: string, bytes: seq<u8>): (r: Result<SaveFile, LoadError>)
    requires OpenSaveFile(bytes).Success? ==> Walkable(bytes, 0, BLOCK_COUNT)
    ensures r.Success? <==> OpenSaveFile(bytes).Success?
    ensures r.Failure? ==> r.error == OpenSaveFile(bytes).error
    ensures r.Success? ==>
              && r.value.file == bytes
              && |bytes| == FILE_SIZE
              && IsBlockTable(bytes, r.value.blocks)
              && r.value.checksum == StoredChecksum(bytes)
              && r.value.saveType == FindSaveType(bytes, r.value.blocks)
              && r.value.saveLocation == savePath
  {
    match OpenSaveFile(bytes)
    case Failure(e) => Failure(e)
    case Success(file) =>
      var blocks := GenerateBlockInfo(file);
      Success(SaveFile(
        checksum := CalculateChecksum(SaveData(file)),
        saveType := FindSaveType(file, blocks),
        file := file,
        blocks := blocks,
        saveLocation := savePath))
  }

  /** `overwrite_checksum`: store c big-endian in CHKSM_RANGE. */
  function OverwriteChecksum(file: seq<u8>, c: u32): (r: seq<u8>)
    requires CHKSM_END <= |file|
    ensures |r| == |file|
    ensures StoredChecksum(r) == c
    ensures forall i :: 0 <= i < |file| && !InChecksumRange(i) ==> r[i] == file[i]
  {
    WriteU32BE(file, CHKSM_START, c)
  }

  /**
   * The buffer `export` writes out: the checksum of the current save data
   * stored in CHKSM_RANGE, every other byte as it was. The result always
   * carries its own checksum, so a FILE_SIZE buffer passes load's checks.
   */
  function Export(file: seq<u8>): (r: seq<u8>)
    requires CHKSM_END <= |file|
    ensures |r| == |file|
    ensures forall i :: 0 <= i < |file| && !InChecksumRange(i) ==> r[i] == file[i]
    ensures SaveData(r) == SaveData(file)
    ensures StoredChecksum(r) == CalculateChecksum(SaveData(file))
    ensures ChecksumMatches(r)
    ensures |file| == FILE_SIZE ==> OpenSaveFile(r) == Success(r)
  {
    var r := OverwriteChecksum(file, CalculateChecksum(SaveData(file)));
    assert SaveData(r) == SaveData(file);
    r
  }

  /** Exporting an exported buffer changes nothing. */
  lemma ExportIdempotent(file: seq<u8>)
    requires CHKSM_END <= |file|
    ensures Export(Export(file)) == Export(file)
  {
    var once := Export(file);
    var twice := Export(once);
    assert StoredChecksum(twice) == StoredChecksum(once);
    assert twice[CHKSM_START..CHKSM_END] == once[CHKSM_START..CHKSM_END] by {
      EncodeDecodeBE(twice[CHKSM_START..CHKSM_END]);
      EncodeDecodeBE(once[CHKSM_START..CHKSM_END]);
    }
    assert forall i :: 0 <= i < |file| ==> twice[i] == once[i] by {
      forall i | 0 <= i < |file|
        ensures twice[i] == once[i]
      {
        if InChecksumRange(i) {
          assert twice[i] == twice[CHKSM_START..CHKSM_END][i - CHKSM_START];
        }
      }
    }
  }

  /** The Retail branch's insertion: the marker spliced in at MARKER_OFFSET. */
  function InsertMarker(s: seq<u8>): (r: seq<u8>)
    requires MARKER_OFFSET <= |s|
    ensures |r| == |s| + 4
    ensures forall i :: 0 <= i < MARKER_OFFSET ==> r[i] == s[i]
    ensures r[MARKER_OFFSET..MARKER_OFFSET + 4] == STEAM_MARKER
    ensures forall i :: MARKER_OFFSET <= i < |s| ==> r[i + 4] == s[i]
  {
    s[..MARKER_OFFSET] + STEAM_MARKER + s[MARKER_OFFSET..]
  }

  /** The splice is what the four `Vec::insert` calls at 0x58..0x5B build. */
  lemma InsertMarkerIsFourInserts(s: seq<u8>)
    requires MARKER_OFFSET <= |s|
    ensures InsertMarker(s) == InsertByte(InsertByte(InsertByte(InsertByte(s, 0x58, 0xFD), 0x59, 0x00), 0x5A, 0x00), 0x5B, 0x00)
  {
    var r := InsertByte(InsertByte(InsertByte(InsertByte(s, 0x58, 0xFD), 0x59, 0x00), 0x5A, 0x00), 0x5B, 0x00);
    assert r[..MARKER_OFFSET] == s[..MARKER_OFFSET];
    assert r[MARKER_OFFSET..MARKER_OFFSET + 4] == STEAM_MARKER;
    assert r[MARKER_OFFSET + 4..] == s[MARKER_OFFSET..];
    assert r == r[..MARKER_OFFSET] + r[MARKER_OFFSET..MARKER_OFFSET + 4] + r[MARKER_OFFSET + 4..];
  }

  /** The Steam branch's removal: the four bytes at MARKER_OFFSET cut out. */
  function RemoveMarker(s: seq<u8>): (r: seq<u8>)
    requires MARKER_OFFSET + 4 <= |s|
    ensures |r| == |s| - 4
    ensures forall i :: 0 <= i < MARKER_OFFSET ==> r[i] == s[i]
    ensures forall i :: MARKER_OFFSET <= i < |r| ==> r[i] == s[i + 4]
  {
    s[..MARKER_OFFSET] + s[MARKER_OFFSET + 4..]
  }

  /** The cut is what the four `Vec::remove(0x58)` calls leave. */
  lemma RemoveMarkerIsFourRemoves(s: seq<u8>)
    requires MARKER_OFFSET + 4 <= |s|
    ensures RemoveMarker(s) == RemoveByte(RemoveByte(RemoveByte(RemoveByte(s, 0x58), 0x58), 0x58), 0x58)
  {
    var r := RemoveByte(RemoveByte(RemoveByte(RemoveByte(s, 0x58), 0x58), 0x58), 0x58);
    assert r[..MARKER_OFFSET] == s[..MARKER_OFFSET];
    assert r[MARKER_OFFSET..] == s[MARKER_OFFSET + 4..];
    assert r == r[..MARKER_OFFSET] + r[MARKER_OFFSET..];
  }

  /** A u32 at or past the marker offset is read four places on once the marker is in. */
  lemma InsertMarkerRead(s: seq<u8>, p: nat)
    requires MARKER_OFFSET <= p && p + 4 <= |s|
    ensures ReadU32LE(InsertMarker(s), p + 4) == ReadU32LE(s, p)
  {
    var r := InsertMarker(s);
    assert r[p + 4..p + 8] == s[p..p + 4] by {
      forall k | p <= k < p + 4
        ensures r[k + 4] == s[k]
      {
      }
    }
  }

  /** A u32 at or past the marker offset is read four places back once the marker is out. */
  lemma RemoveMarkerRead(s: seq<u8>, p: nat)
    requires MARKER_OFFSET <= p && p + 8 <= |s|
    ensures ReadU32LE(RemoveMarker(s), p) == ReadU32LE(s, p + 4)
  {
    var r := RemoveMarker(s);
    assert r[p..p + 4] == s[p + 4..p + 8] by {
      forall k | p <= k < p + 4
        ensures r[k] == s[k + 4]
      {
      }
    }
  }

  /** Removing the marker just inserted gives the original buffer back. */
  lemma RemoveAfterInsert(s: seq<u8>)
    requires MARKER_OFFSET <= |s|
    ensures RemoveMarker(InsertMarker(s)) == s
  {
    var r := RemoveMarker(InsertMarker(s));
    assert forall i :: 0 <= i < |s| ==> r[i] == s[i];
  }

  /** Re-inserting the marker where one was removed gives the original buffer back. */
  lemma InsertAfterRemove(s: seq<u8>)
    requires MARKER_OFFSET + 4 <= |s|
    requires s[MARKER_OFFSET..MARKER_OFFSET + 4] == STEAM_MARKER
    ensures InsertMarker(RemoveMarker(s)) == s
  {
    var r := InsertMarker(RemoveMarker(s));
    forall i | 0 <= i < |s|
      ensures r[i] == s[i]
    {
      if MARKER_OFFSET <= i < MARKER_OFFSET + 4 {
        assert r[i] == r[MARKER_OFFSET..MARKER_OFFSET + 4][i - MARKER_OFFSET];
        assert s[i] == s[MARKER_OFFSET..MARKER_OFFSET + 4][i - MARKER_OFFSET];
      }
    }
  }

  predicate InWindow(i: int, p: int) {
    p <= i < p + 4
  }

  /** Where the Retail branch patches the anchor size: `Blocks[22].end + 4`. */
  function RetailAnchor(b: seq<Block>): nat
    requires |b| == BLOCK_COUNT
  {
    b[22].end + 4
  }

  /** Where the Steam branch patches the anchor size: `Blocks[22].end - 4`. */
  function SteamAnchor(b: seq<Block>): nat
    requires |b| == BLOCK_COUNT && b[22].end >= 4
  {
    b[22].end - 4
  }

  /**
   * The Retail branch does not panic: the marker offset is inside the buffer,
   * `Blocks[0].size + 4` fits a u32, the anchor slice is inside the grown
   * buffer, and the anchor holds at least 4.
   */
  predicate RetailToSteamSafe(s: seq<u8>, b: seq<Block>)
  {
    && MARKER_OFFSET <= |s|
    && |b| == BLOCK_COUNT
    && b[0].size + 4 < TWO_32
    && RetailAnchor(b) + 4 <= |s| + 4
    && ReadU32LE(InsertMarker(s), RetailAnchor(b)) >= 4
  }

  /**
   * The Retail -> Steam edit of `convert_save`: insert the marker, rewrite
   * block 0's u16 size as `size + 4`, lower the anchor u32 of the shifted
   * buffer by 4, and drop the last four bytes. The buffer keeps its length.
   */
  function RetailToSteam(s: seq<u8>, b: seq<Block>): (r: seq<u8>)
    requires RetailToSteamSafe(s, b)
    ensures |r| == |s|
  {
    var shifted := InsertMarker(s);
    var resized := WriteU16LE(shifted, BLOCK0_SIZE_OFFSET, (b[0].size + 4) % U16_MODULUS);
    var anchor := RetailAnchor(b);
    assert resized[anchor..anchor + 4] == shifted[anchor..anchor + 4];
    var patched := WriteU32LE(resized, anchor, ReadU32LE(resized, anchor) - 4);
    patched[..|patched| - 4]
  }

  /** Block 0's size field holds `size + 4`, truncated to 16 bits as `as u16` does. */
  lemma RetailToSteamBlock0Size(s: seq<u8>, b: seq<Block>)
    requires RetailToSteamSafe(s, b)
    ensures DecodeLE(RetailToSteam(s, b)[..2]) == (b[0].size + 4) % U16_MODULUS
  {
    var shifted := InsertMarker(s);
    var resized := WriteU16LE(shifted, BLOCK0_SIZE_OFFSET, (b[0].size + 4) % U16_MODULUS);
    assert RetailToSteam(s, b)[..2] == resized[..2];
  }

  /**
   * Outside block 0's size field and the anchor, the Steam buffer is the
   * Retail one with the marker inserted at MARKER_OFFSET: bytes before it stay,
   * the marker follows, and every later byte sits four places on (the last
   * four fall off the end).
   */
  lemma RetailToSteamShift(s: seq<u8>, b: seq<Block>)
    requires RetailToSteamSafe(s, b)
    ensures var r := RetailToSteam(s, b);
      && (forall i :: 2 <= i < MARKER_OFFSET && !InWindow(i, RetailAnchor(b)) ==> r[i] == s[i])
      && (forall i :: MARKER_OFFSET <= i < MARKER_OFFSET + 4 && i < |s| && !InWindow(i, RetailAnchor(b)) ==>
            r[i] == STEAM_MARKER[i - MARKER_OFFSET])
      && (forall i :: MARKER_OFFSET <= i < |s| - 4 && !InWindow(i + 4, RetailAnchor(b)) ==> r[i + 4] == s[i])
  {
    var shifted := InsertMarker(s);
    forall i | MARKER_OFFSET <= i < MARKER_OFFSET + 4
      ensures shifted[i] == STEAM_MARKER[i - MARKER_OFFSET]
    {
      assert shifted[i] == shifted[MARKER_OFFSET..MARKER_OFFSET + 4][i - MARKER_OFFSET];
    }
  }

  /**
   * The anchor u32 at `Blocks[22].end + 4` of the shifted buffer is lowered by
   * 4; with block 22 past the marker, that is the u32 just after block 22 in
   * the input.
   */
  lemma RetailToSteamAnchor(s: seq<u8>, b: seq<Block>)
    requires RetailToSteamSafe(s, b)
    requires RetailAnchor(b) + 4 <= |s|
    ensures ReadU32LE(RetailToSteam(s, b), RetailAnchor(b)) == ReadU32LE(InsertMarker(s), RetailAnchor(b)) - 4
    ensures MARKER_OFFSET <= b[22].end ==>
              ReadU32LE(RetailToSteam(s, b), RetailAnchor(b)) == ReadU32LE(s, b[22].end) - 4
  {
    var shifted := InsertMarker(s);
    var resized := WriteU16LE(shifted, BLOCK0_SIZE_OFFSET, (b[0].size + 4) % U16_MODULUS);
    var anchor := RetailAnchor(b);
    assert resized[anchor..anchor + 4] == shifted[anchor..anchor + 4];
    var patched := WriteU32LE(resized, anchor, ReadU32LE(resized, anchor) - 4);
    assert RetailToSteam(s, b)[anchor..anchor + 4] == patched[anchor..anchor + 4];
    assert MARKER_OFFSET <= b[22].end ==> shifted[anchor..anchor + 4] == s[b[22].end..b[22].end + 4];
  }

  /** After the Steam branch's first two steps: marker removed, block 0's size rewritten. */
  function SteamResized(s: seq<u8>, b: seq<Block>): (r: seq<u8>)
    requires MARKER_OFFSET + 4 <= |s| && |b| == BLOCK_COUNT && b[0].size >= 4
    ensures |r| == |s| - 4
  {
    WriteU16LE(RemoveMarker(s), BLOCK0_SIZE_OFFSET, (b[0].size - 4) % U16_MODULUS)
  }

  /**
   * The Steam branch does not panic: four bytes can be removed at the marker
   * offset, `Blocks[0].size - 4` and `Blocks[22].end - 4` do not underflow,
   * the anchor slice is inside the shrunk buffer, and the anchor plus 4 fits a
   * u32.
   */
  predicate SteamToRetailSafe(s: seq<u8>, b: seq<Block>)
  {
    && MARKER_OFFSET + 4 <= |s|
    && |b| == BLOCK_COUNT
    && b[0].size >= 4
    && b[22].end >= 4
    && SteamAnchor(b) + 4 <= |s| - 4
    && ReadU32LE(SteamResized(s, b), SteamAnchor(b)) + 4 < TWO_32
  }

  /**
   * The Steam -> Retail edit of `convert_save`: remove the four bytes at
   * MARKER_OFFSET, rewrite block 0's u16 size as `size - 4`, raise the anchor
   * u32 of the shrunk buffer by 4, and pad with four zero bytes. The buffer
   * keeps its length.
   */
  function SteamToRetail(s: seq<u8>, b: seq<Block>): (r: seq<u8>)
    requires SteamToRetailSafe(s, b)
    ensures |r| == |s|
  {
    var resized := SteamResized(s, b);
    var anchor := SteamAnchor(b);
    var patched := WriteU32LE(resized, anchor, ReadU32LE(resized, anchor) + 4);
    patched + [0x00, 0x00, 0x00, 0x00]
  }

  /**
   * Block 0's size field holds `size - 4`, truncated to 16 bits, unless the
   * anchor write landed on it.
   */
  lemma SteamToRetailBlock0Size(s: seq<u8>, b: seq<Block>)
    requires SteamToRetailSafe(s, b)
    requires SteamAnchor(b) >= 2
    ensures DecodeLE(SteamToRetail(s, b)[..2]) == (b[0].size - 4) % U16_MODULUS
  {
    var resized := SteamResized(s, b);
    assert SteamToRetail(s, b)[..2] == resized[..2];
  }

  /**
   * Outside block 0's size field and the anchor, the Retail buffer is the
   * Steam one with the four bytes at MARKER_OFFSET removed: bytes before them
   * stay, every later byte sits four places back, and the last four bytes are
   * zero.
   */
  lemma SteamToRetailShift(s: seq<u8>, b: seq<Block>)
    requires SteamToRetailSafe(s, b)
    ensures var r := SteamToRetail(s, b);
      && (forall i :: 2 <= i < MARKER_OFFSET && !InWindow(i, SteamAnchor(b)) ==> r[i] == s[i])
      && (forall i :: MARKER_OFFSET <= i < |s| - 4 && !InWindow(i, SteamAnchor(b)) ==> r[i] == s[i + 4])
      && r[|s| - 4..] == [0, 0, 0, 0]
  {
  }

  /**
   * The anchor u32 at `Blocks[22].end - 4` of the shrunk buffer is raised by 4;
   * with block 22 past the marker, that is the u32 just after block 22 in the
   * input.
   */
  lemma SteamToRetailAnchor(s: seq<u8>, b: seq<Block>)
    requires SteamToRetailSafe(s, b)
    ensures ReadU32LE(SteamToRetail(s, b), SteamAnchor(b)) == ReadU32LE(SteamResized(s, b), SteamAnchor(b)) + 4
    ensures MARKER_OFFSET + 4 <= b[22].end ==>
              ReadU32LE(SteamToRetail(s, b), SteamAnchor(b)) == ReadU32LE(s, b[22].end) + 4
  {
    var resized := SteamResized(s, b);
    var anchor := SteamAnchor(b);
    var patched := WriteU32LE(resized, anchor, ReadU32LE(resized, anchor) + 4);
    assert SteamToRetail(s, b)[anchor..anchor + 4] == patched[anchor..anchor + 4];
    assert MARKER_OFFSET + 4 <= b[22].end ==> resized[anchor..anchor + 4] == s[b[22].end..b[22].end + 4];
  }

  /**
   * `convert_save`: a Steam save is turned into a Retail one and vice versa,
   * then exported, so everything the branch lemmas state about RetailToSteam
   * and SteamToRetail holds of the new buffer; anything else is refused and
   * nothing changes. Only the buffer of the container changes, it keeps its
   * length, and it carries a valid checksum afterwards.
   */
  function ConvertSave(sf: SaveFile): (r: Result<SaveFile, ConvertError>)
    requires sf.saveType == Steam ==> CHKSM_END <= |sf.file| && SteamToRetailSafe(sf.file, sf.blocks)
    requires sf.saveType == Retail ==> CHKSM_END <= |sf.file| && RetailToSteamSafe(sf.file, sf.blocks)
    ensures r.Failure? <==> sf.saveType == Unknown || sf.saveType == Android || sf.saveType == IOS
    ensures r.Failure? ==> r.error == FormatNotSupported
    ensures r.Success? ==> r.value == sf.(file := r.value.file)
    ensures r.Success? ==> |r.value.file| == |sf.file| && ChecksumMatches(r.value.file)
    ensures r.Success? && |sf.file| == FILE_SIZE ==> OpenSaveFile(r.value.file) == Success(r.value.file)
    ensures sf.saveType == Retail ==> r == Success(sf.(file := Export(RetailToSteam(sf.file, sf.blocks))))
    ensures sf.saveType == Steam ==> r == Success(sf.(file := Export(SteamToRetail(sf.file, sf.blocks))))
  {
    match sf.saveType
    case Steam => Success(sf.(file := Export(SteamToRetail(sf.file, sf.blocks))))
    case Retail => Success(sf.(file := Export(RetailToSteam(sf.file, sf.blocks))))
    case _ => Failure(FormatNotSupported)
  }
}
