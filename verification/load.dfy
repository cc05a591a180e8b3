/** The size and checksum checks `open_save_file` performs on a loaded buffer. */
module Load {
  import opened Bytes
  import opened Wrappers
  import opened Constants
  import opened Checksum

  datatype LoadError =
    | SizeMismatch(actual: nat)
    | ChecksumMismatch(stored: u32, calculated: u32)

  /** The bytes covered by the checksum, `&file[SAVE_DATA]`. */
  function SaveData(file: seq<u8>): (d: seq<u8>)
    requires SAVE_DATA_LAST < |file|
    ensures |d| == SAVE_DATA_LAST + 1 - SAVE_DATA_FIRST
  {
    file[SAVE_DATA_FIRST..SAVE_DATA_LAST + 1]
  }

  /** The checksum the file carries, `BigEndian::read_u32(&file[CHKSM_RANGE])`. */
  function StoredChecksum(file: seq<u8>): u32
    requires CHKSM_END <= |file|
  {
    ReadU32BE(file, CHKSM_START)
  }

  /** The file carries the checksum of its own save data. */
  predicate ChecksumMatches(file: seq<u8>)
    requires CHKSM_END <= |file|
  {
    StoredChecksum(file) == CalculateChecksum(SaveData(file))
  }

  /**
   * Accepts exactly the buffers of FILE_SIZE bytes that carry their own
   * checksum, handing them back unchanged; the size is checked before any
   * checksum work, and a checksum failure reports both values.
   */
  function OpenSaveFile(file: seq<u8>): (r: Result<seq<u8>, LoadError>)
    ensures |file| != FILE_SIZE ==> r == Failure(SizeMismatch(|file|))
    ensures r.Success? <==> |file| == FILE_SIZE && ChecksumMatches(file)
    ensures r.Success? ==> r.value == file
    ensures |file| == FILE_SIZE && r.Failure? ==>
              r.error == ChecksumMismatch(StoredChecksum(file), CalculateChecksum(SaveData(file)))
  {
    if |file| != FILE_SIZE then Failure(SizeMismatch(|file|))
    else
      var checksum := StoredChecksum(file);
      match ChecksumIsValid(SaveData(file), checksum)
      case Pass => Success(file)
      case Fail(calculated) => Failure(ChecksumMismatch(checksum, calculated))
  }
}
