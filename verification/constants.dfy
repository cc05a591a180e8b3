/** The fixed layout of a GTA: Vice City PC save file. */
module Constants {

  /** Every save is exactly this many bytes long. */
  const FILE_SIZE: nat := 0x31464

  /** `CHKSM_RANGE`, half-open: where the big-endian checksum is stored. */
  const CHKSM_START: nat := 0x31460
  const CHKSM_END: nat := 0x31464

  /** `SAVE_DATA`, inclusive at both ends: the bytes the checksum covers. */
  const SAVE_DATA_FIRST: nat := 0
  const SAVE_DATA_LAST: nat := 0x3145F

  predicate InSaveData(p: int) {
    SAVE_DATA_FIRST <= p <= SAVE_DATA_LAST
  }

  predicate InChecksumRange(p: int) {
    CHKSM_START <= p < CHKSM_END
  }

  /**
   * The checksum is the final four bytes of the file, and the save data is
   * everything before it: the two ranges split [0, FILE_SIZE) between them.
   */
  lemma LayoutPartition()
    ensures CHKSM_END == FILE_SIZE && CHKSM_END - CHKSM_START == 4
    ensures SAVE_DATA_FIRST == 0 && SAVE_DATA_LAST + 1 == CHKSM_START
    ensures forall p :: 0 <= p < FILE_SIZE ==> (InSaveData(p) <==> !InChecksumRange(p))
    ensures forall p :: InSaveData(p) || InChecksumRange(p) ==> 0 <= p < FILE_SIZE
  {
  }
}
