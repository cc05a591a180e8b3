# MiamiC save converter core, in Dafny

A model of the byte-level core of MiamiC, a converter between the Retail and
Steam PC releases of GTA: Vice City save files, with proofs about it.

A save file is `FILE_SIZE` (0x31464) bytes long:

- **Save data.** Bytes 0..=0x3145F, cut into length-prefixed blocks.
- **Checksum.** The last four bytes hold a big-endian u32. It is the byte sum
  of the save data, written little-endian and read back big-endian.

The model covers:

- **Block locator** (`Blocks`). `generate_block_info` follows 23 little-endian
  u32 prefixes. The layout it finds is stated as a predicate
  (`IsBlockTable`). The proofs show the locator's result has that layout and
  is the only sequence of blocks that does.
- **Checksum** (`Checksum`). `calculate_checksum` and `checksum_is_valid`.
  The checksum is proved equal to the 32-bit byte swap of the plain sum, and
  the u32 fold is proved never to wrap on save data.
- **Load** (`Load`). The size and checksum checks of `open_save_file`, as a
  pure function of the bytes read.
- **Classification** (`Classify`). `find_save_type`.
- **Container and conversion** (`SaveFiles`).
  - `SaveFile::new`.
  - `overwrite_checksum` and the checksum-rewrite step of `export`.
  - Both branches of `convert_save` and its rejection arm. Each branch is a
    pure function of the buffer and the block table computed at load time.
  - The container's other fields are not refreshed by a conversion, exactly
    as in the Rust code.
- **Round trip** (`RoundTrip`, `Records`). Converting a Retail save to Steam
  gives a buffer whose block table is the original one, grown. That buffer
  is classified Steam and converts back. Converting back restores every byte
  of the original below 0x3145C, the block table and the Retail
  classification.

Bytes are `u8` (a subset of `int`). Little-endian values are a recursive
codec with round-trip lemmas, and big-endian is the reversed little-endian.

The Rust code panics on an out-of-range slice. Each such panic becomes a
precondition. The conversion's `size ± 4` u32 operations panic only in a
debug build; a release build wraps them. The model takes the debug reading
for these: inputs on which they would leave the u32 range are excluded by
the preconditions, collected in the `…Safe` predicates (see "Left out").
The `as u16` cast is written out as reduction modulo 0x10000.

The Retail to Steam to Retail round trip is not byte-identical outside the
checksum, and the model says so rather than claiming it. The Retail branch
shifts bytes 0x3145C..0x3145F of the save data into the checksum range,
where export overwrites them; the anchor after block 22 (the size of the
trailing padding) is lowered by 4 to match. The Steam branch then shifts
the Steam checksum back into 0x3145C..0x3145F. `RoundTrip.RetailSteamRetail`
states exactly this, under the conditions gathered in `RetailRoundTripFits`.

## Model

| member | source | states |
|---|---|---|
| Constants.LayoutPartition | src/save_converter/constants.rs:3-5 | the checksum range is the last four bytes and ends at FILE_SIZE; the save data ends right before it; every offset of the file is in exactly one of the two |
| Checksum.FoldIsSumModulo | src/save_converter/libs.rs:87 | the wrapping u32 fold over the bytes is the plain byte sum reduced modulo 2^32 |
| Checksum.FoldNeverWraps | src/save_converter/libs.rs:87 | on at most 0x31460 bytes (the save data) no running sum reaches 2^32, so the fold equals the plain sum |
| Checksum.ChecksumIsSwappedSum | src/save_converter/libs.rs:85-89 | writing the sum little-endian and reading it big-endian is the 32-bit byte swap of the sum |
| Checksum.ChecksumIsValid | src/save_converter/libs.rs:75-83 | passes exactly when the calculated checksum equals the given one; a failure carries the calculated value, which differs from the given one |
| Checksum.OwnChecksumIsValid | src/save_converter/libs.rs:75-83 | a data slice always validates against its own calculated checksum |
| Blocks.Walk | src/save_converter/libs.rs:101-113 | reading n prefixes from an offset gives n blocks chained from that offset: each size is the LE u32 before its data, end is index + size, the next index is end + 4 |
| Blocks.GenerateBlockInfo | src/save_converter/libs.rs:91-116 | the table read from a buffer has 23 blocks with the chained layout starting at offset 0 |
| Blocks.ChainLayout | src/save_converter/libs.rs:102-112 | for a chained table: block 0 starts at offset + 4 with the size read at offset; every block ends at index + size; the prefix of block i + 1 is the LE u32 at block i's end and its data starts 4 bytes later |
| Blocks.ChainIsWalk | src/save_converter/libs.rs:101-113 | any chained sequence of blocks is exactly what the locator reads, and its existence implies every prefix read is in bounds |
| Blocks.BlockTableUnique | src/save_converter/libs.rs:91-116 | a buffer has at most one block table, the one the locator returns |
| Blocks.ChainOrdered | src/save_converter/libs.rs:111-112 | the blocks of a chain are in increasing order, each at least 4 bytes past the end of the one before |
| Classify.FindSaveType | src/save_converter/libs.rs:118-134 | Retail or Steam exactly when block 1 has the PC size and byte 0x58 is 0xE8 or 0xFD; Android or IOS exactly when block 1 has the mobile size, whatever byte 0x58 holds; Unknown in every other case |
| Classify.ClassificationIsLocal | src/save_converter/libs.rs:118-134 | two buffers that agree on block 1's size and, for the PC size, on byte 0x58 get the same variant |
| Load.OpenSaveFile | src/save_converter/libs.rs:39-72 | a wrong length fails with that length before any checksum work; a FILE_SIZE buffer loads exactly when its stored big-endian checksum matches the checksum of its save data, otherwise the error reports both values; a loaded buffer is returned unchanged |
| SaveFiles.New | src/save_converter/savefile.rs:30-49 | the container is built exactly when load succeeds, and load's error is passed on otherwise; the container holds the bytes, their block table, their variant, the stored checksum and the path |
| SaveFiles.OverwriteChecksum | src/save_converter/savefile.rs:51-54 | the checksum range then holds the given value big-endian, and every other byte is unchanged |
| SaveFiles.Export | src/save_converter/savefile.rs:56-65 | only the checksum range changes; it then matches the save data, so a FILE_SIZE buffer passes load |
| SaveFiles.ExportIdempotent | src/save_converter/savefile.rs:56-65 | exporting an exported buffer changes nothing |
| SaveFiles.InsertMarkerIsFourInserts | src/save_converter/savefile.rs:143-146 | the four `insert` calls put FD 00 00 00 at 0x58, keep the bytes before it and move every later byte four places on |
| SaveFiles.RemoveMarkerIsFourRemoves | src/save_converter/savefile.rs:112-115 | the four `remove(0x58)` calls cut out bytes 0x58..0x5B and move every later byte four places back |
| SaveFiles.RemoveAfterInsert | src/save_converter/savefile.rs:143-146 | removing the marker just inserted gives the original buffer |
| SaveFiles.InsertAfterRemove | src/save_converter/savefile.rs:112-115 | re-inserting the marker where an FD 00 00 00 marker was removed gives the original buffer |
| SaveFiles.RetailToSteam | src/save_converter/savefile.rs:139-166 | the Retail branch keeps the buffer's length |
| SaveFiles.RetailToSteamBlock0Size | src/save_converter/savefile.rs:148-151 | bytes 0..1 hold the LE u16 of block 0's old size plus 4, truncated to 16 bits |
| SaveFiles.RetailToSteamShift | src/save_converter/savefile.rs:143-165 | outside bytes 0..1 and the patched u32: bytes 2..0x57 are kept, FD 00 00 00 sits at 0x58..0x5B, every original byte from 0x58 on sits four places on, and the last four original bytes are gone |
| SaveFiles.RetailToSteamAnchor | src/save_converter/savefile.rs:153-158 | the LE u32 at Blocks[22].end + 4 of the shifted buffer is lowered by 4; when block 22 lies past the marker, that is the original u32 at Blocks[22].end |
| SaveFiles.SteamToRetail | src/save_converter/savefile.rs:109-135 | the Steam branch keeps the buffer's length |
| SaveFiles.SteamToRetailBlock0Size | src/save_converter/savefile.rs:117-120 | bytes 0..1 hold the LE u16 of block 0's old size minus 4, truncated to 16 bits, unless the later u32 write covers them |
| SaveFiles.SteamToRetailShift | src/save_converter/savefile.rs:112-134 | outside bytes 0..1 and the patched u32: bytes 2..0x57 are kept, every byte from 0x58 on is the one four places further on in the input, and the last four bytes are zero |
| SaveFiles.SteamToRetailAnchor | src/save_converter/savefile.rs:122-128 | the LE u32 at Blocks[22].end - 4 of the shortened buffer is raised by 4; when block 22 lies past the marker, that is the input's u32 at Blocks[22].end plus 4 |
| SaveFiles.ConvertSave | src/save_converter/savefile.rs:108-172 | fails with "format not supported" exactly for Unknown, Android and IOS; a Retail save's buffer becomes the exported Retail-to-Steam conversion and a Steam save's the exported Steam-to-Retail one, every other field kept; the new buffer keeps its length, carries a matching checksum, and a FILE_SIZE buffer passes load |
| RoundTrip.GrownTable | src/save_converter/libs.rs:101-113 | a buffer that holds block 0's size plus 4 in its first prefix, and carries x's bytes four places on from 0x58 through block 22, has x's block table with block 0 grown by 4 and every later block moved 4 on |
| RoundTrip.AgreeingPrefixKeepsTable | src/save_converter/libs.rs:101-113 | the block table depends only on the bytes before block 22's data |
| RoundTrip.RetailToSteamLayout | src/save_converter/savefile.rs:139-172 | converting and exporting a fitting Retail buffer gives the grown table, the Steam marker byte, the original bytes in place or four places on, and the anchor lowered by 4 |
| RoundTrip.SteamImageConvertsBack | src/save_converter/savefile.rs:117-128 | that Steam buffer can be converted back without a slice or arithmetic panic |
| RoundTrip.SteamImageRestores | src/save_converter/savefile.rs:109-134 | converting that Steam buffer back restores every original byte below 0x3145C; bytes 0x3145C..0x3145F then hold the Steam buffer's checksum |
| RoundTrip.RetailSteamRetail | src/save_converter/savefile.rs:108-172 | for a fitting Retail buffer with a block table b: b is what the locator reads; Retail to Steam to Retail, both times exported, goes through the grown table and ends with a buffer that agrees with the original below 0x3145C and has table b again |
| Records.Loaded | src/save_converter/savefile.rs:30-45 | a FILE_SIZE buffer with walkable prefixes and a matching checksum loads into a container with its bytes, the locator's table and its variant |
| Records.ConvertedIsSteam | src/save_converter/libs.rs:118-129 | a converted Retail buffer is classified Steam under the grown table |
| Records.RestoredKeepsType | src/save_converter/libs.rs:118-129 | a buffer that agrees with the original below 0x3145C is classified like it |
| Records.RetailSaveRoundTrip | src/save_converter/savefile.rs:30-172 | a fitting Retail save with a matching checksum loads; converting it gives a buffer that loads as Steam with the grown table; converting that gives a buffer that loads as Retail with the original table and agrees with the original below 0x3145C |

## Left out

- `src/main.rs` is not part of this model: argument reading, the y/N prompt, the `.bak` copy and console output.
- Filesystem calls are left out: `fs::metadata`, the directory check, `fs::read`, `File::create` and `write_all`. Load takes the bytes read; export produces the bytes it would write. A failure of `File::create` is therefore not modelled.
- The `byteorder` crate is replaced by the codec in `Bytes`.
- `println!` output and the text of the error messages are left out. Errors are the constructors `SizeMismatch`, `ChecksumMismatch(stored, calculated)` and `FormatNotSupported`.
- Rust slice panics are preconditions: `RetailToSteamSafe`, `SteamToRetailSafe`, the requires of `Export` and `FindSaveType`, and `New`'s requires that a loaded buffer be `Walkable` (the out-of-range prefix read of `generate_block_info`, src/save_converter/libs.rs:102-103, which load's checksum check makes unlikely but does not rule out). The panic itself is not modelled.
- `usize` overflow in offset arithmetic is not modelled: offsets are unbounded naturals.
- Checksum.FoldWrapping: models the fold as wrapping u32 addition. A debug build panics on overflow instead; `FoldNeverWraps` shows neither can happen on the save data.
- The doc comment of `convert_save` names other offsets for the block-22 patch than the code uses. The model follows the code: it reads and writes at `Blocks[22].end + 4` (Retail branch) and `Blocks[22].end - 4` (Steam branch).
- Block 22's end is not required to lie inside the buffer. The locator never reads there.
- SaveFiles.RetailToSteam: its own contract states only the length. The content is stated by `RetailToSteamBlock0Size`, `RetailToSteamShift` and `RetailToSteamAnchor`.
- SaveFiles.SteamToRetail: its own contract states only the length. The content is stated by `SteamToRetailBlock0Size`, `SteamToRetailShift` and `SteamToRetailAnchor`.
- SaveFiles.RetailToSteam: a release build wraps `Blocks[0].size + 4` and the anchor's `- 4` (src/save_converter/savefile.rs:149, 156) and carries on; `RetailToSteamSafe` excludes the inputs on which they would wrap (block 0's size at 0xFFFFFFFC or more, an anchor below 4), so the model says nothing about the converted buffer in those cases.
- SaveFiles.SteamToRetail: a release build wraps `Blocks[0].size - 4` and the anchor's `+ 4` (src/save_converter/savefile.rs:118, 126) and carries on, writing for instance 0xFFFC..0xFFFF into bytes 0..1 when block 0's size is below 4; `SteamToRetailSafe` excludes those inputs, so the model says nothing about the converted buffer in those cases.
- SaveFiles.ConvertSave: its requires carry the two `…Safe` predicates, so the release-build wrap-around cases above are outside its contract too.
- The round trip starting from a Steam save is not proved. Re-inserting the marker writes FD 00 00 00, so any other bytes a Steam save held at 0x59..0x5B would not come back.
- `Block::new`, the all-zero initial value of the Rust array, is left out: every entry is overwritten.
