# Radar-view decoder

This project models the radar-view decoder of the maze-exploration client `sauve_qui_peut` in Dafny and proves properties of it. The game server sends each player a "radar" string. It describes the 3 x 3 cells around the player and the walls between and around them. The decoder works in three stages:

1. **Variant base64.** The string is decoded with an unpadded base64 variant whose alphabet starts with the lower-case letters (`a`-`z`, then `A`-`Z`, `0`-`9`, `+`, `/`). A length of the form 4k + 1 is rejected. A 2-character tail gives one byte and a 3-character tail gives two.
2. **Three grid extractors** read fixed byte ranges of the decoded bytes:
   - bytes [0, 3): 4 x 3 horizontal passages, 2 bits each, read from a little-endian 24-bit word;
   - bytes [3, 6): 3 x 4 vertical passages, read the same way;
   - bytes [6, 11): 3 x 3 cells, one 4-bit code each, high nibble first.
3. **Code tables** turn the codes into `Passage` and `RadarItem` values. The tables never fail: every code without a meaning becomes `Undefined`.

Modules:

- `DecodeErrors` (`errors.dfy`): the byte type, `Result` and the three errors (`InvalidLength`, `InvalidCharacter`, `InsufficientData`).
- `CodeTables` (`code_tables.dfy`): `Passage`, `RadarItem` and the two `From<u8>` tables. It also holds their canonical codes, used only for the round trips.
- `Base64` (`base64.dfy`): `char_to_value` and `decode_b64`. A reference specification `Decode` describes the result group by group. An encoder states the round trip.
- `GridExtractors` (`grid_extractors.dfy`): the three extractors as methods with loops, each proved equal to a specification function. Beside them are byte-level reference readings and packers for the round trips.
- `RadarViewDecoder` (`radar_view.dfy`): `decode_radar_view` and the end-to-end properties.

Every loop of the source is a Dafny method proved equal to a pure specification. The properties are stated and proved about those specifications:

- `DecodeB64` is proved to return `Decode(encoded)`.
- `ExtractHorizontalPassages` is proved to return `HorizontalPassages(data)`.
- `DecodeRadarView` is proved to return `RadarViewOf(encoded)`.

## Model

| member | source | states |
|---|---|---|
| CodeTables.PassageFrom | src/radar_view.rs:66-75 | Code 1 gives Open and code 2 gives Wall, each in both directions. Every other code, 0 included, gives Undefined. |
| CodeTables.RadarItemFrom | src/radar_view.rs:34-53 | Each code 0-11 gives a defined item. Its terrain is the code's high two bits and its occupant the low two bits, which fixes the table order Empty, Ally, ..., GoalWithMonster. Codes 12 and above give Undefined. |
| CodeTables.RadarItemCode | src/radar_view.rs:5-32 | The canonical 4-bit code of an item is below 16. It is 15 exactly for Undefined. |
| CodeTables.PassageCodeRoundTrip | src/radar_view.rs:56-75 | Decoding the canonical code of a passage gives the passage back. |
| CodeTables.RadarItemCodeRoundTrip | src/radar_view.rs:5-53 | Decoding the canonical code of an item gives the item back, so all 13 variants can be reached. |
| CodeTables.RadarItemFromInjective | src/radar_view.rs:34-53 | The codes 0-11 name 12 distinct items. |
| Base64.CharToValue | src/radar_view.rs:231-240 | An accepted character has a value below 64 and is the character `ValueToByte` gives for that value. Any other character is rejected with an error that names it. |
| Base64.AlphabetRoundTrip | src/radar_view.rs:231-240 | Each of the 64 values is decoded from its own character: the ranges `a`-`z` → 0-25, `A`-`Z` → 26-51, `0`-`9` → 52-61, `+` → 62, `/` → 63. |
| Base64.AlphabetIsImage | src/radar_view.rs:231-240 | The alphabet is exactly the set of characters for the values 0-63. |
| Base64.CharToValueInjective | src/radar_view.rs:231-240 | Two alphabet characters with the same value are the same character. |
| Base64.FirstInvalidIsFirst | src/radar_view.rs:197-206 | Every character before `FirstInvalid(s)` is in the alphabet. The character at that index, if any, is not. |
| Base64.FirstInvalidUnique | src/radar_view.rs:197-206 | `FirstInvalid(s)` is the only index with that property. |
| Base64.JoinGroupsLength | src/radar_view.rs:197-225 | Decoding n values gives 3 * (n / 4) bytes, plus 1 for a 2-value tail and 2 for a 3-value tail. |
| Base64.JoinGroupsAppend | src/radar_view.rs:197-225 | Groups decode independently: a prefix made of whole groups decodes to a prefix of the output. |
| Base64.GroupValues | src/radar_view.rs:203-206 | The values of one group are read left to right. It stops with the error for the first character outside the alphabet, and that character lies inside the group. |
| Base64.DecodeB64 | src/radar_view.rs:187-228 | The decoder method returns exactly `Decode(encoded)`: the length error, then the first invalid character, otherwise the bytes of the groups in order. |
| Base64.DecodeLengthError | src/radar_view.rs:189-192 | Decoding fails with InvalidLength exactly when the length has the form 4k + 1. |
| Base64.DecodeCharacterError | src/radar_view.rs:197-206 | With any other length, decoding fails with InvalidCharacter(c) exactly when c is the leftmost character outside the alphabet. |
| Base64.DecodeSuccess | src/radar_view.rs:187-228 | Decoding succeeds exactly when the length is not of the form 4k + 1 and every character is in the alphabet. The output then has 3 * (len / 4) + (0, 1 or 2) bytes. |
| Base64.DecodeEmpty | src/radar_view.rs:187-228 | The empty string decodes to no bytes. |
| Base64.JoinGroupsAt | src/radar_view.rs:207-222 | Output bytes 3g to 3g + n - 2 are the bytes of group g. |
| Base64.DecodeGroup | src/radar_view.rs:207-222 | In a successful decode, group g of n characters gives the bytes `(v0 << 2) \| (v1 >> 4)`, then `((v1 & 0x0F) << 4) \| (v2 >> 2)` when n >= 3, then `((v2 & 0x03) << 6) \| v3` when n = 4. |
| Base64.EncodedLength | src/radar_view.rs:189-192 | The encoded length is never of the form 4k + 1, and it decodes to exactly n bytes. |
| Base64.ValuesRoundTrip | src/radar_view.rs:207-222 | The three byte formulas invert the splitting of three bytes into four 6-bit values. |
| Base64.GroupRoundTrip | src/radar_view.rs:207-222 | A full or partial group of 1-3 bytes is recovered from its values. |
| Base64.JoinEncodedGroups | src/radar_view.rs:197-225 | Joining the groups of the encoded values gives the original bytes. |
| Base64.ValuesOfEncoding | src/radar_view.rs:231-240 | An encoding contains only alphabet characters, and their values are the encoded values. |
| Base64.DecodeEncode | src/radar_view.rs:187-228 | Round trip: decoding the encoding of any byte sequence gives it back. |
| GridExtractors.ExtractHorizontalPassages | src/radar_view.rs:114-133 | The extractor builds the little-endian word and fills every slot of the 4 x 3 grid. It returns `HorizontalPassages(data)`. |
| GridExtractors.PlaceHorizontal | src/radar_view.rs:124-130 | The loop step: writing passage (row, col) extends the placed prefix by one slot, in row-major order. |
| GridExtractors.ExtractVerticalPassages | src/radar_view.rs:136-155 | The extractor fills every slot of the 3 x 4 grid. It returns `VerticalPassages(data)`. |
| GridExtractors.PlaceVertical | src/radar_view.rs:146-152 | The loop step: writing passage (row, col) extends the placed prefix by one slot. |
| GridExtractors.HorizontalShiftsAreFields | src/radar_view.rs:126 | The shift 6 * row + 2 * col equals 2 * (3 * row + col), which is at most 22. Different slots get different shifts. |
| GridExtractors.VerticalShiftsAreFields | src/radar_view.rs:148 | The shift 8 * row + 2 * col equals 2 * (4 * row + col), which is at most 22. Different slots get different shifts. |
| GridExtractors.WordFields | src/radar_view.rs:118-121 | Bits 2k and 2k + 1 of the little-endian word are two-bit field k % 4 of byte k / 4, for k < 12. |
| GridExtractors.HorizontalPassagesOfBytes | src/radar_view.rs:114-133 | Read row by row, the horizontal passages are the 12 two-bit fields of the three bytes, lowest bits first. Rows of 3 therefore cross byte boundaries. |
| GridExtractors.VerticalPassagesOfBytes | src/radar_view.rs:136-155 | Read row by row, the vertical passages are the same 12 fields, so vertical row r is exactly byte r. |
| GridExtractors.PassagesReadThreeBytes | src/radar_view.rs:114-155 | Both passage grids depend only on the first three bytes. |
| GridExtractors.PackPassagesFields | src/radar_view.rs:118-128 | Packing 12 passage codes into three bytes and reading the fields back gives the passages. |
| GridExtractors.HorizontalRoundTrip | src/radar_view.rs:114-133 | Every 4 x 3 passage grid is extracted again from its packed bytes. |
| GridExtractors.VerticalRoundTrip | src/radar_view.rs:136-155 | Every 3 x 4 passage grid is extracted again from its packed bytes. |
| GridExtractors.NibblesMakeByte | src/radar_view.rs:170-178 | The two reads `(byte >> 4) & 0x0F` and `byte & 0x0F` cover all eight bits: packing them back gives the byte, and two bytes with the same two nibbles are equal. |
| GridExtractors.PlaceCell | src/radar_view.rs:167-180 | The loop step: writing nibble n into cell (n / 3, n % 3) places one more cell, in row-major order. |
| GridExtractors.ExtractCells | src/radar_view.rs:158-184 | The extractor returns `Cells(data)`, so all nine slots are overwritten. Its loop invariant keeps `cell_index` at min(2i, 9), which ends at 9. |
| GridExtractors.CellsInNibbleOrder | src/radar_view.rs:162-181 | Read row by row, the cells are the items of nibbles 0-8. Nibble k lands in cell (k / 3, k % 3). Nibble 2i is the high half of byte i and nibble 2i + 1 is its low half. |
| GridExtractors.CellsIgnoreLastNibble | src/radar_view.rs:175-180 | The low nibble of the fifth byte, and any byte after it, never changes the cells. |
| GridExtractors.PackNibblesRoundTrip | src/radar_view.rs:170-178 | The high and low nibble of a packed byte are the two codes packed. |
| GridExtractors.PackCellsNibbles | src/radar_view.rs:162-181 | Packing nine item codes two per byte and reading the nibbles back gives the items. |
| GridExtractors.CellsRoundTrip | src/radar_view.rs:158-184 | Every 3 x 3 cell grid is extracted again from its packed bytes. |
| RadarViewDecoder.RadarViewOf | src/radar_view.rs:89-111 | A successful decode always has grids of 4 x 3, 3 x 4 and 3 x 3. |
| RadarViewDecoder.DecodeRadarView | src/radar_view.rs:89-111 | The assembler method returns exactly `RadarViewOf(encoded)`. It passes decoder errors through, gives InsufficientData below 11 bytes, and otherwise reads bytes [0,3), [3,6) and [6,11). |
| RadarViewDecoder.ElevenBytesNeedFifteenChars | src/radar_view.rs:93-95 | For a valid length n, the decoded data has at least 11 bytes exactly when n >= 15. |
| RadarViewDecoder.RadarViewLengthError | src/radar_view.rs:89-95 | The view fails with InvalidLength exactly for lengths of the form 4k + 1, whatever the characters are. |
| RadarViewDecoder.RadarViewCharacterError | src/radar_view.rs:89-95 | Otherwise the view fails with InvalidCharacter(c) exactly when c is the leftmost character outside the alphabet. |
| RadarViewDecoder.RadarViewInsufficientData | src/radar_view.rs:89-95 | The view fails with InsufficientData exactly for strings with a valid length, only alphabet characters and fewer than 15 characters. |
| RadarViewDecoder.RadarViewSuccess | src/radar_view.rs:89-111 | The view decodes exactly for strings of at least 15 alphabet characters whose length is not of the form 4k + 1. |
| RadarViewDecoder.ShortStringsFail | src/radar_view.rs:89-95 | No string shorter than 15 characters decodes to a view. |
| RadarViewDecoder.EmptyStringInsufficient | src/radar_view.rs:89-95 | The empty string fails with InsufficientData. |
| RadarViewDecoder.ViewReadsItsRanges | src/radar_view.rs:97-104 | Each grid depends only on its own byte range. Bytes from offset 11 on are ignored. |
| RadarViewDecoder.ViewIgnoresLastNibble | src/radar_view.rs:104 | The low nibble of byte 10 never changes the view. |
| RadarViewDecoder.ZeroBytesView | src/radar_view.rs:97-110 | All-zero bytes give all passages Undefined and all cells Empty. |
| RadarViewDecoder.EncodeView | src/radar_view.rs:89-111 | The encoding of a well-shaped view, the inverse the round trip uses, has exactly 15 characters, the shortest length that decodes. |
| RadarViewDecoder.ViewBytesRoundTrip | src/radar_view.rs:97-110 | Every well-shaped view is read back from its 11 packed bytes. |
| RadarViewDecoder.RadarViewRoundTrip | src/radar_view.rs:89-111 | End to end: decoding the string a well-shaped view is encoded as gives the view back. |

## Left out

- Text input is modelled as a sequence of bytes, not Rust `char`s. `decode_b64` takes `len()` in UTF-8 bytes but indexes `chars()` by character. So for a string with a non-ASCII character, Rust's `InvalidCharacter` carries that `char`. The model's error carries the first byte of its UTF-8 form instead. Which input fails, and with which kind of error, is the same. The base64 alphabet is ASCII, so valid inputs are unaffected.
- The error messages are French strings in the source. They are modelled as the three constructors of `DecodeError`. The source's "too short" message carries no byte counts, and neither does `InsufficientData`.
- Rust's fixed arrays `[[T; C]; R]` are modelled as `seq<seq<T>>` values that are updated by copy, with `IsGrid` stating their dimensions. The `RadarView` datatype does not fix the dimensions by its type. Instead `RadarViewOf` ensures every result is `WellShaped`.
- `Vec::with_capacity` is a performance hint with no effect on the result, so it is not modelled.
- `Base64.GroupValues`: the inner `for j` loop of `decode_b64`, with its early `?` return, is a separate method called from the outer loop. It keeps the source's order and error.
- `src/client.rs` and `src/main.rs` are not part of this model. They only move the radar string over the network, print results and drive the game. The test files under `tests/` are not part of this model either.
- Serde serialization, `Debug` and `Clone` derives are not modelled.
