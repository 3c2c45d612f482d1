# Intel HEX record decoder (xinto), modelled in Dafny

xinto reads Intel HEX files. Each line of such a file is one record:

```
':'  length (1 byte)  load offset (2 bytes, big-endian)  type (1 byte)  data (length bytes)  checksum (1 byte)
```

Every byte is written as two hexadecimal characters. The library function
`parse_record` (src/lib.rs) turns one line into a `Record` or into one
`RecordParsingError`. It checks the line in a fixed order and returns the
first check that fails. A record is accepted only if its bytes, checksum
included, sum to a multiple of 256.

The model is pure, like the source: datatypes, functions and lemmas.

- `results.dfy` (`Results`) holds `Option` and `Result`. `Result.OrElse` is Rust's `or_else(|_| Err(e))`.
- `hex.dfy` (`Hex`) holds the text primitives:
  - `FromStrRadix16`, the rule `from_str_radix(s, 16)` uses to accept a string: an optional `+`, then at least one hex digit of either case, read last digit first (`FromStrRadix16Reads` spells the rule out; it is a definition, not a result);
  - `FromHexPairs`, the rule `hex::FromHex` uses to accept a string: an even number of hex digits, no sign (`FromHexPairsReads` spells the rule out in the same way);
  - upper-case writers for bytes and words, used only by the encoder that serves as the decoder's inverse.
- `intelhex.dfy` (`IntelHex`) is the model of src/lib.rs:
  - `Record` (src/lib.rs:11-17) with the same five fields and widths, `RecordParsingError` (src/lib.rs:52-66) with the same twelve variants, and `end_of_file`;
  - `u8_from_hex` and `u16_from_hex`;
  - `parse_u8` and `parse_u16`;
  - `verify_checksum`, including `trailing_zeros` on the `u32` sum;
  - `parse_record`, as `ParseRecord` with the part after the type check in `ParseBody`.
- `layout.dfy` (`Layout`) restates the decoder on absolute positions in the line (`PositionalDecode`) and proves `ParseRecord` equal to it. It then characterises each error exactly: which lines give it and which do not.
- `encoding.dfy` (`Encoding`) is an encoder, the decoder's partner. It proves:
  - decoding an encoded well-formed record gives the record back;
  - the checksum completes a record uniquely;
  - a corrupted checksum, a truncated line and trailing text are each rejected with the right error;
  - the End-of-File record reads as `:00000001FF`.
- `vectors.dfy` (`TestVectors`) works out every example in the repository's tests on the model. It covers each error line and the valid sixteen-byte data record.

Three behaviours of the code worth knowing; the model follows the code:

- The checksum field's format is checked before the data field's hex (src/lib.rs:119-126). A line that is bad in both places gives `InvalidChecksumFormat`, not `InvalidDataFormat` (`Layout.ChecksumFormatBeforeData`).
- Fields are read with `from_str_radix`, which accepts a leading `+`. So `:+100000000FF`-style lines decode (`Encoding.SignedLengthField`). The data field is read with `hex::FromHex`, which has no sign, so a `+` there gives `InvalidDataFormat` (`Encoding.SignedDataRejected`).
- The tests call `Record::parse`, which this revision of src/lib.rs does not define. Their assertions are worked out here against `parse_record`, the free function that does the parsing.

The `input.len() - 2` at src/lib.rs:113 cannot underflow: after the 11-character guard and the 9-character header, at least 2 characters remain. `ParseBody` states this as its precondition, and `ParseRecord` always meets it.

## Model

| member | source | states |
|---|---|---|
| Results.Result.OrElse | src/lib.rs:101 | replaces any error by the given one and keeps a success unchanged |
| IntelHex.EndOfFile | src/lib.rs:20-28 | the End-of-File record is well formed (1 + 0xFF sums to 256), has type 1, no data and offset 0 |
| Hex.DigitsValueHeadFirst | src/lib.rs:31-37 | the value `from_str_radix` gives a run of hex digits, built up last digit first, is also the leading digit times 16 to the power of the digits after it plus the value of those digits, so the first digit is the most significant |
| Hex.PairsValue | src/lib.rs:126 | `Vec::from_hex` turns an even run of hex digits into half as many bytes, byte i being the digit pair at 2i with the first digit high |
| IntelHex.U8FromHexReads | src/lib.rs:31-33 | `u8_from_hex` gives the value `from_str_radix` reads, and its range check rejects nothing of at most two digits |
| IntelHex.U16FromHexReads | src/lib.rs:35-37 | `u16_from_hex` gives the value `from_str_radix` reads, and its range check rejects nothing of at most four digits |
| IntelHex.U8FromHexOfTwo | src/lib.rs:31-33 | two characters parse as a byte exactly when the second is a hex digit and the first is a hex digit or `+`; the value is the big-endian digit pair, or the single digit after `+` |
| IntelHex.U16FromHexOfFour | src/lib.rs:35-37 | four characters parse as a `u16` exactly when the last three are hex digits and the first is a hex digit or `+`; the value is big-endian, and after `+` it is 256 times the first digit plus the last pair |
| IntelHex.ParseU8 | src/lib.rs:68-77 | succeeds exactly when at least 2 characters remain and they parse; consumes exactly those 2 and returns the rest with their value; otherwise `TooSmall` when short and `ParseIntError` when malformed |
| IntelHex.ParseU16 | src/lib.rs:79-88 | the same for 4 characters and a 16-bit value |
| IntelHex.TrailingZerosAtLeast | src/lib.rs:49 | a value has at least k trailing zero bits exactly when it is a multiple of 2^k, so `trailing_zeros() >= 8` is divisibility by 256, sum 0 included |
| IntelHex.TrailingZerosCounts | src/lib.rs:49 | `trailing_zeros` of a value is n when the value is a multiple of 2^n and, unless all bits are zero, not of 2^(n+1) |
| IntelHex.FoldSum | src/lib.rs:44-47 | the fold over the data adds between 0 and 255 per byte to its start value |
| IntelHex.FoldSumAppend | src/lib.rs:44-47 | folding over a concatenation folds the second part from where the first part ended |
| IntelHex.ChecksumSumBounds | src/lib.rs:40-48 | the sum of a record's bytes is at least its checksum and at most 255 per byte |
| IntelHex.Sum32LowByte | src/lib.rs:40-48 | the `u32` sum keeps the low byte of the true sum, and the whole sum below 2^32 |
| IntelHex.ChecksumSumFitsU32 | src/lib.rs:40-48 | with at most 255 data bytes the byte sum is at most 255 times (5 + data length), so the `u32` sum never wraps |
| IntelHex.VerifyChecksum | src/lib.rs:39-50 | true exactly when length, both offset bytes, type, every data byte and checksum sum to a multiple of 256 |
| IntelHex.ParseRecord | src/lib.rs:90-139 | `TooSmall` exactly for lines shorter than 11; never `ParseIntError`; a decoded record is well formed and its line has exactly 11 + 2·length characters |
| IntelHex.ParseBody | src/lib.rs:112-138 | only the errors of the later checks can come out; `InvalidLength` exactly when 2·length exceeds the characters left minus 2; a success keeps the header fields, has `length` data bytes, consumed the whole line and passes the checksum |
| Layout.ParseRecordIsPositional | src/lib.rs:90-139 | the decoder equals the same checks read at absolute positions of the line, in the source's order |
| Layout.BodyIsPositional | src/lib.rs:112-138 | the part after the type check equals its positional form |
| Layout.MissingTagExactly | src/lib.rs:95-97 | `MissingTag` exactly for lines of at least 11 characters not starting with `:` |
| Layout.LengthFormatError | src/lib.rs:100-101 | behind a `:`, `InvalidLengthFormat` exactly when characters 1-2 do not parse |
| Layout.OffsetFormatError | src/lib.rs:103-104 | behind a valid length, `InvalidLoadOffsetFormat` exactly when characters 3-6 do not parse |
| Layout.TypeFormatError | src/lib.rs:106-107 | behind a valid length and offset, `InvalidTypeFormat` exactly when characters 7-8 do not parse |
| Layout.TypeRangeError | src/lib.rs:108-110 | behind a valid length and offset, `InvalidType` exactly when the type parses to a value above 5 |
| Layout.InvalidLengthExactly | src/lib.rs:112-115 | `InvalidLength` exactly for a valid header whose declared data needs more than the characters after the header minus 2 |
| Layout.ChecksumFormatBeforeData | src/lib.rs:119-126 | with room for the data, a malformed checksum field gives `InvalidChecksumFormat` whatever the data holds, and a bad data field gives `InvalidDataFormat` only behind a valid checksum field |
| Layout.TooLargeExactly | src/lib.rs:130-132 | `TooLarge` exactly when a valid header, data and checksum field are followed by more characters |
| Layout.DecodedFields | src/lib.rs:90-139 | a line decodes to a record exactly when each field is the hex value of its slice, the line has no more characters, and the record is well formed |
| Layout.BodyFields | src/lib.rs:117-138 | the same for the positional part after the header |
| Layout.ChecksumDecides | src/lib.rs:134-138 | once every field reads correctly, the checksum alone decides between the record and `InvalidChecksum` |
| Layout.BodyChecksumDecides | src/lib.rs:134-138 | the same for the positional part after the header |
| Layout.FieldsMatchHeader | src/lib.rs:100-110 | a line whose fields read as a record with type at most 5 has a valid header declaring that record's length |
| Layout.HeaderTransfer | src/lib.rs:100-110 | the header's outcome depends only on the first 9 characters |
| Layout.ExtendedLineTooLarge | src/lib.rs:130-132 | appending characters to a line whose fields read correctly gives `TooLarge`, whatever its checksum |
| Layout.TruncatedLineInvalidLength | src/lib.rs:112-115 | cutting such a line to between 11 characters and its full length gives `InvalidLength` |
| Layout.SignReadsAsZero | src/lib.rs:31-33 | a `+` in place of a leading `0` in a two-character field reads the same byte |
| Layout.SignedLengthLine | src/lib.rs:100-101 | a record line with a length below 16 still decodes to the same record when the length's leading `0` becomes `+` |
| Layout.FromHexPairsRejectsSign | src/lib.rs:126 | `hex::FromHex` refuses text starting with `+` |
| Layout.SignedDataLine | src/lib.rs:117-126 | a `+` as the first data character gives `InvalidDataFormat` |
| Encoding.EncodeRecord | src/lib.rs:90-139 | the inverse of `parse_record`, which the source does not have: it writes 11 + 2·(data length) ASCII characters, and `DecodeEncoded` shows the decoder reads them back |
| Encoding.U8FromHexOfByteText | src/lib.rs:31-33 | `u8_from_hex` reads back every byte the encoder writes |
| Encoding.U16FromHexOfWordText | src/lib.rs:35-37 | `u16_from_hex` reads back every word the encoder writes, big-endian |
| Hex.FromHexPairsOfBytesText | src/lib.rs:126 | `hex::FromHex` reads back every byte sequence the encoder writes |
| Encoding.EncodedLayout | src/lib.rs:98-120 | an encoded line has `:` and then the length, offset, type, data and checksum texts at the positions the decoder reads |
| Encoding.EncodedFieldsMatch | src/lib.rs:98-128 | every field of an encoded record reads back as that record's field |
| Encoding.DecodeEncoded | src/lib.rs:90-139 | decoding the encoding of a well-formed record gives that record |
| Encoding.WithChecksum | src/lib.rs:39-50 | the checksum (256 - sum mod 256) mod 256 makes any header and data pass `verify_checksum`, leaving the other fields as given |
| Encoding.ChecksumUnique | src/lib.rs:39-50 | at most one checksum byte passes for given header and data |
| Encoding.CompletedRecordDecodes | src/lib.rs:90-139 | a record completed with that checksum round-trips through the encoder and decoder |
| Encoding.CorruptedChecksumRejected | src/lib.rs:134-136 | replacing a well-formed record's checksum by any other byte gives `InvalidChecksum` |
| Encoding.TrailingTextTooLarge | src/lib.rs:130-132 | any ASCII text after an encoded record gives `TooLarge` |
| Encoding.TruncatedRecordInvalidLength | src/lib.rs:112-115 | an encoded record cut to at least 11 characters but short of its length gives `InvalidLength` |
| Encoding.SignedLengthField | src/lib.rs:100-101 | with a length below 16, writing `+` for the length's leading `0` decodes to the same record |
| Encoding.SignedDataRejected | src/lib.rs:117-126 | writing `+` over the first data character of a record with data gives `InvalidDataFormat` |
| Encoding.EndOfFileText | src/lib.rs:20-28 | the End-of-File record is written `:00000001FF` |
| Encoding.EndOfFileDecodes | src/lib.rs:20-28 | `:00000001FF` decodes to the End-of-File record |
| Encoding.EndOfFileLowerCase | src/lib.rs:31-33 | lower-case `:00000001ff` decodes to it too |
| TestVectors.EmptyLine | tests/tests_parsing.rs:11-13 | the empty line gives `TooSmall` |
| TestVectors.UntaggedLine | tests/tests_parsing.rs:15-17 | `00000000000` gives `MissingTag` |
| TestVectors.BadLengthDigits | tests/tests_parsing.rs:19-21 | `:xy00000000` gives `InvalidLengthFormat` |
| TestVectors.LengthBeyondLine | tests/tests_parsing.rs:23-25 | `:ff00000000` gives `InvalidLength` |
| TestVectors.BadOffsetDigits | tests/tests_parsing.rs:27-29 | `:00wxyz0000` gives `InvalidLoadOffsetFormat` |
| TestVectors.BadTypeDigits | tests/tests_parsing.rs:31-33 | `:0000000x00` gives `InvalidTypeFormat` |
| TestVectors.TypeOutOfRange | tests/tests_parsing.rs:35-37 | `:0000000f00` gives `InvalidType` |
| TestVectors.BadChecksumDigits | tests/tests_parsing.rs:39-41 | `:00000000xx` gives `InvalidChecksumFormat` |
| TestVectors.WrongChecksum | tests/tests_parsing.rs:43-45 | `:00000000ff` gives `InvalidChecksum` |
| TestVectors.TrailingCharacters | tests/tests_parsing.rs:47-49 | `:0000000000aa` gives `TooLarge` |
| TestVectors.BadRecordText | tests/tests_parsing.rs:142-159 | the line `bad record` that the file test writes gives `TooSmall`, the error `from_file` wraps |
| TestVectors.ValidRecord | tests/tests_parsing.rs:53-66 | `:10010000214601360121470136007EFE09D2190140` decodes to length 0x10, offset 0x100, type 0, checksum 0x40 and the sixteen data bytes of the test |
| TestVectors.SampleWellFormed | tests/tests_record.rs:49-59 | that record's bytes sum to 1024, so its checksum passes |
| TestVectors.SampleEncoded | tests/tests_record.rs:50 | the encoder writes exactly that test line for that record |

## Left out

- src/main.rs is not part of this model. It holds the command-line parsing, printing and JSON rendering, which are I/O.
- `Record::from_file` and `FileParsingError` are not part of this model. Their source is not among the files modelled, and what their test exercises is the filesystem: directories, permissions and temporary files. Only the one line that test feeds the decoder is worked out (`TestVectors.BadRecordText`).
- The serde `Serialize` and `Deserialize` derives on `Record` are left out. They come from a foreign library.
- Input is restricted to ASCII text (the `Ascii` subset type). Rust measures `input.len()` in bytes and panics when slicing inside a multi-byte character; for ASCII, bytes and characters coincide.
- `from_str_radix` and `hex::FromHex` are modelled by their acceptance rule and value only. The error kind inside `ParseIntError` is left out: every caller replaces it with its own error.
- Sum32: the source adds in `u32`, which panics on overflow in debug builds and wraps in release builds. The model wraps (`% 2^32`), and `ChecksumSumFitsU32` shows that no wrap can happen for a record's at most 255 data bytes.
