/**
 * The decoder's examples from the repository's tests, worked out on the
 * model: one line for each error the decoder can return, and the valid
 * sixteen-byte data record.
 */
module TestVectors {
  import opened Results
  import opened Hex
  import opened IntelHex
  import opened Layout
  import opened Encoding

  /** The two- and four-character fields the examples use, read as `from_str_radix` reads them. */
  lemma MalformedFieldValues()
    ensures U8FromHex("xy").None? && U8FromHex("0x").None? && U8FromHex("xx").None?
    ensures U16FromHex("wxyz").None?
  {
    U8FromHexOfTwo("xy");
    U8FromHexOfTwo("0x");
    U8FromHexOfTwo("xx");
    U16FromHexOfFour("wxyz");
  }

  /** A line that starts `:00000000` has a valid header declaring no data. */
  lemma ZeroHeader(line: string, rest: string)
    requires |rest| >= 2 && line == ":" + "00" + "0000" + "00" + rest
    ensures |line| == 9 + |rest| && line[9..] == rest
    ensures HeaderValid(line) && DeclaredLength(line) == 0
    ensures U8FromHex(line[1..3]) == Some(0) && U16FromHex(line[3..7]) == Some(0) && U8FromHex(line[7..9]) == Some(0)
  {
    ZeroRecordFieldValues();
    HeaderPieces(line, "00", "0000", "00", rest);
  }

  lemma EmptyLine()
    ensures ParseRecord("") == Err(TooSmall)
  {
  }

  lemma UntaggedLine(line: Ascii)
    requires line == "00000000000"
    ensures ParseRecord(line) == Err(MissingTag)
  {
    MissingTagExactly(line);
  }

  lemma BadLengthDigits(line: Ascii)
    requires line == ":xy00000000"
    ensures ParseRecord(line) == Err(InvalidLengthFormat)
  {
    MalformedFieldValues();
    HeaderPieces(line, "xy", "0000", "00", "00");
    LengthFormatError(line);
  }

  lemma LengthBeyondLine(line: Ascii)
    requires line == ":ff00000000"
    ensures ParseRecord(line) == Err(InvalidLength)
  {
    LengthBeyondLineFields(line);
    InvalidLengthExactly(line);
  }

  lemma LengthBeyondLineFields(line: string)
    requires line == ":ff00000000"
    ensures HeaderValid(line) && DeclaredLength(line) == 0xFF
  {
    ZeroRecordFieldValues();
    HeaderPieces(line, "ff", "0000", "00", "00");
  }

  lemma BadOffsetDigits(line: Ascii)
    requires line == ":00wxyz0000"
    ensures ParseRecord(line) == Err(InvalidLoadOffsetFormat)
  {
    BadOffsetDigitsFields(line);
    OffsetFormatError(line);
  }

  lemma BadOffsetDigitsFields(line: string)
    requires line == ":00wxyz0000"
    ensures U8FromHex(line[1..3]).Some? && U16FromHex(line[3..7]).None?
  {
    ZeroRecordFieldValues();
    MalformedFieldValues();
    HeaderPieces(line, "00", "wxyz", "00", "00");
  }

  lemma BadTypeDigits(line: Ascii)
    requires line == ":0000000x00"
    ensures ParseRecord(line) == Err(InvalidTypeFormat)
  {
    BadTypeDigitsFields(line);
    TypeFormatError(line);
  }

  lemma BadTypeDigitsFields(line: string)
    requires line == ":0000000x00"
    ensures U8FromHex(line[1..3]).Some? && U16FromHex(line[3..7]).Some? && U8FromHex(line[7..9]).None?
  {
    ZeroRecordFieldValues();
    MalformedFieldValues();
    HeaderPieces(line, "00", "0000", "0x", "00");
  }

  lemma TypeOutOfRange(line: Ascii)
    requires line == ":0000000f00"
    ensures ParseRecord(line) == Err(InvalidType)
  {
    TypeOutOfRangeFields(line);
    TypeRangeError(line);
  }

  lemma TypeOutOfRangeFields(line: string)
    requires line == ":0000000f00"
    ensures U8FromHex(line[1..3]).Some? && U16FromHex(line[3..7]).Some?
    ensures U8FromHex(line[7..9]) == Some(15)
  {
    ZeroRecordFieldValues();
    HeaderPieces(line, "00", "0000", "0f", "00");
  }

  lemma BadChecksumDigits(line: Ascii)
    requires line == ":00000000xx"
    ensures ParseRecord(line) == Err(InvalidChecksumFormat)
  {
    BadChecksumDigitsFields(line);
    ChecksumFormatBeforeData(line);
  }

  lemma BadChecksumDigitsFields(line: string)
    requires line == ":00000000xx"
    ensures HeaderValid(line) && DeclaredLength(line) == 0 && |line| == 11
    ensures U8FromHex(line[9..11]).None?
  {
    ZeroHeader(line, "xx");
    MalformedFieldValues();
  }

  lemma WrongChecksum(line: Ascii)
    requires line == ":00000000ff"
    ensures ParseRecord(line) == Err(InvalidChecksum)
  {
    var r := Record(0, 0, 0, [], 0xFF);
    WrongChecksumFields(line, r);
    ChecksumDecides(line, r);
  }

  lemma WrongChecksumFields(line: string, r: Record)
    requires line == ":00000000ff" && r == Record(0, 0, 0, [], 0xFF)
    ensures FieldsMatch(line, r) && !VerifyChecksum(r)
  {
    EmptyRecordSum(r);
    ZeroHeader(line, "ff");
    assert line[9..11] == line[9..] && line[9..9] == [];
    ZeroRecordFieldValues();
  }

  /** A record with no data and zero header fields passes only with checksum 0. */
  lemma EmptyRecordSum(r: Record)
    requires r.length == 0 && r.loadOffset == 0 && r.recordType == 0 && r.data == []
    ensures VerifyChecksum(r) <==> r.checksum == 0
  {
    assert ChecksumSum(r) == r.checksum;
  }

  lemma TrailingCharacters(line: Ascii)
    requires line == ":0000000000aa"
    ensures ParseRecord(line) == Err(TooLarge)
  {
    TrailingCharactersFields(line);
    TooLargeExactly(line);
  }

  lemma TrailingCharactersFields(line: string)
    requires line == ":0000000000aa"
    ensures HeaderValid(line) && DeclaredLength(line) == 0 && |line| == 13
    ensures U8FromHex(line[9..11]).Some? && FromHexPairs(line[9..9]).Some?
  {
    ZeroHeader(line, "00" + "aa");
    assert line[9..11] == line[9..][..2] && ("00" + "aa")[..2] == "00";
    assert line[9..9] == [];
    ZeroRecordFieldValues();
  }

  /** The line `from_file` reads in the repository's file test is too short to be a record. */
  lemma BadRecordText(line: Ascii)
    requires line == "bad record"
    ensures ParseRecord(line) == Err(TooSmall)
  {
    assert |line| == 10;
  }

  /*
   * The valid example: a sixteen-byte data record at load offset 0x100.
   * Its line is the encoding of the record, and the record is well formed, so
   * the round trip of `Encoding.DecodeEncoded` gives the decoded fields.
   */

  const SampleData: seq<u8> := [33, 70, 1, 54, 1, 33, 71, 1, 54, 0, 126, 254, 9, 210, 25, 1]

  const Sample: Record := Record(0x10, 0x100, 0, SampleData, 0x40)

  lemma ValidRecord(line: Ascii)
    requires line == ":10010000214601360121470136007EFE09D2190140"
    ensures ParseRecord(line) == Ok(Record(0x10, 0x100, 0, [33, 70, 1, 54, 1, 33, 71, 1, 54, 0, 126, 254, 9, 210, 25, 1], 0x40))
  {
    SampleWellFormed();
    SampleEncoded();
    DecodeEncoded(Sample);
  }

  /** The bytes sum to 1024 with the checksum 0x40, a multiple of 256. */
  lemma SampleWellFormed()
    ensures WellFormed(Sample)
  {
    SampleSum();
    SampleChecksum(Sample);
  }

  lemma SampleChecksum(r: Record)
    requires r.length == 0x10 && r.loadOffset == 0x100 && r.recordType == 0 && r.checksum == 0x40
    requires |r.data| == 16 && FoldSum(0, r.data) == 943
    ensures WellFormed(r)
  {
    assert ChecksumSum(r) == 1024;
  }

  lemma SampleSum()
    ensures FoldSum(0, SampleData) == 943
  {
    SampleChunks();
    FoldSumAppend(0, [33, 70, 1, 54] + [1, 33, 71, 1], [54, 0, 126, 254] + [9, 210, 25, 1]);
    FirstHalfSum();
    SecondHalfSum();
  }

  lemma SampleChunks()
    ensures SampleData == ([33, 70, 1, 54] + [1, 33, 71, 1]) + ([54, 0, 126, 254] + [9, 210, 25, 1])
  {
  }

  lemma FirstHalfSum()
    ensures FoldSum(0, [33, 70, 1, 54] + [1, 33, 71, 1]) == 264
  {
    FoldSumAppend(0, [33, 70, 1, 54], [1, 33, 71, 1]);
    FoldSumOfFour(0, 33, 70, 1, 54);
    FoldSumOfFour(158, 1, 33, 71, 1);
  }

  lemma SecondHalfSum()
    ensures FoldSum(264, [54, 0, 126, 254] + [9, 210, 25, 1]) == 943
  {
    FoldSumAppend(264, [54, 0, 126, 254], [9, 210, 25, 1]);
    FoldSumOfFour(264, 54, 0, 126, 254);
    FoldSumOfFour(698, 9, 210, 25, 1);
  }

  lemma FoldSumOfFour(acc: nat, a: u8, b: u8, c: u8, d: u8)
    ensures FoldSum(acc, [a, b, c, d]) == acc + a + b + c + d
  {
    assert [a, b, c, d][1..] == [b, c, d];
    assert [b, c, d][1..] == [c, d];
    assert [c, d][1..] == [d];
    assert [d][1..] == [];
    assert FoldSum(acc + a + b, [c, d]) == acc + a + b + c + d;
  }

  /** The encoder writes exactly the example's line, built up four bytes at a time. */
  lemma SampleEncoded()
    ensures EncodeRecord(Sample) == ":10010000214601360121470136007EFE09D2190140"
  {
    SampleText();
    SampleFieldTexts();
    SampleAssembly(BytesText(SampleData));
  }

  lemma SampleFieldTexts()
    ensures ByteText(0x10) == "10" && WordText(0x100) == "0100" && ByteText(0) == "00" && ByteText(0x40) == "40"
  {
    assert ByteText(0x10) == "10";
    assert ByteText(0) == "00";
    assert ByteText(0x40) == "40";
  }

  lemma SampleAssembly(t: string)
    requires t == "214601360121470136007EFE09D21901"
    ensures ":" + "10" + "0100" + "00" + t + "40" == ":10010000214601360121470136007EFE09D2190140"
  {
    SampleHeader(":" + "10" + "0100" + "00", t);
  }

  lemma SampleHeader(h: string, t: string)
    requires h == ":" + "10" + "0100" + "00" && t == "214601360121470136007EFE09D21901"
    ensures h + t + "40" == ":10010000214601360121470136007EFE09D2190140"
  {
    assert h == ":10010000";
  }

  lemma SampleText()
    ensures BytesText(SampleData) == "214601360121470136007EFE09D21901"
  {
    SampleChunks();
    BytesTextAppend([33, 70, 1, 54] + [1, 33, 71, 1], [54, 0, 126, 254] + [9, 210, 25, 1]);
    FirstHalfText();
    SecondHalfText();
    JoinHalves("2146013601214701", "36007EFE09D21901");
  }

  lemma JoinHalves(a: string, b: string)
    requires a == "2146013601214701" && b == "36007EFE09D21901"
    ensures a + b == "214601360121470136007EFE09D21901"
  {
  }

  lemma FirstHalfText()
    ensures BytesText([33, 70, 1, 54] + [1, 33, 71, 1]) == "2146013601214701"
  {
    BytesTextAppend([33, 70, 1, 54], [1, 33, 71, 1]);
    ChunkText1();
    ChunkText2();
    assert "21460136" + "01214701" == "2146013601214701";
  }

  lemma SecondHalfText()
    ensures BytesText([54, 0, 126, 254] + [9, 210, 25, 1]) == "36007EFE09D21901"
  {
    BytesTextAppend([54, 0, 126, 254], [9, 210, 25, 1]);
    ChunkText3();
    ChunkText4();
    assert "36007EFE" + "09D21901" == "36007EFE09D21901";
  }

  lemma ChunkText1()
    ensures BytesText([33, 70, 1, 54]) == "21460136"
  {
    BytesTextOfFour(33, 70, 1, 54);
    assert ByteText(33) == "21" && ByteText(70) == "46" && ByteText(1) == "01" && ByteText(54) == "36";
  }

  lemma ChunkText2()
    ensures BytesText([1, 33, 71, 1]) == "01214701"
  {
    BytesTextOfFour(1, 33, 71, 1);
    assert ByteText(1) == "01" && ByteText(33) == "21" && ByteText(71) == "47";
  }

  lemma ChunkText3()
    ensures BytesText([54, 0, 126, 254]) == "36007EFE"
  {
    BytesTextOfFour(54, 0, 126, 254);
    assert ByteText(54) == "36" && ByteText(0) == "00" && ByteText(126) == "7E" && ByteText(254) == "FE";
  }

  lemma ChunkText4()
    ensures BytesText([9, 210, 25, 1]) == "09D21901"
  {
    BytesTextOfFour(9, 210, 25, 1);
    assert ByteText(9) == "09" && ByteText(210) == "D2" && ByteText(25) == "19" && ByteText(1) == "01";
  }

  lemma BytesTextOfFour(a: u8, b: u8, c: u8, d: u8)
    ensures BytesText([a, b, c, d]) == ByteText(a) + ByteText(b) + ByteText(c) + ByteText(d)
  {
    assert [a, b, c, d][1..] == [b, c, d];
    assert [b, c, d][1..] == [c, d];
    assert [c, d][1..] == [d];
    assert [d][1..] == [];
    assert BytesText([c, d]) == ByteText(c) + ByteText(d);
  }
}
