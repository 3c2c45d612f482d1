/**
 * The canonical text of a record (upper-case hex, no `+`), the round trip
 * through the decoder, what the decoder makes of lines derived from a valid
 * one (truncated, extended, corrupted, signed), the checksum the format
 * prescribes, and the decoder's examples worked out.
 */
module Encoding {
  import opened Results
  import opened Hex
  import opened IntelHex
  import opened Layout

  /** `:`, then length, load offset (big-endian), type, data and checksum as upper-case hex. */
  function EncodeRecord(r: Record): (line: Ascii)
    ensures |line| == 11 + 2 * |r.data|
  {
    var s := ":" + ByteText(r.length) + WordText(r.loadOffset) + ByteText(r.recordType)
             + BytesText(r.data) + ByteText(r.checksum);
    assert IsAsciiText(s) by {
      BytesTextDigits(r.data);
      forall i | 0 <= i < |s| ensures s[i] < 128 as char {
        if i == 0 {
        } else if i < 3 {
          assert s[i] == ByteText(r.length)[i - 1];
        } else if i < 7 {
          assert s[i] == WordText(r.loadOffset)[i - 3];
        } else if i < 9 {
          assert s[i] == ByteText(r.recordType)[i - 7];
        } else if i < 9 + 2 * |r.data| {
          assert s[i] == BytesText(r.data)[i - 9];
        } else {
          assert s[i] == ByteText(r.checksum)[i - 9 - 2 * |r.data|];
        }
      }
    }
    s
  }

  lemma U8FromHexOfByteText(b: u8)
    ensures U8FromHex(ByteText(b)) == Some(b)
  {
    U8FromHexOfTwo(ByteText(b));
  }

  lemma U16FromHexOfWordText(w: u16)
    ensures U16FromHex(WordText(w)) == Some(w)
  {
    var s := WordText(w);
    U16FromHexOfFour(s);
    assert AllHexDigits(s[1..]);
  }

  /** Where each field's text sits in the canonical text. */
  lemma EncodedLayout(r: Record)
    requires |r.data| == r.length
    ensures var line := EncodeRecord(r);
      && |line| == 11 + 2 * r.length
      && line[0] == ':'
      && line[1..3] == ByteText(r.length)
      && line[3..7] == WordText(r.loadOffset)
      && line[7..9] == ByteText(r.recordType)
      && line[9..9 + 2 * r.length] == BytesText(r.data)
      && line[9 + 2 * r.length..11 + 2 * r.length] == ByteText(r.checksum)
  {
  }

  /** The canonical text of a record whose length field counts its data has every field in place. */
  lemma EncodedFieldsMatch(r: Record)
    requires |r.data| == r.length
    ensures FieldsMatch(EncodeRecord(r), r)
  {
    EncodedLayout(r);
    U8FromHexOfByteText(r.length);
    U16FromHexOfWordText(r.loadOffset);
    U8FromHexOfByteText(r.recordType);
    FromHexPairsOfBytesText(r.data);
    U8FromHexOfByteText(r.checksum);
  }

  /** Every well-formed record is decoded back from its canonical text. */
  lemma DecodeEncoded(r: Record)
    requires WellFormed(r)
    ensures ParseRecord(EncodeRecord(r)) == Ok(r)
  {
    EncodedFieldsMatch(r);
    DecodedFields(EncodeRecord(r), r);
  }

  /** The sum of every byte except the checksum. */
  function SumWithoutChecksum(length: u8, loadOffset: u16, recordType: u8, data: seq<u8>): nat {
    ChecksumSum(Record(length, loadOffset, recordType, data, 0))
  }

  /**
   * The record with the checksum the format prescribes: the two's complement
   * of the low byte of the sum of all other bytes.
   */
  function WithChecksum(length: u8, loadOffset: u16, recordType: u8, data: seq<u8>): (r: Record)
    ensures VerifyChecksum(r)
    ensures r.length == length && r.loadOffset == loadOffset && r.recordType == recordType && r.data == data
  {
    var s := SumWithoutChecksum(length, loadOffset, recordType, data);
    var c := (0x100 - s % 256) % 256;
    assert ChecksumSum(Record(length, loadOffset, recordType, data, c)) == s + c;
    ComplementCompletes(s);
    Record(length, loadOffset, recordType, data, c)
  }

  /** Adding the two's complement of its low byte makes a sum a multiple of 256. */
  lemma ComplementCompletes(s: nat)
    ensures (s + (0x100 - s % 256) % 256) % 256 == 0
  {
    var q, m := s / 256, s % 256;
    if m != 0 {
      assert (0x100 - m) % 256 == 256 - m;
      assert s + (256 - m) == (q + 1) * 256;
      ModUnique(s + (256 - m), 256, q + 1, 0);
    }
  }

  /** Given the other fields, exactly one checksum byte satisfies the checksum law. */
  lemma ChecksumUnique(r: Record, c: u8)
    requires VerifyChecksum(r) && VerifyChecksum(r.(checksum := c))
    ensures c == r.checksum
  {
    var total := ChecksumSum(r);
    var other := ChecksumSum(r.(checksum := c));
    assert other == total - r.checksum + c;
    var k, m := total / 256, other / 256;
    assert total == 256 * k && other == 256 * m;
    var d := m - k;
    assert c - r.checksum == 256 * d;
    assert -256 < 256 * d < 256;
    assert d == 0;
  }

  /** A record completed with its prescribed checksum decodes from its canonical text. */
  lemma CompletedRecordDecodes(length: u8, loadOffset: u16, recordType: u8, data: seq<u8>)
    requires |data| == length && recordType <= 5
    ensures var r := WithChecksum(length, loadOffset, recordType, data);
      ParseRecord(EncodeRecord(r)) == Ok(r)
  {
    DecodeEncoded(WithChecksum(length, loadOffset, recordType, data));
  }

  /** Any other checksum byte in a well-formed record's text is `InvalidChecksum`. */
  lemma CorruptedChecksumRejected(r: Record, c: u8)
    requires WellFormed(r) && c != r.checksum
    ensures ParseRecord(EncodeRecord(r.(checksum := c))) == Err(InvalidChecksum)
  {
    var bad := r.(checksum := c);
    if VerifyChecksum(bad) {
      ChecksumUnique(r, c);
    }
    EncodedFieldsMatch(bad);
    ChecksumDecides(EncodeRecord(bad), bad);
  }

  /** Text after a complete record is `TooLarge`, whatever its checksum. */
  lemma TrailingTextTooLarge(r: Record, extra: Ascii)
    requires |r.data| == r.length && r.recordType <= 5 && |extra| > 0
    ensures var line := EncodeRecord(r) + extra;
      IsAsciiText(line) && ParseRecord(line) == Err(TooLarge)
  {
    var good := EncodeRecord(r);
    var line := good + extra;
    AsciiConcat(good, extra);
    EncodedFieldsMatch(r);
    ExtendedLineTooLarge(good, r, line);
  }

  /** Cutting a record's text anywhere after the eleventh character leaves too little for its data: `InvalidLength`. */
  lemma TruncatedRecordInvalidLength(r: Record, k: nat)
    requires |r.data| == r.length && r.recordType <= 5
    requires 11 <= k < 11 + 2 * r.length
    ensures ParseRecord(EncodeRecord(r)[..k]) == Err(InvalidLength)
  {
    EncodedFieldsMatch(r);
    TruncatedLineInvalidLength(EncodeRecord(r), r, k);
  }

  /**
   * The length field follows `from_str_radix`: a `+` in place of a leading
   * `0` reads the same, so `:+` followed by the rest of a short record's
   * text decodes to the same record.
   */
  lemma SignedLengthField(r: Record)
    requires WellFormed(r) && r.length < 16
    ensures var good := EncodeRecord(r);
      ParseRecord(":+" + good[2..]) == Ok(r)
  {
    var good := EncodeRecord(r);
    SignedLengthText(r);
    var line: Ascii := ":+" + good[2..];
    SignedLengthLine(good, r, line);
  }

  lemma SignedLengthText(r: Record)
    requires |r.data| == r.length && r.length < 16
    ensures var good := EncodeRecord(r);
      && FieldsMatch(good, r) && good[1] == '0'
      && IsAsciiText(":+" + good[2..]) && (":+" + good[2..])[2..] == good[2..]
  {
    var good := EncodeRecord(r);
    EncodedFieldsMatch(r);
    EncodedLayout(r);
    assert good[1] == good[1..3][0];
    SplicePrefix(":+", good, 2);
  }

  /** The data follows the `hex` crate, which takes no sign: a `+` in the data is `InvalidDataFormat`. */
  lemma SignedDataRejected(r: Record)
    requires |r.data| == r.length && r.recordType <= 5 && r.length > 0
    ensures var good := EncodeRecord(r);
      ParseRecord(good[..9] + "+" + good[10..]) == Err(InvalidDataFormat)
  {
    var good := EncodeRecord(r);
    SignedDataText(r);
    var line: Ascii := good[..9] + "+" + good[10..];
    SignedDataLine(good, r, line);
  }

  lemma SignedDataText(r: Record)
    requires |r.data| == r.length && r.length > 0
    ensures var good := EncodeRecord(r);
      var line := good[..9] + "+" + good[10..];
      && FieldsMatch(good, r) && IsAsciiText(line)
      && |line| == |good| && line[..9] == good[..9] && line[9] == '+' && line[10..] == good[10..]
  {
    EncodedFieldsMatch(r);
    SpliceChar(EncodeRecord(r), 9, '+');
  }

  /** The End-of-File record's canonical text is `:00000001FF`. */
  lemma EndOfFileText()
    ensures EncodeRecord(EndOfFile()) == ":00000001FF"
  {
    var r := EndOfFile();
    assert r == Record(0, 0, 1, [], 0xFF);
    EndOfFileFieldTexts();
    assert BytesText(r.data) == [];
    EndOfFileJoin(ByteText(0), WordText(0), ByteText(1), BytesText(r.data), ByteText(0xFF));
  }

  lemma EndOfFileJoin(length: string, offset: string, recordType: string, data: string, checksum: string)
    requires length == "00" && offset == "0000" && recordType == "01" && data == [] && checksum == "FF"
    ensures ":" + length + offset + recordType + data + checksum == ":00000001FF"
  {
  }

  lemma EndOfFileFieldTexts()
    ensures ByteText(0) == "00" && ByteText(1) == "01" && ByteText(0xFF) == "FF" && WordText(0) == "0000"
  {
    assert ByteText(0) == "00";
    assert ByteText(1) == "01";
    assert ByteText(0xFF) == "FF";
  }

  /** `:00000001FF` decodes to the End-of-File record. */
  lemma EndOfFileDecodes()
    ensures ParseRecord(":00000001FF") == Ok(EndOfFile())
  {
    EndOfFileText();
    DecodeEncoded(EndOfFile());
  }

  /** So does `:00000001ff`: hex digits are read in either case. */
  lemma EndOfFileLowerCase(line: Ascii)
    requires line == ":00000001ff"
    ensures ParseRecord(line) == Ok(EndOfFile())
  {
    EndOfFileLowerCaseFields(line);
    DecodedFields(line, EndOfFile());
  }

  lemma EndOfFileLowerCaseFields(line: string)
    requires line == ":00000001ff"
    ensures FieldsMatch(line, EndOfFile())
  {
    ZeroRecordFieldValues();
    HeaderPieces(line, "00", "0000", "01", "ff");
    assert line[9..11] == line[9..] && line[9..9] == [];
  }

  /** The field texts of empty records, in lower case where it differs, read as the decoder reads them. */
  lemma ZeroRecordFieldValues()
    ensures U8FromHex("00") == Some(0) && U16FromHex("0000") == Some(0)
    ensures U8FromHex("01") == Some(1) && U8FromHex("0f") == Some(15) && U8FromHex("ff") == Some(0xFF)
    ensures FromHexPairs([]) == Some([])
  {
    U8FromHexOfTwo("00");
    U16FromHexOfFour("0000");
    U8FromHexOfTwo("01");
    U8FromHexOfTwo("0f");
    U8FromHexOfTwo("ff");
  }
}
