/**
 * The decoder's checks restated on fixed positions of the line: the length
 * field is characters 1..3, the load offset 3..7, the type 7..9, the data
 * 9..9+2n and the checksum the two characters after it, where n is the
 * declared length. `PositionalDecode` lists the checks in the decoder's
 * order; `ParseRecordIsPositional` shows that cursor-threading `ParseRecord`
 * computes exactly it, and the lemmas after it read off the error taxonomy.
 */
module Layout {
  import opened Results
  import opened Hex
  import opened IntelHex

  /**
   * The line has at least the eleven characters of an empty record, and its
   * first nine carry `:`, valid length, offset and type fields, with a type
   * of at most 5.
   */
  predicate HeaderValid(line: string) {
    && |line| >= 11
    && line[0] == ':'
    && U8FromHex(line[1..3]).Some?
    && U16FromHex(line[3..7]).Some?
    && U8FromHex(line[7..9]).Some?
    && U8FromHex(line[7..9]).value <= 5
  }

  /** The data length the header declares. */
  function DeclaredLength(line: string): (n: nat)
    requires HeaderValid(line)
    ensures n <= 255
  {
    U8FromHex(line[1..3]).value
  }

  /** Every check of the decoder, on absolute positions, in the decoder's order. */
  function PositionalDecode(line: Ascii): Result<Record, RecordParsingError> {
    if |line| < 11 then Err(TooSmall)
    else if line[0] != ':' then Err(MissingTag)
    else if U8FromHex(line[1..3]).None? then Err(InvalidLengthFormat)
    else if U16FromHex(line[3..7]).None? then Err(InvalidLoadOffsetFormat)
    else if U8FromHex(line[7..9]).None? then Err(InvalidTypeFormat)
    else if U8FromHex(line[7..9]).value > 5 then Err(InvalidType)
    else PositionalBody(line)
  }

  /** The checks after the header, on absolute positions. */
  function PositionalBody(line: Ascii): Result<Record, RecordParsingError>
    requires HeaderValid(line)
  {
    var n := DeclaredLength(line);
    if 11 + 2 * n > |line| then Err(InvalidLength)
    else if U8FromHex(line[9 + 2 * n..11 + 2 * n]).None? then Err(InvalidChecksumFormat)
    else if FromHexPairs(line[9..9 + 2 * n]).None? then Err(InvalidDataFormat)
    else if |line| > 11 + 2 * n then Err(TooLarge)
    else
      var record := Record(n, U16FromHex(line[3..7]).value, U8FromHex(line[7..9]).value,
                           FromHexPairs(line[9..9 + 2 * n]).value, U8FromHex(line[9 + 2 * n..11 + 2 * n]).value);
      if !VerifyChecksum(record) then Err(InvalidChecksum) else Ok(record)
  }

  /** The decoder, which slices a shrinking remainder, agrees with the positional reading on every line. */
  lemma ParseRecordIsPositional(line: Ascii)
    ensures ParseRecord(line) == PositionalDecode(line)
  {
    if |line| >= 11 && line[0] == ':' {
      assert line[1..][..2] == line[1..3];
    }
    if |line| >= 11 && line[0] == ':' && U8FromHex(line[1..3]).Some? {
      var length := U8FromHex(line[1..3]).value;
      assert ParseU8(line[1..]) == Ok((line[3..], length));
      assert line[3..][..4] == line[3..7];
      if U16FromHex(line[3..7]).Some? {
        var loadOffset := U16FromHex(line[3..7]).value;
        assert ParseU16(line[3..]) == Ok((line[7..], loadOffset));
        assert line[7..][..2] == line[7..9];
        if U8FromHex(line[7..9]).Some? && U8FromHex(line[7..9]).value <= 5 {
          var recordType := U8FromHex(line[7..9]).value;
          assert ParseU8(line[7..]) == Ok((line[9..], recordType));
          BodyIsPositional(line);
        }
      }
    }
  }

  /** `ParseBody` on the text after the type field agrees with `PositionalBody`. */
  lemma BodyIsPositional(line: Ascii)
    requires HeaderValid(line)
    ensures ParseBody(DeclaredLength(line), U16FromHex(line[3..7]).value, U8FromHex(line[7..9]).value, line[9..])
         == PositionalBody(line)
  {
    var rest := line[9..];
    var n := DeclaredLength(line);
    if 2 * n <= |rest| - 2 {
      assert rest[..2 * n] == line[9..9 + 2 * n];
      assert rest[2 * n..] == line[9 + 2 * n..];
      assert line[9 + 2 * n..][..2] == line[9 + 2 * n..11 + 2 * n];
    }
  }

  /** A line of eleven or more characters not starting with `:` is `MissingTag`, and nothing else is. */
  lemma MissingTagExactly(line: Ascii)
    ensures ParseRecord(line) == Err(MissingTag) <==> |line| >= 11 && line[0] != ':'
  {
    ParseRecordIsPositional(line);
  }

  /** Behind the `:`, a length field that is not a number is `InvalidLengthFormat`, and only then. */
  lemma LengthFormatError(line: Ascii)
    requires |line| >= 11 && line[0] == ':'
    ensures ParseRecord(line) == Err(InvalidLengthFormat) <==> U8FromHex(line[1..3]).None?
  {
    ParseRecordIsPositional(line);
  }

  /** Behind a valid `:` and length, an offset field that is not a number is `InvalidLoadOffsetFormat`, and only then. */
  lemma OffsetFormatError(line: Ascii)
    requires |line| >= 11 && line[0] == ':' && U8FromHex(line[1..3]).Some?
    ensures ParseRecord(line) == Err(InvalidLoadOffsetFormat) <==> U16FromHex(line[3..7]).None?
  {
    ParseRecordIsPositional(line);
  }

  /** Behind a valid `:`, length and offset, a type field that is not a number is `InvalidTypeFormat`, and only then. */
  lemma TypeFormatError(line: Ascii)
    requires |line| >= 11 && line[0] == ':'
    requires U8FromHex(line[1..3]).Some? && U16FromHex(line[3..7]).Some?
    ensures ParseRecord(line) == Err(InvalidTypeFormat) <==> U8FromHex(line[7..9]).None?
  {
    ParseRecordIsPositional(line);
  }

  /** Behind a valid `:`, length and offset, a type field above 5 is `InvalidType`, and only then. */
  lemma TypeRangeError(line: Ascii)
    requires |line| >= 11 && line[0] == ':'
    requires U8FromHex(line[1..3]).Some? && U16FromHex(line[3..7]).Some?
    ensures ParseRecord(line) == Err(InvalidType) <==>
      U8FromHex(line[7..9]).Some? && U8FromHex(line[7..9]).value > 5
  {
    ParseRecordIsPositional(line);
  }

  /**
   * `InvalidLength` comes exactly from a valid header whose declared data
   * needs more characters than the line has after the header and before a
   * two-character checksum.
   */
  lemma InvalidLengthExactly(line: Ascii)
    ensures ParseRecord(line) == Err(InvalidLength) <==>
      HeaderValid(line) && 2 * DeclaredLength(line) > |line| - 9 - 2
  {
    ParseRecordIsPositional(line);
  }

  /**
   * The checksum field is read before the data: when both are malformed the
   * error is `InvalidChecksumFormat`, and `InvalidDataFormat` needs a
   * well-formed checksum field.
   */
  lemma ChecksumFormatBeforeData(line: Ascii)
    requires HeaderValid(line) && 11 + 2 * DeclaredLength(line) <= |line|
    ensures var n := DeclaredLength(line);
      ParseRecord(line) == Err(InvalidDataFormat) <==>
        U8FromHex(line[9 + 2 * n..11 + 2 * n]).Some? && FromHexPairs(line[9..9 + 2 * n]).None?
    ensures var n := DeclaredLength(line);
      ParseRecord(line) == Err(InvalidChecksumFormat) <==> U8FromHex(line[9 + 2 * n..11 + 2 * n]).None?
  {
    ParseRecordIsPositional(line);
  }

  /** Characters past a complete, well-formatted record make it `TooLarge`, whatever its checksum. */
  lemma TooLargeExactly(line: Ascii)
    ensures ParseRecord(line) == Err(TooLarge) <==>
      && HeaderValid(line)
      && 11 + 2 * DeclaredLength(line) < |line|
      && U8FromHex(line[9 + 2 * DeclaredLength(line)..11 + 2 * DeclaredLength(line)]).Some?
      && FromHexPairs(line[9..9 + 2 * DeclaredLength(line)]).Some?
  {
    ParseRecordIsPositional(line);
  }

  /**
   * A decoded record is, field by field, the hex value of its slice of the
   * line (the offset big-endian), fills the line exactly and is well formed;
   * and every line with those properties decodes to that record.
   */
  lemma DecodedFields(line: Ascii, r: Record)
    ensures ParseRecord(line) == Ok(r) <==> FieldsMatch(line, r) && WellFormed(r)
  {
    ParseRecordIsPositional(line);
    if HeaderValid(line) {
      BodyFields(line, r);
    } else {
      assert !(FieldsMatch(line, r) && WellFormed(r));
    }
  }

  lemma BodyFields(line: Ascii, r: Record)
    requires HeaderValid(line)
    ensures PositionalBody(line) == Ok(r) <==> FieldsMatch(line, r) && WellFormed(r)
  {
    var n := DeclaredLength(line);
    if FieldsMatch(line, r) && WellFormed(r) {
      assert n == r.length;
    }
  }

  /**
   * Each field of `r` is the value of its slice of `line` (the offset
   * big-endian), and the fields fill the line exactly.
   */
  predicate FieldsMatch(line: string, r: Record) {
    && |line| == 11 + 2 * r.length
    && line[0] == ':'
    && U8FromHex(line[1..3]) == Some(r.length)
    && U16FromHex(line[3..7]) == Some(r.loadOffset)
    && U8FromHex(line[7..9]) == Some(r.recordType)
    && FromHexPairs(line[9..9 + 2 * r.length]) == Some(r.data)
    && U8FromHex(line[9 + 2 * r.length..11 + 2 * r.length]) == Some(r.checksum)
  }

  /** The header fields of a line written out as its pieces. */
  lemma HeaderPieces(line: string, length: string, offset: string, recordType: string, rest: string)
    requires |length| == 2 && |offset| == 4 && |recordType| == 2
    requires line == ":" + length + offset + recordType + rest
    ensures line[0] == ':' && line[1..3] == length && line[3..7] == offset && line[7..9] == recordType && line[9..] == rest
  {
  }

  /**
   * A line whose fields all read as the fields of `r`, with the data length
   * consistent and the type in range, passes every check but the last: it
   * decodes to `r` when the checksum law holds and is `InvalidChecksum`
   * otherwise.
   */
  lemma ChecksumDecides(line: Ascii, r: Record)
    requires FieldsMatch(line, r) && |r.data| == r.length && r.recordType <= 5
    ensures ParseRecord(line) == if VerifyChecksum(r) then Ok(r) else Err(InvalidChecksum)
  {
    ParseRecordIsPositional(line);
    assert HeaderValid(line);
    assert PositionalDecode(line) == PositionalBody(line);
    BodyChecksumDecides(line, r);
  }

  lemma BodyChecksumDecides(line: Ascii, r: Record)
    requires HeaderValid(line)
    requires FieldsMatch(line, r) && |r.data| == r.length
    ensures PositionalBody(line) == if VerifyChecksum(r) then Ok(r) else Err(InvalidChecksum)
  {
    var n := DeclaredLength(line);
    assert n == r.length && 11 + 2 * n == |line|;
    assert U8FromHex(line[9 + 2 * n..11 + 2 * n]) == Some(r.checksum);
    assert FromHexPairs(line[9..9 + 2 * n]) == Some(r.data);
    var record := Record(n, U16FromHex(line[3..7]).value, U8FromHex(line[7..9]).value,
                         FromHexPairs(line[9..9 + 2 * n]).value, U8FromHex(line[9 + 2 * n..11 + 2 * n]).value);
    assert record == r;
  }

  /** A line whose fields read as a record with its type in range has a valid header declaring the record's length. */
  lemma FieldsMatchHeader(line: string, r: Record)
    requires FieldsMatch(line, r) && r.recordType <= 5
    ensures HeaderValid(line) && DeclaredLength(line) == r.length
  {
  }

  /** The header and the length it declares depend only on the first nine characters. */
  lemma HeaderTransfer(good: string, line: string)
    requires HeaderValid(good) && |line| >= 11 && line[..9] == good[..9]
    ensures HeaderValid(line) && DeclaredLength(line) == DeclaredLength(good)
  {
    assert line[0] == line[..9][0];
    SliceOfPrefix(line, good, 9, 1, 3);
    SliceOfPrefix(line, good, 9, 3, 7);
    SliceOfPrefix(line, good, 9, 7, 9);
  }

  /** Text after a line whose fields read as a record with consistent length and type makes it `TooLarge`. */
  lemma ExtendedLineTooLarge(good: string, r: Record, line: Ascii)
    requires FieldsMatch(good, r) && |r.data| == r.length && r.recordType <= 5
    requires |line| > |good| && line[..|good|] == good
    ensures ParseRecord(line) == Err(TooLarge)
  {
    var n: nat := r.length;
    FieldsMatchHeader(good, r);
    SliceOfPrefix(line, good, |good|, 0, 9);
    assert line[..9] == good[..9];
    HeaderTransfer(good, line);
    SliceOfPrefix(line, good, |good|, 9 + 2 * n, 11 + 2 * n);
    SliceOfPrefix(line, good, |good|, 9, 9 + 2 * n);
    TooLargeExactly(line);
  }

  /** A prefix of such a line that keeps the header but not all of the data is `InvalidLength`. */
  lemma TruncatedLineInvalidLength(good: string, r: Record, k: nat)
    requires FieldsMatch(good, r) && r.recordType <= 5
    requires 11 <= k < |good| && IsAsciiText(good[..k])
    ensures ParseRecord(good[..k]) == Err(InvalidLength)
  {
    var line: Ascii := good[..k];
    FieldsMatchHeader(good, r);
    assert line[..9] == good[..9];
    HeaderTransfer(good, line);
    InvalidLengthExactly(line);
  }

  /** In a two-character field, `+` reads like a leading `0`. */
  lemma SignReadsAsZero(s: string, t: string)
    requires |s| == 2 && |t| == 2 && s[0] == '0' && t[0] == '+' && s[1] == t[1]
    ensures U8FromHex(t) == U8FromHex(s)
  {
    U8FromHexOfTwo(s);
    U8FromHexOfTwo(t);
  }

  /** A `+` for the leading `0` of the length field changes nothing the decoder sees. */
  lemma SignedLengthLine(good: string, r: Record, line: Ascii)
    requires FieldsMatch(good, r) && WellFormed(r) && good[1] == '0'
    requires |line| == |good| && line[1] == '+' && line[0] == ':' && line[2..] == good[2..]
    ensures ParseRecord(line) == Ok(r)
  {
    SignedLengthFields(good, r, line);
    DecodedFields(line, r);
  }

  lemma SignedLengthFields(good: string, r: Record, line: string)
    requires FieldsMatch(good, r) && good[1] == '0'
    requires |line| == |good| && line[1] == '+' && line[0] == ':' && line[2..] == good[2..]
    ensures FieldsMatch(line, r)
  {
    var n: nat := r.length;
    assert U8FromHex(line[1..3]) == Some(r.length) by {
      assert line[2] == line[2..][0];
      SignReadsAsZero(good[1..3], line[1..3]);
    }
    assert U16FromHex(line[3..7]) == Some(r.loadOffset) by {
      SliceOfSuffix(line, good, 2, 3, 7);
    }
    assert U8FromHex(line[7..9]) == Some(r.recordType) by {
      SliceOfSuffix(line, good, 2, 7, 9);
    }
    assert FromHexPairs(line[9..9 + 2 * n]) == Some(r.data) by {
      SliceOfSuffix(line, good, 2, 9, 9 + 2 * n);
    }
    SliceOfSuffix(line, good, 2, 9 + 2 * r.length, 11 + 2 * r.length);
  }

  /** The `hex` crate's reader takes no sign. */
  lemma FromHexPairsRejectsSign(s: string)
    requires |s| > 0 && s[0] == '+'
    ensures FromHexPairs(s).None?
  {
    assert !IsHexDigit(s[0]);
  }

  /** A `+` for the first data digit is `InvalidDataFormat`: the data reader takes no sign. */
  lemma SignedDataLine(good: string, r: Record, line: Ascii)
    requires FieldsMatch(good, r) && |r.data| == r.length && r.recordType <= 5 && r.length > 0
    requires |line| == |good| && line[..9] == good[..9] && line[9] == '+' && line[10..] == good[10..]
    ensures ParseRecord(line) == Err(InvalidDataFormat)
  {
    SignedDataFields(good, r, line);
    ChecksumFormatBeforeData(line);
  }

  lemma SignedDataFields(good: string, r: Record, line: string)
    requires FieldsMatch(good, r) && |r.data| == r.length && r.recordType <= 5 && r.length > 0
    requires |line| == |good| && line[..9] == good[..9] && line[9] == '+' && line[10..] == good[10..]
    ensures HeaderValid(line) && DeclaredLength(line) == r.length
    ensures 11 + 2 * DeclaredLength(line) <= |line|
    ensures U8FromHex(line[9 + 2 * DeclaredLength(line)..11 + 2 * DeclaredLength(line)]).Some?
    ensures FromHexPairs(line[9..9 + 2 * DeclaredLength(line)]).None?
  {
    assert HeaderValid(line) && DeclaredLength(line) == r.length by {
      FieldsMatchHeader(good, r);
      HeaderTransfer(good, line);
    }
    SliceOfSuffix(line, good, 10, 9 + 2 * r.length, 11 + 2 * r.length);
    FromHexPairsRejectsSign(line[9..9 + 2 * r.length]);
  }
}
