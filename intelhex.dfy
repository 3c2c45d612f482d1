/**
 * The Intel HEX record decoder: one text line in, one `Record` or exactly one
 * `RecordParsingError` out. A line is `:` followed by upper- or lower-case hex
 * fields: length (1 byte), load offset (2 bytes, big-endian), record type
 * (1 byte), `length` data bytes and a checksum byte.
 */
module IntelHex {
  import opened Results
  import opened Hex

  datatype Record = Record(length: u8, loadOffset: u16, recordType: u8, data: seq<u8>, checksum: u8)

  datatype RecordParsingError =
    | TooSmall
    | MissingTag
    | InvalidLengthFormat
    | InvalidLength
    | InvalidLoadOffsetFormat
    | InvalidType
    | InvalidTypeFormat
    | InvalidDataFormat
    | InvalidChecksum
    | InvalidChecksumFormat
    | TooLarge
    | ParseIntError

  /** What the decoder guarantees of every record it returns. */
  predicate WellFormed(r: Record) {
    |r.data| == r.length && r.recordType <= 5 && VerifyChecksum(r)
  }

  /** The End-of-File record that a well-terminated file ends with. */
  function EndOfFile(): (r: Record)
    ensures WellFormed(r) && r.recordType == 1 && r.data == [] && r.loadOffset == 0
  {
    Record(0, 0, 1, [], 0xFF)
  }

  /** `u8::from_str_radix(s, 16)`: the digit rule, then the 8-bit range check. */
  function U8FromHex(s: string): (r: Option<u8>)
  {
    match FromStrRadix16(s)
    case None => None
    case Some(v) => if v <= 0xFF then Some(v) else None
  }

  /** `u16::from_str_radix(s, 16)`: the digit rule, then the 16-bit range check. */
  function U16FromHex(s: string): (r: Option<u16>)
  {
    match FromStrRadix16(s)
    case None => None
    case Some(v) => if v <= 0xFFFF then Some(v) else None
  }

  /**
   * `u8::from_str_radix` gives the number `from_str_radix` reads, and its range
   * check can reject only a run of three or more digits.
   */
  lemma U8FromHexReads(s: string)
    ensures U8FromHex(s).Some? ==> FromStrRadix16(s) == Some(U8FromHex(s).value)
    ensures |UnsignedDigits(s)| <= 2 ==> (U8FromHex(s).Some? <==> FromStrRadix16(s).Some?)
  {
    if |UnsignedDigits(s)| <= 2 && FromStrRadix16(s).Some? {
      Pow16Monotone(|UnsignedDigits(s)|, 2);
    }
  }

  /**
   * `u16::from_str_radix` gives the number `from_str_radix` reads, and its
   * range check can reject only a run of five or more digits.
   */
  lemma U16FromHexReads(s: string)
    ensures U16FromHex(s).Some? ==> FromStrRadix16(s) == Some(U16FromHex(s).value)
    ensures |UnsignedDigits(s)| <= 4 ==> (U16FromHex(s).Some? <==> FromStrRadix16(s).Some?)
  {
    if |UnsignedDigits(s)| <= 4 && FromStrRadix16(s).Some? {
      Pow16Monotone(|UnsignedDigits(s)|, 4);
      assert Pow16(4) == 0x1_0000;
    }
  }

  /** A two-character field: accepted exactly when it is two hex digits or `+` and one. */
  lemma U8FromHexOfTwo(s: string)
    requires |s| == 2
    ensures U8FromHex(s).Some? <==> IsHexDigit(s[1]) && (IsHexDigit(s[0]) || s[0] == '+')
    ensures U8FromHex(s).Some? && s[0] != '+' ==> U8FromHex(s).value == PairValue(s[0], s[1])
    ensures U8FromHex(s).Some? && s[0] == '+' ==> U8FromHex(s).value == DigitValue(s[1])
  {
    if s[0] == '+' {
      assert UnsignedDigits(s) == [s[1]];
      assert [s[1]][..0] == [];
    } else if AllHexDigits(s) {
      TwoDigitsValue(s);
    } else {
      assert !IsHexDigit(s[0]) || !IsHexDigit(s[1]);
    }
  }

  /** A four-character field: accepted exactly when it is four hex digits or `+` and three. */
  lemma U16FromHexOfFour(s: string)
    requires |s| == 4
    ensures U16FromHex(s).Some? <==> AllHexDigits(s[1..]) && (IsHexDigit(s[0]) || s[0] == '+')
    ensures U16FromHex(s).Some? && s[0] != '+' ==>
      U16FromHex(s).value == 256 * PairValue(s[0], s[1]) + PairValue(s[2], s[3])
    ensures U16FromHex(s).Some? && s[0] == '+' ==>
      U16FromHex(s).value == 256 * DigitValue(s[1]) + PairValue(s[2], s[3])
  {
    if s[0] == '+' {
      assert UnsignedDigits(s) == s[1..];
      if AllHexDigits(s[1..]) {
        ThreeDigitsValue(s[1..]);
      }
    } else if AllHexDigits(s) {
      FourDigitsValue(s);
      assert AllHexDigits(s[1..]);
    } else {
      assert exists i | 0 <= i < 4 :: !IsHexDigit(s[i]);
      assert !IsHexDigit(s[0]) || !AllHexDigits(s[1..]) by {
        var i :| 0 <= i < 4 && !IsHexDigit(s[i]);
        if i > 0 {
          assert s[1..][i - 1] == s[i];
        }
      }
    }
  }

  /**
   * `parse_u8`: consume exactly two characters and read them as a `u8`;
   * `TooSmall` when fewer are left, `ParseIntError` when they are not a number.
   */
  function ParseU8(input: string): (r: Result<(string, u8), RecordParsingError>)
    ensures r.Ok? <==> |input| >= 2 && U8FromHex(input[..2]).Some?
    ensures r.Ok? ==> input == input[..2] + r.value.0 && U8FromHex(input[..2]) == Some(r.value.1)
    ensures r.Err? ==> r.error == if |input| < 2 then TooSmall else ParseIntError
  {
    if |input| < 2 then Err(TooSmall)
    else
      match U8FromHex(input[..2])
      case None => Err(ParseIntError)
      case Some(v) => Ok((input[2..], v))
  }

  /**
   * `parse_u16`: consume exactly four characters and read them as a `u16`;
   * `TooSmall` when fewer are left, `ParseIntError` when they are not a number.
   */
  function ParseU16(input: string): (r: Result<(string, u16), RecordParsingError>)
    ensures r.Ok? <==> |input| >= 4 && U16FromHex(input[..4]).Some?
    ensures r.Ok? ==> input == input[..4] + r.value.0 && U16FromHex(input[..4]) == Some(r.value.1)
    ensures r.Err? ==> r.error == if |input| < 4 then TooSmall else ParseIntError
  {
    if |input| < 4 then Err(TooSmall)
    else
      match U16FromHex(input[..4])
      case None => Err(ParseIntError)
      case Some(v) => Ok((input[4..], v))
  }

  function Pow2(k: nat): (p: nat)
    ensures p >= 1
  {
    if k == 0 then 1 else 2 * Pow2(k - 1)
  }

  /** `trailing_zeros` of a `width`-bit value: the zero value has `width` of them. */
  function TrailingZeros(x: nat, width: nat): (n: nat)
    ensures n <= width
  {
    if width == 0 then 0
    else if x % 2 == 1 then 0
    else
      1 + TrailingZeros(x / 2, width - 1)
  }

  /**
   * `trailing_zeros` counts the low zero bits: the value is a multiple of
   * 2^n, not of 2^(n+1) unless all `width` bits are zero.
   */
  lemma TrailingZerosCounts(x: nat, width: nat)
    ensures x % Pow2(TrailingZeros(x, width)) == 0
    ensures TrailingZeros(x, width) < width ==> x % Pow2(TrailingZeros(x, width) + 1) != 0
  {
    var n := TrailingZeros(x, width);
    TrailingZerosAtLeast(x, width, n);
    if n < width {
      TrailingZerosAtLeast(x, width, n + 1);
    }
  }

  lemma MulAtLeast(a: int, b: int)
    requires a >= 1 && b >= 1
    ensures a * b >= b
  {
  }

  lemma MulSub(a: int, b: int, d: int)
    ensures (a - b) * d == a * d - b * d
  {
  }

  /** Euclidean division is unique. */
  lemma ModUnique(x: nat, d: nat, q: nat, r: nat)
    requires d > 0 && r < d && x == q * d + r
    ensures x % d == r
  {
    var q0, r0 := x / d, x % d;
    assert q0 * d + r0 == q * d + r;
    if q0 > q {
      MulAtLeast(q0 - q, d);
      MulSub(q0, q, d);
      assert false;
    } else if q0 < q {
      MulAtLeast(q - q0, d);
      MulSub(q, q0, d);
      assert false;
    }
  }

  lemma EvenMod(x: nat, p: nat)
    requires x % 2 == 0 && p >= 1
    ensures x % (2 * p) == 2 * ((x / 2) % p)
  {
    var y := x / 2;
    var q, r := y / p, y % p;
    assert y == q * p + r;
    assert x == q * (2 * p) + 2 * r;
    ModUnique(x, 2 * p, q, 2 * r);
  }

  lemma OddMod(x: nat, p: nat)
    requires x % 2 == 1 && p >= 1
    ensures x % (2 * p) != 0
  {
    var q, m := x / (2 * p), x % (2 * p);
    var h := q * p;
    assert x == 2 * h + m;
    assert m % 2 == 1;
  }

  /** At least `k` trailing zero bits exactly when the value is a multiple of 2^k. */
  lemma {:induction false} TrailingZerosAtLeast(x: nat, width: nat, k: nat)
    requires k <= width
    ensures TrailingZeros(x, width) >= k <==> x % Pow2(k) == 0
  {
    if k > 0 {
      if x % 2 == 1 {
        OddMod(x, Pow2(k - 1));
      } else {
        TrailingZerosAtLeast(x / 2, width - 1, k - 1);
        EvenMod(x, Pow2(k - 1));
      }
    }
  }

  /**
   * `fold(0, |s, value| s + value)` over the data bytes, one byte at a time
   * from the left.
   */
  function FoldSum(acc: nat, data: seq<u8>): (s: nat)
    ensures acc <= s <= acc + 255 * |data|
    decreases |data|
  {
    if data == [] then acc else FoldSum(acc + data[0], data[1..])
  }

  /** Folding over a concatenation folds the second part from where the first ended. */
  lemma {:induction false} FoldSumAppend(acc: nat, a: seq<u8>, b: seq<u8>)
    ensures FoldSum(acc, a + b) == FoldSum(FoldSum(acc, a), b)
    decreases |a|
  {
    if a == [] {
      assert a + b == b;
    } else {
      assert (a + b)[1..] == a[1..] + b;
      FoldSumAppend(acc + a[0], a[1..], b);
    }
  }

  /** The checksum sum over all of a record's bytes, in unbounded arithmetic. */
  function ChecksumSum(r: Record): (s: nat)
  {
    r.length + r.loadOffset % 256 + r.loadOffset / 256 + r.recordType + FoldSum(0, r.data) + r.checksum
  }

  /** The sum as the source's `u32` holds it (it wraps only beyond 2^32). */
  function Sum32(r: Record): u32 {
    ChecksumSum(r) % 0x1_0000_0000
  }

  /** A record never sums to more than 255 per byte, so at most 260 bytes fit well inside a `u32`. */
  lemma ChecksumSumFitsU32(r: Record)
    requires |r.data| <= 255
    ensures ChecksumSum(r) <= 255 * (5 + |r.data|) && Sum32(r) == ChecksumSum(r)
  {
  }

  /** Each byte adds at most 255, and the checksum byte is always part of the sum. */
  lemma ChecksumSumBounds(r: Record)
    ensures r.checksum <= ChecksumSum(r) <= 255 * (5 + |r.data|)
  {
  }

  /**
   * Keeping the sum in a `u32` loses nothing that `verify_checksum` looks at:
   * the low byte is the same, and below 2^32 the whole sum is.
   */
  lemma Sum32LowByte(r: Record)
    ensures Sum32(r) % 256 == ChecksumSum(r) % 256
    ensures ChecksumSum(r) < 0x1_0000_0000 ==> Sum32(r) == ChecksumSum(r)
  {
    var s := Sum32(r);
    var q := ChecksumSum(r) / 0x1_0000_0000;
    assert ChecksumSum(r) == q * 0x1_0000_0000 + s;
    assert q * 0x1_0000_0000 == (q * 0x100_0000) * 256;
    assert ChecksumSum(r) == (q * 0x100_0000 + s / 256) * 256 + s % 256;
    ModUnique(ChecksumSum(r), 256, q * 0x100_0000 + s / 256, s % 256);
  }

  lemma Pow2Eight()
    ensures Pow2(8) == 256
  {
    assert Pow2(4) == 16;
  }

  /** `verify_checksum`: the low 8 bits of the byte sum are all zero. */
  function VerifyChecksum(r: Record): (ok: bool)
    ensures ok <==> ChecksumSum(r) % 256 == 0
  {
    var s := Sum32(r);
    TrailingZerosAtLeast(s, 32, 8);
    Pow2Eight();
    Sum32LowByte(r);
    TrailingZeros(s, 32) >= 8
  }

  /**
   * `parse_record`: the checks in the order the source makes them; the first
   * that fails decides the error.
   */
  function ParseRecord(input: Ascii): (r: Result<Record, RecordParsingError>)
    ensures |input| < 11 <==> r == Err(TooSmall)
    ensures r.Err? ==> r.error != ParseIntError
    ensures r.Ok? ==> WellFormed(r.value) && |input| == 11 + 2 * r.value.length
  {
    if |input| < 11 then Err(TooSmall)
    else if input[0] != ':' then Err(MissingTag)
    else
      match ParseU8(input[1..]).OrElse(InvalidLengthFormat)
      case Err(e) => Err(e)
      case Ok((rest, length)) =>
        match ParseU16(rest).OrElse(InvalidLoadOffsetFormat)
        case Err(e) => Err(e)
        case Ok((rest, loadOffset)) =>
          match ParseU8(rest).OrElse(InvalidTypeFormat)
          case Err(e) => Err(e)
          case Ok((rest, recordType)) =>
            if recordType > 5 then Err(InvalidType)
            else
              assert |rest| == |input| - 9;
              ParseBody(length, loadOffset, recordType, rest)
  }

  /**
   * The second half of `parse_record`, on what follows the type field:
   * data-length feasibility, the checksum field, the data, trailing text and
   * the checksum law. The guard `|input| >= 11` leaves at least two
   * characters here, so `|rest| - 2` never underflows.
   */
  function ParseBody(length: u8, loadOffset: u16, recordType: u8, rest: string): (r: Result<Record, RecordParsingError>)
    requires |rest| >= 2
    ensures r.Err? ==> r.error in {InvalidLength, InvalidChecksumFormat, InvalidDataFormat, TooLarge, InvalidChecksum}
    ensures 2 * length > |rest| - 2 <==> r == Err(InvalidLength)
    ensures r.Ok? ==> |rest| == 2 + 2 * length && VerifyChecksum(r.value) && |r.value.data| == length
    ensures r.Ok? ==> r.value.length == length && r.value.loadOffset == loadOffset && r.value.recordType == recordType
  {
    var charCount := length * 2;
    if charCount > |rest| - 2 then Err(InvalidLength)
    else
      var dataText := rest[..charCount];
      match ParseU8(rest[charCount..]).OrElse(InvalidChecksumFormat)
      case Err(e) => Err(e)
      case Ok((rest, checksum)) =>
        match FromHexPairs(dataText)
        case None => Err(InvalidDataFormat)
        case Some(data) =>
          var record := Record(length, loadOffset, recordType, data, checksum);
          if |rest| != 0 then Err(TooLarge)
          else if !VerifyChecksum(record) then Err(InvalidChecksum)
          else Ok(record)
  }
}
