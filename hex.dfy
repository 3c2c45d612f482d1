/**
 * The two hexadecimal text readers the decoder relies on, stated by the rule
 * they accept: Rust's `from_str_radix(s, 16)` for unsigned integers (an
 * optional leading `+`, then at least one hex digit of either case, and a
 * value within the target type) and the `hex` crate's `Vec::<u8>::from_hex`
 * (an even number of hex digits of either case, read as big-endian pairs).
 * Also the upper-case encoders used to state round trips.
 */
module Hex {
  import opened Results

  type u8 = x: int | 0 <= x < 0x100
  type u16 = x: int | 0 <= x < 0x1_0000
  type u32 = x: int | 0 <= x < 0x1_0000_0000

  /** Text restricted to ASCII: one character is one byte. */
  type Ascii = s: string | IsAsciiText(s)

  predicate IsAsciiText(s: string) {
    forall i | 0 <= i < |s| :: s[i] < 128 as char
  }

  predicate IsHexDigit(c: char) {
    '0' <= c <= '9' || 'a' <= c <= 'f' || 'A' <= c <= 'F'
  }

  predicate AllHexDigits(s: string) {
    forall i | 0 <= i < |s| :: IsHexDigit(s[i])
  }

  function DigitValue(c: char): (v: nat)
    requires IsHexDigit(c)
    ensures v < 16
  {
    if '0' <= c <= '9' then c as int - '0' as int
    else if 'a' <= c <= 'f' then c as int - 'a' as int + 10
    else c as int - 'A' as int + 10
  }

  function Pow16(n: nat): (p: nat)
    ensures p >= 1
  {
    if n == 0 then 1 else 16 * Pow16(n - 1)
  }

  lemma {:induction false} Pow16Monotone(m: nat, n: nat)
    requires m <= n
    ensures Pow16(m) <= Pow16(n)
    decreases n
  {
    if m < n {
      Pow16Monotone(m, n - 1);
    }
  }

  /** The value of a run of hex digits, read most significant digit first. */
  function DigitsValue(s: string): (v: nat)
    requires AllHexDigits(s)
    ensures v < Pow16(|s|)
  {
    if |s| == 0 then 0
    else
      var init := DigitsValue(s[..|s| - 1]);
      assert init <= Pow16(|s| - 1) - 1;
      init * 16 + DigitValue(s[|s| - 1])
  }

  /**
   * The same value read the other way round, most significant digit first:
   * the leading digit weighs 16 to the power of the digits after it.
   */
  lemma {:induction false} DigitsValueHeadFirst(s: string)
    requires |s| >= 1 && AllHexDigits(s)
    ensures DigitsValue(s) == DigitValue(s[0]) * Pow16(|s| - 1) + DigitsValue(s[1..])
    decreases |s|
  {
    var init := s[..|s| - 1];
    if |s| == 1 {
      assert init == [] && s[1..] == [];
    } else {
      var tail := s[1..];
      DigitsValueHeadFirst(init);
      assert init[0] == s[0] && init[1..] == tail[..|tail| - 1] && tail[|tail| - 1] == s[|s| - 1];
      var d: int, p: int, last: int := DigitValue(s[0]), Pow16(|s| - 2), DigitValue(s[|s| - 1]);
      var mid: int := DigitsValue(init[1..]);
      assert DigitsValue(init) == d * p + mid;
      assert DigitsValue(tail) == mid * 16 + last;
      assert DigitsValue(s) == DigitsValue(init) * 16 + last;
      DistributeSixteen(d, p, mid);
    }
  }

  lemma DistributeSixteen(d: int, p: int, mid: int)
    ensures (d * p + mid) * 16 == d * (16 * p) + mid * 16
  {
  }

  /** The digits `from_str_radix` reads: everything after one optional leading `+`. */
  function UnsignedDigits(s: string): string {
    if |s| > 0 && s[0] == '+' then s[1..] else s
  }

  /**
   * Rust's `from_str_radix(s, 16)` for an unsigned type, before the range
   * check: `None` for an empty digit run or a character that is not a hex
   * digit (a `-` included, since the type is unsigned).
   */
  function FromStrRadix16(s: string): (r: Option<nat>)
  {
    var digits := UnsignedDigits(s);
    if |digits| == 0 || !AllHexDigits(digits) then None
    else Some(DigitsValue(digits))
  }

  /**
   * `from_str_radix` accepts one optional `+` followed by at least one hex
   * digit, and reads them as a base-16 numeral of that many digits. This
   * spells out the definition above, adding only the bound on the value;
   * `U8FromHexOfTwo`, `U16FromHexOfFour` and the encoder's read-back lemmas
   * are what check it.
   */
  lemma FromStrRadix16Reads(s: string)
    ensures FromStrRadix16(s).Some? <==>
      if |s| > 0 && s[0] == '+' then |s| > 1 && AllHexDigits(s[1..]) else |s| > 0 && AllHexDigits(s)
    ensures FromStrRadix16(s).Some? && s[0] != '+' ==>
      FromStrRadix16(s).value == DigitsValue(s) && FromStrRadix16(s).value < Pow16(|s|)
    ensures FromStrRadix16(s).Some? && s[0] == '+' ==>
      FromStrRadix16(s).value == DigitsValue(s[1..]) && FromStrRadix16(s).value < Pow16(|s| - 1)
  {
  }

  /** The byte written by two hex digits, high digit first. */
  function PairValue(hi: char, lo: char): (b: u8)
    requires IsHexDigit(hi) && IsHexDigit(lo)
  {
    DigitValue(hi) * 16 + DigitValue(lo)
  }

  function PairsValue(s: string): (bytes: seq<u8>)
    requires |s| % 2 == 0 && AllHexDigits(s)
    ensures 2 * |bytes| == |s|
    ensures forall i | 0 <= i < |bytes| :: bytes[i] == PairValue(s[2 * i], s[2 * i + 1])
  {
    if |s| == 0 then []
    else
      var rest := s[2..];
      var tail := PairsValue(rest);
      var bytes := [PairValue(s[0], s[1])] + tail;
      assert forall i | 1 <= i < |bytes| :: bytes[i] == PairValue(s[2 * i], s[2 * i + 1]) by {
        forall i | 1 <= i < |bytes|
          ensures bytes[i] == PairValue(s[2 * i], s[2 * i + 1])
        {
          var j := i - 1;
          assert bytes[i] == tail[j];
          assert rest[2 * j] == s[2 * i] && rest[2 * j + 1] == s[2 * i + 1];
        }
      }
      bytes
  }

  /** The `hex` crate's `Vec::<u8>::from_hex`: pairs of hex digits, no sign, no odd digit. */
  function FromHexPairs(s: string): (r: Option<seq<u8>>)
  {
    if |s| % 2 != 0 || !AllHexDigits(s) then None
    else Some(PairsValue(s))
  }

  /**
   * `from_hex` accepts exactly an even run of hex digits, and byte `i` is the
   * pair of digits at `2 * i`.
   */
  lemma FromHexPairsReads(s: string)
    ensures FromHexPairs(s).Some? <==> |s| % 2 == 0 && AllHexDigits(s)
    ensures FromHexPairs(s).Some? ==> 2 * |FromHexPairs(s).value| == |s|
    ensures FromHexPairs(s).Some? ==>
      forall i | 0 <= i < |FromHexPairs(s).value| :: FromHexPairs(s).value[i] == PairValue(s[2 * i], s[2 * i + 1])
  {
  }

  /** The upper-case digit for a value below 16. */
  function DigitChar(v: nat): (c: char)
    requires v < 16
    ensures IsHexDigit(c) && DigitValue(c) == v && c < 128 as char
  {
    if v < 10 then ('0' as int + v) as char else ('A' as int + v - 10) as char
  }

  /** A byte as two upper-case hex digits. */
  function ByteText(b: u8): (s: string)
    ensures |s| == 2 && IsHexDigit(s[0]) && IsHexDigit(s[1]) && s[0] < 128 as char && s[1] < 128 as char
    ensures PairValue(s[0], s[1]) == b
    ensures s[0] != '+' && (b < 16 ==> s[0] == '0')
  {
    [DigitChar(b / 16), DigitChar(b % 16)]
  }

  /** A 16-bit value as four upper-case hex digits, big-endian. */
  function WordText(w: u16): (s: string)
    ensures |s| == 4 && s[0] != '+'
    ensures IsHexDigit(s[0]) && IsHexDigit(s[1]) && IsHexDigit(s[2]) && IsHexDigit(s[3])
    ensures s[0] < 128 as char && s[1] < 128 as char && s[2] < 128 as char && s[3] < 128 as char
    ensures PairValue(s[0], s[1]) == w / 256 && PairValue(s[2], s[3]) == w % 256
  {
    ByteText(w / 256) + ByteText(w % 256)
  }

  /** Bytes as upper-case hex pairs, in order. */
  function BytesText(bytes: seq<u8>): (s: string)
    ensures |s| == 2 * |bytes|
  {
    if bytes == [] then [] else ByteText(bytes[0]) + BytesText(bytes[1..])
  }

  /** `BytesText` writes only ASCII hex digits. */
  lemma {:induction false} BytesTextDigits(bytes: seq<u8>)
    ensures AllHexDigits(BytesText(bytes)) && IsAsciiText(BytesText(bytes))
    decreases |bytes|
  {
    if bytes != [] {
      var head, tail := ByteText(bytes[0]), BytesText(bytes[1..]);
      BytesTextDigits(bytes[1..]);
      forall i | 0 <= i < |head + tail|
        ensures IsHexDigit((head + tail)[i]) && (head + tail)[i] < 128 as char
      {
        if i >= 2 {
          assert (head + tail)[i] == tail[i - 2];
        }
      }
    }
  }

  lemma AsciiConcat(a: string, b: string)
    requires IsAsciiText(a) && IsAsciiText(b)
    ensures IsAsciiText(a + b)
  {
    forall i | 0 <= i < |a + b|
      ensures (a + b)[i] < 128 as char
    {
      if i >= |a| {
        assert (a + b)[i] == b[i - |a|];
      }
    }
  }

  lemma AsciiPrefix(a: string, j: nat)
    requires IsAsciiText(a) && j <= |a|
    ensures IsAsciiText(a[..j])
  {
    forall x | 0 <= x < j
      ensures a[..j][x] < 128 as char
    {
      assert a[..j][x] == a[x];
    }
  }

  lemma AsciiTail(a: string, i: nat)
    requires IsAsciiText(a) && i <= |a|
    ensures IsAsciiText(a[i..])
  {
    forall x | 0 <= x < |a| - i
      ensures a[i..][x] < 128 as char
    {
      assert a[i..][x] == a[i + x];
    }
  }


  /** ASCII text `p` put in front of the tail of ASCII text `t` from `k` on. */
  lemma SplicePrefix(p: string, t: string, k: nat)
    requires IsAsciiText(p) && IsAsciiText(t) && k <= |t|
    ensures IsAsciiText(p + t[k..]) && (p + t[k..])[|p|..] == t[k..]
  {
    AsciiTail(t, k);
    AsciiConcat(p, t[k..]);
  }

  /** ASCII text `t` with the character at `k` replaced by ASCII `c`. */
  lemma SpliceChar(t: string, k: nat, c: char)
    requires IsAsciiText(t) && k < |t| && c < 128 as char
    ensures var u := t[..k] + [c] + t[k + 1..];
      && IsAsciiText(u) && |u| == |t| && u[..k] == t[..k] && u[k] == c && u[k + 1..] == t[k + 1..]
  {
    AsciiPrefix(t, k);
    AsciiTail(t, k + 1);
    AsciiConcat(t[..k], [c]);
    AsciiConcat(t[..k] + [c], t[k + 1..]);
    var u := t[..k] + [c] + t[k + 1..];
    assert u[..k] == t[..k] && u[k + 1..] == t[k + 1..];
  }

  /** Two texts that agree from position `k` on agree on every slice there. */
  lemma SliceOfSuffix(a: string, b: string, k: nat, i: nat, j: nat)
    requires k <= i <= j <= |a| && |a| == |b| && a[k..] == b[k..]
    ensures a[i..j] == b[i..j]
  {
    forall x | 0 <= x < j - i
      ensures a[i..j][x] == b[i..j][x]
    {
      assert a[i + x] == a[k..][i + x - k];
      assert b[i + x] == b[k..][i + x - k];
    }
  }

  /** Two texts that agree from position `k` on agree on every tail there. */
  lemma TailOfSuffix(a: string, b: string, k: nat, i: nat)
    requires k <= i <= |a| && |a| == |b| && a[k..] == b[k..]
    ensures a[i..] == b[i..]
  {
    forall x | 0 <= x < |a| - i
      ensures a[i..][x] == b[i..][x]
    {
      assert a[i + x] == a[k..][i + x - k];
      assert b[i + x] == b[k..][i + x - k];
    }
  }

  /** Two texts that agree up to position `k` agree on every slice before it. */
  lemma SliceOfPrefix(a: string, b: string, k: nat, i: nat, j: nat)
    requires i <= j <= k <= |a| && k <= |b| && a[..k] == b[..k]
    ensures a[i..j] == b[i..j]
  {
    forall x | 0 <= x < j - i
      ensures a[i..j][x] == b[i..j][x]
    {
      assert a[i + x] == a[..k][i + x];
    }
  }

  /** Reading two hex digits gives the value the pair stands for. */
  lemma TwoDigitsValue(s: string)
    requires |s| == 2 && AllHexDigits(s)
    ensures DigitsValue(s) == PairValue(s[0], s[1])
  {
    assert s[..1][..0] == [];
  }

  /** Three hex digits read as one number: the first digit is the high byte. */
  lemma ThreeDigitsValue(s: string)
    requires |s| == 3 && AllHexDigits(s)
    ensures DigitsValue(s) == 256 * DigitValue(s[0]) + PairValue(s[1], s[2])
  {
    var p2 := s[..2];
    var p1 := p2[..1];
    assert p1[..0] == [];
    assert DigitsValue(p1) == DigitValue(s[0]);
    assert DigitsValue(p2) == DigitValue(s[0]) * 16 + DigitValue(s[1]);
  }

  /** Four hex digits read as one number are the big-endian pair of their two bytes. */
  lemma {:induction false} FourDigitsValue(s: string)
    requires |s| == 4 && AllHexDigits(s)
    ensures DigitsValue(s) == 256 * PairValue(s[0], s[1]) + PairValue(s[2], s[3])
  {
    var p3 := s[..3];
    var p2 := p3[..2];
    var p1 := p2[..1];
    assert p1[..0] == [];
    assert DigitsValue(p1) == DigitValue(s[0]);
    assert DigitsValue(p2) == DigitValue(s[0]) * 16 + DigitValue(s[1]);
    assert DigitsValue(p3) == DigitsValue(p2) * 16 + DigitValue(s[2]);
  }

  /** `from_hex` reads back exactly the bytes `BytesText` wrote. */
  lemma {:induction false} FromHexPairsOfBytesText(bytes: seq<u8>)
    ensures FromHexPairs(BytesText(bytes)) == Some(bytes)
  {
    var s := BytesText(bytes);
    BytesTextDigits(bytes);
    var r := PairsValue(s);
    assert |r| == |bytes|;
    forall i | 0 <= i < |bytes|
      ensures r[i] == bytes[i]
    {
      BytesTextAt(bytes, i);
    }
    assert r == bytes;
  }

  lemma {:induction false} BytesTextAt(bytes: seq<u8>, i: nat)
    requires i < |bytes|
    ensures var s := BytesText(bytes);
      IsHexDigit(s[2 * i]) && IsHexDigit(s[2 * i + 1]) && PairValue(s[2 * i], s[2 * i + 1]) == bytes[i]
  {
    var s := BytesText(bytes);
    if i > 0 {
      BytesTextAt(bytes[1..], i - 1);
      assert s == ByteText(bytes[0]) + BytesText(bytes[1..]);
      assert s[2 * i] == BytesText(bytes[1..])[2 * (i - 1)];
      assert s[2 * i + 1] == BytesText(bytes[1..])[2 * (i - 1) + 1];
    }
  }

  /** `BytesText` writes a concatenation as the concatenation of the texts. */
  lemma {:induction false} BytesTextAppend(a: seq<u8>, b: seq<u8>)
    ensures BytesText(a + b) == BytesText(a) + BytesText(b)
    decreases |a|
  {
    if a == [] {
      assert a + b == b;
    } else {
      assert (a + b)[1..] == a[1..] + b;
      BytesTextAppend(a[1..], b);
    }
  }
}
