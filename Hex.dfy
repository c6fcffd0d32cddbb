/** Bytes and their hexadecimal text: `u8::from_str_radix(_, 16)` on the
    one- or two-digit operands the regexes capture, and the `{:02X}` and
    `{:2X}` formats the encoder prints with. */
module Hex {
  import opened Outcomes

  /** Rust's `u8`. */
  type Byte = x: int | 0 <= x < 256

  predicate IsHexDigit(c: char) {
    ('0' <= c <= '9') || ('a' <= c <= 'f') || ('A' <= c <= 'F')
  }

  /** The regex class `[0-9a-fA-F]{1,2}`. */
  predicate IsHex12(s: string) {
    1 <= |s| <= 2 && forall i :: 0 <= i < |s| ==> IsHexDigit(s[i])
  }

  function DigitValue(c: char): (v: nat)
    requires IsHexDigit(c)
    ensures v < 16
  {
    if '0' <= c <= '9' then c as int - '0' as int
    else if 'a' <= c <= 'f' then c as int - 'a' as int + 10
    else c as int - 'A' as int + 10
  }

  /** `u8::from_str_radix(s, 16)` for the texts the regexes let through:
      one or two digits of either case, so the value always fits a byte. */
  function HexValue(s: string): (v: Byte)
    requires IsHex12(s)
    ensures |s| == 1 ==> v < 16
  {
    if |s| == 1 then DigitValue(s[0]) else 16 * DigitValue(s[0]) + DigitValue(s[1])
  }

  /** An upper-case digit, as the `X` format writes it. */
  function HexChar(d: nat): (c: char)
    requires d < 16
    ensures IsHexDigit(c) && DigitValue(c) == d
    ensures !('a' <= c <= 'f')
  {
    if d < 10 then ('0' as int + d) as char else ('A' as int + d - 10) as char
  }

  /** `format!("{:02X}", b)`: two upper-case digits, zero padded. */
  function Hex2(b: Byte): (s: string)
    ensures |s| == 2 && IsHex12(s)
  {
    [HexChar(b / 16), HexChar(b % 16)]
  }

  /** `format!("{:2X}", b)`: width two, but padded with a SPACE, not a zero. */
  function Hex2Space(b: Byte): (s: string)
    ensures |s| == 2
    ensures s == Hex2(b) <==> b >= 16
  {
    if b < 16 then [' ', HexChar(b)] else Hex2(b)
  }

  /** Reading back what `{:02X}` wrote gives the byte again. */
  lemma Hex2RoundTrip(b: Byte)
    ensures HexValue(Hex2(b)) == b
  {
    var s := Hex2(b);
    assert DigitValue(s[0]) == b / 16 && DigitValue(s[1]) == b % 16;
  }

  /** Bytes separated by single spaces: the body of one output line. */
  function HexBytes(bytes: seq<Byte>): (s: string)
    requires |bytes| >= 1
    ensures |s| == 3 * |bytes| - 1
    ensures s[..2] == Hex2(bytes[0])
    decreases |bytes|
  {
    if |bytes| == 1 then Hex2(bytes[0]) else Hex2(bytes[0]) + " " + HexBytes(bytes[1..])
  }

  /** One output line: the bytes of one instruction and a newline. */
  function HexLine(bytes: seq<Byte>): (s: string)
    requires |bytes| >= 1
    ensures |s| == 3 * |bytes|
    ensures s[..2] == Hex2(bytes[0]) && s[|s| - 1] == '\n'
  {
    HexBytes(bytes) + "\n"
  }

  predicate IsUpperHexDigit(c: char) {
    ('0' <= c <= '9') || ('A' <= c <= 'F')
  }

  /** Reads the body of an output line back: upper-case two-digit bytes
      separated by single spaces, or None for any other text. */
  function DecodeHexBytes(s: string): (r: Option<seq<Byte>>)
    ensures r.Some? ==> |r.value| >= 1
    decreases |s|
  {
    if |s| < 2 || !IsUpperHexDigit(s[0]) || !IsUpperHexDigit(s[1]) then None
    else
      var b := 16 * DigitValue(s[0]) + DigitValue(s[1]);
      if |s| == 2 then Some([b])
      else if s[2] != ' ' then None
      else match DecodeHexBytes(s[3..])
        case None => None
        case Some(rest) => Some([b] + rest)
  }

  function DecodeHexLine(s: string): (r: Option<seq<Byte>>)
    ensures r.Some? ==> |r.value| >= 1
  {
    if |s| == 0 || s[|s| - 1] != '\n' then None else DecodeHexBytes(s[..|s| - 1])
  }

  /** The upper-case form of a hex digit; digits and upper-case letters are unchanged. */
  function UpperDigit(c: char): (u: char)
    requires IsHexDigit(c)
    ensures IsUpperHexDigit(u)
    ensures IsUpperHexDigit(c) ==> u == c
    ensures 'a' <= c <= 'f' ==> u as int == c as int - 32
  {
    if 'a' <= c <= 'f' then (c as int - 32) as char else c
  }

  /** A hex digit has the same value in either case. */
  lemma DigitValueCaseless(c: char)
    requires IsHexDigit(c)
    ensures DigitValue(c) == DigitValue(UpperDigit(c))
    ensures HexChar(DigitValue(c)) == UpperDigit(c)
  {
  }

  /** The text `{:02X}` prints for the value of `s`: its digits in upper
      case, with a `0` in front of a single digit. */
  function CanonicalHex(s: string): (t: string)
    requires IsHex12(s)
    ensures |t| == 2 && IsUpperHexDigit(t[0]) && IsUpperHexDigit(t[1])
  {
    if |s| == 1 then ['0', UpperDigit(s[0])] else [UpperDigit(s[0]), UpperDigit(s[1])]
  }

  /** What `from_str_radix(s, 16)` reads is the value whose two-digit
      upper-case form is `s` itself, upper-cased and zero padded. Since
      `Hex2` is one to one (`Hex2RoundTrip`), this fixes the value of every
      one- or two-digit text, in either case. */
  lemma HexValueCanonical(s: string)
    requires IsHex12(s)
    ensures Hex2(HexValue(s)) == CanonicalHex(s)
  {
    var v := HexValue(s);
    DigitValueCaseless(s[0]);
    if |s| == 1 {
      assert v / 16 == 0 && v % 16 == DigitValue(s[0]);
      assert HexChar(0) == '0';
    } else {
      DigitValueCaseless(s[1]);
      assert v / 16 == DigitValue(s[0]) && v % 16 == DigitValue(s[1]);
    }
  }

  lemma UpperDigitRoundTrip(c: char)
    requires IsUpperHexDigit(c)
    ensures HexChar(DigitValue(c)) == c
  {
  }

  lemma {:induction false} HexBytesRoundTrip(bytes: seq<Byte>)
    requires |bytes| >= 1
    ensures DecodeHexBytes(HexBytes(bytes)) == Some(bytes)
    decreases |bytes|
  {
    var h := Hex2(bytes[0]);
    Hex2RoundTrip(bytes[0]);
    assert IsUpperHexDigit(h[0]) && IsUpperHexDigit(h[1]);
    if |bytes| == 1 {
      assert bytes == [bytes[0]];
    } else {
      var s := HexBytes(bytes);
      assert s == h + " " + HexBytes(bytes[1..]);
      assert s[3..] == HexBytes(bytes[1..]);
      HexBytesRoundTrip(bytes[1..]);
      assert [bytes[0]] + bytes[1..] == bytes;
    }
  }

  lemma {:induction false} HexBytesUnique(s: string, bytes: seq<Byte>)
    requires DecodeHexBytes(s) == Some(bytes)
    ensures s == HexBytes(bytes)
    decreases |s|
  {
    var d0, d1 := DigitValue(s[0]), DigitValue(s[1]);
    var b := 16 * d0 + d1;
    assert b / 16 == d0 && b % 16 == d1;
    UpperDigitRoundTrip(s[0]);
    UpperDigitRoundTrip(s[1]);
    assert Hex2(b) == [s[0], s[1]] == s[..2];
    if |s| > 2 {
      var rest := DecodeHexBytes(s[3..]).value;
      HexBytesUnique(s[3..], rest);
      assert bytes == [b] + rest;
      assert bytes[1..] == rest;
      assert s == s[..2] + " " + s[3..];
    }
  }

  /** The output line format is unambiguous: a line decodes to exactly the
      bytes it was printed from, and every decodable line was printed so. */
  lemma HexLineRoundTrip(bytes: seq<Byte>, s: string)
    requires |bytes| >= 1
    ensures DecodeHexLine(HexLine(bytes)) == Some(bytes)
    ensures DecodeHexLine(s) == Some(bytes) ==> s == HexLine(bytes)
  {
    var line := HexLine(bytes);
    assert line[..|line| - 1] == HexBytes(bytes);
    HexBytesRoundTrip(bytes);
    if DecodeHexLine(s) == Some(bytes) {
      HexBytesUnique(s[..|s| - 1], bytes);
      assert s == s[..|s| - 1] + "\n";
    }
  }
}
