/** Hex-digit decoding used by the UUID parser: one character to a nibble,
    two characters to a byte. Bytes are `bv8`, the width of `uint8_t`, so the
    shift, the bitwise or and the truncation on return are exact. */
module HexDigits {

  /** A lowercase hexadecimal digit, the only digits the canonical form uses. */
  predicate IsLowerHex(c: char) {
    ('0' <= c <= '9') || ('a' <= c <= 'f')
  }

  /** The lowercase digit that writes the nibble `n` (a formatter, the
      partner of `HexToHalfByte`). */
  function HexDigit(n: bv8): (c: char)
    requires n < 16
    ensures IsLowerHex(c)
  {
    if n < 10 then ('0' as int + n as int) as char
    else ('a' as int + n as int - 10) as char
  }

  /** `_hexToHalfByte`: a decimal digit maps to `c - '0'`; every other
      character is taken to be one of 'a'..'f' and maps to `c - 'a' + 10`,
      truncated to 8 bits on return (characters are modelled by their code
      point; outside the lowercase digits the value is the unchecked garbage
      the source documents). */
  function HexToHalfByte(c: char): (r: bv8)
    ensures IsLowerHex(c) ==> r < 16 && HexDigit(r) == c
    ensures '0' <= c <= '9' ==> r as int == c as int - '0' as int
    ensures 'a' <= c <= 'f' ==> r as int == c as int - 'a' as int + 10
  {
    if '0' <= c <= '9' then (c as int - '0' as int) as bv8
    else ((c as int - 'a' as int + 10) % 256) as bv8
  }

  /** Decoding undoes formatting: every nibble survives the trip through its digit. */
  lemma HexDigitRoundTrip(n: bv8)
    requires n < 16
    ensures HexToHalfByte(HexDigit(n)) == n
  {
  }

  /** Distinct lowercase digits decode to distinct nibbles. */
  lemma HexToHalfByteInjective(c: char, d: char)
    requires IsLowerHex(c) && IsLowerHex(d) && c != d
    ensures HexToHalfByte(c) != HexToHalfByte(d)
  {
  }

  /** Uppercase digits are not recognised: 'A'..'F' wrap around to 234..239,
      outside the nibble range (the input the source leaves undefined). */
  lemma UppercaseDecodesOutOfRange(c: char)
    requires 'A' <= c <= 'F'
    ensures HexToHalfByte(c) >= 16
    ensures HexToHalfByte(c) as int == c as int - 'A' as int + 234
  {
  }

  /** `_parseTwoHexDigits` on the two characters at `at`: the first is the
      high nibble, the second the low one. Reading past the string is
      undefined in the source; here it is excluded by the precondition. */
  function ParseTwoHexDigits(s: seq<char>, at: nat): (r: bv8)
    requires at + 2 <= |s|
    ensures IsLowerHex(s[at]) && IsLowerHex(s[at + 1]) ==>
      r as int == 16 * HexToHalfByte(s[at]) as int + HexToHalfByte(s[at + 1]) as int
    ensures IsLowerHex(s[at]) && IsLowerHex(s[at + 1]) ==>
      r >> 4 == HexToHalfByte(s[at]) && r & 0xF == HexToHalfByte(s[at + 1])
  {
    var v0 := HexToHalfByte(s[at]);
    var v1 := HexToHalfByte(s[at + 1]);
    (v0 << 4) | v1
  }

  /** The two digits of a byte, high nibble first. */
  function HexPair(b: bv8): (r: seq<char>)
    ensures |r| == 2 && IsLowerHex(r[0]) && IsLowerHex(r[1])
  {
    [HexDigit(b >> 4), HexDigit(b & 0xF)]
  }

  /** Parsing the two digits of a byte gives the byte back. */
  lemma HexPairRoundTrip(b: bv8)
    ensures ParseTwoHexDigits(HexPair(b), 0) == b
  {
    HexDigitRoundTrip(b >> 4);
    HexDigitRoundTrip(b & 0xF);
    assert ((b >> 4) << 4) | (b & 0xF) == b;
  }
}
