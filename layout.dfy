/** The canonical text form `xxxxxxxx-xxxx-xxxx-xxxx-xxxxxxxxxxxx` of section 3
    of RFC 4122 in lowercase: where each byte's two digits sit, the bytes
    `parseFrom` reads out of a string, and a formatter for the documented
    layout, with the round trips between the two. */
module CanonicalForm {
  import opened HexDigits

  /** Length of the canonical form; `parseFrom` scans exactly this many characters. */
  const TextLength: nat := 36

  /** The number of bytes of a UUID. */
  const ByteCount: nat := 16

  /** The fixed dash positions the parser steps over. */
  predicate IsDashIndex(i: int) {
    i == 8 || i == 13 || i == 18 || i == 23
  }

  /** Dashes that precede the digits of byte `k`: the groups are 4, 2, 2, 2 and 6 bytes long. */
  function DashesBefore(k: nat): (d: nat)
    ensures d <= 4
  {
    if k < 4 then 0 else if k < 6 then 1 else if k < 8 then 2 else if k < 10 then 3 else 4
  }

  /** Position of the high digit of byte `k`; `CharPos(16)` is the end of the text. */
  function CharPos(k: nat): (i: nat)
    requires k <= ByteCount
    ensures k < ByteCount ==> i + 2 <= TextLength && !IsDashIndex(i) && !IsDashIndex(i + 1)
    ensures k == ByteCount <==> i == TextLength
  {
    2 * k + DashesBefore(k)
  }

  /** The byte whose digits cover position `j` (the inverse of `CharPos`). */
  function ByteAt(j: nat): (k: nat)
    requires j < TextLength && !IsDashIndex(j)
    ensures k < ByteCount && (j == CharPos(k) || j == CharPos(k) + 1)
  {
    if j < 8 then j / 2
    else if j < 13 then (j - 1) / 2
    else if j < 18 then (j - 2) / 2
    else if j < 23 then (j - 3) / 2
    else (j - 4) / 2
  }

  /** Every position of the text is a dash or one digit of exactly one byte. */
  lemma PositionMapExact(j: nat, k: nat)
    requires j < TextLength && k < ByteCount
    requires j == CharPos(k) || j == CharPos(k) + 1
    ensures !IsDashIndex(j) && ByteAt(j) == k
  {
  }

  /** The digit pairs of earlier bytes come strictly earlier in the text. */
  lemma CharPosMonotone(k: nat, k': nat)
    requires k < k' <= ByteCount
    ensures CharPos(k) + 2 <= CharPos(k')
  {
  }

  /** The string is long enough for the parser never to read past its end. */
  predicate LongEnough(s: seq<char>) {
    |s| >= TextLength
  }

  /** Every position the parser decodes holds a lowercase hex digit (the
      dash positions are never read, so they may hold anything). */
  predicate HexWhereRead(s: seq<char>) {
    LongEnough(s) && forall j :: 0 <= j < TextLength && !IsDashIndex(j) ==> IsLowerHex(s[j])
  }

  /** Exactly the canonical form: 36 characters, dashes at 8, 13, 18 and 23,
      lowercase hex digits everywhere else. */
  predicate IsCanonical(s: seq<char>) {
    HexWhereRead(s) && |s| == TextLength
    && forall j :: 0 <= j < TextLength && IsDashIndex(j) ==> s[j] == '-'
  }

  /** The 16 bytes `parseFrom` stores for the string `s`: byte `k` is decoded
      from the digits at `CharPos(k)` and `CharPos(k) + 1`. */
  function ParsedBytes(s: seq<char>): (b: seq<bv8>)
    requires LongEnough(s)
    ensures |b| == ByteCount
  {
    seq(ByteCount, k requires 0 <= k < ByteCount => ParseTwoHexDigits(s, CharPos(k)))
  }

  /** Byte `k` of the result is decoded from positions `2k + d` and
      `2k + d + 1`, with `d` = 0, 1, 2, 3, 4 for bytes 0-3, 4-5, 6-7, 8-9 and
      10-15; on hex digits it is 16 times the first digit's value plus the second's. */
  lemma ParsedByteAt(s: seq<char>, k: nat, d: nat)
    requires HexWhereRead(s) && k < ByteCount
    requires d == if k < 4 then 0 else if k < 6 then 1 else if k < 8 then 2 else if k < 10 then 3 else 4
    ensures 2 * k + d + 1 < TextLength
    ensures ParsedBytes(s)[k] as int
      == 16 * HexToHalfByte(s[2 * k + d]) as int + HexToHalfByte(s[2 * k + d + 1]) as int
  {
  }

  /** The result depends only on the 32 digit positions: the dashes and
      whatever follows position 35 never influence it. */
  lemma ParsedBytesReadsOnlyDigits(s: seq<char>, t: seq<char>)
    requires LongEnough(s) && LongEnough(t)
    requires forall j :: 0 <= j < TextLength && !IsDashIndex(j) ==> s[j] == t[j]
    ensures ParsedBytes(s) == ParsedBytes(t)
  {
  }

  /** The digits of a run of bytes, two per byte, high nibble first. */
  function HexString(bs: seq<bv8>): (r: seq<char>)
    ensures |r| == 2 * |bs|
  {
    if bs == [] then [] else HexPair(bs[0]) + HexString(bs[1..])
  }

  lemma {:induction false} HexStringAt(bs: seq<bv8>, j: nat)
    requires j < |bs|
    ensures HexString(bs)[2 * j] == HexDigit(bs[j] >> 4)
    ensures HexString(bs)[2 * j + 1] == HexDigit(bs[j] & 0xF)
  {
    if j > 0 {
      HexStringAt(bs[1..], j - 1);
    }
  }

  /** The documented layout: 8-4-4-4-12 lowercase digits joined by dashes. */
  function Format(b: seq<bv8>): (r: seq<char>)
    requires |b| == ByteCount
    ensures |r| == TextLength
  {
    HexString(b[..4]) + "-" + HexString(b[4..6]) + "-" + HexString(b[6..8]) + "-"
      + HexString(b[8..10]) + "-" + HexString(b[10..])
  }

  /** Within the digits of the bytes `lo..hi`, byte `k` has its two digits at `2 * (k - lo)`. */
  lemma GroupAt(b: seq<bv8>, lo: nat, hi: nat, k: nat)
    requires lo <= k < hi <= |b|
    ensures HexString(b[lo..hi])[2 * (k - lo)] == HexDigit(b[k] >> 4)
    ensures HexString(b[lo..hi])[2 * (k - lo) + 1] == HexDigit(b[k] & 0xF)
  {
    HexStringAt(b[lo..hi], k - lo);
    assert b[lo..hi][k - lo] == b[k];
  }

  /** The digits of byte `k` sit at `CharPos(k)` and `CharPos(k) + 1` of the formatted text. */
  lemma FormatAt(b: seq<bv8>, k: nat)
    requires |b| == ByteCount && k < ByteCount
    ensures Format(b)[CharPos(k)] == HexDigit(b[k] >> 4)
    ensures Format(b)[CharPos(k) + 1] == HexDigit(b[k] & 0xF)
  {
    var g0, g1, g2, g3, g4 := HexString(b[0..4]), HexString(b[4..6]), HexString(b[6..8]),
                              HexString(b[8..10]), HexString(b[10..16]);
    assert b[..4] == b[0..4] && b[10..] == b[10..16];
    var p4 := g0 + "-" + g1 + "-" + g2 + "-" + g3 + "-";
    assert Format(b) == p4 + g4;
    var i := CharPos(k);
    if k < 4 {
      GroupAt(b, 0, 4, k);
      assert Format(b)[i] == g0[i] && Format(b)[i + 1] == g0[i + 1];
    } else if k < 6 {
      GroupAt(b, 4, 6, k);
      assert Format(b)[i] == g1[i - 9] && Format(b)[i + 1] == g1[i + 1 - 9];
    } else if k < 8 {
      GroupAt(b, 6, 8, k);
      assert Format(b)[i] == g2[i - 14] && Format(b)[i + 1] == g2[i + 1 - 14];
    } else if k < 10 {
      GroupAt(b, 8, 10, k);
      assert Format(b)[i] == g3[i - 19] && Format(b)[i + 1] == g3[i + 1 - 19];
    } else {
      GroupAt(b, 10, 16, k);
      assert Format(b)[i] == g4[i - 24] && Format(b)[i + 1] == g4[i + 1 - 24];
    }
  }

  /** Formatting yields the canonical form. */
  lemma FormatIsCanonical(b: seq<bv8>)
    requires |b| == ByteCount
    ensures IsCanonical(Format(b))
  {
    var s := Format(b);
    forall j | 0 <= j < TextLength && !IsDashIndex(j)
      ensures IsLowerHex(s[j])
    {
      var k := ByteAt(j);
      FormatAt(b, k);
    }
  }

  /** Round trip: parsing the formatted bytes gives the bytes back. */
  lemma ParseFormat(b: seq<bv8>)
    requires |b| == ByteCount
    ensures LongEnough(Format(b)) && ParsedBytes(Format(b)) == b
  {
    var s := Format(b);
    forall k | 0 <= k < ByteCount
      ensures ParsedBytes(s)[k] == b[k]
    {
      FormatAt(b, k);
      HexDigitRoundTrip(b[k] >> 4);
      HexDigitRoundTrip(b[k] & 0xF);
      assert ((b[k] >> 4) << 4) | (b[k] & 0xF) == b[k];
    }
  }

  /** The other direction: a canonical string is the formatting of what it parses to. */
  lemma FormatParse(s: seq<char>)
    requires IsCanonical(s)
    ensures Format(ParsedBytes(s)) == s
  {
    var b := ParsedBytes(s);
    var t := Format(b);
    forall j | 0 <= j < TextLength
      ensures t[j] == s[j]
    {
      if !IsDashIndex(j) {
        var k := ByteAt(j);
        var i := CharPos(k);
        FormatAt(b, k);
        assert IsLowerHex(s[i]) && IsLowerHex(s[i + 1]);
      }
    }
  }
}
