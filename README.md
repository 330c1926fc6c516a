# UUID value type

A Dafny model of the `UUID` struct of Arduino-UUID (`include/UUID.h`): a
version-4 UUID held as 16 bytes in a fixed array. The struct parses the
lowercase canonical text form `xxxxxxxx-xxxx-xxxx-xxxx-xxxxxxxxxxxx`
(section 3 of RFC 4122) into the array in place, and it compares two UUIDs
by their bytes.

Layout of the project:

- `hex.dfy`, module `HexDigits`: `_hexToHalfByte` and `_parseTwoHexDigits`.
  Bytes are `bv8`, the width of `uint8_t`, so the shift, the bitwise or and the
  truncation on return are exact. `HexDigit` and `HexPair` are the formatting
  direction. They are used only to state round trips.
- `layout.dfy`, module `CanonicalForm`: where each byte's digits sit in the
  text (`CharPos`, `ByteAt`), the bytes the parser stores (`ParsedBytes`),
  and a formatter `Format` for the documented 8-4-4-4-12 layout. It also
  proves the round trips between parsing and formatting in both directions.
- `order.dfy`, module `ByteOrder`: the lexicographic unsigned-byte order of
  `std::array<uint8_t, 16>` and its properties as a strict total order.
- `uuid.dfy`, module `Uuids`: the class `Uuid`. It has the byte array, both
  constructors (zero-initialisation path), `parseFrom` as a `while` loop that
  writes into the array, and `operator<` / `operator==`.

Input contract. The source states that malformed input gives undefined
behaviour. The model splits that statement in two:
- Reading past the end of the string is excluded by a precondition
  (`LongEnough`: at least 36 characters).
- Any other character is decoded exactly as the code does, by
  `c - 'a' + 10` truncated to 8 bits. The lemmas about what a byte means
  assume that the 32 digit positions hold lowercase hex digits
  (`HexWhereRead`).

The dash positions are never read, so no lemma constrains them. The one
exception is `FormatParse`, which is about the exact canonical form.

The code reads only the first 36 characters. A longer string is therefore
parsed from its first 36 characters, and the rest is ignored
(`ParsedBytesReadsOnlyDigits`). The model follows the code here rather than
the "exactly 36 characters" wording of the documentation.

## Model

| member | source | states |
|---|---|---|
| `HexDigits.HexToHalfByte` | include/UUID.h:36-42 | on a lowercase hex digit the result is a nibble (< 16) and the digit that formats back to that character: '0'..'9' give 0..9, 'a'..'f' give 10..15 |
| `HexDigits.HexDigitRoundTrip` | include/UUID.h:36-42 | decoding inverts formatting: every nibble 0..15 survives the trip through its lowercase digit |
| `HexDigits.HexToHalfByteInjective` | include/UUID.h:36-42 | distinct lowercase hex digits decode to distinct values |
| `HexDigits.UppercaseDecodesOutOfRange` | include/UUID.h:41 | uppercase 'A'..'F' are not recognised: they wrap around to 234..239, outside the nibble range |
| `HexDigits.ParseTwoHexDigits` | include/UUID.h:44-49 | on two hex digits the byte is 16 * high + low, with the first character as the high nibble; the high and low nibbles of the result are exactly the two decoded digits, so nothing is truncated |
| `HexDigits.HexPairRoundTrip` | include/UUID.h:44-49 | parsing the two lowercase digits of any byte gives that byte back |
| `CanonicalForm.CharPos` | include/UUID.h:62-69 | the digits of each of the 16 bytes lie inside the 36 characters and never on a dash position; position 36 belongs to byte 16 and no other |
| `CanonicalForm.ByteAt` | include/UUID.h:62-69 | every non-dash position below 36 is the high or low digit of some byte 0..15 |
| `CanonicalForm.PositionMapExact` | include/UUID.h:62-69 | that byte is unique: the position-to-byte mapping is exact |
| `CanonicalForm.CharPosMonotone` | include/UUID.h:62-69 | earlier bytes' digit pairs come strictly earlier in the text, so pairs never overlap |
| `CanonicalForm.ParsedByteAt` | include/UUID.h:63-68 | byte k is 16 * digit(2k+d) + digit(2k+d+1), with d = 0, 1, 2, 3, 4 for bytes 0-3, 4-5, 6-7, 8-9, 10-15 |
| `CanonicalForm.ParsedBytesReadsOnlyDigits` | include/UUID.h:58-71 | the result depends only on the 32 non-dash positions below 36: the dashes and anything after position 35 never influence it |
| `CanonicalForm.FormatAt` | include/UUID.h:53-54 | in the documented layout the digits of byte k sit at CharPos(k) and CharPos(k)+1, high nibble first |
| `CanonicalForm.FormatIsCanonical` | include/UUID.h:53-54 | formatting any 16 bytes gives the canonical form: 36 characters, dashes at 8, 13, 18, 23, lowercase hex elsewhere |
| `CanonicalForm.ParseFormat` | include/UUID.h:53-71 | round trip: parsing the formatted text of any 16 bytes yields those bytes |
| `CanonicalForm.FormatParse` | include/UUID.h:53-71 | the other direction: every canonical string is the formatting of the bytes parsed from it |
| `ByteOrder.LexLessFirstDifference` | include/UUID.h:87-89 | for equal lengths, lexicographic less-than holds iff the sequences agree up to some position where the first has the smaller unsigned byte |
| `ByteOrder.LexLessIrreflexive` | include/UUID.h:87-89 | no byte sequence is less than itself |
| `ByteOrder.LexLessAsymmetric` | include/UUID.h:87-89 | a < b and b < a never hold together |
| `ByteOrder.LexLessTransitive` | include/UUID.h:87-89 | a < b and b < c imply a < c |
| `ByteOrder.LexLessTrichotomy` | include/UUID.h:87-89 | for equal lengths exactly one of a < b, b < a, a == b holds |
| `Uuids.Uuid.Zero` | include/UUID.h:17-23 | `UUID(false)` holds 16 zero bytes |
| `Uuids.Uuid.FromString` | include/UUID.h:30-34 | `UUID(s)` holds exactly the bytes `parseFrom(s)` stores |
| `Uuids.Uuid.ParseFrom` | include/UUID.h:58-71 | the loop ends with all 16 array slots written: each index 0..15 exactly once and in order, never past 15. Each byte is decoded from its digit pair. The new value is a function of the string alone, not of the old contents. Its invariant: i is the start of the next pair or a dash just before it, and offset counts the pairs consumed |
| `Uuids.Uuid.Less` | include/UUID.h:87-89 | `a < b` iff at the first byte where they differ a's byte is smaller, unsigned |
| `Uuids.Uuid.Equals` | include/UUID.h:91-93 | `a == b` iff all 16 bytes are equal |
| `Uuids.EqualsIsValueEquality` | include/UUID.h:91-93 | `==` is equality of the held 16-byte values, hence reflexive, symmetric and transitive |
| `Uuids.LessTrichotomy` | include/UUID.h:87-93 | for any two UUIDs exactly one of `a < b`, `b < a`, `a == b` holds |
| `Uuids.LessIrreflexive` | include/UUID.h:87-89 | no UUID is less than itself |
| `Uuids.LessTransitive` | include/UUID.h:87-89 | `<` is transitive |
| `Uuids.FromFormatted` | include/UUID.h:30-34 | constructing a UUID from the documented text form of any 16 bytes yields an object holding those bytes |

## Left out

- `generate()` and the default `UUID(true)` branch that calls it are not modelled. They are a foreign call to `ESPRandom::uuid4`, backed by hardware entropy. The version and variant bits of section 4.4 of RFC 4122 are set there, so this model does not capture them.
- `toString()` is not modelled. It is a foreign call to `ESPRandom::uuidToString`, which returns an Arduino `String`. `CanonicalForm.Format` is written from the documented layout instead, and the round-trip lemmas are stated against it.
- Strings shorter than 36 characters are excluded by a precondition. The source reads past their end, which is undefined behaviour.
- Characters are modelled by their Unicode code point. The signedness and 8-bit width of C `char` are not modelled. This matters only for non-ASCII input, which the source leaves undefined.
- The C string is a `seq<char>`. A NUL terminator inside the first 36 characters is read like any other character, as the code does.
- Value semantics are not modelled: the struct is copied by value in C++, while the model's class is a reference. Copies and aliasing are not modelled.
- The Arduino and ESPRandom includes and everything platform-specific are not modelled.
