/** The `UUID` struct: 16 bytes held in a fixed array, filled in place by the
    parser, compared as a value. */
module Uuids {
  import opened HexDigits
  import opened CanonicalForm
  import opened ByteOrder

  class Uuid {
    /** The bytes, in the order their digits appear in the text form. */
    const bytes: array<bv8>

    ghost predicate Valid()
      reads this
    {
      bytes.Length == ByteCount
    }

    /** The value the object holds. */
    ghost function Value(): (v: seq<bv8>)
      reads this, bytes
      requires Valid()
      ensures |v| == ByteCount
    {
      bytes[..]
    }

    /** `UUID(false)`: the array is zero-initialised and nothing else happens. */
    constructor Zero()
      ensures Valid() && fresh(bytes)
      ensures forall k :: 0 <= k < ByteCount ==> Value()[k] == 0
    {
      bytes := new bv8[ByteCount](_ => 0);
    }

    /** `UUID(const char*)`: zero-initialise, then parse. The string must be
        long enough for every read the parser makes. */
    constructor FromString(s: seq<char>)
      requires LongEnough(s)
      ensures Valid() && fresh(bytes)
      ensures Value() == ParsedBytes(s)
    {
      bytes := new bv8[ByteCount](_ => 0);
      new;
      ghost var written := ParseFrom(s);
    }

    /** `parseFrom`: walk the 36 characters, step over the dash positions and
        store each pair of digits as the next byte. The new value is a
        function of the string alone, whatever the array held before;
        `written` lists the array indices stored to, in order. */
    method ParseFrom(s: seq<char>) returns (ghost written: seq<nat>)
      requires Valid() && LongEnough(s)
      modifies bytes
      ensures Valid()
      ensures Value() == ParsedBytes(s)
      ensures written == seq(ByteCount, k => k)
    {
      var offset: nat := 0;
      var i: nat := 0;
      written := [];
      while i < TextLength
        invariant offset <= ByteCount && i <= TextLength
        invariant i == CharPos(offset) || (IsDashIndex(i) && i + 1 == CharPos(offset))
        invariant forall k :: 0 <= k < offset ==> bytes[k] == ParseTwoHexDigits(s, CharPos(k))
        invariant written == seq(offset, k => k)
        decreases TextLength - i
      {
        if i == 8 || i == 13 || i == 18 || i == 23 {
          i := i + 1;
          continue;
        }
        bytes[offset] := ParseTwoHexDigits(s, i);
        written := written + [offset];
        offset := offset + 1;
        i := i + 2;
      }
    }

    /** `operator<`: the first byte where the two differ decides, compared unsigned. */
    function Less(other: Uuid): (r: bool)
      reads this, bytes, other, other.bytes
      requires Valid() && other.Valid()
      ensures r <==> FirstDifferenceLess(Value(), other.Value())
    {
      LexLessFirstDifference(bytes[..], other.bytes[..]);
      LexLess(bytes[..], other.bytes[..])
    }

    /** `operator==`: all 16 bytes agree. */
    function Equals(other: Uuid): (r: bool)
      reads this, bytes, other, other.bytes
      requires Valid() && other.Valid()
      ensures r <==> forall k :: 0 <= k < ByteCount ==> bytes[k] == other.bytes[k]
    {
      bytes[..] == other.bytes[..]
    }
  }

  /** Equality is equality of the held values, hence an equivalence. */
  lemma EqualsIsValueEquality(a: Uuid, b: Uuid)
    requires a.Valid() && b.Valid()
    ensures a.Equals(b) <==> a.Value() == b.Value()
  {
  }

  /** For any two UUIDs exactly one of `a < b`, `b < a`, `a == b` holds. */
  lemma LessTrichotomy(a: Uuid, b: Uuid)
    requires a.Valid() && b.Valid()
    ensures a.Less(b) || b.Less(a) || a.Equals(b)
    ensures !(a.Less(b) && b.Less(a))
    ensures a.Equals(b) ==> !a.Less(b) && !b.Less(a)
  {
    LexLessTrichotomy(a.Value(), b.Value());
  }

  lemma LessIrreflexive(a: Uuid)
    requires a.Valid()
    ensures !a.Less(a)
  {
  }

  lemma LessTransitive(a: Uuid, b: Uuid, c: Uuid)
    requires a.Valid() && b.Valid() && c.Valid()
    requires a.Less(b) && b.Less(c)
    ensures a.Less(c)
  {
    LexLessTransitive(a.Value(), b.Value(), c.Value());
  }

  /** A UUID built from the text form of any 16 bytes holds those bytes. */
  method FromFormatted(v: seq<bv8>) returns (u: Uuid)
    requires |v| == ByteCount
    ensures u.Valid() && u.Value() == v
  {
    ParseFormat(v);
    u := new Uuid.FromString(Format(v));
  }
}
