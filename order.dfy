/** The order `std::array<uint8_t, 16>` compares by: lexicographic over the
    bytes, each compared as an unsigned number. */
module ByteOrder {

  /** Lexicographic less-than in the manner of `std::lexicographical_compare`:
      the first differing byte decides; a proper prefix is smaller. */
  function LexLess(a: seq<bv8>, b: seq<bv8>): bool {
    if |b| == 0 then false
    else if |a| == 0 then true
    else if a[0] != b[0] then a[0] < b[0]
    else LexLess(a[1..], b[1..])
  }

  /** For sequences of one length: the bytes agree up to some `k`, where `a`'s is smaller. */
  ghost predicate FirstDifferenceLess(a: seq<bv8>, b: seq<bv8>) {
    exists k :: 0 <= k < |a| && k < |b| && a[..k] == b[..k] && a[k] < b[k]
  }

  /** `LexLess` is decided by the first differing position. */
  lemma {:induction false} LexLessFirstDifference(a: seq<bv8>, b: seq<bv8>)
    requires |a| == |b|
    ensures LexLess(a, b) <==> FirstDifferenceLess(a, b)
  {
    if |a| == 0 {
    } else if a[0] != b[0] {
      if a[0] < b[0] {
        assert a[..0] == b[..0];
      }
    } else {
      LexLessFirstDifference(a[1..], b[1..]);
      if LexLess(a, b) {
        var k :| 0 <= k < |a| - 1 && a[1..][..k] == b[1..][..k] && a[1..][k] < b[1..][k];
        assert a[..k + 1] == [a[0]] + a[1..][..k];
        assert b[..k + 1] == [b[0]] + b[1..][..k];
      }
      if FirstDifferenceLess(a, b) {
        var k :| 0 <= k < |a| && a[..k] == b[..k] && a[k] < b[k];
        assert k > 0;
        assert a[1..][..k - 1] == a[..k][1..];
        assert b[1..][..k - 1] == b[..k][1..];
      }
    }
  }

  /** No sequence is less than itself. */
  lemma {:induction false} LexLessIrreflexive(a: seq<bv8>)
    ensures !LexLess(a, a)
  {
    if |a| > 0 {
      LexLessIrreflexive(a[1..]);
    }
  }

  /** Less-than in both directions is impossible. */
  lemma {:induction false} LexLessAsymmetric(a: seq<bv8>, b: seq<bv8>)
    ensures !(LexLess(a, b) && LexLess(b, a))
  {
    if |a| > 0 && |b| > 0 && a[0] == b[0] {
      LexLessAsymmetric(a[1..], b[1..]);
    }
  }

  lemma {:induction false} LexLessTransitive(a: seq<bv8>, b: seq<bv8>, c: seq<bv8>)
    requires LexLess(a, b) && LexLess(b, c)
    ensures LexLess(a, c)
  {
    if |a| > 0 && a[0] == b[0] && b[0] == c[0] {
      LexLessTransitive(a[1..], b[1..], c[1..]);
    }
  }

  /** On sequences of one length, exactly one of `a < b`, `b < a`, `a == b` holds. */
  lemma {:induction false} LexLessTrichotomy(a: seq<bv8>, b: seq<bv8>)
    requires |a| == |b|
    ensures LexLess(a, b) || LexLess(b, a) || a == b
    ensures !(LexLess(a, b) && LexLess(b, a))
    ensures a == b ==> !LexLess(a, b)
  {
    LexLessAsymmetric(a, b);
    LexLessIrreflexive(a);
    if |a| > 0 && a[0] == b[0] {
      LexLessTrichotomy(a[1..], b[1..]);
      if a[1..] == b[1..] {
        assert a == [a[0]] + a[1..] && b == [b[0]] + b[1..];
      }
    }
  }
}
