/**
 * Python's ordering of `str` values: code-point lexicographic, where a proper
 * prefix is smaller. The source compares ISO dates (`YYYY-MM-DD`) with it, both
 * in plain Python (`>` on strings) and through pandas (`max`, `>=`, `<` on a
 * column of strings).
 */
module Lex {

  /** `a < b` on Python strings. */
  predicate Less(a: string, b: string)
    decreases |a|
  {
    if |a| == 0 then |b| > 0
    else if |b| == 0 then false
    else a[0] < b[0] || (a[0] == b[0] && Less(a[1..], b[1..]))
  }

  /** `a <= b` on Python strings. */
  predicate LessEq(a: string, b: string) {
    a == b || Less(a, b)
  }

  lemma {:induction false} LessIrreflexive(a: string)
    ensures !Less(a, a)
    decreases |a|
  {
    if |a| > 0 {
      LessIrreflexive(a[1..]);
    }
  }

  lemma {:induction false} LessAsymmetric(a: string, b: string)
    requires Less(a, b)
    ensures !Less(b, a)
    decreases |a|
  {
    if |a| > 0 && |b| > 0 && a[0] == b[0] {
      LessAsymmetric(a[1..], b[1..]);
    }
  }

  lemma {:induction false} LessTransitive(a: string, b: string, c: string)
    requires Less(a, b) && Less(b, c)
    ensures Less(a, c)
    decreases |a|
  {
    if |a| > 0 && a[0] == b[0] && b[0] == c[0] {
      LessTransitive(a[1..], b[1..], c[1..]);
    }
  }

  /** Any two strings are ordered one way or the other. */
  lemma {:induction false} LessTotal(a: string, b: string)
    ensures a == b || Less(a, b) || Less(b, a)
    decreases |a|
  {
    if |a| > 0 && |b| > 0 && a[0] == b[0] {
      LessTotal(a[1..], b[1..]);
      if a[1..] == b[1..] {
        assert a == [a[0]] + a[1..] && b == [b[0]] + b[1..];
      }
    }
  }

  /** The empty string, the source's starting value for a running maximum, is below every string. */
  lemma EmptyIsLeast(a: string)
    ensures LessEq("", a)
  {
  }

  lemma LessEqTransitive(a: string, b: string, c: string)
    requires LessEq(a, b) && LessEq(b, c)
    ensures LessEq(a, c)
  {
    if a != b && b != c {
      LessTransitive(a, b, c);
    }
  }

  /** `<=` is the complement of the reversed `<`: exactly one of `a < b`, `b <= a` holds. */
  lemma NotLessIsGreaterEq(a: string, b: string)
    ensures !Less(a, b) <==> LessEq(b, a)
  {
    LessTotal(a, b);
    if Less(a, b) {
      LessAsymmetric(a, b);
      LessIrreflexive(a);
    }
  }

  /** The greater of two strings, as pandas' `max` aggregation picks it. */
  function Max(a: string, b: string): (r: string)
    ensures LessEq(a, r) && LessEq(b, r)
    ensures r == a || r == b
  {
    LessTotal(a, b);
    if Less(a, b) then b else a
  }
}
