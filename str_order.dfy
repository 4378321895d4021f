/**
 Python's ordering of `str` values: lexicographic comparison by code point,
 where a proper prefix sorts before the longer string. Dafny's own `<` on
 sequences means "proper prefix", so the order is defined here explicitly.
 */
module StrOrder {

  /** `a < b` on Python strings. */
  predicate Less(a: string, b: string)
    decreases |a|
  {
    if |a| == 0 then |b| > 0
    else if |b| == 0 then false
    else if a[0] != b[0] then a[0] < b[0]
    else Less(a[1..], b[1..])
  }

  /** `a <= b` on Python strings. */
  predicate LessEq(a: string, b: string)
  {
    a == b || Less(a, b)
  }

  lemma {:induction false} LessIrreflexive(a: string)
    ensures !Less(a, a)
  {
    if |a| > 0 {
      LessIrreflexive(a[1..]);
    }
  }

  lemma {:induction false} LessAsymmetric(a: string, b: string)
    requires Less(a, b)
    ensures !Less(b, a)
  {
    if |a| > 0 && |b| > 0 && a[0] == b[0] {
      LessAsymmetric(a[1..], b[1..]);
    }
  }

  lemma {:induction false} LessTransitive(a: string, b: string, c: string)
    requires Less(a, b) && Less(b, c)
    ensures Less(a, c)
  {
    if |a| > 0 && a[0] == b[0] && b[0] == c[0] {
      LessTransitive(a[1..], b[1..], c[1..]);
    }
  }

  /** Any two strings compare: exactly one of `a < b`, `a == b`, `b < a`. */
  lemma {:induction false} LessTrichotomy(a: string, b: string)
    ensures Less(a, b) || a == b || Less(b, a)
  {
    if |a| > 0 && |b| > 0 && a[0] == b[0] {
      LessTrichotomy(a[1..], b[1..]);
      if a[1..] == b[1..] {
        assert a == [a[0]] + a[1..] && b == [b[0]] + b[1..];
      }
    }
  }

  /** `not (b < a)` is `a <= b`: the swap test of the normaliser relies on this. */
  lemma NotLessIsLessEq(a: string, b: string)
    requires !Less(b, a)
    ensures LessEq(a, b)
  {
    LessTrichotomy(a, b);
  }

  /** Pairs of strings ordered as Python orders 2-tuples of strings. */
  predicate PairLess(p: (string, string), q: (string, string))
  {
    Less(p.0, q.0) || (p.0 == q.0 && Less(p.1, q.1))
  }

  lemma PairLessIrreflexive(p: (string, string))
    ensures !PairLess(p, p)
  {
    LessIrreflexive(p.0);
    LessIrreflexive(p.1);
  }

  lemma PairLessAsymmetric(p: (string, string), q: (string, string))
    requires PairLess(p, q)
    ensures !PairLess(q, p)
  {
    if Less(p.0, q.0) {
      LessAsymmetric(p.0, q.0);
      LessIrreflexive(p.0);
    } else {
      LessAsymmetric(p.1, q.1);
      LessIrreflexive(p.0);
    }
  }

  lemma PairLessTransitive(p: (string, string), q: (string, string), r: (string, string))
    requires PairLess(p, q) && PairLess(q, r)
    ensures PairLess(p, r)
  {
    if Less(p.0, q.0) && Less(q.0, r.0) {
      LessTransitive(p.0, q.0, r.0);
    } else if Less(p.0, q.0) || Less(q.0, r.0) {
    } else {
      LessTransitive(p.1, q.1, r.1);
    }
  }

  lemma PairLessTrichotomy(p: (string, string), q: (string, string))
    ensures PairLess(p, q) || p == q || PairLess(q, p)
  {
    LessTrichotomy(p.0, q.0);
    LessTrichotomy(p.1, q.1);
  }
}
