/**
 * Go string comparison and prefix tests on `seq<char>`.
 * Go compares strings byte by byte; UTF-8 preserves code-point order, so
 * comparing characters by code point gives the same order.
 */
module Text {

  /** Go's `a < b` on strings: lexicographic, a proper prefix sorts first. */
  predicate Lt(a: string, b: string)
    decreases |a|
  {
    if a == [] then b != []
    else if b == [] then false
    else if a[0] < b[0] then true
    else a[0] == b[0] && Lt(a[1..], b[1..])
  }

  predicate Le(a: string, b: string) {
    a == b || Lt(a, b)
  }

  /** `strings.HasPrefix(s, prefix)`. */
  predicate HasPrefix(s: string, prefix: string) {
    |prefix| <= |s| && s[..|prefix|] == prefix
  }

  lemma {:induction false} LtIrreflexive(a: string)
    ensures !Lt(a, a)
    decreases |a|
  {
    if a != [] {
      LtIrreflexive(a[1..]);
    }
  }

  lemma {:induction false} LtTransitive(a: string, b: string, c: string)
    requires Lt(a, b) && Lt(b, c)
    ensures Lt(a, c)
    decreases |a|
  {
    if a != [] && b != [] && c != [] && a[0] == b[0] && b[0] == c[0] {
      LtTransitive(a[1..], b[1..], c[1..]);
    }
  }

  lemma {:induction false} LtTotal(a: string, b: string)
    ensures a == b || Lt(a, b) || Lt(b, a)
    decreases |a|
  {
    if a != [] && b != [] && a[0] == b[0] {
      LtTotal(a[1..], b[1..]);
      if a[1..] == b[1..] {
        assert a == [a[0]] + a[1..] && b == [b[0]] + b[1..];
      }
    }
  }

  lemma LtAsymmetric(a: string, b: string)
    requires Lt(a, b)
    ensures !Lt(b, a) && a != b
  {
    LtIrreflexive(a);
    if Lt(b, a) {
      LtTransitive(a, b, a);
    }
  }

  lemma LeTransitive(a: string, b: string, c: string)
    requires Le(a, b) && Le(b, c)
    ensures Le(a, c)
  {
    if Lt(a, b) && Lt(b, c) {
      LtTransitive(a, b, c);
    }
  }

  /** Not `a <= b` is `b < a`: the order is total. */
  lemma NotLeIsGreater(a: string, b: string)
    ensures !Le(a, b) <==> Lt(b, a)
  {
    LtTotal(a, b);
    if Lt(b, a) {
      LtAsymmetric(b, a);
    }
  }
}
