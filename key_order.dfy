/** Case-insensitive ordering of sort keys, as the ordered set compares them with
    `compareToIgnoreCase` and `equalsIgnoreCase`: every character is case-folded,
    then the folded strings are compared lexicographically, a proper prefix
    coming first. */
module KeyOrder {

  /** The case fold applied to one character before comparing. Only ASCII letters
      are folded here; the proofs below use nothing about the fold except that it
      is a function of the character. */
  function Fold(c: char): char {
    if 'A' <= c <= 'Z' then (c as int + 32) as char else c
  }

  function Folded(s: string): (r: string)
    ensures |r| == |s|
    ensures forall i :: 0 <= i < |s| ==> r[i] == Fold(s[i])
  {
    if s == [] then [] else [Fold(s[0])] + Folded(s[1..])
  }

  /** Lexicographic comparison with the sign convention of Java's `compareTo`:
      the difference of the first differing characters, otherwise the difference
      of the lengths. */
  function LexCompare(a: string, b: string): int {
    if |a| == 0 || |b| == 0 then |a| - |b|
    else if a[0] != b[0] then a[0] as int - b[0] as int
    else LexCompare(a[1..], b[1..])
  }

  function CompareIgnoreCase(a: string, b: string): int {
    LexCompare(Folded(a), Folded(b))
  }

  predicate EqualsIgnoreCase(a: string, b: string) {
    Folded(a) == Folded(b)
  }

  /** `a` sorts strictly before `b`. */
  predicate Less(a: string, b: string) {
    CompareIgnoreCase(a, b) < 0
  }

  /** `a` sorts before `b` or together with it. */
  predicate LessEq(a: string, b: string) {
    !Less(b, a)
  }

  lemma {:induction false} LexAntisymmetric(a: string, b: string)
    ensures LexCompare(b, a) == -LexCompare(a, b)
  {
    if |a| != 0 && |b| != 0 && a[0] == b[0] {
      LexAntisymmetric(a[1..], b[1..]);
    }
  }

  lemma {:induction false} LexZero(a: string, b: string)
    ensures LexCompare(a, b) == 0 <==> a == b
  {
    if |a| != 0 && |b| != 0 && a[0] == b[0] {
      LexZero(a[1..], b[1..]);
      assert a == [a[0]] + a[1..] && b == [b[0]] + b[1..];
    }
  }

  lemma {:induction false} LexTransitive(a: string, b: string, c: string)
    requires LexCompare(a, b) < 0 && LexCompare(b, c) < 0
    ensures LexCompare(a, c) < 0
  {
    if |a| != 0 && |b| != 0 && |c| != 0 && a[0] == b[0] == c[0] {
      LexTransitive(a[1..], b[1..], c[1..]);
    }
  }

  /** The comparison is antisymmetric in sign, and it is zero exactly on keys that
      are equal ignoring case: of `Less(a, b)`, `EqualsIgnoreCase(a, b)` and
      `Less(b, a)` exactly one holds. */
  lemma CompareSign(a: string, b: string)
    ensures CompareIgnoreCase(b, a) == -CompareIgnoreCase(a, b)
    ensures CompareIgnoreCase(a, b) == 0 <==> EqualsIgnoreCase(a, b)
    ensures Less(a, b) <==> !EqualsIgnoreCase(a, b) && !Less(b, a)
  {
    LexAntisymmetric(Folded(a), Folded(b));
    LexZero(Folded(a), Folded(b));
  }

  lemma LessTransitive(a: string, b: string, c: string)
    requires Less(a, b) && Less(b, c)
    ensures Less(a, c)
  {
    LexTransitive(Folded(a), Folded(b), Folded(c));
  }

  lemma LessEqTransitive(a: string, b: string, c: string)
    requires LessEq(a, b) && LessEq(b, c)
    ensures LessEq(a, c)
  {
    CompareSign(a, b);
    CompareSign(b, c);
    CompareSign(a, c);
    if !EqualsIgnoreCase(a, b) && !EqualsIgnoreCase(b, c) {
      LessTransitive(a, b, c);
    }
  }

  lemma LessThenLessEq(a: string, b: string, c: string)
    requires Less(a, b) && LessEq(b, c)
    ensures Less(a, c)
  {
    CompareSign(b, c);
    if EqualsIgnoreCase(b, c) {
      assert CompareIgnoreCase(a, b) == CompareIgnoreCase(a, c);
    } else {
      LessTransitive(a, b, c);
    }
  }

  lemma LessEqThenLess(a: string, b: string, c: string)
    requires LessEq(a, b) && Less(b, c)
    ensures Less(a, c)
  {
    CompareSign(a, b);
    if EqualsIgnoreCase(a, b) {
      assert CompareIgnoreCase(a, c) == CompareIgnoreCase(b, c);
    } else {
      LessTransitive(a, b, c);
    }
  }
}
