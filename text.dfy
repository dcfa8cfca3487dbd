/** Ordinal case-insensitive comparison of strings, used to read the sort
    order and, through reflection, to bind a sort field to a property. */
module Text {

  /** Upper-cases an ASCII letter; every other character is left as it is. */
  function UpperChar(c: char): char
  {
    if 'a' <= c <= 'z' then (c as int - 32) as char else c
  }

  /** The string with every character upper-cased. */
  function Upper(s: string): string
  {
    seq(|s|, i requires 0 <= i < |s| => UpperChar(s[i]))
  }

  /** Equality ignoring case, one character at a time, in the manner of
      `StringComparison.OrdinalIgnoreCase`. */
  predicate EqualsIgnoreCase(a: string, b: string)
  {
    |a| == |b| && (a == [] || (UpperChar(a[0]) == UpperChar(b[0]) && EqualsIgnoreCase(a[1..], b[1..])))
  }

  /** The character-by-character comparison agrees with comparing the two
      upper-cased strings. */
  lemma {:induction false} EqualsIgnoreCaseIsUpperEquality(a: string, b: string)
    ensures EqualsIgnoreCase(a, b) <==> Upper(a) == Upper(b)
  {
    if |a| == |b| && a != [] {
      EqualsIgnoreCaseIsUpperEquality(a[1..], b[1..]);
      assert Upper(a[1..]) == Upper(a)[1..];
      assert Upper(b[1..]) == Upper(b)[1..];
      if Upper(a) == Upper(b) {
        assert Upper(a)[0] == Upper(b)[0];
      }
    }
  }

  /** Ignoring case is an equivalence relation. */
  lemma EqualsIgnoreCaseIsEquivalence(a: string, b: string, c: string)
    ensures EqualsIgnoreCase(a, a)
    ensures EqualsIgnoreCase(a, b) ==> EqualsIgnoreCase(b, a)
    ensures EqualsIgnoreCase(a, b) && EqualsIgnoreCase(b, c) ==> EqualsIgnoreCase(a, c)
  {
    EqualsIgnoreCaseIsUpperEquality(a, a);
    EqualsIgnoreCaseIsUpperEquality(a, b);
    EqualsIgnoreCaseIsUpperEquality(b, a);
    EqualsIgnoreCaseIsUpperEquality(b, c);
    EqualsIgnoreCaseIsUpperEquality(a, c);
  }
}
