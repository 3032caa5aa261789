/** Case-insensitive string comparison in the manner of Java's
    `String.equalsIgnoreCase`, with the case mapping restricted to ASCII. */
module CaseFold {

  /** ASCII lower-casing of one character; every other character is kept. */
  function ToLowerChar(c: char): (r: char)
    ensures !('A' <= r <= 'Z')
    ensures r != c ==> 'A' <= c <= 'Z'
  {
    if 'A' <= c <= 'Z' then (c as int + 32) as char else c
  }

  /** ASCII upper-casing of one character; every other character is kept. */
  function ToUpperChar(c: char): (r: char)
    ensures !('a' <= r <= 'z')
    ensures r != c ==> 'a' <= c <= 'z'
  {
    if 'a' <= c <= 'z' then (c as int - 32) as char else c
  }

  /** The per-character rule of Java's case-insensitive region match: the two
      characters are equal, or equal once upper-cased, or equal once
      upper-cased and then lower-cased. */
  predicate CharEqualsIgnoreCase(c1: char, c2: char) {
    c1 == c2
    || ToUpperChar(c1) == ToUpperChar(c2)
    || ToLowerChar(ToUpperChar(c1)) == ToLowerChar(ToUpperChar(c2))
  }

  /** `a.equalsIgnoreCase(b)` for a non-null `b`: same length and every
      position matches under the per-character rule. */
  predicate EqualsIgnoreCase(a: string, b: string) {
    |a| == |b| && forall i :: 0 <= i < |a| ==> CharEqualsIgnoreCase(a[i], b[i])
  }

  /** The reference notion of "same letters up to case": the ASCII
      lower-cased forms agree. */
  function LowerAscii(s: string): (r: string)
    ensures |r| == |s|
  {
    if s == [] then [] else [ToLowerChar(s[0])] + LowerAscii(s[1..])
  }

  lemma CharEqualsIgnoreCaseIffLower(c1: char, c2: char)
    ensures CharEqualsIgnoreCase(c1, c2) <==> ToLowerChar(c1) == ToLowerChar(c2)
  {
  }

  lemma {:induction false} LowerAsciiAt(s: string, i: nat)
    requires i < |s|
    ensures LowerAscii(s)[i] == ToLowerChar(s[i])
  {
    if i > 0 {
      LowerAsciiAt(s[1..], i - 1);
    }
  }

  /** Java's character-by-character rule and lower-casing both sides decide
      the same question. */
  lemma EqualsIgnoreCaseIffLower(a: string, b: string)
    ensures EqualsIgnoreCase(a, b) <==> LowerAscii(a) == LowerAscii(b)
  {
    if |a| == |b| {
      if EqualsIgnoreCase(a, b) {
        forall i | 0 <= i < |a| ensures LowerAscii(a)[i] == LowerAscii(b)[i] {
          LowerAsciiAt(a, i);
          LowerAsciiAt(b, i);
          CharEqualsIgnoreCaseIffLower(a[i], b[i]);
        }
      }
      if LowerAscii(a) == LowerAscii(b) {
        forall i | 0 <= i < |a| ensures CharEqualsIgnoreCase(a[i], b[i]) {
          LowerAsciiAt(a, i);
          LowerAsciiAt(b, i);
          CharEqualsIgnoreCaseIffLower(a[i], b[i]);
        }
      }
    }
  }
}
