/**
 * Character classes of the URL pattern, as Python's `re` reads them under
 * IGNORECASE on ASCII text: `[A-Z]` also takes `a`-`z`, `[A-F]` also takes
 * `a`-`f`, and `\d`, `\s` are the ASCII digits and ASCII white space.
 */
module Chars {

  /** `[A-Z]` under IGNORECASE. */
  predicate IsLetter(c: char) {
    'a' <= c <= 'z' || 'A' <= c <= 'Z'
  }

  /** `\d` on ASCII. */
  predicate IsDigit(c: char) {
    '0' <= c <= '9'
  }

  /** `[A-Z0-9]` under IGNORECASE. */
  predicate IsAlnum(c: char) {
    IsLetter(c) || IsDigit(c)
  }

  /** `[A-Z0-9-]` under IGNORECASE. */
  predicate IsAlnumOrHyphen(c: char) {
    IsAlnum(c) || c == '-'
  }

  /** `[A-F0-9]` under IGNORECASE. */
  predicate IsHexDigit(c: char) {
    IsDigit(c) || 'a' <= c <= 'f' || 'A' <= c <= 'F'
  }

  /** `[A-F0-9:]` under IGNORECASE. */
  predicate IsHexOrColon(c: char) {
    IsHexDigit(c) || c == ':'
  }

  /**
   * `\s` on ASCII: Python counts the controls 9 to 13, the separators
   * 28 to 31 and the space as white space.
   */
  predicate IsSpace(c: char) {
    9 <= c as int <= 13 || 28 <= c as int <= 31 || c == ' '
  }

  /** `\S`. */
  predicate IsNonSpace(c: char) {
    !IsSpace(c)
  }

  /** ASCII lower-casing, the folding IGNORECASE applies to literal letters. */
  function ToLower(c: char): (d: char)
    ensures IsLetter(c) <==> IsLetter(d) && 'a' <= d <= 'z'
    ensures !IsLetter(c) ==> d == c
  {
    if 'A' <= c <= 'Z' then (c as int - 'A' as int + 'a' as int) as char else c
  }

  /** `x` matches the literal `y` under IGNORECASE. */
  predicate EqualsIgnoringCase(x: string, y: string) {
    |x| == |y| && forall i :: 0 <= i < |x| ==> ToLower(x[i]) == ToLower(y[i])
  }

  /** Every character of `s` is in the class `p`. */
  predicate All(s: string, p: char -> bool) {
    forall i :: 0 <= i < |s| ==> p(s[i])
  }

  lemma AllAppend(a: string, b: string, p: char -> bool)
    ensures All(a + b, p) <==> All(a, p) && All(b, p)
  {
    if All(a, p) && All(b, p) {
      forall i | 0 <= i < |a + b| ensures p((a + b)[i]) {
        if i >= |a| {
          assert (a + b)[i] == b[i - |a|];
        }
      }
    }
    if All(a + b, p) {
      forall i | 0 <= i < |a| ensures p(a[i]) {
        assert (a + b)[i] == a[i];
      }
      forall i | 0 <= i < |b| ensures p(b[i]) {
        assert (a + b)[|a| + i] == b[i];
      }
    }
  }

  lemma AllSlice(s: string, i: int, j: int, p: char -> bool)
    requires 0 <= i <= j <= |s|
    requires All(s, p)
    ensures All(s[i..j], p)
  {
    forall t | 0 <= t < j - i ensures p(s[i..j][t]) {
      assert s[i..j][t] == s[i + t];
    }
  }

  /** A class that holds both sides of a cut holds the whole string. */
  lemma AllSplit(s: string, i: int, p: char -> bool)
    requires 0 <= i <= |s|
    requires All(s[..i], p) && All(s[i..], p)
    ensures All(s, p)
  {
    forall t | 0 <= t < |s| ensures p(s[t]) {
      if t < i {
        assert s[t] == s[..i][t];
      } else {
        assert s[t] == s[i..][t - i];
      }
    }
  }
}
