/** Characters, character classes and case mapping as Go's regexp and strings packages see them. */
module Text {

  datatype Option<+T> = None | Some(value: T)

  /** Go's regexp class `\s`: exactly [\t\n\f\r ] (no vertical tab, no non-ASCII space). */
  predicate IsSpace(c: char) {
    c == '\t' || c == '\n' || c == '\U{000C}' || c == '\r' || c == ' '
  }

  /** ASCII upper case; every other character is its own image. */
  function Upper(c: char): char {
    if 'a' <= c <= 'z' then (c as int - 32) as char else c
  }

  /**
   * Whether c matches the lower-case ASCII letter k under Go's `(?i)` flag: k, its upper
   * case, and the non-ASCII members of the simple case-folding orbits of `s` (U+017F, long s)
   * and `k` (U+212A, Kelvin sign).
   */
  predicate FoldEq(c: char, k: char) {
    || c == k
    || c == Upper(k)
    || (k == 's' && c == '\U{017F}')
    || (k == 'k' && c == '\U{212A}')
  }

  /** The lower-case ASCII word w occurs at s[p..] under case folding. */
  predicate FoldAt(s: string, p: nat, w: string) {
    p + |w| <= |s| && forall i :: 0 <= i < |w| ==> FoldEq(s[p + i], w[i])
  }

  /** The literal w occurs at s[p..]. */
  predicate StartsAt(s: string, p: nat, w: string) {
    p + |w| <= |s| && s[p..p + |w|] == w
  }

  /** A literal occurrence begins with the literal's first character. */
  lemma StartsAtFirst(s: string, p: nat, w: string)
    requires |w| > 0
    ensures StartsAt(s, p, w) ==> p < |s| && s[p] == w[0]
  {
    if StartsAt(s, p, w) {
      assert s[p..p + |w|][0] == s[p];
    }
  }

  /**
   * Go's unicode.ToLower on the characters that matter here: ASCII capitals, and the two
   * non-ASCII characters whose lower case is ASCII (U+0130 gives 'i', U+212A gives 'k').
   * Every other character keeps its value; its Go lower case is never ASCII.
   */
  function LowerRune(c: char): char {
    if 'A' <= c <= 'Z' then (c as int + 32) as char
    else if c == '\U{0130}' then 'i'
    else if c == '\U{212A}' then 'k'
    else c
  }

  /** strings.ToLower, character by character. */
  function ToLower(s: string): string {
    seq(|s|, i requires 0 <= i < |s| => LowerRune(s[i]))
  }

  /** s is w (lower-case ASCII) written in any mix of ASCII letter cases. */
  predicate AnyCaseOf(s: string, w: string) {
    |s| == |w| && forall i :: 0 <= i < |s| ==> s[i] == w[i] || s[i] == Upper(w[i])
  }

  /**
   * For a lower-case ASCII letter x other than 'i' and 'k', the only characters that
   * lower-case to x are x and its upper case.
   */
  lemma LowerRuneIs(c: char, x: char)
    requires 'a' <= x <= 'z' && x != 'i' && x != 'k'
    ensures LowerRune(c) == x <==> c == x || c == Upper(x)
  {
  }

  /**
   * strings.ToLower maps s to a lower-case ASCII word w free of 'i' and 'k' exactly when s
   * is w in some mix of ASCII letter cases.
   */
  lemma ToLowerIs(s: string, w: string)
    requires forall j :: 0 <= j < |w| ==> 'a' <= w[j] <= 'z' && w[j] != 'i' && w[j] != 'k'
    ensures ToLower(s) == w <==> AnyCaseOf(s, w)
  {
    if |s| == |w| {
      forall j | 0 <= j < |s|
        ensures LowerRune(s[j]) == w[j] <==> s[j] == w[j] || s[j] == Upper(w[j])
      {
        LowerRuneIs(s[j], w[j]);
      }
      if AnyCaseOf(s, w) {
        assert forall j :: 0 <= j < |s| ==> ToLower(s)[j] == w[j];
      }
    }
  }

  /** A slice is the concatenation of its two halves at any point between its bounds. */
  lemma SliceSplit(s: string, i: nat, j: nat, k: nat)
    requires i <= j <= k <= |s|
    ensures s[i..k] == s[i..j] + s[j..k]
  {
  }

  /** The number of occurrences of c in s. */
  function Count(s: string, c: char): nat {
    if |s| == 0 then 0 else (if s[0] == c then 1 else 0) + Count(s[1..], c)
  }

  lemma {:induction false} CountAppend(a: string, b: string, c: char)
    ensures Count(a + b, c) == Count(a, c) + Count(b, c)
  {
    if |a| > 0 {
      CountAppend(a[1..], b, c);
      assert (a + b)[0] == a[0] && (a + b)[1..] == a[1..] + b;
    } else {
      assert a + b == b;
    }
  }

  /** Appending text without c keeps the number of c's. */
  lemma CountAppendAbsent(a: string, b: string, c: char)
    requires c !in b
    ensures Count(a + b, c) == Count(a, c)
  {
    CountAppend(a, b, c);
    CountAbsent(b, c);
  }

  lemma {:induction false} CountAbsent(s: string, c: char)
    requires c !in s
    ensures Count(s, c) == 0
  {
    if |s| > 0 {
      assert s[0] != c;
      CountAbsent(s[1..], c);
    }
  }
}
