/**
 * Go's fmt.Sprintf applied to a format string with no operands, as log.Logger.Printf does when
 * it is handed a message and nothing else.
 */
module Fmt {
  import opened Text

  /** Prefix a formatted text with a, keeping an unmodelled format unmodelled. */
  function Prepend(a: string, r: Option<string>): Option<string> {
    match r
    case None => None
    case Some(t) => Some(a + t)
  }

  /** A flag, a width digit, a precision dot, a '*' or an argument index's '['. */
  predicate OpensDirective(c: char) {
    c in "#0+- 123456789.*["
  }

  /**
   * fmt.Sprintf(f) with no operands. Text outside directives is copied; "%%" writes '%'; a '%'
   * that ends the format writes "%!(NOVERB)"; a '%' followed by a verb c that is no flag, digit,
   * '.', '*' or '[' has no operand and writes "%!" + c + "(MISSING)". Formats with
   * flags, widths, precisions or argument indexes after a '%' are not followed (None).
   */
  function SprintfNoArgs(f: string): (r: Option<string>)
    ensures '%' !in f ==> r == Some(f)
    decreases |f|
  {
    if f == [] then Some([])
    else if f[0] != '%' then
      assert '%' !in f ==> '%' !in f[1..] && f == f[..1] + f[1..];
      Prepend(f[..1], SprintfNoArgs(f[1..]))
    else if |f| == 1 then Some("%!(NOVERB)")
    else if f[1] == '%' then Prepend("%", SprintfNoArgs(f[2..]))
    else if OpensDirective(f[1]) then None
    else Prepend("%!" + [f[1]] + "(MISSING)", SprintfNoArgs(f[2..]))
  }

  /** Prefixing twice is prefixing with the concatenation. */
  lemma PrependTwice(x: string, y: string, r: Option<string>)
    ensures Prepend(x, Prepend(y, r)) == Prepend(x + y, r)
  {
    if r.Some? {
      assert x + (y + r.value) == (x + y) + r.value;
    }
  }

  /** Text without '%' passes through the formatter unchanged, in front of whatever follows. */
  lemma {:induction false} SprintfPlainPrefix(a: string, b: string)
    requires '%' !in a
    ensures SprintfNoArgs(a + b) == Prepend(a, SprintfNoArgs(b))
  {
    if a != [] {
      var ab := a + b;
      assert ab[0] == a[0] && ab[..1] == a[..1] && ab[1..] == a[1..] + b;
      SprintfPlainPrefix(a[1..], b);
      PrependTwice(a[..1], a[1..], SprintfNoArgs(b));
      assert a[..1] + a[1..] == a;
    } else {
      assert a + b == b;
      match SprintfNoArgs(b)
      case None =>
      case Some(t) => assert a + t == t;
    }
  }

  /** A "%d" with no operand is written as "%!d(MISSING)", ten characters longer. */
  lemma SprintfMissingVerb(b: string)
    ensures SprintfNoArgs("%d" + b) == Prepend("%!d(MISSING)", SprintfNoArgs(b))
  {
    var f := "%d" + b;
    assert f[0] == '%' && f[1] == 'd' && f[2..] == b;
    assert "%!" + [f[1]] + "(MISSING)" == "%!d(MISSING)";
  }
}
