/**
 * The format check applied to the operator's profile selection before it is
 * parsed (modify-url-category-actions.py, line 192): comma-separated tokens,
 * each a 1-5 digit number or two such numbers joined by '-'.
 *
 * Commas occur nowhere else in the pattern, so a string matches exactly when
 * every comma-separated piece has the shape its position allows:
 *   - every piece is a number (1 to 5 digits) or two numbers joined by '-',
 *     with optional whitespace around the '-';
 *   - whitespace may precede a piece only after a comma;
 *   - whitespace may follow a piece when a comma follows it, and after the
 *     last piece only if that piece is a single number and not the first.
 * Python's `$` also matches just before a final newline, so one trailing
 * "\n" is accepted on top of that.
 */
module SelectionGrammar {
  import opened Text

  /** `\d{1,5}`. */
  predicate IsShortNumber(s: string) {
    1 <= |s| <= 5 && AllDigits(s)
  }

  /** The length of the longest prefix of `s` made of digits. */
  function DigitPrefixLength(s: string): (n: nat)
    ensures n <= |s| && AllDigits(s[..n])
    ensures n < |s| ==> !IsDigit(s[n])
  {
    if |s| > 0 && IsDigit(s[0]) then
      var n := 1 + DigitPrefixLength(s[1..]);
      assert s[..n] == [s[0]] + s[1..][..n - 1];
      n
    else 0
  }

  /** `\s*-\s*\d{1,5}`: what follows the low end of a range. */
  predicate IsRangeRest(r: string) {
    var r1 := TrimLeft(r);
    |r1| > 0 && r1[0] == '-' && IsShortNumber(TrimLeft(r1[1..]))
  }

  /** `\d{1,5}` or `\d{1,5}\s*-\s*\d{1,5}`: one token, with no whitespace around it. */
  predicate IsToken(q: string) {
    var n := DigitPrefixLength(q);
    IsShortNumber(q[..n]) && (n == |q| || IsRangeRest(q[n..]))
  }

  /** A comma-separated piece of the answer, given whether it is the first piece and whether it is the last. */
  predicate IsPiece(p: string, first: bool, last: bool) {
    var q := if first then p else TrimLeft(p);
    var core := TrimRight(q);
    IsToken(core) && (core == q || !last || (!first && IsShortNumber(core)))
  }

  predicate MatchesWhole(s: string) {
    var pieces := Split(s, ',');
    forall k :: 0 <= k < |pieces| ==> IsPiece(pieces[k], k == 0, k == |pieces| - 1)
  }

  /** `re.match(pattern, s)` for the pattern of line 192. */
  predicate IsSelectionFormat(s: string) {
    MatchesWhole(s) || (|s| > 0 && s[|s| - 1] == '\n' && MatchesWhole(s[..|s| - 1]))
  }

  /** A token once whitespace is gone: a number, or two numbers joined by one '-'. */
  predicate IsCleanToken(t: string) {
    || IsShortNumber(t)
    || (var n := DigitPrefixLength(t);
        n < |t| && t[n] == '-' && IsShortNumber(t[..n]) && IsShortNumber(t[n + 1..]))
  }

  lemma {:induction false} DigitPrefixBeforeNonDigit(a: string, c: char, b: string)
    requires AllDigits(a) && !IsDigit(c)
    ensures DigitPrefixLength(a + [c] + b) == |a|
  {
    if |a| > 0 {
      assert (a + [c] + b)[1..] == a[1..] + [c] + b;
      DigitPrefixBeforeNonDigit(a[1..], c, b);
    } else {
      assert (a + [c] + b)[0] == c;
    }
  }

  /** The high end of a range, as it stands after the '-'. */
  function RangeHigh(r: string): string
    requires IsRangeRest(r)
  {
    TrimLeft(TrimLeft(r)[1..])
  }

  lemma {:induction false} RangeRestLosesLeadingWhitespace(r: string)
    requires IsRangeRest(r)
    ensures RemoveWhitespace(r) == ['-'] + RemoveWhitespace(TrimLeft(r)[1..])
  {
    var r1 := TrimLeft(r);
    var r2 := r1[1..];
    assert r1 == ['-'] + r2;
    RemoveWhitespaceTrimLeft(r);
    RemoveWhitespaceCons('-', r2);
  }

  lemma {:induction false} RangeHighIsWord(r: string)
    requires IsRangeRest(r)
    ensures NoWhitespace(RangeHigh(r))
  {
  }

  lemma {:induction false} RangeRestBecomesClean(r: string)
    requires IsRangeRest(r)
    ensures RemoveWhitespace(r) == ['-'] + RangeHigh(r)
  {
    RangeRestLosesLeadingWhitespace(r);
    RangeHighIsWord(r);
    var r2 := TrimLeft(r)[1..];
    assert RangeHigh(r) == TrimLeft(r2);
    RemoveWhitespaceLeavesTrimmedWord(r2);
  }

  lemma {:induction false} NumbersAroundDashAreClean(a: string, b: string)
    requires IsShortNumber(a) && IsShortNumber(b)
    ensures IsCleanToken(a + ['-'] + b)
  {
    var t := a + ['-'] + b;
    DigitPrefixBeforeNonDigit(a, '-', b);
    assert t[|a|] == '-' && t[..|a|] == a && t[|a| + 1..] == b;
  }

  lemma {:induction false} RangeBecomesClean(a: string, r: string, b: string)
    requires IsShortNumber(a) && IsShortNumber(b)
    requires RemoveWhitespace(r) == ['-'] + b
    ensures IsCleanToken(RemoveWhitespace(a + r))
  {
    RemoveWhitespaceKeeps(a);
    RemoveWhitespaceConcat(a, r);
    assert a + (['-'] + b) == a + ['-'] + b;
    NumbersAroundDashAreClean(a, b);
  }

  /** Removing the whitespace from a token leaves a clean token. */
  lemma {:induction false} TokenBecomesClean(q: string)
    requires IsToken(q)
    ensures IsCleanToken(RemoveWhitespace(q))
  {
    var n := DigitPrefixLength(q);
    if n == |q| {
      assert q == q[..n];
      RemoveWhitespaceKeeps(q);
    } else {
      var r := q[n..];
      assert q == q[..n] + r;
      RangeRestBecomesClean(r);
      RangeBecomesClean(q[..n], r, RangeHigh(r));
    }
  }

  lemma {:induction false} PieceBecomesClean(p: string, first: bool, last: bool)
    requires IsPiece(p, first, last)
    ensures IsCleanToken(RemoveWhitespace(p))
  {
    var q := if first then p else TrimLeft(p);
    RemoveWhitespaceTrimLeft(p);
    RemoveWhitespaceTrimRight(q);
    TokenBecomesClean(TrimRight(q));
  }

  lemma {:induction false} WholeMatchHasCleanTokens(body: string)
    requires MatchesWhole(body)
    ensures var tokens := Split(RemoveWhitespace(body), ',');
      forall k :: 0 <= k < |tokens| ==> IsCleanToken(tokens[k])
  {
    var pieces := Split(body, ',');
    SplitRemoveWhitespace(body, ',');
    var tokens := RemoveWhitespaceEach(pieces);
    forall k | 0 <= k < |tokens| ensures IsCleanToken(tokens[k]) {
      PieceBecomesClean(pieces[k], k == 0, k == |pieces| - 1);
    }
  }

  lemma {:induction false} FinalNewlineIsRemoved(s: string)
    requires |s| > 0 && s[|s| - 1] == '\n'
    ensures RemoveWhitespace(s) == RemoveWhitespace(s[..|s| - 1])
  {
    assert s == s[..|s| - 1] + "\n";
    RemoveWhitespaceConcat(s[..|s| - 1], "\n");
  }

  /**
   * Every answer the format check accepts splits, after all whitespace is
   * removed, into clean tokens. So the int() conversions of lines 130 and 133
   * never fail on an accepted answer.
   */
  lemma {:induction false} AcceptedAnswerHasCleanTokens(s: string)
    requires IsSelectionFormat(s)
    ensures var tokens := Split(RemoveWhitespace(s), ',');
      forall k :: 0 <= k < |tokens| ==> IsCleanToken(tokens[k])
  {
    if MatchesWhole(s) {
      WholeMatchHasCleanTokens(s);
    } else {
      FinalNewlineIsRemoved(s);
      WholeMatchHasCleanTokens(s[..|s| - 1]);
    }
  }
}
