/**
 * What the selection of profiles guarantees: how single tokens are read,
 * that answers the format check accepts never make the conversion raise,
 * that order and repetition do not matter, and worked examples.
 */
module SelectionFacts {
  import opened Wrappers
  import opened Text
  import opened Lists
  import opened SelectionGrammar
  import opened ProfileSelection

  /** A digit string is read as one number. */
  lemma {:induction false} NumberToken(t: string, n: nat)
    requires |t| > 0 && AllDigits(t) && DecimalValue(t) == n
    ensures ParseToken(t) == Some(Single(n))
  {
    assert '-' !in t by {
      forall i | 0 <= i < |t| ensures t[i] != '-' {
        assert IsDigit(t[i]);
      }
    }
    DigitsAreUnsignedLiteral(t);
  }

  /** Two digit strings joined by '-' are read as the range between their values. */
  lemma {:induction false} RangeToken(a: string, low: nat, b: string, high: nat)
    requires |a| > 0 && AllDigits(a) && DecimalValue(a) == low
    requires |b| > 0 && AllDigits(b) && DecimalValue(b) == high
    ensures ParseToken(a + "-" + b) == Some(Range(low, high))
  {
    assert '-' !in a by {
      forall i | 0 <= i < |a| ensures a[i] != '-' {
        assert IsDigit(a[i]);
      }
    }
    assert '-' !in b by {
      forall i | 0 <= i < |b| ensures b[i] != '-' {
        assert IsDigit(b[i]);
      }
    }
    var t := a + "-" + b;
    assert t[|a|] == '-';
    SplitPair(a, '-', b);
    DigitsAreUnsignedLiteral(a);
    DigitsAreUnsignedLiteral(b);
    var x := MapAll(UnsignedLiteral, [a, b]);
    assert UnsignedLiteral([a, b][0]) == Some(low);
    assert UnsignedLiteral([a, b][1]) == Some(high);
  }

  lemma {:induction false} CleanTokenParses(t: string)
    requires IsCleanToken(t)
    ensures ParseToken(t).Some?
  {
    if IsShortNumber(t) {
      NumberToken(t, DecimalValue(t));
    } else {
      var n := DigitPrefixLength(t);
      assert t == t[..n] + "-" + t[n + 1..];
      RangeToken(t[..n], DecimalValue(t[..n]), t[n + 1..], DecimalValue(t[n + 1..]));
    }
  }

  /** The int() conversions of lines 130 and 133 never raise on an answer the format check of line 192 accepts. */
  lemma {:induction false} AcceptedAnswerConverts(s: string)
    requires IsSelectionFormat(s)
    ensures ParsedTokens(s).Some?
  {
    AcceptedAnswerHasCleanTokens(s);
    var tokens := Tokens(s);
    assert tokens == Split(RemoveWhitespace(s), ',');
    forall k | 0 <= k < |tokens| ensures ParseToken(tokens[k]).Some? {
      CleanTokenParses(tokens[k]);
    }
  }

  /**
   * An accepted answer, with profiles to choose from, either selects
   * profiles or is reported as an inverted range or a number out of range:
   * it never raises.
   */
  lemma {:induction false} AcceptedAnswerNeverRaises(s: string, profileList: seq<string>)
    requires IsSelectionFormat(s) && |profileList| > 0
    ensures SplitSpec(s, profileList).Err? ==>
      SplitSpec(s, profileList).error.InvertedRange? || SplitSpec(s, profileList).error.OutOfRange?
  {
    AcceptedAnswerConverts(s);
  }

  lemma {:induction false} AscendingIs(ts: seq<Token>, idx: seq<nat>)
    requires StrictlySorted(idx, NatLess) && forall i: nat :: i in idx <==> Selects(ts, i)
    ensures Ascending(ts) == idx
  {
    NatLessIsStrictTotalOrder();
    StrictlySortedUnique(Ascending(ts), idx, NatLess);
  }

  /**
   * Only the set of numbers the tokens cover matters: two answers that
   * convert, have no inverted range and cover the same numbers select the
   * same profiles, whatever their order, repetitions or overlaps.
   */
  lemma {:induction false} SelectionDependsOnlyOnCoveredNumbers(a: seq<Token>, b: seq<Token>, profileList: seq<string>)
    requires LastInverted(a).None? && LastInverted(b).None?
    requires forall i: nat :: Selects(a, i) <==> Selects(b, i)
    ensures SelectionOf(Some(a), profileList) == SelectionOf(Some(b), profileList)
  {
    AscendingIs(a, Ascending(b));
  }

  /**
   * Each profile is selected at most once, in list order, when the profile
   * names are distinct and number 0 is not selected.
   */
  lemma {:induction false} SelectedProfilesAreDistinct(ts: seq<Token>, profileList: seq<string>)
    requires forall i, j :: 0 <= i < j < |profileList| ==> profileList[i] != profileList[j]
    requires !Selects(ts, 0) && SelectionOf(Some(ts), profileList).Ok?
    ensures var r := SelectionOf(Some(ts), profileList).value;
      forall i, j :: 0 <= i < j < |r| ==> r[i] != r[j]
  {
    var idx := Ascending(ts);
    var r := SelectionOf(Some(ts), profileList).value;
    forall i, j | 0 <= i < j < |r| ensures r[i] != r[j] {
      assert idx[i] in idx && idx[j] in idx;
      assert NatLess(idx[i], idx[j]);
    }
  }

  /**
   * An answer whose whitespace-free text is pieces joined by commas is
   * parsed piece by piece.
   */
  lemma {:induction false} ParsedJoin(s: string, parts: seq<string>, ts: seq<Token>)
    requires |parts| >= 1 && |parts| == |ts|
    requires RemoveWhitespace(s) == Join(parts, ',')
    requires forall k :: 0 <= k < |parts| ==> ',' !in parts[k] && ParseToken(parts[k]) == Some(ts[k])
    ensures ParsedTokens(s) == Some(ts)
  {
    SplitJoin(parts, ',');
    assert Tokens(s) == parts;
    MapAllPointwise(ParseToken, parts, ts);
  }

  /** SplitSpec of an answer whose tokens parse to `ts`. */
  lemma {:induction false} SpecOfParsed(s: string, profileList: seq<string>, ts: seq<Token>)
    requires ParsedTokens(s) == Some(ts)
    ensures SplitSpec(s, profileList) == SelectionOf(Some(ts), profileList)
  {
  }

  /** Whitespace anywhere in the answer does not change the selection. */
  lemma {:induction false} WhitespaceIsIgnored(s: string, profileList: seq<string>)
    ensures SplitSpec(s, profileList) == SplitSpec(RemoveWhitespace(s), profileList)
  {
    RemoveWhitespaceKeeps(RemoveWhitespace(s));
  }

  /** An answer made of whitespace-free tokens joined by commas selects what those tokens select. */
  lemma {:induction false} SpecOfTokens(parts: seq<string>, ts: seq<Token>, profileList: seq<string>)
    requires |parts| >= 1 && |parts| == |ts|
    requires forall k :: 0 <= k < |parts| ==>
      NoWhitespace(parts[k]) && ',' !in parts[k] && ParseToken(parts[k]) == Some(ts[k])
    ensures SplitSpec(Join(parts, ','), profileList) == SelectionOf(Some(ts), profileList)
  {
    var s := Join(parts, ',');
    JoinKeepsNoWhitespace(parts, ',');
    RemoveWhitespaceKeeps(s);
    ParsedJoin(s, parts, ts);
    SpecOfParsed(s, profileList, ts);
  }

  /** A lone digit string is one token. */
  lemma {:induction false} ParsedNumber(t: string, n: nat)
    requires |t| > 0 && AllDigits(t) && DecimalValue(t) == n
    ensures ParsedTokens(t) == Some([Single(n)])
  {
    assert NoWhitespace(t) && ',' !in t by {
      forall i | 0 <= i < |t| ensures !IsWhitespace(t[i]) && t[i] != ',' {
        assert IsDigit(t[i]);
      }
    }
    RemoveWhitespaceKeeps(t);
    NumberToken(t, n);
    ParsedJoin(t, [t], [Single(n)]);
  }

  /** A single number n selects profile n, or is out of range. */
  lemma {:induction false} SingleSelection(n: nat, profileList: seq<string>)
    ensures SelectionOf(Some([Single(n)]), profileList) ==
      if n > |profileList| then Err(OutOfRange(|profileList|))
      else if |profileList| == 0 then Err(IndexError)
      else Ok([PyIndex(profileList, n as int - 1)])
  {
    var ts := [Single(n)];
    assert forall i: nat :: i in [n] <==> Selects(ts, i) by {
      forall i: nat ensures i in [n] <==> Selects(ts, i) {
        assert ts[0].Covers(i) <==> i == n;
      }
    }
    AscendingIs(ts, [n]);
    var idx := Ascending(ts);
    if n > |profileList| {
      assert idx[0] > |profileList|;
    } else {
      assert forall k :: 0 <= k < |idx| ==> idx[k] <= |profileList|;
      if |profileList| > 0 {
        assert Pick(profileList, idx) == [PyIndex(profileList, n as int - 1)];
      }
    }
  }

  lemma {:induction false} NumberSpec(t: string, n: nat, profileList: seq<string>)
    requires |t| > 0 && AllDigits(t) && DecimalValue(t) == n
    ensures SplitSpec(t, profileList) == SelectionOf(Some([Single(n)]), profileList)
  {
    ParsedNumber(t, n);
  }

  /** A lone numeral for n selects profile n, or reports that it is out of range. */
  lemma {:induction false} SingleNumberSelection(t: string, n: nat, profileList: seq<string>)
    requires |t| > 0 && AllDigits(t) && DecimalValue(t) == n
    ensures SplitSpec(t, profileList) ==
      if n > |profileList| then Err(OutOfRange(|profileList|))
      else if |profileList| == 0 then Err(IndexError)
      else Ok([PyIndex(profileList, n as int - 1)])
  {
    NumberSpec(t, n, profileList);
    SingleSelection(n, profileList);
  }

  /** A string of zeros is a digit string of value 0. */
  lemma {:induction false} ZerosAreZero(t: string)
    requires forall i :: 0 <= i < |t| ==> t[i] == '0'
    ensures AllDigits(t) && DecimalValue(t) == 0
  {
    if |t| > 0 {
      ZerosAreZero(t[..|t| - 1]);
    }
  }

  lemma {:induction false} ZeroTokenSelectsLast(profileList: seq<string>)
    requires |profileList| > 0
    ensures SelectionOf(Some([Single(0)]), profileList) == Ok([profileList[|profileList| - 1]])
  {
    SingleSelection(0, profileList);
  }

  /**
   * Number 0 ("0", "00", ...) passes every check and selects the last
   * profile (Python's index -1).
   */
  lemma {:induction false} ZeroSelectsLastProfile(t: string, profileList: seq<string>)
    requires |t| > 0 && forall i :: 0 <= i < |t| ==> t[i] == '0'
    requires |profileList| > 0
    ensures SplitSpec(t, profileList) == Ok([profileList[|profileList| - 1]])
  {
    ZerosAreZero(t);
    NumberSpec(t, 0, profileList);
    ZeroTokenSelectsLast(profileList);
  }

  /**
   * The choice that means "all profiles", n + 1 for n profiles, would be
   * out of range as a selection; only the test of line 184, made before the
   * format check, makes it select everything.
   */
  lemma {:induction false} AllChoiceIsOutOfRangeAsSelection(profileList: seq<string>)
    ensures IntLiteral(NatToString(|profileList| + 1)) == Some(|profileList| + 1)
    ensures SplitSpec(NatToString(|profileList| + 1), profileList) == Err(OutOfRange(|profileList|))
  {
    var t := NatToString(|profileList| + 1);
    DigitsAreUnsignedLiteral(t);
    SingleNumberSelection(t, |profileList| + 1, profileList);
  }
}
