/**
 * The prompt of getUrlProfiles (modify-url-category-actions.py, lines
 * 166-206), one answer at a time: the console loop that repeats the
 * prompt is left to the caller.
 */
module ProfilePrompt {
  import opened Wrappers
  import opened Text
  import opened SelectionGrammar
  import opened ProfileSelection
  import opened SelectionFacts

  /** What the answer to the profile prompt leads to. */
  datatype Choice = Choice(profiles: seq<string>, allProfiles: bool)

  /** Why an answer leads to no choice: the device group has no profiles, or the prompt is shown again. */
  datatype ChoiceError =
    | NoProfiles
    | FormatError
    | Rejected(reason: SelectionError)

  /**
   * One answer to the prompt of getUrlProfiles (lines 171-203): with no
   * profiles there is nothing to choose; the number one past the last
   * profile means all of them; otherwise the answer must pass the format
   * check of line 192 and is then handed to splitUrlProfileEntries. Every
   * error except NoProfiles makes the script ask again.
   */
  method ChooseProfiles(answer: string, urlProfileList: seq<string>) returns (r: Result<Choice, ChoiceError>)
    ensures r == Err(NoProfiles) <==> |urlProfileList| == 0
    ensures (r.Ok? && r.value.allProfiles) <==> |urlProfileList| > 0 && IntLiteral(answer) == Some(|urlProfileList| + 1)
    ensures r.Ok? && r.value.allProfiles ==> r.value.profiles == urlProfileList
    ensures r == Err(FormatError) <==>
      |urlProfileList| > 0 && IntLiteral(answer) != Some(|urlProfileList| + 1) && !IsSelectionFormat(answer)
    ensures r.Ok? && !r.value.allProfiles ==> SplitSpec(answer, urlProfileList) == Ok(r.value.profiles)
    ensures r.Err? && r.error.Rejected? ==> SplitSpec(answer, urlProfileList) == Err(r.error.reason)
    ensures r.Err? && r.error.Rejected? ==> r.error.reason.InvertedRange? || r.error.reason.OutOfRange?
  {
    if |urlProfileList| == 0 {
      return Err(NoProfiles);
    }
    if IntLiteral(answer) == Some(|urlProfileList| + 1) {
      return Ok(Choice(urlProfileList, true));
    }
    if !IsSelectionFormat(answer) {
      return Err(FormatError);
    }
    AcceptedAnswerNeverRaises(answer, urlProfileList);
    var selected := SplitUrlProfileEntries(answer, urlProfileList);
    if selected.Err? {
      return Err(Rejected(selected.error));
    }
    return Ok(Choice(selected.value, false));
  }

  /**
   * An answer that starts with one of U+001C-U+001F is neither the "all"
   * number nor in the format of line 192, so ChooseProfiles refuses it as a
   * format error, whatever number follows.
   */
  lemma {:induction false} SeparatorBeforeNumberIsFormatError(c: char, d: string, urlProfileList: seq<string>)
    requires '\U{1C}' <= c <= '\U{1F}' && |d| > 0 && AllDigits(d)
    ensures IntLiteral([c] + d) != Some(|urlProfileList| + 1)
    ensures !IsSelectionFormat([c] + d)
  {
    var s := [c] + d;
    SeparatorBeforeNumberIsRefused(c, d);
    assert ',' !in s by {
      forall i | 0 <= i < |s| ensures s[i] != ',' {
        if i > 0 {
          assert s[i] == d[i - 1] && IsDigit(d[i - 1]);
        }
      }
    }
    SplitWithoutSeparator(s, ',');
    assert s[|s| - 1] == d[|d| - 1] && IsDigit(d[|d| - 1]);
    assert TrimRight(s) == s;
    assert DigitPrefixLength(s) == 0;
    assert !IsPiece(Split(s, ',')[0], true, true);
  }
}
