/**
 * Worked answers to the profile prompt of modify-url-category-actions.py,
 * lines 122-162: the same choice written in different orders and with
 * repetitions, an inverted range, and a number past the last profile.
 * Each number is given as a parameter that spells it in decimal, so the
 * examples cover "3,1,2" as well as "03,1,002".
 */
module SelectionExamples {
  import opened Wrappers
  import opened Text
  import opened Lists
  import opened ProfileSelection
  import opened SelectionFacts

  /** `d` is a decimal numeral for `n` (leading zeros allowed). */
  predicate Numeral(d: string, n: nat) {
    |d| > 0 && AllDigits(d) && DecimalValue(d) == n
  }

  lemma {:induction false} NumeralToken(d: string, n: nat)
    requires Numeral(d, n)
    ensures NoWhitespace(d) && ',' !in d && ParseToken(d) == Some(Single(n))
  {
    assert NoWhitespace(d) && ',' !in d by {
      forall i | 0 <= i < |d| ensures !IsWhitespace(d[i]) && d[i] != ',' {
        assert IsDigit(d[i]);
      }
    }
    NumberToken(d, n);
  }

  lemma {:induction false} NumeralRange(a: string, low: nat, b: string, high: nat)
    requires Numeral(a, low) && Numeral(b, high)
    ensures var t := a + "-" + b;
      NoWhitespace(t) && ',' !in t && ParseToken(t) == Some(Range(low, high))
  {
    NumeralToken(a, low);
    NumeralToken(b, high);
    RangeToken(a, low, b, high);
    NoWhitespaceAround(a, '-', b);
  }

  /** Three pieces joined by commas. */
  lemma {:induction false} JoinThree(x: string, y: string, z: string)
    ensures Join([x, y, z], ',') == x + "," + y + "," + z
  {
    assert [x, y, z][1..] == [y, z] && [y, z][1..] == [z];
    assert Join([y, z], ',') == y + "," + z;
  }

  /** An answer of three whitespace-free tokens joined by commas selects what those tokens select. */
  lemma {:induction false} ThreeTokens(x: string, y: string, z: string, tx: Token, ty: Token, tz: Token, profileList: seq<string>)
    requires NoWhitespace(x) && ',' !in x && ParseToken(x) == Some(tx)
    requires NoWhitespace(y) && ',' !in y && ParseToken(y) == Some(ty)
    requires NoWhitespace(z) && ',' !in z && ParseToken(z) == Some(tz)
    ensures SplitSpec(x + "," + y + "," + z, profileList) == SelectionOf(Some([tx, ty, tz]), profileList)
  {
    JoinThree(x, y, z);
    var parts := [x, y, z];
    var ts := [tx, ty, tz];
    forall k | 0 <= k < |parts| ensures NoWhitespace(parts[k]) && ',' !in parts[k] && ParseToken(parts[k]) == Some(ts[k]) {
      if k == 0 {
        assert parts[k] == x && ts[k] == tx;
      } else if k == 1 {
        assert parts[k] == y && ts[k] == ty;
      } else {
        assert parts[k] == z && ts[k] == tz;
      }
    }
    SpecOfTokens(parts, ts, profileList);
  }

  /** What selecting exactly 1, 2 and 3 gives. */
  function FirstThreeOutcome(profileList: seq<string>): Result<seq<string>, SelectionError> {
    if |profileList| < 3 then Err(OutOfRange(|profileList|)) else Ok(profileList[..3])
  }

  /** Tokens that cover exactly 1, 2 and 3 pick the first three profiles, or are out of range with fewer. */
  lemma {:induction false} FirstThree(ts: seq<Token>, profileList: seq<string>)
    requires LastInverted(ts).None?
    requires forall i: nat :: Selects(ts, i) <==> 1 <= i <= 3
    ensures SelectionOf(Some(ts), profileList) == FirstThreeOutcome(profileList)
  {
    AscendingIs(ts, [1, 2, 3]);
    var idx := Ascending(ts);
    if |profileList| < 3 {
      assert idx[2] > |profileList|;
    } else {
      assert forall k :: 0 <= k < |idx| ==> idx[k] <= |profileList|;
      assert Pick(profileList, idx) == profileList[..3];
    }
  }

  /** "3,1,2" reads as the numbers 3, 1 and 2. */
  lemma {:induction false} ShuffledTokens(one: string, two: string, three: string, profileList: seq<string>)
    requires Numeral(one, 1) && Numeral(two, 2) && Numeral(three, 3)
    ensures SplitSpec(three + "," + one + "," + two, profileList) ==
      SelectionOf(Some([Single(3), Single(1), Single(2)]), profileList)
  {
    NumeralToken(one, 1);
    NumeralToken(two, 2);
    NumeralToken(three, 3);
    ThreeTokens(three, one, two, Single(3), Single(1), Single(2), profileList);
  }

  lemma {:induction false} ShuffledCovers()
    ensures var ts := [Single(3), Single(1), Single(2)];
      LastInverted(ts).None? && forall i: nat :: Selects(ts, i) <==> 1 <= i <= 3
  {
    var ts := [Single(3), Single(1), Single(2)];
    assert ts[0].Covers(3) && ts[1].Covers(1) && ts[2].Covers(2);
  }

  /** "3,1,2" picks the first three profiles. */
  lemma {:induction false} Shuffled(one: string, two: string, three: string, profileList: seq<string>)
    requires Numeral(one, 1) && Numeral(two, 2) && Numeral(three, 3)
    ensures SplitSpec(three + "," + one + "," + two, profileList) == FirstThreeOutcome(profileList)
  {
    ShuffledTokens(one, two, three, profileList);
    ShuffledCovers();
    FirstThree([Single(3), Single(1), Single(2)], profileList);
  }

  /** "1-3" reads as the range from 1 to 3. */
  lemma {:induction false} AsRangeTokens(one: string, three: string, profileList: seq<string>)
    requires Numeral(one, 1) && Numeral(three, 3)
    ensures SplitSpec(one + "-" + three, profileList) == SelectionOf(Some([Range(1, 3)]), profileList)
  {
    NumeralRange(one, 1, three, 3);
    SpecOfTokens([one + "-" + three], [Range(1, 3)], profileList);
  }

  lemma {:induction false} AsRangeCovers()
    ensures var ts := [Range(1, 3)];
      LastInverted(ts).None? && forall i: nat :: Selects(ts, i) <==> 1 <= i <= 3
  {
    var ts := [Range(1, 3)];
    forall i: nat ensures Selects(ts, i) <==> 1 <= i <= 3 {
      assert ts[0].Covers(i) <==> 1 <= i <= 3;
    }
  }

  /** "1-3" picks the first three profiles. */
  lemma {:induction false} AsRange(one: string, three: string, profileList: seq<string>)
    requires Numeral(one, 1) && Numeral(three, 3)
    ensures SplitSpec(one + "-" + three, profileList) == FirstThreeOutcome(profileList)
  {
    AsRangeTokens(one, three, profileList);
    AsRangeCovers();
    FirstThree([Range(1, 3)], profileList);
  }

  /** "1,1-3,2" reads as 1, the range from 1 to 3, and 2. */
  lemma {:induction false} OverlappingTokens(one: string, two: string, three: string, profileList: seq<string>)
    requires Numeral(one, 1) && Numeral(two, 2) && Numeral(three, 3)
    ensures SplitSpec(one + "," + one + "-" + three + "," + two, profileList) ==
      SelectionOf(Some([Single(1), Range(1, 3), Single(2)]), profileList)
  {
    NumeralToken(one, 1);
    NumeralToken(two, 2);
    NumeralRange(one, 1, three, 3);
    ThreeTokens(one, one + "-" + three, two, Single(1), Range(1, 3), Single(2), profileList);
    ConcatAssociative(one + ",", one + "-", three);
    ConcatAssociative(one + ",", one, "-");
  }

  lemma {:induction false} OverlappingCovers()
    ensures var ts := [Single(1), Range(1, 3), Single(2)];
      LastInverted(ts).None? && forall i: nat :: Selects(ts, i) <==> 1 <= i <= 3
  {
    var ts := [Single(1), Range(1, 3), Single(2)];
    forall i: nat ensures Selects(ts, i) <==> 1 <= i <= 3 {
      assert ts[1].Covers(i) <==> 1 <= i <= 3;
    }
  }

  /** "1,1-3,2" picks the first three profiles, each once. */
  lemma {:induction false} Overlapping(one: string, two: string, three: string, profileList: seq<string>)
    requires Numeral(one, 1) && Numeral(two, 2) && Numeral(three, 3)
    ensures SplitSpec(one + "," + one + "-" + three + "," + two, profileList) == FirstThreeOutcome(profileList)
  {
    OverlappingTokens(one, two, three, profileList);
    OverlappingCovers();
    FirstThree([Single(1), Range(1, 3), Single(2)], profileList);
  }

  /** "2-3,1,1" reads as the range from 2 to 3, then 1 twice. */
  lemma {:induction false} RepeatedTokens(one: string, two: string, three: string, profileList: seq<string>)
    requires Numeral(one, 1) && Numeral(two, 2) && Numeral(three, 3)
    ensures SplitSpec(two + "-" + three + "," + one + "," + one, profileList) ==
      SelectionOf(Some([Range(2, 3), Single(1), Single(1)]), profileList)
  {
    NumeralToken(one, 1);
    NumeralRange(two, 2, three, 3);
    ThreeTokens(two + "-" + three, one, one, Range(2, 3), Single(1), Single(1), profileList);
  }

  lemma {:induction false} RepeatedCovers()
    ensures var ts := [Range(2, 3), Single(1), Single(1)];
      LastInverted(ts).None? && forall i: nat :: Selects(ts, i) <==> 1 <= i <= 3
  {
    var ts := [Range(2, 3), Single(1), Single(1)];
    forall i: nat ensures Selects(ts, i) <==> 1 <= i <= 3 {
      assert ts[0].Covers(i) <==> 2 <= i <= 3;
      assert ts[1].Covers(i) <==> i == 1;
    }
  }

  /** "2-3,1,1" picks the first three profiles, each once. */
  lemma {:induction false} Repeated(one: string, two: string, three: string, profileList: seq<string>)
    requires Numeral(one, 1) && Numeral(two, 2) && Numeral(three, 3)
    ensures SplitSpec(two + "-" + three + "," + one + "," + one, profileList) == FirstThreeOutcome(profileList)
  {
    RepeatedTokens(one, two, three, profileList);
    RepeatedCovers();
    FirstThree([Range(2, 3), Single(1), Single(1)], profileList);
  }

  /** Four pieces joined by commas. */
  lemma {:induction false} JoinFour(x: string, y: string, z: string, w: string)
    ensures Join([x, y, z, w], ',') == x + "," + y + "," + z + "," + w
  {
    assert [x, y, z, w][1..] == [y, z, w];
    JoinThree(y, z, w);
    ConcatAssociative(x + ",", y + "," + z + ",", w);
    ConcatAssociative(x + ",", y + ",", z);
    ConcatAssociative(x + ",", y, ",");
  }

  /** An answer of four whitespace-free tokens joined by commas selects what those tokens select. */
  lemma {:induction false} FourTokens(x: string, y: string, z: string, w: string, tx: Token, ty: Token, tz: Token, tw: Token,
                   profileList: seq<string>)
    requires NoWhitespace(x) && ',' !in x && ParseToken(x) == Some(tx)
    requires NoWhitespace(y) && ',' !in y && ParseToken(y) == Some(ty)
    requires NoWhitespace(z) && ',' !in z && ParseToken(z) == Some(tz)
    requires NoWhitespace(w) && ',' !in w && ParseToken(w) == Some(tw)
    ensures SplitSpec(x + "," + y + "," + z + "," + w, profileList) ==
      SelectionOf(Some([tx, ty, tz, tw]), profileList)
  {
    JoinFour(x, y, z, w);
    var parts := [x, y, z, w];
    var ts := [tx, ty, tz, tw];
    forall k | 0 <= k < |parts| ensures NoWhitespace(parts[k]) && ',' !in parts[k] && ParseToken(parts[k]) == Some(ts[k]) {
      if k == 0 {
        assert parts[k] == x && ts[k] == tx;
      } else if k == 1 {
        assert parts[k] == y && ts[k] == ty;
      } else if k == 2 {
        assert parts[k] == z && ts[k] == tz;
      } else {
        assert parts[k] == w && ts[k] == tw;
      }
    }
    SpecOfTokens(parts, ts, profileList);
  }

  /** "1, 3, 5-9, 11" without its spaces. */
  lemma {:induction false} PastTheEndTokens(one: string, three: string, five: string, nine: string, eleven: string,
                         profileList: seq<string>)
    requires Numeral(one, 1) && Numeral(three, 3) && Numeral(five, 5) && Numeral(nine, 9) && Numeral(eleven, 11)
    ensures SplitSpec(one + "," + three + "," + five + "-" + nine + "," + eleven, profileList) ==
      SelectionOf(Some([Single(1), Single(3), Range(5, 9), Single(11)]), profileList)
  {
    NumeralToken(one, 1);
    NumeralToken(three, 3);
    NumeralRange(five, 5, nine, 9);
    NumeralToken(eleven, 11);
    FourTokens(one, three, five + "-" + nine, eleven, Single(1), Single(3), Range(5, 9), Single(11), profileList);
    ConcatAssociative(one + "," + three + ",", five + "-", nine);
    ConcatAssociative(one + "," + three + ",", five, "-");
  }

  /** The spaces of "1, 3, 5-9, 11" go. */
  lemma {:induction false} PastTheEndSpaces(one: string, three: string, five: string, nine: string, eleven: string)
    requires NoWhitespace(one) && NoWhitespace(three) && NoWhitespace(five) && NoWhitespace(nine)
    requires NoWhitespace(eleven)
    ensures RemoveWhitespace(one + ", " + three + ", " + five + "-" + nine + ", " + eleven) ==
      one + "," + three + "," + five + "-" + nine + "," + eleven
  {
    var a := one + ", " + three;
    var b := a + ", " + five;
    var c := b + "-" + nine;
    RemoveWhitespaceKeeps(one);
    RemoveWhitespaceCommaSpace(one, three);
    RemoveWhitespaceCommaSpace(a, five);
    RemoveWhitespaceDash(b, nine);
    RemoveWhitespaceCommaSpace(c, eleven);
  }

  lemma {:induction false} PastTheEndCovers(profileList: seq<string>)
    requires |profileList| < 11
    ensures SelectionOf(Some([Single(1), Single(3), Range(5, 9), Single(11)]), profileList) ==
      Err(OutOfRange(|profileList|))
  {
    var ts := [Single(1), Single(3), Range(5, 9), Single(11)];
    assert LastInverted(ts).None?;
    assert ts[3].Covers(11);
    var idx := Ascending(ts);
    assert 11 in idx;
  }

  /**
   * "1, 3, 5-9, 11" with fewer than 11 profiles (8, say) is refused: the
   * largest number selected, 11, is past the last profile.
   */
  lemma {:induction false} PastTheEnd(one: string, three: string, five: string, nine: string, eleven: string,
                   profileList: seq<string>)
    requires Numeral(one, 1) && Numeral(three, 3) && Numeral(five, 5) && Numeral(nine, 9) && Numeral(eleven, 11)
    requires |profileList| < 11
    ensures SplitSpec(one + ", " + three + ", " + five + "-" + nine + ", " + eleven, profileList) ==
      Err(OutOfRange(|profileList|))
  {
    NumeralToken(one, 1);
    NumeralToken(three, 3);
    NumeralToken(five, 5);
    NumeralToken(nine, 9);
    NumeralToken(eleven, 11);
    var s := one + ", " + three + ", " + five + "-" + nine + ", " + eleven;
    PastTheEndSpaces(one, three, five, nine, eleven);
    WhitespaceIsIgnored(s, profileList);
    PastTheEndTokens(one, three, five, nine, eleven, profileList);
    PastTheEndCovers(profileList);
  }

  /** "2-1,3,5-4" reads as the ranges 2-1 and 5-4 around the number 3. */
  lemma {:induction false} TwoInvertedTokens(one: string, two: string, three: string, four: string, five: string,
                          profileList: seq<string>)
    requires Numeral(one, 1) && Numeral(two, 2) && Numeral(three, 3) && Numeral(four, 4) && Numeral(five, 5)
    ensures SplitSpec(two + "-" + one + "," + three + "," + five + "-" + four, profileList) ==
      SelectionOf(Some([Range(2, 1), Single(3), Range(5, 4)]), profileList)
  {
    NumeralRange(two, 2, one, 1);
    NumeralToken(three, 3);
    NumeralRange(five, 5, four, 4);
    ThreeTokens(two + "-" + one, three, five + "-" + four, Range(2, 1), Single(3), Range(5, 4), profileList);
    ConcatAssociative(two + "-" + one + "," + three + ",", five + "-", four);
    ConcatAssociative(two + "-" + one + "," + three + ",", five, "-");
  }

  /** "2-1,3,5-4" selects nothing and reports the last inverted range, 5-4. */
  lemma {:induction false} LastInvertedIsReported(one: string, two: string, three: string, four: string, five: string,
                               profileList: seq<string>)
    requires Numeral(one, 1) && Numeral(two, 2) && Numeral(three, 3) && Numeral(four, 4) && Numeral(five, 5)
    ensures SplitSpec(two + "-" + one + "," + three + "," + five + "-" + four, profileList) == Err(InvertedRange(5, 4))
  {
    TwoInvertedTokens(one, two, three, four, five, profileList);
    assert LastInverted([Range(2, 1), Single(3), Range(5, 4)]) == Some(Range(5, 4));
  }
}
