/**
 * The operator's choice of URL filtering profiles
 * (modify-url-category-actions.py, lines 122-162).
 *
 * The answer is a comma-separated list of 1-based profile numbers and
 * ranges `low-high`. Whitespace is deleted, each comma-separated token
 * is read as a number or, when it holds a '-', as a range, and the
 * numbers selected are taken in ascending order without repetition.
 * Number 0 is not refused: profileList[0 - 1] is Python's last
 * element, so 0 selects the last profile.
 */
module ProfileSelection {
  import opened Wrappers
  import opened Text
  import opened Lists

  /** One token of the answer: a single number, or a range given by its first two numbers. */
  datatype Token = Single(index: nat) | Range(low: nat, high: nat) {
    /** A range written high-to-low, which the script reports instead of selecting anything. */
    predicate Inverted() {
      Range? && low > high
    }

    predicate Covers(i: nat) {
      if Single? then i == index else low <= i <= high
    }

    /** The largest number the token can cover. */
    function Top(): nat {
      if Single? then index else high
    }
  }

  /** Why splitUrlProfileEntries gives no profiles: it raises (ConversionError, IndexError) or returns None. */
  datatype SelectionError =
    | ConversionError
    | InvertedRange(low: nat, high: nat)
    | OutOfRange(profileCount: nat)
    | IndexError

  function NatLess(a: nat, b: nat): bool {
    a < b
  }

  lemma {:induction false} NatLessIsStrictTotalOrder()
    ensures IsStrictTotalOrder(NatLess)
  {
  }

  /** The tokens of the answer: whitespace deleted, then split on ','. */
  function Tokens(indexString: string): seq<string> {
    Split(RemoveWhitespace(indexString), ',')
  }

  /**
   * One token as lines 127-133 read it: with a '-' it is split on '-' and
   * every piece converted, the first two giving the range; otherwise it is
   * converted as a whole.
   */
  function ParseToken(t: string): Option<Token> {
    if '-' in t then
      SplitHasTwoPieces(t, '-');
      var x := MapAll(UnsignedLiteral, Split(t, '-'));
      if x.Some? then Some(Range(x.value[0], x.value[1])) else None
    else
      var v := UnsignedLiteral(t);
      if v.Some? then Some(Single(v.value)) else None
  }

  /** The tokens of an answer, parsed. */
  function ParsedTokens(indexString: string): Option<seq<Token>> {
    MapAll(ParseToken, Tokens(indexString))
  }

  /** The last inverted range among the tokens, the one whose text `badRange` ends up holding. */
  function LastInverted(ts: seq<Token>): (r: Option<Token>)
    ensures r.None? <==> forall k :: 0 <= k < |ts| ==> !ts[k].Inverted()
    ensures r.Some? ==> r.value.Inverted()
    ensures r.Some? ==> exists k :: 0 <= k < |ts| && ts[k] == r.value && forall j :: k < j < |ts| ==> !ts[j].Inverted()
  {
    if |ts| == 0 then None
    else if ts[|ts| - 1].Inverted() then Some(ts[|ts| - 1])
    else
      var r := LastInverted(ts[..|ts| - 1]);
      assert forall k :: 0 <= k < |ts| - 1 ==> ts[..|ts| - 1][k] == ts[k];
      r
  }

  /** Some token covers number `i`. */
  predicate Selects(ts: seq<Token>, i: nat) {
    exists k :: 0 <= k < |ts| && ts[k].Covers(i)
  }

  /** A number no token reaches beyond. */
  function Bound(ts: seq<Token>): (b: nat)
    ensures forall k :: 0 <= k < |ts| ==> ts[k].Top() <= b
  {
    if |ts| == 0 then 0
    else
      var b := Bound(ts[1..]);
      assert forall k :: 1 <= k < |ts| ==> ts[k] == ts[1..][k - 1];
      if ts[0].Top() > b then ts[0].Top() else b
  }

  /** The numbers in lo..hi that some token covers, in ascending order. */
  function CoveredBetween(ts: seq<Token>, lo: nat, hi: nat): (r: seq<nat>)
    decreases hi + 1 - lo
    ensures StrictlySorted(r, NatLess)
    ensures forall i: nat :: i in r <==> lo <= i <= hi && Selects(ts, i)
  {
    if lo > hi then []
    else
      var rest := CoveredBetween(ts, lo + 1, hi);
      assert forall j :: 0 <= j < |rest| ==> NatLess(lo, rest[j]) by {
        forall j | 0 <= j < |rest| ensures NatLess(lo, rest[j]) {
          assert rest[j] in rest;
        }
      }
      if Selects(ts, lo) then [lo] + rest else rest
  }

  /** Every number the tokens select, once each, in ascending order. */
  function Ascending(ts: seq<Token>): (r: seq<nat>)
    ensures StrictlySorted(r, NatLess)
    ensures forall i: nat :: i in r <==> Selects(ts, i)
  {
    assert forall i: nat :: Selects(ts, i) ==> i <= Bound(ts);
    CoveredBetween(ts, 0, Bound(ts))
  }

  /** `xs[j]` with Python's reading of a negative index: -1 is the last element. */
  function PyIndex<T>(xs: seq<T>, j: int): T
    requires -|xs| <= j < |xs|
  {
    if j >= 0 then xs[j] else xs[|xs| + j]
  }

  /**
   * What splitUrlProfileEntries does with an answer: a token that int()
   * refuses raises; otherwise an inverted range is reported, the last one
   * written; otherwise a number beyond the profile count is reported;
   * otherwise every selected number i picks `profileList[i - 1]`, in
   * ascending order of i.
   */
  function SplitSpec(indexString: string, profileList: seq<string>): Result<seq<string>, SelectionError> {
    SelectionOf(ParsedTokens(indexString), profileList)
  }

  /** SplitSpec once the tokens are parsed; None stands for a conversion that raised. */
  function SelectionOf(parsed: Option<seq<Token>>, profileList: seq<string>): Result<seq<string>, SelectionError> {
    match parsed
    case None => Err(ConversionError)
    case Some(ts) =>
      match LastInverted(ts)
      case Some(bad) => Err(InvertedRange(bad.low, bad.high))
      case None =>
        var idx := Ascending(ts);
        if exists k :: 0 <= k < |idx| && idx[k] > |profileList| then Err(OutOfRange(|profileList|))
        else if |profileList| == 0 then Err(IndexError)
        else Ok(Pick(profileList, idx))
  }

  /** `[profileList[i - 1] for i in idx]`. */
  function Pick(profileList: seq<string>, idx: seq<nat>): (r: seq<string>)
    requires |profileList| > 0 && forall k :: 0 <= k < |idx| ==> idx[k] <= |profileList|
  {
    seq(|idx|, k requires 0 <= k < |idx| => PyIndex(profileList, idx[k] as int - 1))
  }

  /** The tokens with no '-', in order: what is left of the token list after line 129. */
  function SingleStrings(ts: seq<string>): (r: seq<string>)
    ensures forall t {:trigger t in r} :: t in r <==> t in ts && '-' !in t
  {
    if |ts| == 0 then []
    else
      var last := ts[|ts| - 1];
      assert ts == ts[..|ts| - 1] + [last];
      SingleStrings(ts[..|ts| - 1]) + (if '-' in last then [] else [last])
  }

  /** The tokens with a '-', in order: `profileList_Indexes_ranges` after line 128. */
  function RangeStrings(ts: seq<string>): (r: seq<string>)
    ensures forall t {:trigger t in r} :: t in r <==> t in ts && '-' in t
  {
    if |ts| == 0 then []
    else
      var last := ts[|ts| - 1];
      assert ts == ts[..|ts| - 1] + [last];
      RangeStrings(ts[..|ts| - 1]) + (if '-' in last then [last] else [])
  }

  lemma {:induction false} OneBadTokenSpoilsAll(ts: seq<string>, t: string)
    requires t in ts && ParseToken(t).None?
    ensures MapAll(ParseToken, ts).None?
  {
    var k :| 0 <= k < |ts| && ts[k] == t;
  }

  lemma {:induction false} SelectsSnoc(ts: seq<Token>, x: Token, i: nat)
    ensures Selects(ts + [x], i) <==> Selects(ts, i) || x.Covers(i)
  {
    if Selects(ts, i) {
      var k :| 0 <= k < |ts| && ts[k].Covers(i);
      assert (ts + [x])[k] == ts[k];
    }
    if x.Covers(i) {
      assert (ts + [x])[|ts|] == x;
    }
  }

  lemma {:induction false} LastInvertedSnoc(ts: seq<Token>, x: Token)
    ensures LastInverted(ts + [x]) == if x.Inverted() then Some(x) else LastInverted(ts)
  {
    assert (ts + [x])[..|ts|] == ts;
  }

  /**
   * The tokens in written order against the singles and the ranges read
   * apart: the same last inverted range, the same numbers covered.
   */
  ghost predicate KindsAgree(all: seq<Token>, singles: seq<nat>, ranges: seq<Token>) {
    && LastInverted(all) == LastInverted(ranges)
    && forall i: nat :: Selects(all, i) <==> i in singles || Selects(ranges, i)
  }

  lemma {:induction false} KindsAgreeRange(all: seq<Token>, singles: seq<nat>, ranges: seq<Token>, x: Token)
    requires KindsAgree(all, singles, ranges)
    ensures KindsAgree(all + [x], singles, ranges + [x])
  {
    LastInvertedSnoc(all, x);
    LastInvertedSnoc(ranges, x);
    forall i: nat ensures Selects(all + [x], i) <==> i in singles || Selects(ranges + [x], i) {
      SelectsSnoc(all, x, i);
      SelectsSnoc(ranges, x, i);
    }
  }

  lemma {:induction false} KindsAgreeSingle(all: seq<Token>, singles: seq<nat>, ranges: seq<Token>, v: nat)
    requires KindsAgree(all, singles, ranges)
    ensures KindsAgree(all + [Single(v)], singles + [v], ranges)
  {
    LastInvertedSnoc(all, Single(v));
    forall i: nat ensures Selects(all + [Single(v)], i) <==> i in singles + [v] || Selects(ranges, i) {
      SelectsSnoc(all, Single(v), i);
    }
  }

  /**
   * Reading the single numbers first and the ranges after, as lines 126-139
   * do, converts the same tokens, reports the same last inverted range and
   * covers the same numbers as reading the tokens in their written order.
   */
  lemma {:induction false} ParseByKind(ts: seq<string>)
    requires MapAll(UnsignedLiteral, SingleStrings(ts)).Some? && MapAll(ParseToken, RangeStrings(ts)).Some?
    ensures MapAll(ParseToken, ts).Some?
    ensures KindsAgree(MapAll(ParseToken, ts).value, MapAll(UnsignedLiteral, SingleStrings(ts)).value, MapAll(ParseToken, RangeStrings(ts)).value)
  {
    if |ts| > 0 {
      var init := ts[..|ts| - 1];
      var t := ts[|ts| - 1];
      assert ts == init + [t];
      MapAllSnoc(ParseToken, init, t);
      if '-' in t {
        assert SingleStrings(ts) == SingleStrings(init);
        assert RangeStrings(ts) == RangeStrings(init) + [t];
        MapAllSnoc(ParseToken, RangeStrings(init), t);
        ParseByKind(init);
        KindsAgreeRange(MapAll(ParseToken, init).value, MapAll(UnsignedLiteral, SingleStrings(init)).value,
          MapAll(ParseToken, RangeStrings(init)).value, ParseToken(t).value);
      } else {
        assert SingleStrings(ts) == SingleStrings(init) + [t];
        assert RangeStrings(ts) == RangeStrings(init);
        MapAllSnoc(UnsignedLiteral, SingleStrings(init), t);
        ParseByKind(init);
        assert ParseToken(t) == Some(Single(UnsignedLiteral(t).value));
        KindsAgreeSingle(MapAll(ParseToken, init).value, MapAll(UnsignedLiteral, SingleStrings(init)).value,
          MapAll(ParseToken, RangeStrings(init)).value, UnsignedLiteral(t).value);
      }
    }
  }

  /** Sorting the collected numbers and dropping repeats (lines 141-142) gives the ascending selection. */
  lemma {:induction false} SortedIsAscending(sorted: seq<nat>, indexes: seq<nat>, all: seq<Token>, singles: seq<nat>, ranges: seq<Token>)
    requires StrictlySorted(sorted, NatLess) && forall y :: y in sorted <==> y in indexes
    requires forall i: nat :: i in indexes <==> i in singles || Selects(ranges, i)
    requires KindsAgree(all, singles, ranges)
    ensures sorted == Ascending(all)
  {
    NatLessIsStrictTotalOrder();
    StrictlySortedUnique(sorted, Ascending(all), NatLess);
  }

  /** Every token written, however valid, covers at least one number unless it is an inverted range. */
  lemma {:induction false} SomethingSelected(ts: seq<Token>)
    requires |ts| > 0 && LastInverted(ts).None?
    ensures |Ascending(ts)| > 0
  {
    var low := if ts[0].Single? then ts[0].index else ts[0].low;
    assert ts[0].Covers(low);
    assert low in Ascending(ts);
  }

  /** One step of the loop of lines 126-129. */
  lemma {:induction false} PartitionStep(all: seq<string>, k: nat)
    requires k < |all|
    ensures '-' in all[k] ==> all[k] in SingleStrings(all[..k]) + all[k..]
    ensures SingleStrings(all[..k + 1]) + all[k + 1..] ==
      if '-' in all[k] then RemoveFirst(SingleStrings(all[..k]) + all[k..], all[k]) else SingleStrings(all[..k]) + all[k..]
    ensures RangeStrings(all[..k + 1]) == RangeStrings(all[..k]) + if '-' in all[k] then [all[k]] else []
  {
    var i := all[k];
    assert all[..k + 1] == all[..k] + [i];
    assert all[k..] == [i] + all[k + 1..];
    if '-' in i {
      assert SingleStrings(all[..k + 1]) == SingleStrings(all[..k]);
      RemoveFirstSkipsPrefix(SingleStrings(all[..k]), all[k..], i);
      assert RemoveFirst(all[k..], i) == all[k + 1..];
    } else {
      assert SingleStrings(all[..k + 1]) == SingleStrings(all[..k]) + [i];
    }
  }

  /** Lines 124-129: the tokens holding a '-' move, in order, from the token list to the range list. */
  method PartitionTokens(all: seq<string>) returns (singles: seq<string>, rangeStrings: seq<string>)
    ensures singles == SingleStrings(all) && rangeStrings == RangeStrings(all)
  {
    singles := all;
    rangeStrings := [];
    var k := 0;
    while k < |all|
      invariant k <= |all|
      invariant singles == SingleStrings(all[..k]) + all[k..]
      invariant rangeStrings == RangeStrings(all[..k])
    {
      var i := all[k];
      PartitionStep(all, k);
      if '-' in i {
        rangeStrings := rangeStrings + [i];
        singles := RemoveFirst(singles, i);
      }
      k := k + 1;
    }
    assert all[..k] == all;
  }

  /** One step of the loop of lines 132-139, on the range tokens read so far. */
  lemma {:induction false} RangeStep(rangeStrings: seq<string>, k: nat)
    requires k < |rangeStrings| && '-' in rangeStrings[k]
    ensures |Split(rangeStrings[k], '-')| >= 2
    ensures var x := MapAll(UnsignedLiteral, Split(rangeStrings[k], '-'));
      MapAll(ParseToken, rangeStrings[..k + 1]) ==
        if MapAll(ParseToken, rangeStrings[..k]).Some? && x.Some?
        then Some(MapAll(ParseToken, rangeStrings[..k]).value + [Range(x.value[0], x.value[1])])
        else None
  {
    SplitHasTwoPieces(rangeStrings[k], '-');
    assert rangeStrings[..k + 1] == rangeStrings[..k] + [rangeStrings[k]];
    MapAllSnoc(ParseToken, rangeStrings[..k], rangeStrings[k]);
  }

  /** Appending the numbers `low..high` (line 139) covers what the range adds to the ranges read so far. */
  lemma {:induction false} ExpandStep(indexes: seq<nat>, before: seq<nat>, singles: seq<nat>, ranges: seq<Token>, low: nat, high: nat)
    requires forall i: nat :: i in before <==> i in singles || Selects(ranges, i)
    requires forall i: nat :: i in indexes <==> i in before || low <= i <= high
    ensures forall i: nat :: i in indexes <==> i in singles || Selects(ranges + [Range(low, high)], i)
  {
    forall i: nat ensures i in indexes <==> i in singles || Selects(ranges + [Range(low, high)], i) {
      SelectsSnoc(ranges, Range(low, high), i);
    }
  }

  /** Lines 137-139: the numbers `low..high` are appended, none when the range is inverted. */
  method AppendRange(indexes: seq<nat>, low: nat, high: nat) returns (r: seq<nat>)
    ensures forall i: nat :: i in r <==> i in indexes || low <= i <= high
  {
    r := indexes;
    var z := low;
    while z <= high
      invariant low <= z <= if low <= high then high + 1 else low
      invariant forall i: nat :: i in r <==> i in indexes || low <= i < z
    {
      r := r + [z];
      z := z + 1;
    }
  }

  /**
   * Lines 131-139: every range is converted and its numbers appended to
   * `indexes`; an inverted range clears `rangeCheck` and is remembered.
   * `converted` is false when a conversion raises.
   */
  method ExpandRanges(rangeStrings: seq<string>, singles: seq<nat>)
    returns (converted: bool, indexes: seq<nat>, rangeCheck: bool, badLow: nat, badHigh: nat)
    requires forall t :: t in rangeStrings ==> '-' in t
    ensures converted <==> MapAll(ParseToken, rangeStrings).Some?
    ensures converted ==> var ranges := MapAll(ParseToken, rangeStrings).value;
      && (rangeCheck <==> LastInverted(ranges).None?)
      && (!rangeCheck ==> LastInverted(ranges) == Some(Range(badLow, badHigh)))
      && forall i: nat :: i in indexes <==> i in singles || Selects(ranges, i)
  {
    indexes := singles;
    rangeCheck := true;
    badLow, badHigh := 0, 0;
    ghost var ranges: seq<Token> := [];
    var k := 0;
    while k < |rangeStrings|
      invariant k <= |rangeStrings|
      invariant MapAll(ParseToken, rangeStrings[..k]) == Some(ranges)
      invariant rangeCheck <==> LastInverted(ranges).None?
      invariant !rangeCheck ==> LastInverted(ranges) == Some(Range(badLow, badHigh))
      invariant forall i: nat :: i in indexes <==> i in singles || Selects(ranges, i)
    {
      var t := rangeStrings[k];
      assert t in rangeStrings;
      RangeStep(rangeStrings, k);
      var x := MapAll(UnsignedLiteral, Split(t, '-'));
      if x.None? {
        OneBadTokenSpoilsAll(rangeStrings, t);
        return false, indexes, rangeCheck, badLow, badHigh;
      }
      var low, high := x.value[0], x.value[1];
      if low > high {
        rangeCheck := false;
        badLow, badHigh := low, high;
      }
      ghost var before := indexes;
      indexes := AppendRange(indexes, low, high);
      ExpandStep(indexes, before, singles, ranges, low, high);
      LastInvertedSnoc(ranges, Range(low, high));
      ranges := ranges + [Range(low, high)];
      k := k + 1;
    }
    assert rangeStrings[..k] == rangeStrings;
    return true, indexes, rangeCheck, badLow, badHigh;
  }

  /** Lines 148-151: `profileList[index - 1]` for every index, which raises IndexError on an empty list. */
  method PickProfiles(sorted: seq<nat>, profileList: seq<string>) returns (r: Result<seq<string>, SelectionError>)
    requires |sorted| > 0 && forall j :: 0 <= j < |sorted| ==> sorted[j] <= |profileList|
    ensures |profileList| == 0 ==> r == Err(IndexError)
    ensures |profileList| > 0 ==> r == Ok(Pick(profileList, sorted))
  {
    var urlProfileList: seq<string> := [];
    var k := 0;
    while k < |sorted|
      invariant k <= |sorted|
      invariant k > 0 ==> |profileList| > 0
      invariant |urlProfileList| == k
      invariant forall j :: 0 <= j < k ==> urlProfileList[j] == PyIndex(profileList, sorted[j] as int - 1)
    {
      var index := sorted[k];
      if !(-|profileList| <= index as int - 1 < |profileList|) {
        return Err(IndexError);
      }
      urlProfileList := urlProfileList + [PyIndex(profileList, index as int - 1)];
      k := k + 1;
    }
    assert urlProfileList == Pick(profileList, sorted);
    return Ok(urlProfileList);
  }

  /** Once the selection is known, only the largest number and the profile count matter. */
  lemma {:induction false} SpecOfSorted(ts: seq<Token>, profileList: seq<string>, sorted: seq<nat>)
    requires LastInverted(ts).None? && sorted == Ascending(ts) && |sorted| > 0
    ensures sorted[|sorted| - 1] > |profileList| ==> SelectionOf(Some(ts), profileList) == Err(OutOfRange(|profileList|))
    ensures sorted[|sorted| - 1] <= |profileList| ==> forall j :: 0 <= j < |sorted| ==> sorted[j] <= |profileList|
    ensures sorted[|sorted| - 1] <= |profileList| && |profileList| == 0 ==> SelectionOf(Some(ts), profileList) == Err(IndexError)
    ensures sorted[|sorted| - 1] <= |profileList| && |profileList| > 0 ==>
      SelectionOf(Some(ts), profileList) == Ok(Pick(profileList, sorted))
  {
    assert forall j :: 0 <= j < |sorted| - 1 ==> NatLess(sorted[j], sorted[|sorted| - 1]);
  }

  /**
   * splitUrlProfileEntries (lines 122-162), step by step: the token list is
   * split into single numbers and ranges, the singles converted, each range
   * converted and expanded while an inverted one is remembered, the numbers
   * sorted and made distinct, the largest compared with the profile count
   * and every number mapped to its profile.
   */
  method SplitUrlProfileEntries(indexString: string, profileList: seq<string>)
    returns (r: Result<seq<string>, SelectionError>)
    ensures r == SplitSpec(indexString, profileList)
  {
    var all := Tokens(indexString);
    var profileIndexes, rangeStrings := PartitionTokens(all);
    var singles := MapAll(UnsignedLiteral, profileIndexes);
    if singles.None? {
      var j :| 0 <= j < |profileIndexes| && UnsignedLiteral(profileIndexes[j]).None?;
      assert profileIndexes[j] in profileIndexes;
      OneBadTokenSpoilsAll(all, profileIndexes[j]);
      return Err(ConversionError);
    }
    var converted, indexes, rangeCheck, badLow, badHigh := ExpandRanges(rangeStrings, singles.value);
    if !converted {
      var j :| 0 <= j < |rangeStrings| && ParseToken(rangeStrings[j]).None?;
      assert rangeStrings[j] in rangeStrings;
      OneBadTokenSpoilsAll(all, rangeStrings[j]);
      return Err(ConversionError);
    }
    ParseByKind(all);
    ghost var ts := MapAll(ParseToken, all).value;
    assert ParsedTokens(indexString) == Some(ts);
    if !rangeCheck {
      return Err(InvertedRange(badLow, badHigh));
    }
    NatLessIsStrictTotalOrder();
    var sorted := SortedDistinct(indexes, NatLess);
    SortedIsAscending(sorted, indexes, ts, singles.value, MapAll(ParseToken, rangeStrings).value);
    SomethingSelected(ts);
    SpecOfSorted(ts, profileList, sorted);
    if sorted[|sorted| - 1] > |profileList| {
      return Err(OutOfRange(|profileList|));
    }
    r := PickProfiles(sorted, profileList);
  }
}
