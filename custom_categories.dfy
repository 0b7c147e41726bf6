/**
 * How modify-url-category-actions.py tells custom URL categories apart in
 * the list the operator picks from: each custom name gets the marker " *"
 * (lines 225, 231 and 236), the marked names are merged into one sorted
 * list without repeats (line 237), the predefined names come first (line
 * 307), and the marker is stripped again from the chosen entry (line 253).
 */
module CustomCategories {
  import opened Wrappers
  import opened Text
  import opened Lists
  import opened ProfileSelection

  const Marker: string := " *"

  /** Python's `<` on str: code points compared left to right, a proper prefix before the longer string. */
  predicate StrLess(a: string, b: string)
    decreases |a|
  {
    if |a| == 0 then |b| > 0
    else |b| > 0 && (a[0] < b[0] || (a[0] == b[0] && StrLess(a[1..], b[1..])))
  }

  lemma {:induction false} StrLessIrreflexive(a: string)
    ensures !StrLess(a, a)
  {
    if |a| > 0 {
      StrLessIrreflexive(a[1..]);
    }
  }

  lemma {:induction false} StrLessTransitive(a: string, b: string, c: string)
    requires StrLess(a, b) && StrLess(b, c)
    ensures StrLess(a, c)
  {
    if |a| > 0 && a[0] == b[0] && b[0] == c[0] {
      StrLessTransitive(a[1..], b[1..], c[1..]);
    }
  }

  lemma {:induction false} StrLessTotal(a: string, b: string)
    requires a != b
    ensures StrLess(a, b) || StrLess(b, a)
  {
    if |a| > 0 && |b| > 0 && a[0] == b[0] {
      assert a == [a[0]] + a[1..] && b == [b[0]] + b[1..];
      StrLessTotal(a[1..], b[1..]);
    }
  }

  lemma {:induction false} StrLessIsStrictTotalOrder()
    ensures IsStrictTotalOrder(StrLess)
  {
    forall a ensures !StrLess(a, a) {
      StrLessIrreflexive(a);
    }
    forall a, b, c | StrLess(a, b) && StrLess(b, c) ensures StrLess(a, c) {
      StrLessTransitive(a, b, c);
    }
    forall a, b | a != b ensures StrLess(a, b) || StrLess(b, a) {
      StrLessTotal(a, b);
    }
  }

  /** `entry.get('name') + ' *'`: a missing name attribute (None) makes the concatenation raise. */
  function Mark(name: Option<string>): Option<string> {
    match name
    case Some(n) => Some(n + Marker)
    case None => None
  }

  /** The TypeError raised for a custom category entry that has no name attribute. */
  datatype CategoryError = MissingName

  /**
   * getCustomUrlCategories once the three fetches are done: `names` holds the
   * name attributes of the shared, the parent device groups' and the device
   * group's own custom categories, in the order of lines 224-236. The None
   * filter of line 237 never drops anything: a missing name has raised before.
   */
  function CustomUrlCategories(names: seq<Option<string>>): (r: Result<seq<string>, CategoryError>)
    ensures r.Err? <==> exists k :: 0 <= k < |names| && names[k].None?
    ensures r.Ok? ==> StrictlySorted(r.value, StrLess)
    ensures r.Ok? ==> forall c :: c in r.value <==> exists k :: 0 <= k < |names| && Mark(names[k]) == Some(c)
  {
    StrLessIsStrictTotalOrder();
    var marked := MapAll(Mark, names);
    if marked.None? then Err(MissingName)
    else
      var r := SortedDistinct(marked.value, StrLess);
      assert forall c :: c in marked.value <==> exists k :: 0 <= k < |names| && Mark(names[k]) == Some(c) by {
        forall c ensures c in marked.value <==> exists k :: 0 <= k < |names| && Mark(names[k]) == Some(c) {
          if c in marked.value {
            var k :| 0 <= k < |marked.value| && marked.value[k] == c;
            assert Mark(names[k]) == Some(c);
          }
          if exists k :: 0 <= k < |names| && Mark(names[k]) == Some(c) {
            var k :| 0 <= k < |names| && Mark(names[k]) == Some(c);
            assert marked.value[k] == c;
          }
        }
      }
      Ok(r)
  }

  /** The string contains the marker " *" somewhere. */
  predicate HasMarker(s: string) {
    exists i :: 0 <= i < |s| - 1 && s[i] == ' ' && s[i + 1] == '*'
  }

  /** `s.replace(' *', '')`: occurrences removed left to right, without overlap. */
  function StripMarkers(s: string): (r: string)
    ensures |r| <= |s|
  {
    if |s| < 2 then s
    else if s[0] == ' ' && s[1] == '*' then StripMarkers(s[2..])
    else [s[0]] + StripMarkers(s[1..])
  }

  /** Stripping changes a string exactly when it contains the marker. */
  lemma {:induction false} StripMarkersKeeps(s: string)
    ensures StripMarkers(s) == s <==> !HasMarker(s)
  {
    if |s| >= 2 {
      if s[0] == ' ' && s[1] == '*' {
        assert |StripMarkers(s[2..])| < |s|;
      } else {
        StripMarkersKeeps(s[1..]);
        if HasMarker(s) {
          var i :| 0 <= i < |s| - 1 && s[i] == ' ' && s[i + 1] == '*';
          assert s[1..][i - 1] == ' ' && s[1..][i] == '*';
        }
        if HasMarker(s[1..]) {
          var i :| 0 <= i < |s[1..]| - 1 && s[1..][i] == ' ' && s[1..][i + 1] == '*';
          assert s[i + 1] == ' ' && s[i + 2] == '*';
        }
        assert StripMarkers(s) == s <==> StripMarkers(s[1..]) == s[1..] by {
          assert s == [s[0]] + s[1..];
        }
      }
    }
  }

  /** The marker appended at lines 225-236 is stripped again, whatever the name ends with. */
  lemma {:induction false} StripMarkersDropsSuffix(name: string)
    ensures StripMarkers(name + Marker) == StripMarkers(name)
  {
    var s := name + Marker;
    if |name| == 0 {
      assert s == Marker;
      assert StripMarkers(s) == StripMarkers(s[2..]) && s[2..] == "";
    } else if |name| == 1 {
      assert s[1..] == Marker;
      assert StripMarkers(s[1..]) == StripMarkers(Marker[2..]) && Marker[2..] == "";
    } else if name[0] == ' ' && name[1] == '*' {
      assert s[2..] == name[2..] + Marker;
      StripMarkersDropsSuffix(name[2..]);
    } else {
      assert s[1..] == name[1..] + Marker;
      StripMarkersDropsSuffix(name[1..]);
    }
  }

  /** A custom name without the marker inside it comes back unchanged. */
  lemma {:induction false} UnmarkedName(name: string)
    ensures StripMarkers(name + Marker) == name <==> !HasMarker(name)
  {
    StripMarkersDropsSuffix(name);
    StripMarkersKeeps(name);
  }

  /**
   * One answer to the prompt of chooseUrlCat (lines 241-258): int() of the
   * answer, then Python indexing at that number minus one, so 0 and negative
   * numbers count from the end; None is a ValueError or an IndexError, which
   * the bare except turns into a new prompt.
   */
  function ChooseUrlCat(catList: seq<string>, answer: string): (r: Option<string>)
    ensures r.Some? <==>
      IntLiteral(answer).Some? && -|catList| <= IntLiteral(answer).value - 1 < |catList|
  {
    var choice := IntLiteral(answer);
    if choice.Some? && -|catList| <= choice.value - 1 < |catList| then
      Some(StripMarkers(PyIndex(catList, choice.value - 1)))
    else None
  }

  /** Answering with the number shown beside an entry (line 249) picks that entry, marker stripped. */
  lemma {:induction false} ChooseShownNumber(catList: seq<string>, i: nat)
    requires 1 <= i <= |catList|
    ensures ChooseUrlCat(catList, NatToString(i)) == Some(StripMarkers(catList[i - 1]))
  {
    DigitsAreUnsignedLiteral(NatToString(i));
  }

  /** Every entry of the custom list is a fetched name with the marker appended. */
  lemma {:induction false} CustomEntryIsMarkedName(names: seq<Option<string>>, c: string) returns (k: nat)
    requires CustomUrlCategories(names).Ok? && c in CustomUrlCategories(names).value
    ensures k < |names| && names[k].Some? && c == names[k].value + Marker
  {
    k :| 0 <= k < |names| && Mark(names[k]) == Some(c);
  }

  /**
   * Picking a custom category from the merged list of line 307, by any
   * answer int() reads as its number, gives back one of the fetched names,
   * provided no name has the marker inside it.
   */
  lemma {:induction false} ChooseCustomCategory(predefined: seq<string>, names: seq<Option<string>>, j: nat, answer: string)
    requires CustomUrlCategories(names).Ok? && j < |CustomUrlCategories(names).value|
    requires forall k :: 0 <= k < |names| && names[k].Some? ==> !HasMarker(names[k].value)
    requires IntLiteral(answer) == Some(|predefined| + j + 1)
    ensures var choice := ChooseUrlCat(predefined + CustomUrlCategories(names).value, answer);
      choice.Some? && exists k :: 0 <= k < |names| && names[k] == choice
  {
    var custom := CustomUrlCategories(names).value;
    var all := predefined + custom;
    var c := custom[j];
    assert all[|predefined| + j] == c;
    assert ChooseUrlCat(all, answer) == Some(StripMarkers(c));
    var k := CustomEntryIsMarkedName(names, c);
    UnmarkedName(names[k].value);
  }

  /** The answer "0" picks the last entry (Python's index -1). */
  lemma {:induction false} ChooseZeroIsLast(catList: seq<string>)
    requires |catList| > 0
    ensures ChooseUrlCat(catList, "0") == Some(StripMarkers(catList[|catList| - 1]))
  {
    DigitsAreUnsignedLiteral("0");
  }

  /** An answer that starts with one of U+001C-U+001F makes int() of line 252 raise, so the prompt is shown again. */
  lemma {:induction false} SeparatorBeforeNumberAsksAgain(catList: seq<string>, c: char, d: string)
    requires '\U{1C}' <= c <= '\U{1F}' && |d| > 0 && AllDigits(d)
    ensures ChooseUrlCat(catList, [c] + d).None?
  {
    SeparatorBeforeNumberIsRefused(c, d);
  }
}
