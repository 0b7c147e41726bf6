/**
 * The XML fragment the script pushes for a URL-filtering profile: it takes
 * the profile's `entry`, drops its credential-enforcement settings, takes the
 * chosen category out of the list it was in, adds it to the list of the chosen
 * action and serializes the entry on one line.
 */
module UrlFilteringFragment {
  import opened Wrappers
  import opened Text
  import opened Lists
  import opened ElementTree

  /** The child of a profile entry that the script removes before the push. */
  const CredentialEnforcement := "credential-enforcement"

  /** The only failure before serialization: the response holds no `entry`, so `root.find` is called on None. */
  datatype FragmentError = NoEntry

  /** Step 1: the first child tagged credential-enforcement, if there is one, is removed. */
  function DropCredentialEnforcement(root: Element): (r: Element)
    ensures r.(children := root.children) == root
    ensures FindChild(root.children, CredentialEnforcement).None? ==> r == root
    ensures FindChild(root.children, CredentialEnforcement).Some? ==>
      var i := FindChild(root.children, CredentialEnforcement).value;
      r.children == root.children[..i] + root.children[i + 1..]
    ensures CountTagged(r.children, CredentialEnforcement) ==
      if CountTagged(root.children, CredentialEnforcement) > 0 then CountTagged(root.children, CredentialEnforcement) - 1 else 0
  {
    match FindChild(root.children, CredentialEnforcement)
    case None => root
    case Some(i) =>
      DeleteChildCounts(root.children, i, CredentialEnforcement, "");
      CountsOfOne(root.children[i], CredentialEnforcement, "");
      root.(children := root.children[..i] + root.children[i + 1..])
  }

  /** Step 2: the first descendant `member` whose text is `cat` is removed from its parent. */
  function RemoveCategoryMember(root: Element, cat: string): (r: Element)
    ensures r.(children := root.children) == root
    ensures Matches(root.children, cat) == 0 ==> r == root
  {
    root.(children := RemoveFirstMember(root.children, cat).0)
  }

  /** Step 3: a child tagged `action` is appended when there is none. */
  function EnsureActionChild(root: Element, action: string): (r: Element)
    ensures r.(children := root.children) == root
    ensures FindChild(root.children, action).Some? ==> r == root
    ensures FindChild(root.children, action).None? ==>
      r.children == root.children + [NewElement(action)] && FindChild(r.children, action) == Some(|root.children|)
    ensures FindChild(r.children, action).Some?
  {
    if FindChild(root.children, action).Some? then root
    else
      FindChildAppended(root.children, NewElement(action));
      root.(children := root.children + [NewElement(action)])
  }

  /** Step 4: a `member` carrying `cat` is appended to the first child tagged `action`. */
  function AddCategoryMember(root: Element, cat: string, action: string): (r: Element)
    requires FindChild(root.children, action).Some?
    ensures r.(children := root.children) == root
    ensures |r.children| == |root.children|
    ensures var i := FindChild(root.children, action).value;
      && r.children[i] == root.children[i].(children := root.children[i].children + [Member(cat)])
      && forall k :: 0 <= k < |r.children| && k != i ==> r.children[k] == root.children[k]
  {
    var i := FindChild(root.children, action).value;
    var parent := root.children[i];
    root.(children := root.children[i := parent.(children := parent.children + [Member(cat)])])
  }

  /** The entry after the four steps, in the order the script takes them. */
  function UpdateEntry(root: Element, cat: string, action: string): Element {
    var dropped := DropCredentialEnforcement(root);
    var removed := RemoveCategoryMember(dropped, cat);
    AddCategoryMember(EnsureActionChild(removed, action), cat, action)
  }

  /**
   * `re.sub(r'\n\s*', '', s)`: every line break is deleted together with the
   * whitespace run after it (which may hold further line breaks).
   */
  function Compact(s: string): (r: string)
    ensures '\n' !in r
    ensures RemoveWhitespace(r) == RemoveWhitespace(s)
    ensures '\n' !in s ==> r == s
    decreases |s|
  {
    if |s| == 0 then ""
    else if s[0] == '\n' then
      RemoveWhitespaceTrimLeft(s[1..]);
      Compact(TrimLeft(s[1..]))
    else
      var rest := Compact(s[1..]);
      assert ([s[0]] + rest)[1..] == rest;
      assert '\n' !in s ==> s == [s[0]] + s[1..];
      [s[0]] + rest
  }

  /** Text before the first line break is copied as it is. */
  lemma {:induction false} CompactKeepsLine(a: string, b: string)
    requires '\n' !in a
    ensures Compact(a + b) == a + Compact(b)
  {
    if |a| == 0 {
      assert a + b == b;
    } else {
      ConcatHeadTail(a, b);
      CompactCopies(a + b);
      CompactKeepsLine(a[1..], b);
      ConsConcat(a, Compact(b));
    }
  }

  lemma {:induction false} CompactCopies(s: string)
    requires |s| > 0 && s[0] != '\n'
    ensures Compact(s) == [s[0]] + Compact(s[1..])
  {
  }

  /** A line break and the indentation after it vanish, up to the next non-whitespace character. */
  lemma {:induction false} CompactDropsBreak(w: string, b: string)
    requires AllWhitespace(w) && (|b| == 0 || !IsWhitespace(b[0]))
    ensures Compact("\n" + w + b) == Compact(b)
  {
    HeadTail('\n', w, b);
    TrimLeftPastWhitespace(w, b);
  }

  /** Dropping credential-enforcement leaves every other tag's count, and adds no match and no nested member. */
  lemma {:induction false} DropCredentialEnforcementCounts(root: Element, tag: string, cat: string)
    ensures CountTagged(DropCredentialEnforcement(root).children, tag) <= CountTagged(root.children, tag)
    ensures tag != CredentialEnforcement ==>
      CountTagged(DropCredentialEnforcement(root).children, tag) == CountTagged(root.children, tag)
    ensures Matches(DropCredentialEnforcement(root).children, cat) <= Matches(root.children, cat)
    ensures MembersAreLeaves(root.children) ==> MembersAreLeaves(DropCredentialEnforcement(root).children)
  {
    match FindChild(root.children, CredentialEnforcement)
    case None =>
    case Some(i) =>
      DeleteChildCounts(root.children, i, tag, cat);
      CountsOfOne(root.children[i], tag, cat);
  }

  /** Removing the category member changes no child tag count but that of `member`, and takes one match away. */
  lemma {:induction false} RemoveCategoryMemberCounts(root: Element, cat: string, tag: string)
    ensures CountTagged(RemoveCategoryMember(root, cat).children, tag) <= CountTagged(root.children, tag)
    ensures tag != "member" ==> CountTagged(RemoveCategoryMember(root, cat).children, tag) == CountTagged(root.children, tag)
    ensures MembersAreLeaves(root.children) ==>
      && Matches(RemoveCategoryMember(root, cat).children, cat) ==
         (if Matches(root.children, cat) > 0 then Matches(root.children, cat) - 1 else 0)
      && MembersAreLeaves(RemoveCategoryMember(root, cat).children)
  {
    RemoveFirstMemberKeepsChildTags(root.children, cat, tag);
    if MembersAreLeaves(root.children) && Matches(root.children, cat) > 0 {
      RemoveFirstMemberCounts(root.children, cat);
    }
  }

  /** Adding the action child adds one child tagged `action` when there was none, and no match. */
  lemma {:induction false} EnsureActionChildCounts(root: Element, action: string, tag: string, cat: string)
    requires action != "member"
    ensures CountTagged(EnsureActionChild(root, action).children, tag) ==
      CountTagged(root.children, tag) + (if tag == action && CountTagged(root.children, action) == 0 then 1 else 0)
    ensures Matches(EnsureActionChild(root, action).children, cat) == Matches(root.children, cat)
    ensures MembersAreLeaves(root.children) ==> MembersAreLeaves(EnsureActionChild(root, action).children)
  {
    if FindChild(root.children, action).None? {
      var e := NewElement(action);
      CountTaggedConcat(root.children, [e], tag);
      MatchesConcat(root.children, [e], cat);
      CountsOfOne(e, tag, cat);
      assert Matches(e.children, cat) == 0 && MembersAreLeaves(e.children);
    }
  }

  /** Adding the category member keeps every child tag count and adds exactly one match. */
  lemma {:induction false} AddCategoryMemberCounts(root: Element, cat: string, action: string, tag: string)
    requires FindChild(root.children, action).Some? && action != "member"
    ensures CountTagged(AddCategoryMember(root, cat, action).children, tag) == CountTagged(root.children, tag)
    ensures Matches(AddCategoryMember(root, cat, action).children, cat) == Matches(root.children, cat) + 1
    ensures MembersAreLeaves(root.children) ==> MembersAreLeaves(AddCategoryMember(root, cat, action).children)
  {
    var i := FindChild(root.children, action).value;
    var p := root.children[i];
    var p' := p.(children := p.children + [Member(cat)]);
    ReplaceChildCounts(root.children, i, p', tag, cat);
    CountsOfOne(p, tag, cat);
    CountsOfOne(p', tag, cat);
    MatchesConcat(p.children, [Member(cat)], cat);
    CountsOfOne(Member(cat), tag, cat);
    assert Matches(Member(cat).children, cat) == 0 && MembersAreLeaves(Member(cat).children);
  }

  /**
   * What the update does to the direct children's tags: one
   * credential-enforcement child fewer if there was one, a child tagged
   * `action` if there was none, and no other tag count changes (a `member`
   * child may be the one removed).
   */
  lemma {:induction false} UpdateEntryChildTags(root: Element, cat: string, action: string, tag: string)
    requires action != CredentialEnforcement && action != "member"
    ensures tag == CredentialEnforcement ==>
      CountTagged(UpdateEntry(root, cat, action).children, tag) ==
      if CountTagged(root.children, tag) > 0 then CountTagged(root.children, tag) - 1 else 0
    ensures tag == action ==>
      CountTagged(UpdateEntry(root, cat, action).children, tag) ==
      if CountTagged(root.children, tag) == 0 then 1 else CountTagged(root.children, tag)
    ensures tag != CredentialEnforcement && tag != action && tag != "member" ==>
      CountTagged(UpdateEntry(root, cat, action).children, tag) == CountTagged(root.children, tag)
  {
    var d := DropCredentialEnforcement(root);
    var m := RemoveCategoryMember(d, cat);
    var e := EnsureActionChild(m, action);
    DropCredentialEnforcementCounts(root, tag, cat);
    RemoveCategoryMemberCounts(d, cat, tag);
    RemoveCategoryMemberCounts(d, cat, action);
    DropCredentialEnforcementCounts(root, action, cat);
    EnsureActionChildCounts(m, action, tag, cat);
    AddCategoryMemberCounts(e, cat, action, tag);
  }

  /**
   * When members are leaves, the update takes away exactly one member carrying
   * `cat` if the entry (without its credential-enforcement child) had one, and
   * adds exactly one.
   */
  lemma {:induction false} UpdateEntryMatches(root: Element, cat: string, action: string)
    requires MembersAreLeaves(root.children) && action != "member"
    ensures var d := DropCredentialEnforcement(root);
      Matches(UpdateEntry(root, cat, action).children, cat) ==
      (if Matches(d.children, cat) > 0 then Matches(d.children, cat) - 1 else 0) + 1
    ensures MembersAreLeaves(UpdateEntry(root, cat, action).children)
  {
    var d := DropCredentialEnforcement(root);
    var m := RemoveCategoryMember(d, cat);
    var e := EnsureActionChild(m, action);
    DropCredentialEnforcementCounts(root, "", cat);
    RemoveCategoryMemberCounts(d, cat, "");
    EnsureActionChildCounts(m, action, "", cat);
    AddCategoryMemberCounts(e, cat, action, "");
  }

  /**
   * After the update the first child tagged `action` ends with the new
   * `member`; when the entry had no such child, it is a new last child
   * holding only that member.
   */
  lemma {:induction false} UpdateEntryAddsMember(root: Element, cat: string, action: string)
    ensures var r := UpdateEntry(root, cat, action);
      && FindChild(r.children, action).Some?
      && var list := r.children[FindChild(r.children, action).value].children;
         |list| > 0 && list[|list| - 1] == Member(cat)
    ensures FindChild(root.children, action).None? ==>
      var r := UpdateEntry(root, cat, action);
      && |r.children| > 0
      && FindChild(r.children, action) == Some(|r.children| - 1)
      && r.children[|r.children| - 1] == NewElement(action).(children := [Member(cat)])
  {
    var d := DropCredentialEnforcement(root);
    var m := RemoveCategoryMember(d, cat);
    var e := EnsureActionChild(m, action);
    var i := FindChild(e.children, action).value;
    var p' := e.children[i].(children := e.children[i].children + [Member(cat)]);
    FindChildReplaced(e.children, i, p', action);
    if FindChild(root.children, action).None? {
      DropCredentialEnforcementCounts(root, action, cat);
      RemoveCategoryMemberCounts(d, cat, action);
      assert e.children[i] == NewElement(action);
      assert [] + [Member(cat)] == [Member(cat)];
    }
  }

  /**
   * Running the update a second time changes nothing, when the entry has at
   * most one credential-enforcement child, the category occurs at most once,
   * members are leaves, and the action is a plain list name.
   */
  lemma {:induction false} UpdateEntryIdempotent(root: Element, cat: string, action: string)
    requires CountTagged(root.children, CredentialEnforcement) <= 1
    requires Matches(root.children, cat) <= 1 && MembersAreLeaves(root.children)
    requires action != CredentialEnforcement && action != "member"
    ensures UpdateEntry(UpdateEntry(root, cat, action), cat, action) == UpdateEntry(root, cat, action)
  {
    var d := DropCredentialEnforcement(root);
    var m := RemoveCategoryMember(d, cat);
    var e := EnsureActionChild(m, action);
    var u := AddCategoryMember(e, cat, action);
    var i := FindChild(e.children, action).value;
    DropCredentialEnforcementCounts(root, CredentialEnforcement, cat);
    RemoveCategoryMemberCounts(d, cat, CredentialEnforcement);
    EnsureActionChildCounts(m, action, CredentialEnforcement, cat);
    AddCategoryMemberCounts(e, cat, action, CredentialEnforcement);
    assert DropCredentialEnforcement(u) == u;
    assert Matches(e.children, cat) == 0;
    RemoveFirstMemberUndoesAppend(e.children, i, cat);
    assert RemoveCategoryMember(u, cat) == e;
    assert EnsureActionChild(e, action) == e;
  }

  /**
   * `getUrlProfileElements` once the profile has been fetched: `response` is
   * the parsed reply and `serialize` stands for `ET.tostring(...).decode()`.
   */
  method GetUrlProfileElements(response: Element, cat: string, action: string, serialize: Element -> string)
    returns (r: Result<string, FragmentError>)
    ensures FindDescendant(response.children, "entry").None? ==> r == Err(NoEntry)
    ensures FindDescendant(response.children, "entry").Some? ==>
      r == Ok(Compact(serialize(UpdateEntry(FindDescendant(response.children, "entry").value, cat, action))))
    ensures r.Ok? ==> '\n' !in r.value
  {
    var found := FindDescendant(response.children, "entry");
    if found.None? {
      return Err(NoEntry);
    }
    var root := found.value;
    var ce := FindChild(root.children, CredentialEnforcement);
    if ce.Some? {
      root := root.(children := root.children[..ce.value] + root.children[ce.value + 1..]);
    }
    var removal := RemoveFirstMember(root.children, cat);
    if removal.1 {
      root := root.(children := removal.0);
    }
    if FindChild(root.children, action).None? {
      FindChildAppended(root.children, NewElement(action));
      root := root.(children := root.children + [NewElement(action)]);
    }
    var i := FindChild(root.children, action).value;
    var parent := root.children[i];
    root := root.(children := root.children[i := parent.(children := parent.children + [Member(cat)])]);
    var elements := serialize(root);
    r := Ok(Compact(elements));
  }
}
