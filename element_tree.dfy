/**
 * The part of Python's xml.etree.ElementTree that the script uses, modelled on
 * values: elements, document order, `find` by child tag, `find('.//tag')`,
 * `itertext`, and removal of the first descendant `member` whose text is a
 * given category.
 */
module ElementTree {
  import opened Wrappers
  import opened Lists

  /**
   * An element has a tag, its attributes, the text before its first child,
   * the tail text after its end tag, and its children in order.
   */
  datatype Element = Element(
    tag: string,
    attrib: map<string, string>,
    text: Option<string>,
    tail: Option<string>,
    children: seq<Element>)

  /** The element that `ET.SubElement(parent, tag)` creates and appends. */
  function NewElement(tag: string): Element {
    Element(tag, map[], None, None, [])
  }

  /** One node without its children: what the node itself contributes to an outline. */
  function Label(e: Element): Element {
    e.(children := [])
  }

  /** Every element of the forest `cs`, at any depth, in document order (as `Element.iter` visits them). */
  function Preorder(cs: seq<Element>): seq<Element>
    decreases cs
  {
    if |cs| == 0 then [] else [cs[0]] + Preorder(cs[0].children) + Preorder(cs[1..])
  }

  /**
   * The nodes of `cs` in document order, each labelled with its depth: the
   * forest's whole content and shape as one flat list.
   */
  function Outline(cs: seq<Element>, depth: nat): (r: seq<(nat, Element)>)
    ensures |r| == |Preorder(cs)|
    decreases cs
  {
    if |cs| == 0 then [] else [(depth, Label(cs[0]))] + Outline(cs[0].children, depth + 1) + Outline(cs[1..], depth)
  }

  /** Entry `i` of the outline is the label of the `i`-th element in document order, at its depth or deeper. */
  lemma {:induction false} OutlineLabels(cs: seq<Element>, depth: nat, i: nat)
    requires i < |Preorder(cs)|
    ensures Outline(cs, depth)[i].1 == Label(Preorder(cs)[i]) && Outline(cs, depth)[i].0 >= depth
    decreases cs
  {
    var pc := Preorder(cs[0].children);
    if 1 <= i < 1 + |pc| {
      OutlineLabels(cs[0].children, depth + 1, i - 1);
    } else if 1 + |pc| <= i {
      OutlineLabels(cs[1..], depth, i - 1 - |pc|);
    }
  }

  /** The number of nodes in `e`'s subtree, `e` included: how much of an outline it occupies. */
  function Span(e: Element): nat {
    1 + |Preorder(e.children)|
  }

  lemma {:induction false} PreorderConcat(xs: seq<Element>, ys: seq<Element>)
    ensures Preorder(xs + ys) == Preorder(xs) + Preorder(ys)
  {
    if |xs| == 0 {
      assert xs + ys == ys;
    } else {
      assert (xs + ys)[0] == xs[0] && (xs + ys)[1..] == xs[1..] + ys;
      PreorderConcat(xs[1..], ys);
    }
  }

  lemma {:induction false} OutlineConcat(xs: seq<Element>, ys: seq<Element>, depth: nat)
    ensures Outline(xs + ys, depth) == Outline(xs, depth) + Outline(ys, depth)
  {
    if |xs| == 0 {
      assert xs + ys == ys;
    } else {
      assert (xs + ys)[0] == xs[0] && (xs + ys)[1..] == xs[1..] + ys;
      OutlineConcat(xs[1..], ys, depth);
    }
  }

  /** `e.find(tag)` for an element whose children are `cs`: the index of the first one tagged `tag`, if there is one. */
  function FindChild(cs: seq<Element>, tag: string): (r: Option<nat>)
    ensures r.Some? ==> r.value < |cs| && cs[r.value].tag == tag
    ensures r.Some? ==> forall k :: 0 <= k < r.value ==> cs[k].tag != tag
    ensures r.None? ==> forall k :: 0 <= k < |cs| ==> cs[k].tag != tag
  {
    if |cs| == 0 then None
    else if cs[0].tag == tag then Some(0)
    else
      match FindChild(cs[1..], tag)
      case Some(i) => Some(i + 1)
      case None => None
  }

  /** The number of children tagged `tag`. */
  function CountTagged(cs: seq<Element>, tag: string): (n: nat)
    ensures n <= |cs|
    ensures n == 0 <==> FindChild(cs, tag).None?
  {
    if |cs| == 0 then 0 else (if cs[0].tag == tag then 1 else 0) + CountTagged(cs[1..], tag)
  }

  lemma {:induction false} CountTaggedConcat(xs: seq<Element>, ys: seq<Element>, tag: string)
    ensures CountTagged(xs + ys, tag) == CountTagged(xs, tag) + CountTagged(ys, tag)
  {
    if |xs| == 0 {
      assert xs + ys == ys;
    } else {
      assert (xs + ys)[0] == xs[0] && (xs + ys)[1..] == xs[1..] + ys;
      CountTaggedConcat(xs[1..], ys, tag);
    }
  }

  /** Searching a concatenation: the first part's hit, else the second part's, shifted past the first. */
  lemma {:induction false} FindChildConcat(a: seq<Element>, b: seq<Element>, tag: string)
    ensures FindChild(a + b, tag) ==
      match FindChild(a, tag)
      case Some(i) => Some(i)
      case None => (match FindChild(b, tag) case Some(j) => Some(|a| + j) case None => None)
  {
    if |a| == 0 {
      assert a + b == b;
    } else {
      assert (a + b)[0] == a[0] && (a + b)[1..] == a[1..] + b;
      FindChildConcat(a[1..], b, tag);
    }
  }

  /**
   * `e.find('.//' + tag)` for an element whose children are `cs`: the first
   * descendant tagged `tag` in document order, searched the way `Element.iter`
   * walks the tree (the element itself is not a candidate).
   */
  function FindDescendant(cs: seq<Element>, tag: string): (r: Option<Element>)
    ensures r.None? <==> FindChild(Preorder(cs), tag).None?
    ensures r.Some? ==> r.value == Preorder(cs)[FindChild(Preorder(cs), tag).value]
    decreases cs
  {
    if |cs| == 0 then None
    else
      FindChildConcat([cs[0]] + Preorder(cs[0].children), Preorder(cs[1..]), tag);
      FindChildConcat([cs[0]], Preorder(cs[0].children), tag);
      if cs[0].tag == tag then Some(cs[0])
      else
        match FindDescendant(cs[0].children, tag)
        case Some(e) => Some(e)
        case None => FindDescendant(cs[1..], tag)
  }

  /** `"".join(e.itertext())`: the element's text and, in order, its descendants' text and tails. */
  function TextContent(e: Element): string
    decreases e
  {
    e.text.GetOr("") + ForestText(e.children)
  }

  /** The `itertext` contribution of a list of siblings: each one's text content, then its tail. */
  function ForestText(cs: seq<Element>): string
    decreases cs
  {
    if |cs| == 0 then "" else TextContent(cs[0]) + cs[0].tail.GetOr("") + ForestText(cs[1..])
  }

  /** What the XPath step `member[.='cat']` selects: a `member` whose text content is `cat`. */
  predicate IsCategoryMember(e: Element, cat: string) {
    e.tag == "member" && TextContent(e) == cat
  }

  /** The `member` element that `SubElement(parent, 'member')` followed by `child.text = cat` adds. */
  function Member(cat: string): (e: Element)
    ensures IsCategoryMember(e, cat) && e.children == []
  {
    NewElement("member").(text := Some(cat))
  }

  /** The index of the first element of `p` that is a member carrying `cat`. */
  function FirstMember(p: seq<Element>, cat: string): (r: Option<nat>)
    ensures r.Some? ==> r.value < |p| && IsCategoryMember(p[r.value], cat)
  {
    if |p| == 0 then None
    else if IsCategoryMember(p[0], cat) then Some(0)
    else
      match FirstMember(p[1..], cat)
      case Some(i) => Some(i + 1)
      case None => None
  }

  /** No element before the one FirstMember reports, and none at all when it reports nothing, is a match. */
  lemma {:induction false} FirstMemberIsFirst(p: seq<Element>, cat: string, k: nat)
    requires k < |p| && (FirstMember(p, cat).None? || k < FirstMember(p, cat).value)
    ensures !IsCategoryMember(p[k], cat)
  {
    if k > 0 {
      assert p[1..][k - 1] == p[k];
      FirstMemberIsFirst(p[1..], cat, k - 1);
    }
  }

  /** How many members carrying `cat` the forest `cs` holds, at any depth. */
  function Matches(cs: seq<Element>, cat: string): nat
    decreases cs
  {
    if |cs| == 0 then 0
    else (if IsCategoryMember(cs[0], cat) then 1 else 0) + Matches(cs[0].children, cat) + Matches(cs[1..], cat)
  }

  /** Every `member` in the forest is a leaf, as in `<member>name</member>`. */
  predicate MembersAreLeaves(cs: seq<Element>)
    decreases cs
  {
    |cs| == 0 ||
    ((cs[0].tag == "member" ==> cs[0].children == [])
     && MembersAreLeaves(cs[0].children) && MembersAreLeaves(cs[1..]))
  }

  lemma {:induction false} MatchesConcat(xs: seq<Element>, ys: seq<Element>, cat: string)
    ensures Matches(xs + ys, cat) == Matches(xs, cat) + Matches(ys, cat)
    ensures MembersAreLeaves(xs + ys) <==> MembersAreLeaves(xs) && MembersAreLeaves(ys)
  {
    if |xs| == 0 {
      assert xs + ys == ys;
    } else {
      assert (xs + ys)[0] == xs[0] && (xs + ys)[1..] == xs[1..] + ys;
      MatchesConcat(xs[1..], ys, cat);
    }
  }

  /**
   * `parent.remove(element_to_remove)` for the first member carrying `cat`,
   * anywhere in the forest: the new forest, and whether there was one.
   */
  function RemoveFirstMember(cs: seq<Element>, cat: string): (r: (seq<Element>, bool))
    ensures r.1 <==> Matches(cs, cat) > 0
    ensures !r.1 ==> r.0 == cs
    decreases cs
  {
    if |cs| == 0 then (cs, false)
    else if IsCategoryMember(cs[0], cat) then (cs[1..], true)
    else
      var inner := RemoveFirstMember(cs[0].children, cat);
      if inner.1 then ([cs[0].(children := inner.0)] + cs[1..], true)
      else
        var rest := RemoveFirstMember(cs[1..], cat);
        assert !rest.1 ==> [cs[0]] + rest.0 == cs;
        ([cs[0]] + rest.0, rest.1)
  }

  lemma {:induction false} FirstMemberConcat(a: seq<Element>, b: seq<Element>, cat: string)
    ensures FirstMember(a + b, cat) ==
      match FirstMember(a, cat)
      case Some(i) => Some(i)
      case None => (match FirstMember(b, cat) case Some(j) => Some(|a| + j) case None => None)
  {
    if |a| == 0 {
      assert a + b == b;
    } else {
      assert (a + b)[0] == a[0] && (a + b)[1..] == a[1..] + b;
      FirstMemberConcat(a[1..], b, cat);
    }
  }

  /** The forest holds a member carrying `cat` exactly when one turns up in document order. */
  lemma {:induction false} MatchesFindFirstMember(cs: seq<Element>, cat: string)
    ensures Matches(cs, cat) > 0 <==> FirstMember(Preorder(cs), cat).Some?
    decreases cs
  {
    if |cs| > 0 {
      FirstMemberConcat([cs[0]] + Preorder(cs[0].children), Preorder(cs[1..]), cat);
      FirstMemberConcat([cs[0]], Preorder(cs[0].children), cat);
      MatchesFindFirstMember(cs[0].children, cat);
      MatchesFindFirstMember(cs[1..], cat);
    }
  }

  lemma {:induction false} PreorderCons(e: Element, rest: seq<Element>)
    ensures Preorder([e] + rest) == [e] + Preorder(e.children) + Preorder(rest)
  {
    assert ([e] + rest)[0] == e && ([e] + rest)[1..] == rest;
  }

  lemma {:induction false} OutlineCons(e: Element, rest: seq<Element>, depth: nat)
    ensures Outline([e] + rest, depth) == [(depth, Label(e))] + Outline(e.children, depth + 1) + Outline(rest, depth)
  {
    assert ([e] + rest)[0] == e && ([e] + rest)[1..] == rest;
  }

  /** The first tree of a forest is itself the first member carrying `cat` in document order. */
  lemma {:induction false} FirstMemberIsFirstTree(cs: seq<Element>, cat: string)
    requires |cs| > 0 && IsCategoryMember(cs[0], cat)
    ensures FirstMember(Preorder(cs), cat) == Some(0) && Preorder(cs)[0] == cs[0]
  {
  }

  /** Unfolds Preorder once, for a non-empty forest. */
  lemma {:induction false} PreorderUnfold(cs: seq<Element>, p: seq<Element>)
    requires |cs| > 0 && p == Preorder(cs)
    ensures p == [cs[0]] + Preorder(cs[0].children) + Preorder(cs[1..])
  {
  }

  /** In `p == [x] + a + b`, with `x` no match, a hit at `j` in `a` is the hit at `1 + j`. */
  lemma {:induction false} FirstMemberInto(p: seq<Element>, x: Element, a: seq<Element>, b: seq<Element>, cat: string, j: nat)
    requires p == [x] + a + b
    requires !IsCategoryMember(x, cat) && FirstMember(a, cat) == Some(j)
    ensures FirstMember(p, cat) == Some(1 + j)
  {
    HeadTail(x, a, b);
    FirstMemberConcat(a, b, cat);
  }

  /** In `p == [x] + a + b`, with no match in `[x] + a`, a hit at `j` in `b` is the hit at `1 + |a| + j`. */
  lemma {:induction false} FirstMemberPast(p: seq<Element>, x: Element, a: seq<Element>, b: seq<Element>, cat: string, j: nat)
    requires p == [x] + a + b
    requires !IsCategoryMember(x, cat) && FirstMember(a, cat).None? && FirstMember(b, cat) == Some(j)
    ensures FirstMember(p, cat) == Some(1 + |a| + j)
  {
    HeadTail(x, a, b);
    FirstMemberConcat(a, b, cat);
  }

  /** The first member carrying `cat` lies below the first tree, at offset `1 + j`. */
  lemma {:induction false} FirstMemberInsideFirstTree(cs: seq<Element>, cat: string, j: nat)
    requires |cs| > 0 && !IsCategoryMember(cs[0], cat)
    requires FirstMember(Preorder(cs[0].children), cat) == Some(j)
    ensures FirstMember(Preorder(cs), cat) == Some(1 + j)
  {
    PreorderUnfold(cs, Preorder(cs));
    FirstMemberInto(Preorder(cs), cs[0], Preorder(cs[0].children), Preorder(cs[1..]), cat, j);
  }

  lemma {:induction false} PreorderIndexInto(cs: seq<Element>, j: nat)
    requires |cs| > 0 && j < |Preorder(cs[0].children)|
    ensures Preorder(cs)[1 + j] == Preorder(cs[0].children)[j]
  {
    PreorderUnfold(cs, Preorder(cs));
    IndexInto(cs[0], Preorder(cs[0].children), Preorder(cs[1..]), j);
  }

  /** The first member carrying `cat` lies in the later trees, at offset `1 + |pc| + j`. */
  lemma {:induction false} FirstMemberAfterFirstTree(cs: seq<Element>, cat: string, j: nat)
    requires |cs| > 0 && !IsCategoryMember(cs[0], cat)
    requires FirstMember(Preorder(cs[0].children), cat).None?
    requires FirstMember(Preorder(cs[1..]), cat) == Some(j)
    ensures FirstMember(Preorder(cs), cat) == Some(1 + |Preorder(cs[0].children)| + j)
  {
    PreorderUnfold(cs, Preorder(cs));
    FirstMemberPast(Preorder(cs), cs[0], Preorder(cs[0].children), Preorder(cs[1..]), cat, j);
  }

  lemma {:induction false} PreorderIndexPast(cs: seq<Element>, j: nat)
    requires |cs| > 0 && j < |Preorder(cs[1..])|
    ensures Preorder(cs)[1 + |Preorder(cs[0].children)| + j] == Preorder(cs[1..])[j]
  {
    PreorderUnfold(cs, Preorder(cs));
    IndexPast(cs[0], Preorder(cs[0].children), Preorder(cs[1..]), j);
  }

  /**
   * Removing the first member carrying `cat` cuts one contiguous piece out of
   * the outline, `mid`: the subtree of the first such member in document
   * order. Every other node keeps its content, its depth and its place in the
   * order.
   */
  lemma {:induction false} RemoveFirstMemberOutline(cs: seq<Element>, cat: string, depth: nat)
    returns (pre: seq<(nat, Element)>, mid: seq<(nat, Element)>, post: seq<(nat, Element)>)
    requires Matches(cs, cat) > 0
    ensures FirstMember(Preorder(cs), cat) == Some(|pre|)
    ensures |mid| == Span(Preorder(cs)[|pre|])
    ensures Outline(cs, depth) == pre + mid + post
    ensures Outline(RemoveFirstMember(cs, cat).0, depth) == pre + post
    decreases cs, 1
  {
    if IsCategoryMember(cs[0], cat) {
      pre, mid, post := OutlineWhenFirstMatches(cs, cat, depth);
    } else if Matches(cs[0].children, cat) > 0 {
      pre, mid, post := OutlineWhenInsideFirst(cs, cat, depth);
    } else {
      pre, mid, post := OutlineWhenAfterFirst(cs, cat, depth);
    }
  }

  lemma {:induction false} OutlineWhenFirstMatches(cs: seq<Element>, cat: string, depth: nat)
    returns (pre: seq<(nat, Element)>, mid: seq<(nat, Element)>, post: seq<(nat, Element)>)
    requires |cs| > 0 && IsCategoryMember(cs[0], cat)
    ensures FirstMember(Preorder(cs), cat) == Some(|pre|)
    ensures |mid| == Span(Preorder(cs)[|pre|])
    ensures Outline(cs, depth) == pre + mid + post
    ensures Outline(RemoveFirstMember(cs, cat).0, depth) == pre + post
  {
    FirstMemberIsFirstTree(cs, cat);
    pre, mid, post := [], [(depth, Label(cs[0]))] + Outline(cs[0].children, depth + 1), Outline(cs[1..], depth);
    EmptyPrefix(mid, post);
  }

  lemma {:induction false} OutlineWhenInsideFirst(cs: seq<Element>, cat: string, depth: nat)
    returns (pre: seq<(nat, Element)>, mid: seq<(nat, Element)>, post: seq<(nat, Element)>)
    requires |cs| > 0 && !IsCategoryMember(cs[0], cat) && Matches(cs[0].children, cat) > 0
    ensures FirstMember(Preorder(cs), cat) == Some(|pre|)
    ensures |mid| == Span(Preorder(cs)[|pre|])
    ensures Outline(cs, depth) == pre + mid + post
    ensures Outline(RemoveFirstMember(cs, cat).0, depth) == pre + post
    decreases cs, 0
  {
    var c0 := cs[0];
    var p, m, q := RemoveFirstMemberOutline(c0.children, cat, depth + 1);
    FirstMemberInsideFirstTree(cs, cat, |p|);
    PreorderIndexInto(cs, |p|);
    var x, or := (depth, Label(c0)), Outline(cs[1..], depth);
    pre, mid, post := [x] + p, m, q + or;
    RemovedInside(cs, cat, depth, p, m, q);
  }

  lemma {:induction false} OutlineWhenAfterFirst(cs: seq<Element>, cat: string, depth: nat)
    returns (pre: seq<(nat, Element)>, mid: seq<(nat, Element)>, post: seq<(nat, Element)>)
    requires |cs| > 0 && !IsCategoryMember(cs[0], cat) && Matches(cs[0].children, cat) == 0
    requires Matches(cs, cat) > 0
    ensures FirstMember(Preorder(cs), cat) == Some(|pre|)
    ensures |mid| == Span(Preorder(cs)[|pre|])
    ensures Outline(cs, depth) == pre + mid + post
    ensures Outline(RemoveFirstMember(cs, cat).0, depth) == pre + post
    decreases cs, 0
  {
    var c0 := cs[0];
    MatchesFindFirstMember(c0.children, cat);
    var p, m, q := RemoveFirstMemberOutline(cs[1..], cat, depth);
    FirstMemberAfterFirstTree(cs, cat, |p|);
    PreorderIndexPast(cs, |p|);
    var x, oc := (depth, Label(c0)), Outline(c0.children, depth + 1);
    pre, mid, post := [x] + oc + p, m, q;
    RemovedAfter(cs, cat, depth, p, m, q);
  }

  /** The outline equations of the case where the first member lies below the first tree. */
  lemma {:induction false} RemovedInside(cs: seq<Element>, cat: string, depth: nat, p: seq<(nat, Element)>, m: seq<(nat, Element)>, q: seq<(nat, Element)>)
    requires |cs| > 0 && !IsCategoryMember(cs[0], cat) && Matches(cs[0].children, cat) > 0
    requires Outline(cs[0].children, depth + 1) == p + m + q
    requires Outline(RemoveFirstMember(cs[0].children, cat).0, depth + 1) == p + q
    ensures var x, or := (depth, Label(cs[0])), Outline(cs[1..], depth);
      Outline(cs, depth) == ([x] + p) + m + (q + or)
      && Outline(RemoveFirstMember(cs, cat).0, depth) == ([x] + p) + (q + or)
  {
    var c0 := cs[0];
    var inner := RemoveFirstMember(c0.children, cat).0;
    assert RemoveFirstMember(cs, cat).0 == [c0.(children := inner)] + cs[1..];
    OutlineCons(c0.(children := inner), cs[1..], depth);
    RegroupInside((depth, Label(c0)), p, m, q, Outline(cs[1..], depth));
  }

  /** The outline equations of the case where the first member lies in the later trees. */
  lemma {:induction false} RemovedAfter(cs: seq<Element>, cat: string, depth: nat, p: seq<(nat, Element)>, m: seq<(nat, Element)>, q: seq<(nat, Element)>)
    requires |cs| > 0 && !IsCategoryMember(cs[0], cat) && Matches(cs[0].children, cat) == 0
    requires Outline(cs[1..], depth) == p + m + q
    requires Outline(RemoveFirstMember(cs[1..], cat).0, depth) == p + q
    ensures var x, oc := (depth, Label(cs[0])), Outline(cs[0].children, depth + 1);
      Outline(cs, depth) == ([x] + oc + p) + m + q
      && Outline(RemoveFirstMember(cs, cat).0, depth) == ([x] + oc + p) + q
  {
    var c0 := cs[0];
    var rest := RemoveFirstMember(cs[1..], cat).0;
    assert RemoveFirstMember(cs, cat).0 == [c0] + rest;
    OutlineCons(c0, rest, depth);
    RegroupAfter((depth, Label(c0)), Outline(c0.children, depth + 1), p, m, q);
  }

  /** When members are leaves, the removal takes away exactly one member carrying `cat`. */
  lemma {:induction false} RemoveFirstMemberCounts(cs: seq<Element>, cat: string)
    requires MembersAreLeaves(cs) && Matches(cs, cat) > 0
    ensures Matches(RemoveFirstMember(cs, cat).0, cat) == Matches(cs, cat) - 1
    ensures MembersAreLeaves(RemoveFirstMember(cs, cat).0)
    decreases cs
  {
    var c0 := cs[0];
    if IsCategoryMember(c0, cat) {
      assert c0.children == [];
    } else if Matches(c0.children, cat) > 0 {
      RemoveFirstMemberCounts(c0.children, cat);
      var r := [c0.(children := RemoveFirstMember(c0.children, cat).0)] + cs[1..];
      assert r[0].tag == c0.tag != "member";
      assert r[1..] == cs[1..];
    } else {
      RemoveFirstMemberCounts(cs[1..], cat);
      var r := [c0] + RemoveFirstMember(cs[1..], cat).0;
      assert r[0] == c0 && r[1..] == RemoveFirstMember(cs[1..], cat).0;
    }
  }

  /**
   * Among the direct children, the removal can only take away a `member`: the
   * number of children with any other tag stays the same.
   */
  lemma {:induction false} RemoveFirstMemberKeepsChildTags(cs: seq<Element>, cat: string, tag: string)
    ensures CountTagged(RemoveFirstMember(cs, cat).0, tag) <= CountTagged(cs, tag)
    ensures tag != "member" ==> CountTagged(RemoveFirstMember(cs, cat).0, tag) == CountTagged(cs, tag)
    decreases cs
  {
    if |cs| > 0 && !IsCategoryMember(cs[0], cat) {
      var c0 := cs[0];
      if Matches(c0.children, cat) > 0 {
        var r := [c0.(children := RemoveFirstMember(c0.children, cat).0)] + cs[1..];
        assert r[0].tag == c0.tag && r[1..] == cs[1..];
      } else {
        RemoveFirstMemberKeepsChildTags(cs[1..], cat, tag);
        var r := [c0] + RemoveFirstMember(cs[1..], cat).0;
        assert r[0] == c0 && r[1..] == RemoveFirstMember(cs[1..], cat).0;
      }
    }
  }

  /** A prefix without a member carrying `cat` is kept as it is. */
  lemma {:induction false} RemoveFirstMemberSkips(xs: seq<Element>, ys: seq<Element>, cat: string)
    requires Matches(xs, cat) == 0
    ensures RemoveFirstMember(xs + ys, cat) == (xs + RemoveFirstMember(ys, cat).0, RemoveFirstMember(ys, cat).1)
    decreases xs
  {
    if |xs| == 0 {
      assert xs + ys == ys && xs + RemoveFirstMember(ys, cat).0 == RemoveFirstMember(ys, cat).0;
    } else {
      assert (xs + ys)[0] == xs[0] && (xs + ys)[1..] == xs[1..] + ys;
      RemoveFirstMemberSkips(xs[1..], ys, cat);
      assert [xs[0]] + (xs[1..] + RemoveFirstMember(ys, cat).0) == xs + RemoveFirstMember(ys, cat).0;
    }
  }

  /** A member carrying `cat` appended to a forest without one is the one removed. */
  lemma {:induction false} RemoveFirstMemberTakesAppended(cs: seq<Element>, cat: string)
    requires Matches(cs, cat) == 0
    ensures RemoveFirstMember(cs + [Member(cat)], cat) == (cs, true)
  {
    var m := [Member(cat)];
    assert RemoveFirstMember(m, cat) == ([], true) by {
      assert m[0] == Member(cat) && m[1..] == [];
    }
    RemoveFirstMemberSkips(cs, m, cat);
    assert cs + [] == cs;
  }

  /** The same, for the children of the first tree, which is not itself a member. */
  lemma {:induction false} RemoveFirstMemberTakesAppendedChild(a: Element, zs: seq<Element>, cat: string)
    requires a.tag != "member" && Matches(a.children, cat) == 0
    ensures RemoveFirstMember([a.(children := a.children + [Member(cat)])] + zs, cat) == ([a] + zs, true)
  {
    var a' := a.(children := a.children + [Member(cat)]);
    RemoveFirstMemberTakesAppended(a.children, cat);
    var f := [a'] + zs;
    assert f[0] == a' && f[1..] == zs;
    assert a'.(children := a.children) == a;
  }

  /**
   * In a forest with no member carrying `cat`, appending such a member to the
   * children of one non-member node and then removing the first one gives the
   * forest back.
   */
  lemma {:induction false} RemoveFirstMemberUndoesAppend(cs: seq<Element>, i: nat, cat: string)
    requires i < |cs| && cs[i].tag != "member" && Matches(cs, cat) == 0
    ensures RemoveFirstMember(cs[i := cs[i].(children := cs[i].children + [Member(cat)])], cat) == (cs, true)
  {
    var a := cs[i];
    var a' := a.(children := a.children + [Member(cat)]);
    var xs, zs := cs[..i], cs[i + 1..];
    UpdateSplit(cs, i, a');
    MatchesConcat(xs, [a] + zs, cat);
    assert Matches(a.children, cat) == 0 by {
      assert ([a] + zs)[0] == a;
    }
    RemoveFirstMemberSkips(xs, [a'] + zs, cat);
    RemoveFirstMemberTakesAppendedChild(a, zs, cat);
  }

  /** A single tree's share of the counts. */
  lemma {:induction false} CountsOfOne(e: Element, tag: string, cat: string)
    ensures CountTagged([e], tag) == if e.tag == tag then 1 else 0
    ensures Matches([e], cat) == (if IsCategoryMember(e, cat) then 1 else 0) + Matches(e.children, cat)
    ensures MembersAreLeaves([e]) <==> (e.tag == "member" ==> e.children == []) && MembersAreLeaves(e.children)
  {
    assert [e][0] == e && [e][1..] == [];
  }

  /** Deleting child `i`: every count loses exactly that child's share, and the order of the rest is kept. */
  lemma {:induction false} DeleteChildCounts(cs: seq<Element>, i: nat, tag: string, cat: string)
    requires i < |cs|
    ensures CountTagged(cs[..i] + cs[i + 1..], tag) == CountTagged(cs, tag) - CountTagged([cs[i]], tag)
    ensures Matches(cs[..i] + cs[i + 1..], cat) == Matches(cs, cat) - Matches([cs[i]], cat)
    ensures MembersAreLeaves(cs) ==> MembersAreLeaves(cs[..i] + cs[i + 1..])
  {
    var xs, zs := cs[..i], cs[i + 1..];
    UpdateSplit(cs, i, cs[i]);
    CountTaggedConcat(xs, [cs[i]] + zs, tag);
    CountTaggedConcat([cs[i]], zs, tag);
    CountTaggedConcat(xs, zs, tag);
    MatchesConcat(xs, [cs[i]] + zs, cat);
    MatchesConcat([cs[i]], zs, cat);
    MatchesConcat(xs, zs, cat);
  }

  /** Replacing child `i` by `e`: every count trades that child's share for `e`'s. */
  lemma {:induction false} ReplaceChildCounts(cs: seq<Element>, i: nat, e: Element, tag: string, cat: string)
    requires i < |cs|
    ensures CountTagged(cs[i := e], tag) == CountTagged(cs, tag) - CountTagged([cs[i]], tag) + CountTagged([e], tag)
    ensures Matches(cs[i := e], cat) == Matches(cs, cat) - Matches([cs[i]], cat) + Matches([e], cat)
    ensures MembersAreLeaves(cs) ==> MembersAreLeaves([cs[i]])
    ensures MembersAreLeaves(cs) && MembersAreLeaves([e]) ==> MembersAreLeaves(cs[i := e])
  {
    var xs, zs := cs[..i], cs[i + 1..];
    UpdateSplit(cs, i, e);
    CountTaggedConcat(xs, [cs[i]] + zs, tag);
    CountTaggedConcat([cs[i]], zs, tag);
    CountTaggedConcat(xs, [e] + zs, tag);
    CountTaggedConcat([e], zs, tag);
    MatchesConcat(xs, [cs[i]] + zs, cat);
    MatchesConcat([cs[i]], zs, cat);
    MatchesConcat(xs, [e] + zs, cat);
    MatchesConcat([e], zs, cat);
  }

  /** With no child tagged `e.tag`, the appended `e` is the one `find` returns. */
  lemma {:induction false} FindChildAppended(cs: seq<Element>, e: Element)
    requires FindChild(cs, e.tag).None?
    ensures FindChild(cs + [e], e.tag) == Some(|cs|)
  {
    if |cs| == 0 {
      assert cs + [e] == [e];
    } else {
      ConcatHeadTail(cs, [e]);
      FindChildAppended(cs[1..], e);
    }
  }

  /** Replacing a child by one with the same tag does not change what `find(tag)` returns. */
  lemma {:induction false} FindChildReplaced(cs: seq<Element>, i: nat, x: Element, tag: string)
    requires i < |cs| && x.tag == cs[i].tag
    ensures FindChild(cs[i := x], tag) == FindChild(cs, tag)
  {
    var t := cs[i := x];
    assert t[0].tag == cs[0].tag;
    if i > 0 {
      assert t[1..] == cs[1..][i - 1 := x];
      FindChildReplaced(cs[1..], i - 1, x, tag);
    } else {
      assert t[1..] == cs[1..];
    }
  }
}
