/** List operations the script relies on: `map`, `list.remove` and `sorted(set(...))`. */
module Lists {
  import opened Wrappers

  /** `list(map(f, xs))` for an `f` that may raise (None): None as soon as one element fails. */
  function MapAll<A, B>(f: A -> Option<B>, xs: seq<A>): (r: Option<seq<B>>)
    ensures r.Some? ==> |r.value| == |xs|
    ensures r.Some? ==> forall k {:trigger r.value[k]} :: 0 <= k < |xs| ==> f(xs[k]) == Some(r.value[k])
    ensures r.None? <==> exists k {:trigger f(xs[k])} :: 0 <= k < |xs| && f(xs[k]).None?
  {
    if |xs| == 0 then Some([])
    else
      var rest := MapAll(f, xs[..|xs| - 1]);
      var y := f(xs[|xs| - 1]);
      assert forall k :: 0 <= k < |xs| - 1 ==> xs[..|xs| - 1][k] == xs[k];
      if rest.None? || y.None? then None else Some(rest.value + [y.value])
  }

  lemma {:induction false} MapAllSnoc<A, B>(f: A -> Option<B>, xs: seq<A>, x: A)
    ensures MapAll(f, xs + [x]) ==
      if MapAll(f, xs).Some? && f(x).Some? then Some(MapAll(f, xs).value + [f(x).value]) else None
  {
    assert (xs + [x])[..|xs|] == xs;
  }

  /** MapAll succeeds with `ys` when `f` gives each element's counterpart in `ys`. */
  lemma {:induction false} MapAllPointwise<A, B>(f: A -> Option<B>, xs: seq<A>, ys: seq<B>)
    requires |xs| == |ys| && forall k :: 0 <= k < |xs| ==> f(xs[k]) == Some(ys[k])
    ensures MapAll(f, xs) == Some(ys)
  {
    assert MapAll(f, xs).Some?;
    assert MapAll(f, xs).value == ys;
  }

  lemma {:induction false} ConcatAssociative<T>(a: seq<T>, b: seq<T>, c: seq<T>)
    ensures a + (b + c) == a + b + c
  {
  }

  /** Regrouping `[x] + (p + m + q) + b` around `m`, with and without `m`. */
  lemma {:induction false} RegroupInside<T>(x: T, p: seq<T>, m: seq<T>, q: seq<T>, b: seq<T>)
    ensures [x] + (p + m + q) + b == ([x] + p) + m + (q + b)
    ensures [x] + (p + q) + b == ([x] + p) + (q + b)
  {
  }

  /** Regrouping `[x] + a + (p + m + q)` around `m`, with and without `m`. */
  lemma {:induction false} RegroupAfter<T>(x: T, a: seq<T>, p: seq<T>, m: seq<T>, q: seq<T>)
    ensures [x] + a + (p + m + q) == ([x] + a + p) + m + q
    ensures [x] + a + (p + q) == ([x] + a + p) + q
  {
  }

  lemma {:induction false} EmptyPrefix<T>(m: seq<T>, q: seq<T>)
    ensures [] + m + q == m + q && [] + q == q
  {
  }

  lemma {:induction false} HeadTail<T>(x: T, a: seq<T>, b: seq<T>)
    ensures ([x] + a + b)[0] == x && ([x] + a + b)[1..] == a + b
  {
  }

  lemma {:induction false} ConcatHeadTail<T>(a: seq<T>, b: seq<T>)
    requires |a| > 0
    ensures (a + b)[0] == a[0] && (a + b)[1..] == a[1..] + b
  {
  }

  lemma {:induction false} ConsConcat<T>(a: seq<T>, r: seq<T>)
    requires |a| > 0
    ensures [a[0]] + (a[1..] + r) == a + r
  {
  }

  lemma {:induction false} IndexInto<T>(x: T, a: seq<T>, b: seq<T>, j: nat)
    requires j < |a|
    ensures ([x] + a + b)[1 + j] == a[j]
  {
  }

  lemma {:induction false} IndexPast<T>(x: T, a: seq<T>, b: seq<T>, j: nat)
    requires j < |b|
    ensures ([x] + a + b)[1 + |a| + j] == b[j]
  {
  }

  /** A sequence around its element `i`, before and after replacing that element by `v`. */
  lemma {:induction false} UpdateSplit<T>(s: seq<T>, i: nat, v: T)
    requires i < |s|
    ensures s == s[..i] + ([s[i]] + s[i + 1..])
    ensures s[i := v] == s[..i] + ([v] + s[i + 1..])
  {
  }

  /** `list.remove(x)`: deletes the first occurrence of `x`; the script only calls it with `x` present. */
  function RemoveFirst<T(==)>(s: seq<T>, x: T): (r: seq<T>)
    requires x in s
    ensures |r| == |s| - 1
    ensures multiset(r) == multiset(s) - multiset{x}
  {
    assert s == [s[0]] + s[1..];
    if s[0] == x then s[1..] else [s[0]] + RemoveFirst(s[1..], x)
  }

  /** An element absent from a prefix is removed from the rest. */
  lemma {:induction false} RemoveFirstSkipsPrefix<T>(a: seq<T>, b: seq<T>, x: T)
    requires x !in a && x in b
    ensures RemoveFirst(a + b, x) == a + RemoveFirst(b, x)
  {
    if |a| > 0 {
      assert (a + b)[0] == a[0] && (a + b)[1..] == a[1..] + b;
      RemoveFirstSkipsPrefix(a[1..], b, x);
      assert [a[0]] + (a[1..] + RemoveFirst(b, x)) == a + RemoveFirst(b, x);
    } else {
      assert a + b == b;
    }
  }

  /** `lt` is irreflexive, transitive and total, as `<` on Python ints and on Python strs is. */
  ghost predicate IsStrictTotalOrder<T(!new)>(lt: (T, T) -> bool) {
    && (forall a :: !lt(a, a))
    && (forall a, b, c :: lt(a, b) && lt(b, c) ==> lt(a, c))
    && (forall a, b :: a != b ==> lt(a, b) || lt(b, a))
  }

  predicate StrictlySorted<T>(s: seq<T>, lt: (T, T) -> bool) {
    forall i, j :: 0 <= i < j < |s| ==> lt(s[i], s[j])
  }

  /** Inserts `x` into a strictly sorted list unless it is already there. */
  function Insert<T(==,!new)>(x: T, s: seq<T>, lt: (T, T) -> bool): (r: seq<T>)
    requires IsStrictTotalOrder(lt) && StrictlySorted(s, lt)
    ensures StrictlySorted(r, lt)
    ensures forall y :: y in r <==> y == x || y in s
  {
    if |s| == 0 then [x]
    else if x == s[0] then s
    else if lt(x, s[0]) then [x] + s
    else
      var rest := Insert(x, s[1..], lt);
      assert forall y :: y in rest ==> lt(s[0], y) by {
        forall y | y in rest ensures lt(s[0], y) {
          if y != x {
            var j :| 1 <= j < |s| && s[j] == y;
          }
        }
      }
      [s[0]] + rest
  }

  /** `sorted(set(xs))`: the distinct elements of `xs` in ascending order. */
  function SortedDistinct<T(==,!new)>(xs: seq<T>, lt: (T, T) -> bool): (r: seq<T>)
    requires IsStrictTotalOrder(lt)
    ensures StrictlySorted(r, lt)
    ensures forall y :: y in r <==> y in xs
  {
    if |xs| == 0 then []
    else
      var r := Insert(xs[|xs| - 1], SortedDistinct(xs[..|xs| - 1], lt), lt);
      assert xs == xs[..|xs| - 1] + [xs[|xs| - 1]];
      r
  }

  /** A strictly sorted list is determined by its set of elements. */
  lemma {:induction false} StrictlySortedUnique<T(!new)>(a: seq<T>, b: seq<T>, lt: (T, T) -> bool)
    requires IsStrictTotalOrder(lt)
    requires StrictlySorted(a, lt) && StrictlySorted(b, lt)
    requires forall y :: y in a <==> y in b
    ensures a == b
  {
    if |a| > 0 {
      assert a[0] in b;
    }
    if |b| > 0 {
      assert b[0] in a;
    }
    if |a| > 0 {
      assert a == [a[0]] + a[1..] && b == [b[0]] + b[1..];
      assert a[0] == b[0] by {
        var i :| 0 <= i < |a| && a[i] == b[0];
        var j :| 0 <= j < |b| && b[j] == a[0];
        if i > 0 && j > 0 {
          assert false;
        }
      }
      forall y ensures y in a[1..] <==> y in b[1..] {
        if y in a[1..] {
          var i :| 1 <= i < |a| && a[i] == y;
          assert lt(a[0], y);
          assert y != b[0] && y in b;
        }
        if y in b[1..] {
          var j :| 1 <= j < |b| && b[j] == y;
          assert lt(b[0], y);
          assert y != a[0] && y in a;
        }
      }
      StrictlySortedUnique(a[1..], b[1..], lt);
    }
  }
}
