/**
  * The array operations the screens use on their lists: `filter`, `find`
  * (as a first-match search), de-duplication through a `Set`, and `sort`
  * with a comparator.
  */
module Lists {
  import opened Wrappers

  /** `sub` is an order-preserving sub-list of `xs`: it is `xs` with some
      elements dropped and the rest kept in their original order. */
  predicate IsSubsequence<T(==)>(sub: seq<T>, xs: seq<T>)
  {
    if sub == [] then true
    else if xs == [] then false
    else if sub[0] == xs[0] then IsSubsequence(sub[1..], xs[1..])
    else IsSubsequence(sub, xs[1..])
  }

  /** `Array.prototype.filter`. */
  function Filter<T(==,!new)>(xs: seq<T>, keep: T -> bool): (r: seq<T>)
    ensures IsSubsequence(r, xs)
    ensures forall x :: x in r <==> x in xs && keep(x)
    ensures forall x :: multiset(r)[x] == if keep(x) then multiset(xs)[x] else 0
  {
    if xs == [] then []
    else
      var rest := Filter(xs[1..], keep);
      assert xs == [xs[0]] + xs[1..];
      if keep(xs[0]) then
        var r := [xs[0]] + rest;
        assert r[1..] == rest;
        r
      else
        rest
  }

  /** A filter that keeps every element changes nothing. */
  lemma {:induction false} FilterKeepsAll<T(!new)>(xs: seq<T>, keep: T -> bool)
    requires forall i :: 0 <= i < |xs| ==> keep(xs[i])
    ensures Filter(xs, keep) == xs
  {
    if xs != [] {
      FilterKeepsAll(xs[1..], keep);
      assert xs == [xs[0]] + xs[1..];
    }
  }

  /** Filtering twice with the same predicate changes nothing the second time. */
  lemma FilterIdempotent<T(!new)>(xs: seq<T>, keep: T -> bool)
    ensures Filter(Filter(xs, keep), keep) == Filter(xs, keep)
  {
    var r := Filter(xs, keep);
    forall i | 0 <= i < |r|
      ensures keep(r[i])
    {
      assert r[i] in r;
    }
    FilterKeepsAll(r, keep);
  }

  /** Filtering by a conjunction is filtering by one part, then the other. */
  lemma {:induction false} FilterConjunction<T(!new)>(xs: seq<T>, both: T -> bool, first: T -> bool, second: T -> bool)
    requires forall x :: both(x) == (first(x) && second(x))
    ensures Filter(xs, both) == Filter(Filter(xs, first), second)
  {
    if xs != [] {
      FilterConjunction(xs[1..], both, first, second);
      if first(xs[0]) {
        assert ([xs[0]] + Filter(xs[1..], first))[1..] == Filter(xs[1..], first);
      }
    }
  }

  /** Two predicates that agree on every element filter alike. */
  lemma {:induction false} FilterAgreeing<T(!new)>(xs: seq<T>, a: T -> bool, b: T -> bool)
    requires forall i :: 0 <= i < |xs| ==> a(xs[i]) == b(xs[i])
    ensures Filter(xs, a) == Filter(xs, b)
  {
    if xs != [] {
      FilterAgreeing(xs[1..], a, b);
    }
  }

  /** The number of elements of `xs` that satisfy `p`, counted one by one. */
  function CountWhere<T>(xs: seq<T>, p: T -> bool): nat
  {
    if xs == [] then 0 else (if p(xs[0]) then 1 else 0) + CountWhere(xs[1..], p)
  }

  /** No more elements pass than there are. */
  lemma {:induction false} CountWhereAtMost<T>(xs: seq<T>, p: T -> bool)
    ensures CountWhere(xs, p) <= |xs|
  {
    if xs != [] {
      CountWhereAtMost(xs[1..], p);
    }
  }

  /** The length of a filtered list is the number of elements that pass. */
  lemma {:induction false} FilterLength<T(!new)>(xs: seq<T>, keep: T -> bool)
    ensures |Filter(xs, keep)| == CountWhere(xs, keep)
  {
    if xs != [] {
      FilterLength(xs[1..], keep);
    }
  }

  /** `Array.prototype.findIndex`: the index of the first element satisfying `p`. */
  function FirstIndex<T>(xs: seq<T>, p: T -> bool): (r: Option<nat>)
    ensures r.Some? ==> r.value < |xs| && p(xs[r.value])
    ensures r.Some? ==> forall j :: 0 <= j < r.value ==> !p(xs[j])
    ensures r.None? ==> forall j :: 0 <= j < |xs| ==> !p(xs[j])
  {
    if xs == [] then None
    else if p(xs[0]) then Some(0)
    else match FirstIndex(xs[1..], p)
      case None => None
      case Some(i) => Some(i + 1)
  }

  predicate NoDuplicates<T(==)>(xs: seq<T>)
  {
    forall i, j :: 0 <= i < j < |xs| ==> xs[i] != xs[j]
  }

  /** `set.add(x)` on a `Set`, kept as its elements in insertion order. */
  function SetAdd<T(==,!new)>(elements: seq<T>, x: T): (r: seq<T>)
    requires NoDuplicates(elements)
    ensures NoDuplicates(r)
    ensures forall y :: y in r <==> y in elements || y == x
    ensures x in elements ==> r == elements
  {
    if x in elements then elements else elements + [x]
  }

  /** `new Set(items)`: each item once, in the order first seen. */
  method SetOf<T(==,!new)>(items: seq<T>) returns (elements: seq<T>)
    ensures NoDuplicates(elements)
    ensures forall y :: y in elements <==> y in items
  {
    elements := [];
    for i := 0 to |items|
      invariant NoDuplicates(elements)
      invariant forall y :: y in elements <==> y in items[..i]
    {
      elements := SetAdd(elements, items[i]);
      assert items[..i + 1] == items[..i] + [items[i]];
    }
    assert items[..|items|] == items;
  }

  /** A list without repeats holds each value at most once. */
  lemma {:induction false} DistinctCountsAtMostOne<T>(xs: seq<T>)
    requires NoDuplicates(xs)
    ensures forall x :: multiset(xs)[x] <= 1
  {
    if xs != [] {
      var t := xs[1..];
      assert NoDuplicates(t) by {
        forall i, j | 0 <= i < j < |t|
          ensures t[i] != t[j]
        {
          assert t[i] == xs[i + 1] && t[j] == xs[j + 1];
        }
      }
      DistinctCountsAtMostOne(t);
      assert xs == [xs[0]] + t;
      assert xs[0] !in t by {
        forall j | 0 <= j < |t|
          ensures t[j] != xs[0]
        {
          assert t[j] == xs[j + 1];
        }
      }
    }
  }

  /** A list holding each value at most once has no repeats. */
  lemma CountsAtMostOneDistinct<T>(xs: seq<T>)
    requires forall x :: multiset(xs)[x] <= 1
    ensures NoDuplicates(xs)
  {
    forall i, j | 0 <= i < j < |xs|
      ensures xs[i] != xs[j]
    {
      var v := xs[i];
      assert xs == xs[..j] + xs[j..];
      assert multiset(xs)[v] == multiset(xs[..j])[v] + multiset(xs[j..])[v];
      assert xs[..j][i] == v && v in xs[..j];
      assert xs[j..][0] == xs[j] && xs[j] in xs[j..];
    }
  }

  /** A permutation of a list without repeats has none either. */
  lemma PermutationKeepsDistinct<T>(xs: seq<T>, ys: seq<T>)
    requires NoDuplicates(xs) && multiset(ys) == multiset(xs)
    ensures NoDuplicates(ys)
  {
    DistinctCountsAtMostOne(xs);
    CountsAtMostOneDistinct(ys);
  }

  /** `le` is a total preorder, the order a comparator such as
      `(a, b) => a.localeCompare(b, "ru")` induces through `<= 0`. */
  ghost predicate TotalPreorder<T(!new)>(le: (T, T) -> bool)
  {
    && (forall a, b :: le(a, b) || le(b, a))
    && (forall a, b, c :: le(a, b) && le(b, c) ==> le(a, c))
  }

  predicate Sorted<T>(xs: seq<T>, le: (T, T) -> bool)
  {
    forall i, j :: 0 <= i < j < |xs| ==> le(xs[i], xs[j])
  }

  /** `y` is at or below every element of `xs`. */
  predicate AtOrBelowAll<T>(y: T, xs: seq<T>, le: (T, T) -> bool)
  {
    forall i :: 0 <= i < |xs| ==> le(y, xs[i])
  }

  lemma SortedCons<T>(y: T, xs: seq<T>, le: (T, T) -> bool)
    requires Sorted(xs, le) && AtOrBelowAll(y, xs, le)
    ensures Sorted([y] + xs, le)
  {
    var r := [y] + xs;
    forall i, j | 0 <= i < j < |r|
      ensures le(r[i], r[j])
    {
      if i > 0 {
        assert r[i] == xs[i - 1] && r[j] == xs[j - 1];
      } else {
        assert r[j] == xs[j - 1];
      }
    }
  }

  /** An element at or below all of `xs` and below `x` is at or below every
      element of a permutation of `xs` plus `x`. */
  lemma AtOrBelowAllOfInserted<T>(y: T, xs: seq<T>, x: T, r: seq<T>, le: (T, T) -> bool)
    requires AtOrBelowAll(y, xs, le) && le(y, x)
    requires multiset(r) == multiset(xs) + multiset{x}
    ensures AtOrBelowAll(y, r, le)
  {
    forall i | 0 <= i < |r|
      ensures le(y, r[i])
    {
      assert r[i] in multiset(r);
      if r[i] != x {
        assert r[i] in multiset(xs);
        var k :| 0 <= k < |xs| && xs[k] == r[i];
      }
    }
  }

  /** Inserts `x` into a sorted list after every element it is not below. */
  function Insert<T(!new)>(xs: seq<T>, x: T, le: (T, T) -> bool): (r: seq<T>)
    requires TotalPreorder(le)
    requires Sorted(xs, le)
    ensures multiset(r) == multiset(xs) + multiset{x}
    ensures Sorted(r, le)
  {
    if xs == [] then [x]
    else if le(x, xs[0]) && !le(xs[0], x) then
      assert AtOrBelowAll(x, xs, le);
      SortedCons(x, xs, le);
      [x] + xs
    else
      var head, tail := xs[0], xs[1..];
      assert xs == [head] + tail;
      var rest := Insert(tail, x, le);
      AtOrBelowAllOfInserted(head, tail, x, rest, le);
      SortedCons(head, rest, le);
      [head] + rest
  }

  /** `Array.prototype.sort(compare)`: a sorted permutation of the input. */
  method SortBy<T(!new)>(xs: seq<T>, le: (T, T) -> bool) returns (ys: seq<T>)
    requires TotalPreorder(le)
    ensures multiset(ys) == multiset(xs)
    ensures Sorted(ys, le)
  {
    ys := [];
    for i := 0 to |xs|
      invariant multiset(ys) == multiset(xs[..i])
      invariant Sorted(ys, le)
    {
      ys := Insert(ys, xs[i], le);
      assert xs[..i + 1] == xs[..i] + [xs[i]];
    }
    assert xs[..|xs|] == xs;
  }
}
