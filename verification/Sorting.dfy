/** Stable sorting by a comparison, as `sort_by` does it, and why a sorted arrangement is unique. */
module Sorting {

  ghost predicate TotalPreorder<T(!new)>(leq: (T, T) -> bool) {
    && (forall a, b :: leq(a, b) || leq(b, a))
    && (forall a, b, c :: leq(a, b) && leq(b, c) ==> leq(a, c))
  }

  ghost predicate IsSorted<T>(s: seq<T>, leq: (T, T) -> bool) {
    forall i, j :: 0 <= i < j < |s| ==> leq(s[i], s[j])
  }

  /** Elements that compare as equal are equal. */
  ghost predicate AntisymmetricOn<T>(s: multiset<T>, leq: (T, T) -> bool) {
    forall a, b :: a in s && b in s && leq(a, b) && leq(b, a) ==> a == b
  }

  function InsertBefore<T>(x: T, s: seq<T>, leq: (T, T) -> bool): (r: seq<T>)
    ensures multiset(r) == multiset{x} + multiset(s)
    ensures |r| == |s| + 1
  {
    if s == [] || leq(x, s[0]) then [x] + s
    else
      assert s == [s[0]] + s[1..];
      [s[0]] + InsertBefore(x, s[1..], leq)
  }

  /** Ascending order; elements that compare as equal keep their order. */
  function SortBy<T>(s: seq<T>, leq: (T, T) -> bool): (r: seq<T>)
    ensures multiset(r) == multiset(s)
    ensures |r| == |s|
  {
    if s == [] then []
    else
      assert s == [s[0]] + s[1..];
      InsertBefore(s[0], SortBy(s[1..], leq), leq)
  }

  lemma MembersSame<T>(a: seq<T>, b: seq<T>)
    requires multiset(a) == multiset(b)
    ensures forall x :: x in a <==> x in b
  {
    forall x ensures x in a <==> x in b {
      assert x in a <==> x in multiset(a);
      assert x in b <==> x in multiset(b);
    }
  }

  lemma {:induction false} InsertSorted<T(!new)>(x: T, s: seq<T>, leq: (T, T) -> bool)
    requires TotalPreorder(leq) && IsSorted(s, leq)
    ensures IsSorted(InsertBefore(x, s, leq), leq)
  {
    if s == [] {
    } else if leq(x, s[0]) {
      assert forall j :: 0 <= j < |s| ==> leq(x, s[j]);
    } else {
      InsertSorted(x, s[1..], leq);
      var rest := InsertBefore(x, s[1..], leq);
      MembersSame(rest, [x] + s[1..]);
      forall j | 0 <= j < |rest| ensures leq(s[0], rest[j]) {
        assert rest[j] in [x] + s[1..];
      }
    }
  }

  lemma {:induction false} SortByIsSorted<T(!new)>(s: seq<T>, leq: (T, T) -> bool)
    requires TotalPreorder(leq)
    ensures IsSorted(SortBy(s, leq), leq)
  {
    if s != [] {
      SortByIsSorted(s[1..], leq);
      InsertSorted(s[0], SortBy(s[1..], leq), leq);
    }
  }

  /** Sorted, and elements that compare as equal stand in relation `before`. */
  ghost predicate IsSortedStably<T>(s: seq<T>, leq: (T, T) -> bool, before: (T, T) -> bool) {
    forall i, j :: 0 <= i < j < |s| ==> leq(s[i], s[j]) && (leq(s[j], s[i]) ==> before(s[i], s[j]))
  }

  lemma {:induction false} InsertStable<T(!new)>(x: T, s: seq<T>, leq: (T, T) -> bool, before: (T, T) -> bool)
    requires TotalPreorder(leq) && IsSortedStably(s, leq, before)
    requires forall y :: y in s ==> before(x, y)
    ensures IsSortedStably(InsertBefore(x, s, leq), leq, before)
  {
    if s == [] {
    } else if leq(x, s[0]) {
      assert forall j :: 0 <= j < |s| ==> leq(x, s[j]) && before(x, s[j]);
    } else {
      InsertStable(x, s[1..], leq, before);
      var rest := InsertBefore(x, s[1..], leq);
      MembersSame(rest, [x] + s[1..]);
      forall j | 0 <= j < |rest| ensures leq(s[0], rest[j]) && (leq(rest[j], s[0]) ==> before(s[0], rest[j])) {
        assert rest[j] in [x] + s[1..];
      }
    }
  }

  /** Sorting is stable: where the comparison cannot tell elements apart, the input order decides. */
  lemma {:induction false} SortByIsStable<T(!new)>(s: seq<T>, leq: (T, T) -> bool, before: (T, T) -> bool)
    requires TotalPreorder(leq)
    requires forall i, j :: 0 <= i < j < |s| ==> before(s[i], s[j])
    ensures IsSortedStably(SortBy(s, leq), leq, before)
  {
    if s != [] {
      SortByIsStable(s[1..], leq, before);
      MembersSame(SortBy(s[1..], leq), s[1..]);
      InsertStable(s[0], SortBy(s[1..], leq), leq, before);
    }
  }

  lemma SmallestFirst<T(!new)>(a: seq<T>, b: seq<T>, leq: (T, T) -> bool)
    requires a != [] && b != [] && leq(a[0], a[0]) && leq(b[0], b[0])
    requires IsSorted(a, leq) && IsSorted(b, leq) && multiset(a) == multiset(b)
    requires AntisymmetricOn(multiset(a), leq)
    ensures a[0] == b[0]
  {
    MembersSame(a, b);
    assert a[0] in a && b[0] in b;
    assert a[0] in multiset(a) && b[0] in multiset(a);
  }

  lemma TailOfSorted<T(!new)>(s: seq<T>, leq: (T, T) -> bool)
    requires s != [] && IsSorted(s, leq) && AntisymmetricOn(multiset(s), leq)
    ensures multiset(s[1..]) == multiset(s) - multiset{s[0]}
    ensures IsSorted(s[1..], leq) && AntisymmetricOn(multiset(s[1..]), leq)
  {
    assert s == [s[0]] + s[1..];
  }

  lemma SameHeadAndTail<T>(a: seq<T>, b: seq<T>)
    requires a != [] && b != [] && a[0] == b[0] && a[1..] == b[1..]
    ensures a == b
  {
    assert a == [a[0]] + a[1..] && b == [b[0]] + b[1..];
  }

  /** A sorted arrangement is unique wherever the comparison tells elements apart. */
  lemma {:induction false} SortedUnique<T(!new)>(a: seq<T>, b: seq<T>, leq: (T, T) -> bool)
    requires forall x :: leq(x, x)
    requires IsSorted(a, leq) && IsSorted(b, leq) && multiset(a) == multiset(b)
    requires AntisymmetricOn(multiset(a), leq)
    ensures a == b
  {
    assert |multiset(a)| == |a| && |multiset(b)| == |b|;
    if a != [] {
      SmallestFirst(a, b, leq);
      TailOfSorted(a, leq);
      TailOfSorted(b, leq);
      SortedUnique(a[1..], b[1..], leq);
      SameHeadAndTail(a, b);
    }
  }

  /** Sorting forgets the order of its input wherever the comparison tells elements apart. */
  lemma SortForgetsOrder<T(!new)>(a: seq<T>, b: seq<T>, leq: (T, T) -> bool)
    requires TotalPreorder(leq) && multiset(a) == multiset(b) && AntisymmetricOn(multiset(a), leq)
    ensures SortBy(a, leq) == SortBy(b, leq)
  {
    SortByIsSorted(a, leq);
    SortByIsSorted(b, leq);
    SortedUnique(SortBy(a, leq), SortBy(b, leq), leq);
  }

  /** An already sorted list is left as it is. */
  lemma {:induction false} SortedIsFixed<T(!new)>(s: seq<T>, leq: (T, T) -> bool)
    requires IsSorted(s, leq)
    ensures SortBy(s, leq) == s
  {
    if s != [] {
      SortedIsFixed(s[1..], leq);
      assert s == [s[0]] + s[1..];
    }
  }

  // ---- Lists whose order is forgotten ----

  /** The results for each element, one after the other. */
  function FlatMap<M, A>(s: seq<M>, f: M -> seq<A>): seq<A> {
    if s == [] then [] else f(s[0]) + FlatMap(s[1..], f)
  }

  function Without<M>(s: seq<M>, i: nat): seq<M>
    requires i < |s|
  {
    s[..i] + s[i + 1..]
  }

  lemma WithoutMultiset<M>(s: seq<M>, i: nat)
    requires i < |s|
    ensures multiset(Without(s, i)) == multiset(s) - multiset{s[i]}
  {
    assert s == s[..i] + ([s[i]] + s[i + 1..]);
  }

  lemma {:induction false} FlatMapWithout<M, A>(s: seq<M>, i: nat, f: M -> seq<A>)
    requires i < |s|
    ensures multiset(FlatMap(s, f)) == multiset(f(s[i])) + multiset(FlatMap(Without(s, i), f))
  {
    if i == 0 {
      assert Without(s, 0) == s[1..];
    } else {
      FlatMapWithout(s[1..], i - 1, f);
      var rest := Without(s, i);
      assert rest[0] == s[0] && rest[1..] == Without(s[1..], i - 1);
      assert FlatMap(rest, f) == f(s[0]) + FlatMap(rest[1..], f);
    }
  }

  /** Which results there are does not depend on the order of the elements. */
  lemma {:induction false} FlatMapForgetsOrder<M, A>(a: seq<M>, b: seq<M>, f: M -> seq<A>)
    requires multiset(a) == multiset(b)
    ensures multiset(FlatMap(a, f)) == multiset(FlatMap(b, f))
  {
    if a == [] {
      assert |multiset(b)| == 0;
    } else {
      MembersSame(a, b);
      assert a[0] in b;
      var i :| 0 <= i < |b| && b[i] == a[0];
      WithoutMultiset(a, 0);
      WithoutMultiset(b, i);
      FlatMapWithout(a, 0, f);
      FlatMapWithout(b, i, f);
      FlatMapForgetsOrder(Without(a, 0), Without(b, i), f);
    }
  }

  /** The first elements, up to a limit. */
  function Truncate<T>(s: seq<T>, limit: nat): seq<T> { if |s| <= limit then s else s[..limit] }
}
