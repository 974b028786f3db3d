/** Canonical string sets: strictly ascending lists without repetition, how they are made and checked,
    and why binary search may be used on them. */
module CanonicalSets {
  import opened Common
  import opened Order
  import opened Sorting
  import opened Text

  // ---- Making ----

  predicate KeyLeq(a: string, b: string) { !Less(b, a) }

  lemma KeyLeqOrder()
    ensures TotalPreorder(KeyLeq)
  {
    LessStrictTotal();
  }

  /** `sort` followed by `dedup` lists the distinct values in ascending order. */
  method SortDedup(values: seq<string>) returns (r: seq<string>)
    ensures r == Sorted(Members(values))
  {
    var sorted := SortBy(values, KeyLeq);
    KeyLeqOrder();
    SortByIsSorted(values, KeyLeq);
    MembersSame(sorted, values);
    r := [];
    var i := 0;
    while i < |sorted|
      invariant 0 <= i <= |sorted|
      invariant Ascending(r)
      invariant (r == [] <==> i == 0) && (i > 0 ==> r[|r| - 1] == sorted[i - 1])
      invariant forall x :: x in r <==> x in sorted[..i]
    {
      assert sorted[..i + 1] == sorted[..i] + [sorted[i]];
      if i == 0 || sorted[i] != sorted[i - 1] {
        AppendAscends(r, sorted, i);
        r := r + [sorted[i]];
      }
      i := i + 1;
    }
    assert sorted[..i] == sorted;
    AscendingUnique(r, Sorted(Members(values)));
  }

  lemma AppendAscends(r: seq<string>, sorted: seq<string>, i: nat)
    requires IsSorted(sorted, KeyLeq) && i < |sorted| && Ascending(r)
    requires (r == [] <==> i == 0) && (i > 0 ==> r[|r| - 1] == sorted[i - 1] && sorted[i] != sorted[i - 1])
    ensures Ascending(r + [sorted[i]])
  {
    if i > 0 {
      assert KeyLeq(sorted[i - 1], sorted[i]);
      LessConnected(sorted[i - 1], sorted[i]);
      forall j | 0 <= j < |r| ensures Less(r[j], sorted[i]) {
        if j < |r| - 1 {
          LessTransitive(r[j], r[|r| - 1], sorted[i]);
        }
      }
    }
  }

  // ---- Checking ----

  datatype Problem = Empty | TooLong | TooMany | Repeated(value: string) | Unordered

  function BoundProblem(value: string, maximum: nat): Option<Problem> {
    if Blank(value) then Some(Empty) else if ByteLength(value) > maximum then Some(TooLong) else None
  }

  predicate Bounded(value: string, maximum: nat) { !Blank(value) && ByteLength(value) <= maximum }

  function BoundsProblem(values: seq<string>, maximum: nat): Option<Problem> {
    if values == [] then None
    else if BoundProblem(values[0], maximum).Some? then BoundProblem(values[0], maximum)
    else BoundsProblem(values[1..], maximum)
  }

  /** The first value that was seen before. */
  function RepeatProblem(values: seq<string>, seen: set<string>): Option<Problem> {
    if values == [] then None
    else if values[0] in seen then Some(Repeated(values[0]))
    else RepeatProblem(values[1..], seen + {values[0]})
  }

  predicate Steps(values: seq<string>) {
    forall i :: 0 <= i < |values| - 1 ==> Less(values[i], values[i + 1])
  }

  function CanonicalProblem(values: seq<string>, maximumItems: nat, maximumBytes: nat): Option<Problem> {
    if |values| > maximumItems then Some(TooMany)
    else if BoundsProblem(values, maximumBytes).Some? then BoundsProblem(values, maximumBytes)
    else if RepeatProblem(values, {}).Some? then RepeatProblem(values, {})
    else if !Steps(values) then Some(Unordered)
    else None
  }

  predicate Distinct(values: seq<string>) {
    forall i, j :: 0 <= i < j < |values| ==> values[i] != values[j]
  }

  predicate AllBounded(values: seq<string>, maximum: nat) {
    forall i :: 0 <= i < |values| ==> Bounded(values[i], maximum)
  }

  lemma {:induction false} BoundsExactly(values: seq<string>, maximum: nat)
    ensures BoundsProblem(values, maximum).None? <==> AllBounded(values, maximum)
  {
    if values != [] {
      BoundsExactly(values[1..], maximum);
      assert forall i :: 0 < i < |values| ==> values[i] == values[1..][i - 1];
    }
  }

  /** Uniqueness is checked exactly: the check passes if and only if no value occurs twice. */
  lemma {:induction false} RepeatExactly(values: seq<string>, seen: set<string>)
    ensures RepeatProblem(values, seen).None? <==> Distinct(values) && forall i :: 0 <= i < |values| ==> values[i] !in seen
  {
    if values != [] {
      RepeatExactly(values[1..], seen + {values[0]});
      assert forall i :: 0 < i < |values| ==> values[i] == values[1..][i - 1];
    }
  }

  lemma {:induction false} StepsAscend(values: seq<string>, i: nat, j: nat)
    requires Steps(values) && i < j < |values|
    ensures Less(values[i], values[j])
    decreases j - i
  {
    if i + 1 < j {
      StepsAscend(values, i + 1, j);
      LessTransitive(values[i], values[i + 1], values[j]);
    }
  }

  lemma StepsExactly(values: seq<string>)
    ensures Steps(values) <==> Ascending(values)
  {
    if Steps(values) {
      forall i, j | 0 <= i < j < |values| ensures Less(values[i], values[j]) {
        StepsAscend(values, i, j);
      }
    }
  }

  lemma AscendingDistinct(values: seq<string>)
    requires Ascending(values)
    ensures Distinct(values)
  {
    forall i, j | 0 <= i < j < |values| ensures values[i] != values[j] {
      LessAsymmetric(values[i], values[j]);
    }
  }

  /** A strictly ascending list has as many values as places. */
  lemma {:induction false} AscendingCount(s: seq<string>)
    requires Ascending(s)
    ensures |Members(s)| == |s|
  {
    if s == [] {
      assert Members(s) == {};
    } else {
      var n := |s| - 1;
      AscendingCount(s[..n]);
      AscendingDistinct(s);
      assert s == s[..n] + [s[n]];
      assert Members(s) == Members(s[..n]) + {s[n]};
      assert s[n] !in s[..n];
    }
  }

  /** A list passes exactly when it is short enough, bounded and strictly ascending. */
  lemma CanonicalExactly(values: seq<string>, maximumItems: nat, maximumBytes: nat)
    ensures CanonicalProblem(values, maximumItems, maximumBytes).None?
            <==> |values| <= maximumItems && AllBounded(values, maximumBytes) && Ascending(values)
  {
    BoundsExactly(values, maximumBytes);
    RepeatExactly(values, {});
    StepsExactly(values);
    if Ascending(values) {
      AscendingDistinct(values);
    }
  }

  method CheckUnique(values: seq<string>) returns (problem: Option<Problem>)
    ensures problem == RepeatProblem(values, {})
  {
    var seen := {};
    for i := 0 to |values|
      invariant RepeatProblem(values, {}) == RepeatProblem(values[i..], seen)
    {
      assert values[i..][1..] == values[i + 1..];
      if values[i] in seen {
        return Some(Repeated(values[i]));
      }
      seen := seen + {values[i]};
    }
    return None;
  }

  method CheckCanonical(values: seq<string>, maximumItems: nat, maximumBytes: nat) returns (problem: Option<Problem>)
    ensures problem == CanonicalProblem(values, maximumItems, maximumBytes)
  {
    if |values| > maximumItems {
      return Some(TooMany);
    }
    for i := 0 to |values|
      invariant BoundsProblem(values, maximumBytes) == BoundsProblem(values[i..], maximumBytes)
    {
      assert values[i..][1..] == values[i + 1..];
      if BoundProblem(values[i], maximumBytes).Some? {
        return BoundProblem(values[i], maximumBytes);
      }
    }
    problem := CheckUnique(values);
    if problem.Some? {
      return;
    }
    var i := 0;
    while i + 1 < |values|
      invariant forall k :: 0 <= k < i && k < |values| - 1 ==> Less(values[k], values[k + 1])
    {
      if !Less(values[i], values[i + 1]) {
        return Some(Unordered);
      }
      i := i + 1;
    }
  }

  // ---- Searching ----

  ghost predicate StrictOrder<K(!new)>(less: (K, K) -> bool) {
    && (forall a, b :: !(less(a, b) && less(b, a)))
    && (forall a, b, c :: less(a, b) && less(b, c) ==> less(a, c))
    && (forall a, b :: a == b || less(a, b) || less(b, a))
  }

  ghost predicate Rising<K>(keys: seq<K>, less: (K, K) -> bool) {
    forall i, j :: 0 <= i < j < |keys| ==> less(keys[i], keys[j])
  }

  /** Binary search between two bounds. */
  function SearchBetween<K(==)>(keys: seq<K>, key: K, less: (K, K) -> bool, lo: nat, hi: nat): (r: Option<nat>)
    requires lo <= hi <= |keys|
    ensures r.Some? ==> r.value < |keys| && keys[r.value] == key
    decreases hi - lo
  {
    if lo == hi then None
    else
      var mid := (lo + hi) / 2;
      if keys[mid] == key then Some(mid)
      else if less(keys[mid], key) then SearchBetween(keys, key, less, mid + 1, hi)
      else SearchBetween(keys, key, less, lo, mid)
  }

  function BinarySearch<K(==)>(keys: seq<K>, key: K, less: (K, K) -> bool): Option<nat> {
    SearchBetween(keys, key, less, 0, |keys|)
  }

  lemma {:induction false} SearchBetweenFinds<K(!new)>(keys: seq<K>, key: K, less: (K, K) -> bool, lo: nat, hi: nat)
    requires StrictOrder(less) && Rising(keys, less) && lo <= hi <= |keys|
    ensures SearchBetween(keys, key, less, lo, hi).Some? <==> exists i :: lo <= i < hi && keys[i] == key
    decreases hi - lo
  {
    if lo < hi {
      var mid := (lo + hi) / 2;
      if keys[mid] == key {
      } else if less(keys[mid], key) {
        SearchBetweenFinds(keys, key, less, mid + 1, hi);
        assert forall i :: lo <= i < mid ==> less(keys[i], keys[mid]);
      } else {
        SearchBetweenFinds(keys, key, less, lo, mid);
        assert forall i :: mid < i < hi ==> less(keys[mid], keys[i]);
      }
    }
  }

  /** On a rising list binary search finds a key exactly when it is there, and there is one place to find it. */
  lemma SearchExactly<K(!new)>(keys: seq<K>, key: K, less: (K, K) -> bool)
    requires StrictOrder(less) && Rising(keys, less)
    ensures BinarySearch(keys, key, less).Some? <==> key in keys
    ensures forall i :: 0 <= i < |keys| && keys[i] == key ==> BinarySearch(keys, key, less) == Some(i)
  {
    SearchBetweenFinds(keys, key, less, 0, |keys|);
    forall i | 0 <= i < |keys| && keys[i] == key ensures BinarySearch(keys, key, less) == Some(i) {
      var j := BinarySearch(keys, key, less).value;
      assert i == j;
    }
  }

  lemma LessIsStrict()
    ensures StrictOrder(Less)
  {
    LessStrictTotal();
  }

  /** Membership in a canonical list, as the validators test it. */
  predicate Holds(values: seq<string>, value: string) { BinarySearch(values, value, Less).Some? }

  lemma HoldsExactly(values: seq<string>, value: string)
    requires Ascending(values)
    ensures Holds(values, value) <==> value in values
  {
    LessIsStrict();
    SearchExactly(values, value, Less);
  }
}
