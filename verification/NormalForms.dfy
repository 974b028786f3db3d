/** Sorted lists without twins: when a list has such a form, it is the same for every order of the list. */
module NormalForms {
  import opened Sorting

  /** Two neighbours with the same key. */
  predicate HasTwins<T>(s: seq<T>, same: (T, T) -> bool) {
    exists i :: 0 <= i < |s| - 1 && same(s[i], s[i + 1])
  }

  /** No two places with the same key. */
  ghost predicate Apart<T>(s: seq<T>, same: (T, T) -> bool) {
    forall i, j :: 0 <= i < j < |s| ==> !same(s[i], s[j])
  }

  /** The keys that the comparison cannot tell apart. */
  ghost predicate KeyOf<T(!new)>(same: (T, T) -> bool, leq: (T, T) -> bool) {
    forall a, b :: same(a, b) <==> leq(a, b) && leq(b, a)
  }

  /** In a sorted list, looking at neighbours is enough. */
  lemma TwinsExactly<T(!new)>(s: seq<T>, leq: (T, T) -> bool, same: (T, T) -> bool)
    requires TotalPreorder(leq) && KeyOf(same, leq) && IsSorted(s, leq)
    ensures HasTwins(s, same) <==> !Apart(s, same)
  {
    if !Apart(s, same) {
      var i, j :| 0 <= i < j < |s| && same(s[i], s[j]);
      assert leq(s[i], s[i + 1]);
      assert i + 1 == j || leq(s[i + 1], s[j]);
      assert leq(s[i + 1], s[i]);
      assert same(s[i], s[i + 1]);
    }
  }

  lemma ApartWithout<T>(s: seq<T>, i: nat, same: (T, T) -> bool)
    requires Apart(s, same) && i < |s|
    ensures Apart(Without(s, i), same)
  {
  }

  lemma ApartWith<T(!new)>(s: seq<T>, i: nat, same: (T, T) -> bool)
    requires i < |s| && Apart(Without(s, i), same)
    requires forall x, y :: same(x, y) ==> same(y, x)
    requires forall x :: x in Without(s, i) ==> !same(s[i], x)
    ensures Apart(s, same)
  {
    var rest := Without(s, i);
    forall j, k | 0 <= j < k < |s| ensures !same(s[j], s[k]) {
      if j == i {
        assert rest[k - 1] == s[k];
      } else if k == i {
        assert rest[j] == s[j];
      } else {
        var j', k' := if j < i then j else j - 1, if k < i then k else k - 1;
        assert rest[j'] == s[j] && rest[k'] == s[k];
      }
    }
  }

  /** Whether keys repeat does not depend on the order of the list. */
  lemma {:induction false} ApartForgetsOrder<T(!new)>(a: seq<T>, b: seq<T>, same: (T, T) -> bool)
    requires multiset(a) == multiset(b) && Apart(a, same) && forall x, y :: same(x, y) ==> same(y, x)
    ensures Apart(b, same)
  {
    assert |multiset(a)| == |a| && |multiset(b)| == |b|;
    if a != [] {
      MembersSame(a, b);
      assert a[0] in b;
      var i :| 0 <= i < |b| && b[i] == a[0];
      WithoutMultiset(a, 0);
      WithoutMultiset(b, i);
      var rest, others := Without(a, 0), Without(b, i);
      assert rest == a[1..];
      ApartWithout(a, 0, same);
      ApartForgetsOrder(rest, others, same);
      MembersSame(rest, others);
      forall x | x in others ensures !same(b[i], x) {
        assert x in a[1..];
      }
      ApartWith(b, i, same);
    }
  }

  /** A sorted copy has twins exactly when two places of the original share a key. */
  lemma SortShowsTwins<T(!new)>(s: seq<T>, fine: (T, T) -> bool, leq: (T, T) -> bool, same: (T, T) -> bool)
    requires TotalPreorder(fine) && TotalPreorder(leq) && KeyOf(same, leq) && forall a, b :: fine(a, b) ==> leq(a, b)
    ensures HasTwins(SortBy(s, fine), same) <==> !Apart(s, same)
  {
    SortByIsSorted(s, fine);
    var sorted := SortBy(s, fine);
    assert IsSorted(sorted, leq);
    TwinsExactly(sorted, leq, same);
    if Apart(s, same) {
      ApartForgetsOrder(s, sorted, same);
    }
    if Apart(sorted, same) {
      ApartForgetsOrder(sorted, s, same);
    }
  }

  lemma ApartAntisymmetric<T(!new)>(s: seq<T>, leq: (T, T) -> bool, same: (T, T) -> bool)
    requires KeyOf(same, leq) && Apart(s, same)
    ensures AntisymmetricOn(multiset(s), leq)
  {
    forall a, b | a in multiset(s) && b in multiset(s) && leq(a, b) && leq(b, a) ensures a == b {
      var i :| 0 <= i < |s| && s[i] == a;
      var j :| 0 <= j < |s| && s[j] == b;
      assert same(a, b) && same(b, a);
      assert i == j;
    }
  }

  /** Lists with the same elements have the same sorted form, or both have twins. */
  lemma SortedFormForgetsOrder<T(!new)>(a: seq<T>, b: seq<T>, leq: (T, T) -> bool, same: (T, T) -> bool)
    requires TotalPreorder(leq) && KeyOf(same, leq) && multiset(a) == multiset(b)
    ensures HasTwins(SortBy(a, leq), same) <==> HasTwins(SortBy(b, leq), same)
    ensures !HasTwins(SortBy(a, leq), same) ==> SortBy(a, leq) == SortBy(b, leq)
  {
    SortShowsTwins(a, leq, leq, same);
    SortShowsTwins(b, leq, leq, same);
    if Apart(a, same) {
      ApartForgetsOrder(a, b, same);
      ApartAntisymmetric(a, leq, same);
      SortForgetsOrder(a, b, leq);
    }
    if Apart(b, same) {
      ApartForgetsOrder(b, a, same);
    }
  }
}
