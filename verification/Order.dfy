/** The byte order that Rust gives `String` keys (on UTF-8 text it is the order of code points),
    and the one ascending listing of a finite set of keys that an ordered set or map iterates. */
module Order {

  predicate Less(a: string, b: string) {
    if a == [] then b != []
    else if b == [] then false
    else a[0] < b[0] || (a[0] == b[0] && Less(a[1..], b[1..]))
  }

  lemma {:induction false} LessAsymmetric(a: string, b: string)
    ensures !(Less(a, b) && Less(b, a))
  {
    if a != [] && b != [] {
      LessAsymmetric(a[1..], b[1..]);
    }
  }

  lemma {:induction false} LessTransitive(a: string, b: string, c: string)
    requires Less(a, b) && Less(b, c)
    ensures Less(a, c)
  {
    if a != [] && a[0] == b[0] && b[0] == c[0] {
      LessTransitive(a[1..], b[1..], c[1..]);
    }
  }

  lemma {:induction false} LessConnected(a: string, b: string)
    ensures a == b || Less(a, b) || Less(b, a)
  {
    if a != [] && b != [] && a[0] == b[0] {
      LessConnected(a[1..], b[1..]);
      assert a == [a[0]] + a[1..] && b == [b[0]] + b[1..];
    }
  }

  /** The key order is a strict total order. */
  lemma LessStrictTotal()
    ensures forall a, b :: !(Less(a, b) && Less(b, a))
    ensures forall a :: !Less(a, a)
    ensures forall a, b, c :: Less(a, b) && Less(b, c) ==> Less(a, c)
    ensures forall a, b :: a == b || Less(a, b) || Less(b, a)
  {
    forall a, b ensures !(Less(a, b) && Less(b, a)) && !Less(a, a) && (a == b || Less(a, b) || Less(b, a)) {
      LessAsymmetric(a, b);
      LessAsymmetric(a, a);
      LessConnected(a, b);
    }
    forall a, b, c | Less(a, b) && Less(b, c) ensures Less(a, c) {
      LessTransitive(a, b, c);
    }
  }

  ghost predicate Ascending(s: seq<string>) {
    forall i, j :: 0 <= i < j < |s| ==> Less(s[i], s[j])
  }

  /** The distinct values of a list. */
  function Members(s: seq<string>): set<string> { set x | x in s }

  lemma MembersOfConcat(a: seq<string>, b: seq<string>)
    ensures Members(a + b) == Members(a) + Members(b)
  {
  }

  predicate IsSmallest(m: string, s: set<string>) {
    m in s && forall x :: x in s && x != m ==> Less(m, x)
  }

  lemma SmallestExists(s: set<string>)
    requires s != {}
    ensures exists m :: IsSmallest(m, s)
    ensures forall m, n :: IsSmallest(m, s) && IsSmallest(n, s) ==> m == n
  {
    LessStrictTotal();
    var x :| x in s;
    if s == {x} {
      assert IsSmallest(x, s);
    } else {
      SmallestExists(s - {x});
      var m :| IsSmallest(m, s - {x});
      assert IsSmallest(if Less(x, m) then x else m, s);
    }
  }

  /** The keys of `s` in ascending order: how a `BTreeSet` or `BTreeMap` is iterated. */
  function Sorted(s: set<string>): (r: seq<string>)
    ensures Ascending(r)
    ensures forall x :: x in r <==> x in s
    ensures |r| == |s|
  {
    if s == {} then []
    else
      SmallestExists(s);
      var m :| IsSmallest(m, s);
      [m] + Sorted(s - {m})
  }

  lemma {:induction false} AscendingUnique(a: seq<string>, b: seq<string>)
    requires Ascending(a) && Ascending(b)
    requires forall x :: x in a <==> x in b
    ensures a == b
  {
    LessStrictTotal();
    assert b == [] || b[0] in a;
    if a != [] {
      assert a[0] in b;
      assert a[0] == b[0];
      forall x ensures x in a[1..] <==> x in b[1..] {
        assert x in a[1..] ==> x in a && x != a[0];
        assert x in b[1..] ==> x in b && x != b[0];
        assert x in a && x != a[0] ==> x in a[1..];
        assert x in b && x != b[0] ==> x in b[1..];
      }
      AscendingUnique(a[1..], b[1..]);
      assert a == [a[0]] + a[1..] && b == [b[0]] + b[1..];
    }
  }

  lemma AscendingSplit(s: seq<string>, k: nat, i: nat)
    requires Ascending(s) && k < |s| && i < |s|
    ensures Less(s[k], s[i]) <==> k < i
  {
    LessAsymmetric(s[k], s[i]);
  }

  lemma AscendingSuffix(all: seq<string>, k: nat, x: string)
    requires Ascending(all) && 0 < k <= |all|
    ensures x in all[k..] <==> x in all && Less(all[k - 1], x)
  {
    if x in all {
      var i :| 0 <= i < |all| && all[i] == x;
      AscendingSplit(all, k - 1, i);
      assert k <= i ==> all[k..][i - k] == x;
      if x in all[k..] {
        var j :| 0 <= j < |all[k..]| && all[k..][j] == x;
        AscendingSplit(all, k - 1, k + j);
      }
    }
  }

  lemma SuffixUnique(all: seq<string>, k: nat, rest: seq<string>)
    requires Ascending(all) && 0 < k <= |all|
    requires Ascending(rest) && forall x :: x in rest <==> x in all && Less(all[k - 1], x)
    ensures rest == all[k..]
  {
    forall x ensures x in all[k..] <==> x in rest {
      AscendingSuffix(all, k, x);
    }
    AscendingUnique(rest, all[k..]);
  }

  function KeysAfter(s: set<string>, key: string): set<string> {
    set x | x in s && Less(key, x)
  }

  /** Resuming after the k-th key yields exactly the rest of the listing. */
  lemma SortedAfter(s: set<string>, k: nat)
    requires 0 < k <= |Sorted(s)|
    ensures Sorted(KeysAfter(s, Sorted(s)[k - 1])) == Sorted(s)[k..]
  {
    SuffixUnique(Sorted(s), k, Sorted(KeysAfter(s, Sorted(s)[k - 1])));
  }
}
