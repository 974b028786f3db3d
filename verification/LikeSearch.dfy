/** Search in the resource directory: the escaped LIKE pattern means plain containment. */
module LikeSearch {
  import opened Text
  import opened Sorting
  import opened Order

  // ---- The pattern ----

  function Replace(s: string, c: char, r: string): string {
    if s == [] then [] else (if s[0] == c then r else [s[0]]) + Replace(s[1..], c, r)
  }

  /** Three passes: backslashes first, then the two wildcards. */
  function Escaped(query: string): string {
    Replace(Replace(Replace(query, '\\', ['\\', '\\']), '%', ['\\', '%']), '_', ['\\', '_'])
  }

  function Pattern(query: string): string { "%" + Escaped(query) + "%" }

  predicate IsMeta(c: char) { c == '\\' || c == '%' || c == '_' }

  /** One pass: a backslash before every character that LIKE treats specially. */
  function EscapeEach(s: string): string {
    if s == [] then [] else (if IsMeta(s[0]) then ['\\', s[0]] else [s[0]]) + EscapeEach(s[1..])
  }

  lemma {:induction false} ReplaceConcat(a: string, b: string, c: char, r: string)
    ensures Replace(a + b, c, r) == Replace(a, c, r) + Replace(b, c, r)
  {
    if a == [] {
      assert a + b == b;
    } else {
      assert (a + b)[1..] == a[1..] + b;
      ReplaceConcat(a[1..], b, c, r);
    }
  }

  lemma ReplaceOne(x: char, c: char, r: string)
    ensures Replace([x], c, r) == if x == c then r else [x]
  {
    assert [x][1..] == [];
  }

  lemma EscapedOne(x: char)
    ensures Escaped([x]) == if IsMeta(x) then ['\\', x] else [x]
  {
    ReplaceOne(x, '\\', ['\\', '\\']);
    ReplaceOne(x, '%', ['\\', '%']);
    ReplaceOne(x, '_', ['\\', '_']);
    ReplaceOne('\\', '%', ['\\', '%']);
    ReplaceOne('\\', '_', ['\\', '_']);
    ReplaceOne('%', '_', ['\\', '_']);
    assert ['\\', '\\'] == ['\\'] + ['\\'] && ['\\', '%'] == ['\\'] + ['%'];
    ReplaceConcat(['\\'], ['\\'], '%', ['\\', '%']);
    ReplaceConcat(['\\'], ['\\'], '_', ['\\', '_']);
    ReplaceConcat(['\\'], ['%'], '_', ['\\', '_']);
  }

  lemma EscapedConcat(a: string, b: string)
    ensures Escaped(a + b) == Escaped(a) + Escaped(b)
  {
    var one := (s: string) => Replace(s, '\\', ['\\', '\\']);
    var two := (s: string) => Replace(s, '%', ['\\', '%']);
    ReplaceConcat(a, b, '\\', ['\\', '\\']);
    ReplaceConcat(one(a), one(b), '%', ['\\', '%']);
    ReplaceConcat(two(one(a)), two(one(b)), '_', ['\\', '_']);
  }

  /** The three passes amount to one escape of every special character. */
  lemma {:induction false} PassesEscapeEach(query: string)
    ensures Escaped(query) == EscapeEach(query)
  {
    if query != [] {
      assert query == [query[0]] + query[1..];
      EscapedConcat([query[0]], query[1..]);
      EscapedOne(query[0]);
      PassesEscapeEach(query[1..]);
    }
  }

  // ---- The meaning of the pattern ----

  /** SQL LIKE with backslash as the escape character; a pattern that ends in a lone escape matches nothing. */
  ghost predicate Like(text: string, pattern: string)
    decreases |pattern|
  {
    if pattern == [] then text == []
    else if pattern[0] == '\\' then
      |pattern| > 1 && text != [] && text[0] == pattern[1] && Like(text[1..], pattern[2..])
    else if pattern[0] == '%' then exists k :: 0 <= k <= |text| && Like(text[k..], pattern[1..])
    else text != [] && (pattern[0] == '_' || text[0] == pattern[0]) && Like(text[1..], pattern[1..])
  }

  lemma LikeAnything(text: string)
    ensures Like(text, "%")
  {
    assert "%"[1..] == [];
    assert Like(text[|text|..], []);
  }

  lemma {:induction false} LikePrefix(text: string, s: string)
    ensures Like(text, EscapeEach(s) + "%") <==> s <= text
  {
    var pattern := EscapeEach(s) + "%";
    if s == [] {
      assert pattern == "%";
      LikeAnything(text);
    } else {
      var rest := EscapeEach(s[1..]) + "%";
      if IsMeta(s[0]) {
        assert pattern == ['\\', s[0]] + rest && pattern[2..] == rest;
      } else {
        assert pattern == [s[0]] + rest && pattern[1..] == rest;
      }
      if text != [] {
        LikePrefix(text[1..], s[1..]);
        assert s <= text <==> text[0] == s[0] && s[1..] <= text[1..];
      }
    }
  }

  /** The pattern of a query matches exactly the texts that contain it, special characters included. */
  lemma PatternMeansContains(text: string, query: string)
    ensures Like(text, Pattern(query)) <==> Contains(text, query)
  {
    PassesEscapeEach(query);
    var rest := EscapeEach(query) + "%";
    assert Pattern(query) == "%" + rest && Pattern(query)[1..] == rest;
    forall k | 0 <= k <= |text| ensures Like(text[k..], rest) <==> OccursAt(text, query, k) {
      LikePrefix(text[k..], query);
    }
    assert Like(text, Pattern(query)) <==> exists k :: 0 <= k <= |text| && Like(text[k..], rest);
  }

  // ---- Case-insensitive ----

  function Folded(s: string, fold: char -> char): string {
    if s == [] then [] else [fold(s[0])] + Folded(s[1..], fold)
  }

  /** Case folding neither changes nor produces a special character. */
  ghost predicate KeepsMeta(fold: char -> char) {
    forall c :: if IsMeta(c) then fold(c) == c else !IsMeta(fold(c))
  }

  ghost predicate ILike(text: string, pattern: string, fold: char -> char) {
    Like(Folded(text, fold), Folded(pattern, fold))
  }

  lemma {:induction false} FoldedConcat(a: string, b: string, fold: char -> char)
    ensures Folded(a + b, fold) == Folded(a, fold) + Folded(b, fold)
  {
    if a == [] {
      assert a + b == b;
    } else {
      assert (a + b)[1..] == a[1..] + b;
      FoldedConcat(a[1..], b, fold);
    }
  }

  lemma {:induction false} FoldedEscape(s: string, fold: char -> char)
    requires KeepsMeta(fold)
    ensures Folded(EscapeEach(s), fold) == EscapeEach(Folded(s, fold))
  {
    if s != [] {
      FoldedEscape(s[1..], fold);
      assert Folded([s[0]], fold) == [fold(s[0])] by {
        assert [s[0]][1..] == [];
      }
      if IsMeta(s[0]) {
        assert Folded(['\\', s[0]], fold) == ['\\', s[0]] by {
          assert ['\\', s[0]][1..] == [s[0]];
        }
        FoldedConcat(['\\', s[0]], EscapeEach(s[1..]), fold);
      } else {
        FoldedConcat([s[0]], EscapeEach(s[1..]), fold);
      }
      assert Folded(s, fold)[1..] == Folded(s[1..], fold);
    }
  }

  lemma FoldedPattern(query: string, fold: char -> char)
    requires KeepsMeta(fold)
    ensures Folded(Pattern(query), fold) == Pattern(Folded(query, fold))
  {
    PassesEscapeEach(query);
    PassesEscapeEach(Folded(query, fold));
    FoldedEscape(query, fold);
    assert Folded("%", fold) == "%" by {
      assert "%"[1..] == [];
    }
    FoldedConcat("%" + Escaped(query), "%", fold);
    FoldedConcat("%", Escaped(query), fold);
  }

  /** A folded text contains the folded query. */
  ghost predicate Mentions(text: string, query: string, fold: char -> char) {
    Contains(Folded(text, fold), Folded(query, fold))
  }

  lemma ILikeMeansMentions(text: string, query: string, fold: char -> char)
    requires KeepsMeta(fold)
    ensures ILike(text, Pattern(query), fold) <==> Mentions(text, query, fold)
  {
    FoldedPattern(query, fold);
    PatternMeansContains(Folded(text, fold), Folded(query, fold));
  }

  // ---- The directory ----

  datatype Resource = Resource(reference: string, provider: string, resourceType: string, title: string, lastSeen: string)

  /** Most recently seen first, then by reference. */
  predicate Recent(a: Resource, b: Resource) {
    Less(b.lastSeen, a.lastSeen) || (a.lastSeen == b.lastSeen && !Less(b.reference, a.reference))
  }

  /** The rows of which one of the four searched columns passes the test. */
  ghost function Matching(rows: seq<Resource>, test: string -> bool): seq<Resource> {
    if rows == [] then []
    else
      var r := rows[0];
      (if test(r.reference) || test(r.title) || test(r.resourceType) || test(r.provider) then [r] else [])
      + Matching(rows[1..], test)
  }

  ghost function ListRecent(rows: seq<Resource>, limit: nat): seq<Resource> {
    Truncate(SortBy(rows, Recent), limit)
  }

  ghost function Search(rows: seq<Resource>, query: string, limit: nat, fold: char -> char): seq<Resource> {
    var trimmed := Trim(query);
    if trimmed == [] then ListRecent(rows, limit)
    else Truncate(SortBy(Matching(rows, text => ILike(text, Pattern(trimmed), fold)), Recent), limit)
  }

  lemma {:induction false} MatchingSame(rows: seq<Resource>, p: string -> bool, q: string -> bool)
    requires forall text :: p(text) == q(text)
    ensures Matching(rows, p) == Matching(rows, q)
  {
    if rows != [] {
      MatchingSame(rows[1..], p, q);
    }
  }

  lemma {:induction false} MatchingAll(rows: seq<Resource>, p: string -> bool)
    requires forall text :: p(text)
    ensures Matching(rows, p) == rows
  {
    if rows != [] {
      MatchingAll(rows[1..], p);
    }
  }

  lemma MentionsBlank(text: string, fold: char -> char)
    ensures Mentions(text, [], fold)
  {
    assert OccursAt(Folded(text, fold), Folded([], fold), 0);
  }

  /** For every query, blank ones included, search lists the most recently seen resources that mention the
      trimmed query in one of four columns. */
  lemma SearchFindsMentions(rows: seq<Resource>, query: string, limit: nat, fold: char -> char)
    requires KeepsMeta(fold)
    ensures Search(rows, query, limit, fold)
            == Truncate(SortBy(Matching(rows, text => Mentions(text, Trim(query), fold)), Recent), limit)
  {
    var trimmed := Trim(query);
    var mentions := text => Mentions(text, trimmed, fold);
    if trimmed == [] {
      forall text ensures mentions(text) {
        MentionsBlank(text, fold);
      }
      MatchingAll(rows, mentions);
    } else {
      var like := text => ILike(text, Pattern(trimmed), fold);
      forall text ensures like(text) == mentions(text) {
        ILikeMeansMentions(text, trimmed, fold);
      }
      MatchingSame(rows, like, mentions);
    }
  }

  // ---- What a search lists ----

  /** One of the four columns mentions the text. */
  ghost predicate MentionedIn(r: Resource, text: string, fold: char -> char) {
    || Mentions(r.reference, text, fold) || Mentions(r.title, text, fold)
    || Mentions(r.resourceType, text, fold) || Mentions(r.provider, text, fold)
  }

  /** Seen no earlier, and if at the same time with no greater reference. */
  ghost predicate NoLater(a: Resource, b: Resource) {
    !Less(a.lastSeen, b.lastSeen) && (a.lastSeen == b.lastSeen ==> !Less(b.reference, a.reference))
  }

  lemma RecentOrder()
    ensures TotalPreorder(Recent)
    ensures forall a, b :: Recent(a, b) <==> NoLater(a, b)
  {
    LessStrictTotal();
    forall a: Resource, b: Resource ensures (Recent(a, b) <==> NoLater(a, b)) && (Recent(a, b) || Recent(b, a)) {
      LessConnected(a.lastSeen, b.lastSeen);
    }
  }

  lemma {:induction false} MatchingCounts(rows: seq<Resource>, test: string -> bool, x: Resource)
    ensures multiset(Matching(rows, test))[x]
            == if test(x.reference) || test(x.title) || test(x.resourceType) || test(x.provider) then multiset(rows)[x] else 0
  {
    if rows != [] {
      MatchingCounts(rows[1..], test, x);
      assert rows == [rows[0]] + rows[1..];
    }
  }

  /** Some of the rows in order, each no more often than it is there and none left out that belongs before the last. */
  ghost predicate MostRecent(r: seq<Resource>, all: multiset<Resource>, limit: nat) {
    && |r| == (if |all| <= limit then |all| else limit)
    && multiset(r) <= all
    && (forall i, j :: 0 <= i < j < |r| ==> NoLater(r[i], r[j]))
    && (forall i, x :: 0 <= i < |r| && x in all - multiset(r) ==> NoLater(r[i], x))
  }

  lemma PrefixIsMostRecent(sorted: seq<Resource>, limit: nat)
    requires forall i, j :: 0 <= i < j < |sorted| ==> NoLater(sorted[i], sorted[j])
    ensures MostRecent(Truncate(sorted, limit), multiset(sorted), limit)
  {
    var r := Truncate(sorted, limit);
    assert sorted == r + sorted[|r|..];
    forall i, x | 0 <= i < |r| && x in multiset(sorted) - multiset(r) ensures NoLater(r[i], x) {
      assert x in sorted[|r|..];
    }
  }

  /** The rows that mention the trimmed query, each as often as it is there. */
  ghost predicate AreMentions(all: multiset<Resource>, rows: seq<Resource>, query: string, fold: char -> char) {
    forall x :: all[x] == if MentionedIn(x, Trim(query), fold) then multiset(rows)[x] else 0
  }

  /** For every query, a search lists the rows that mention it in one of four columns, most recently seen first and then
      by reference, as many as there are up to the limit, and leaves out none that belongs before one it lists. */
  lemma SearchListsMentions(rows: seq<Resource>, query: string, limit: nat, fold: char -> char) returns (all: multiset<Resource>)
    requires KeepsMeta(fold)
    ensures AreMentions(all, rows, query, fold) && MostRecent(Search(rows, query, limit, fold), all, limit)
  {
    SearchFindsMentions(rows, query, limit, fold);
    var matching := Matching(rows, text => Mentions(text, Trim(query), fold));
    all := multiset(matching);
    MentionsCounted(rows, query, fold);
    SortedIsMostRecent(matching, limit);
  }

  lemma MentionsCounted(rows: seq<Resource>, query: string, fold: char -> char)
    ensures AreMentions(multiset(Matching(rows, text => Mentions(text, Trim(query), fold))), rows, query, fold)
  {
    var mentions := text => Mentions(text, Trim(query), fold);
    forall x ensures multiset(Matching(rows, mentions))[x] == if MentionedIn(x, Trim(query), fold) then multiset(rows)[x] else 0 {
      MatchingCounts(rows, mentions, x);
    }
  }

  lemma SortedIsMostRecent(matching: seq<Resource>, limit: nat)
    ensures MostRecent(Truncate(SortBy(matching, Recent), limit), multiset(matching), limit)
  {
    RecentOrder();
    SortByIsSorted(matching, Recent);
    PrefixIsMostRecent(SortBy(matching, Recent), limit);
  }
}
