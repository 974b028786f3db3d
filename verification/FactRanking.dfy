/** What a search, a recall and a listing by type return, read off the facts themselves. */
module FactRanking {
  import opened Order
  import opened Text
  import opened FactRecords
  import opened FactIndex
  import opened FactSearch

  // ---- Scores ----

  /** The positions at which a query token is a token of the statement or of the type. */
  function Positions(lx: Lexicon, f: FactRecord, tokens: seq<string>): set<nat> {
    set i: nat | i < |tokens| && (tokens[i] in lx.tokens(f.statement) || tokens[i] in lx.tokens(f.factType))
  }

  /** The lower-cased statement or type holds the lower-cased query. */
  ghost predicate Holds(lx: Lexicon, f: FactRecord, query: string) {
    || (exists i: nat :: OccursAt(lx.lower(f.statement), lx.lower(query), i))
    || (exists i: nat :: OccursAt(lx.lower(f.factType), lx.lower(query), i))
  }

  /** Ten for each position that matches; where no fact matches any, five for facts that hold a query that is not blank. */
  ghost function Worth(facts: map<string, FactRecord>, lx: Lexicon, query: string, f: FactRecord): nat {
    if exists id :: id in facts && Positions(lx, facts[id], lx.tokens(query)) != {}
    then 10 * |Positions(lx, f, lx.tokens(query))|
    else if !Blank(query) && Holds(lx, f, query) then 5 else 0
  }

  lemma {:induction false} RelevancePush(lx: Lexicon, f: FactRecord, tokens: seq<string>, t: string)
    ensures Relevance(lx, f, tokens + [t]) == Relevance(lx, f, tokens) + if t in TokensOf(lx, f) then 10 else 0
  {
    if tokens != [] {
      assert (tokens + [t])[1..] == tokens[1..] + [t];
      RelevancePush(lx, f, tokens[1..], t);
    } else {
      assert (tokens + [t])[1..] == [];
    }
  }

  lemma PositionsPush(lx: Lexicon, f: FactRecord, tokens: seq<string>, t: string)
    ensures |Positions(lx, f, tokens + [t])| == |Positions(lx, f, tokens)| + if t in TokensOf(lx, f) then 1 else 0
  {
    var n := |tokens|;
    var before, after := Positions(lx, f, tokens), Positions(lx, f, tokens + [t]);
    assert forall i: nat :: i < n ==> (tokens + [t])[i] == tokens[i];
    assert (tokens + [t])[n] == t && n !in before;
    assert after == if t in TokensOf(lx, f) then before + {n} else before;
  }

  lemma {:induction false} RelevanceExactly(lx: Lexicon, f: FactRecord, tokens: seq<string>)
    ensures Relevance(lx, f, tokens) == 10 * |Positions(lx, f, tokens)|
  {
    if tokens == [] {
      assert Positions(lx, f, tokens) == {};
    } else {
      var init, t := tokens[..|tokens| - 1], tokens[|tokens| - 1];
      assert tokens == init + [t];
      RelevanceExactly(lx, f, init);
      RelevancePush(lx, f, init, t);
      PositionsPush(lx, f, init, t);
    }
  }

  lemma DeservedExactly(facts: map<string, FactRecord>, lx: Lexicon, query: string, f: FactRecord)
    ensures Deserved(facts, lx, query, f) == Worth(facts, lx, query, f)
  {
    var tokens := lx.tokens(query);
    RelevanceExactly(lx, f, tokens);
    forall id | id in facts ensures Relevance(lx, facts[id], tokens) > 0 <==> Positions(lx, facts[id], tokens) != {} {
      RelevanceExactly(lx, facts[id], tokens);
    }
    assert AnyRelevant(facts, lx, tokens) <==> exists id :: id in facts && Positions(lx, facts[id], tokens) != {};
    assert Mentions(lx, f, lx.lower(query)) <==> Holds(lx, f, query);
  }

  // ---- Ranked results ----

  /** No lower score; at one score no lower confidence, an unassessed one being lowest; at one confidence no earlier
      update; and at one update the smaller id. */
  ghost predicate Above(a: Hit, b: Hit) {
    && a.score >= b.score
    && (a.score == b.score && b.fact.confidence.Some? ==>
          a.fact.confidence.Some? && a.fact.confidence.value >= b.fact.confidence.value)
    && (a.score == b.score && a.fact.confidence == b.fact.confidence ==> a.fact.updatedAt >= b.fact.updatedAt)
    && (a.score == b.score && a.fact.confidence == b.fact.confidence && a.fact.updatedAt == b.fact.updatedAt ==>
          Less(a.fact.id, b.fact.id))
  }

  lemma PrecedesAbove(a: Hit, b: Hit)
    requires Precedes(a, b)
    ensures Above(a, b)
  {
  }

  function MatchingIds(facts: map<string, FactRecord>, worth: FactRecord -> nat): set<string> {
    set id | id in facts && worth(facts[id]) > 0
  }

  /** The list holds stored facts with their worth, each above the next; it has as many as the limit and the matches
      allow; and it is above every match that is left out. */
  ghost predicate Ranked(r: seq<Hit>, facts: map<string, FactRecord>, worth: FactRecord -> nat, limit: nat) {
    var matching := MatchingIds(facts, worth);
    var most := if limit == 0 then 1 else limit;
    && |r| == (if |matching| <= most then |matching| else most)
    && (forall i :: 0 <= i < |r| ==> r[i].fact.id in matching && r[i] == Hit(facts[r[i].fact.id], worth(facts[r[i].fact.id])))
    && (forall i, j :: 0 <= i < j < |r| ==> Above(r[i], r[j]))
    && (forall id, i :: id in matching && id !in IdsOf(r) && 0 <= i < |r| ==> Above(r[i], Hit(facts[id], worth(facts[id]))))
  }

  function IdsOf(r: seq<Hit>): set<string> {
    set i | 0 <= i < |r| :: r[i].fact.id
  }

  ghost function HitsWorth(facts: map<string, FactRecord>, worth: FactRecord -> nat): iset<Hit> {
    iset h: Hit | h.fact.id in facts && h.fact == facts[h.fact.id] && h.score == worth(h.fact) && h.score > 0
  }

  lemma {:induction false} IdsCount(r: seq<Hit>)
    requires forall i, j :: 0 <= i < j < |r| ==> r[i].fact.id != r[j].fact.id
    ensures |IdsOf(r)| == |r|
  {
    if r != [] {
      var n := |r| - 1;
      IdsCount(r[..n]);
      assert IdsOf(r) == IdsOf(r[..n]) + {r[n].fact.id};
    }
  }

  lemma SubsetSize(a: set<string>, b: set<string>)
    requires a <= b
    ensures |a| <= |b| && (|a| == |b| ==> a == b)
  {
    assert b == a + (b - a);
    assert |b| == |a| + |b - a|;
  }

  lemma TopCount(r: seq<Hit>, facts: map<string, FactRecord>, worth: FactRecord -> nat, most: nat)
    requires Keyed(facts) && |r| <= most && IsTop(r, most, HitsWorth(facts, worth))
    ensures |r| == if |MatchingIds(facts, worth)| <= most then |MatchingIds(facts, worth)| else most
  {
    var matching := MatchingIds(facts, worth);
    forall i, j | 0 <= i < j < |r| ensures r[i].fact.id != r[j].fact.id {
      PrecedesAbove(r[i], r[j]);
      LessStrictTotal();
      assert r[i] in HitsWorth(facts, worth) && r[j] in HitsWorth(facts, worth);
    }
    IdsCount(r);
    assert IdsOf(r) <= matching;
    SubsetSize(IdsOf(r), matching);
    if |r| < most {
      forall id | id in matching ensures id in IdsOf(r) {
        var h := Hit(facts[id], worth(facts[id]));
        assert h in HitsWorth(facts, worth);
        assert h in r;
      }
      assert matching == IdsOf(r);
    }
  }

  lemma TopIsRanked(r: seq<Hit>, facts: map<string, FactRecord>, worth: FactRecord -> nat, limit: nat)
    requires Keyed(facts) && |r| <= Limit(limit) && IsTop(r, Limit(limit), HitsWorth(facts, worth))
    ensures Ranked(r, facts, worth, limit)
  {
    TopCount(r, facts, worth, Limit(limit));
    forall i, j | 0 <= i < j < |r| ensures Above(r[i], r[j]) {
      PrecedesAbove(r[i], r[j]);
    }
    forall id, i | id in MatchingIds(facts, worth) && id !in IdsOf(r) && 0 <= i < |r|
      ensures Above(r[i], Hit(facts[id], worth(facts[id]))) {
      var h := Hit(facts[id], worth(facts[id]));
      assert h in HitsWorth(facts, worth) && h !in r;
      PrecedesAbove(r[i], h);
    }
  }

  ghost function WorthOf(facts: map<string, FactRecord>, lx: Lexicon, query: string): FactRecord -> nat {
    f => Worth(facts, lx, query, f)
  }

  /** On an exact index, a search returns the facts of most worth in order, as many as there are up to the limit. */
  lemma SearchRanks(ix: Index, lx: Lexicon, query: string, limit: nat)
    requires Complete(ix, lx) && Exact(ix, lx)
    ensures Ranked(Search(ix, lx, query, limit), ix.facts, WorthOf(ix.facts, lx, query), limit)
  {
    SearchIsScan(ix, lx, query, limit);
    var worth := WorthOf(ix.facts, lx, query);
    forall h ensures h in Matches(ix.facts, lx, query) <==> h in HitsWorth(ix.facts, worth) {
      DeservedExactly(ix.facts, lx, query, h.fact);
    }
    assert Matches(ix.facts, lx, query) == HitsWorth(ix.facts, worth);
    TopIsRanked(Search(ix, lx, query, limit), ix.facts, worth, limit);
  }

  // ---- Listing by type ----

  /** The list holds, in strictly ascending id order, stored facts under the ids: all of them, or as many as are allowed
      and none with a smaller id left out. */
  ghost predicate Listed(r: seq<FactRecord>, ids: set<string>, facts: map<string, FactRecord>, most: nat) {
    && |r| == (if |ids| <= most then |ids| else most)
    && (forall i :: 0 <= i < |r| ==> r[i].id in ids && r[i].id in facts && r[i] == facts[r[i].id])
    && (forall i, j :: 0 <= i < j < |r| ==> Less(r[i].id, r[j].id))
    && (forall id, i :: id in ids && (forall j :: 0 <= j < |r| ==> r[j].id != id) && 0 <= i < |r| ==> Less(r[i].id, id))
  }

  /** The facts whose type is the given one up to surrounding space and case. */
  function SameType(facts: map<string, FactRecord>, lower: string -> string, factType: string): set<string> {
    set id | id in facts && lower(Trim(facts[id].factType)) == lower(Trim(factType))
  }

  lemma FirstAscend(r: seq<FactRecord>, ids: set<string>, facts: map<string, FactRecord>, most: nat)
    requires Keyed(facts) && AreFirst(r, Sorted(ids), facts, most)
    ensures Listed(r, ids, facts, most)
  {
    var sorted := Sorted(ids);
    forall i | 0 <= i < |r| ensures r[i].id == sorted[i] && sorted[i] in ids {
      assert sorted[i] in sorted;
    }
    forall id, i | id in ids && (forall j :: 0 <= j < |r| ==> r[j].id != id) && 0 <= i < |r| ensures Less(r[i].id, id) {
      assert id in sorted;
      var k :| 0 <= k < |sorted| && sorted[k] == id;
      assert k >= |r|;
    }
  }

  lemma SameTypeExactly(facts: map<string, FactRecord>, alphanumeric: char -> bool, lower: string -> string, factType: string)
    ensures OfType(facts, LexiconOf(alphanumeric, lower), factType) == SameType(facts, lower, factType)
  {
  }

  /** On an exact index and under the kernel's own analysis, a listing by type holds the first facts of that type. */
  lemma ByTypeLists(ix: Index, alphanumeric: char -> bool, lower: string -> string, factType: string, limit: nat)
    requires Complete(ix, LexiconOf(alphanumeric, lower)) && Exact(ix, LexiconOf(alphanumeric, lower))
    ensures Listed(ByType(ix, LexiconOf(alphanumeric, lower), factType, limit), SameType(ix.facts, lower, factType), ix.facts,
                   if limit == 0 then 1 else limit)
  {
    var lx := LexiconOf(alphanumeric, lower);
    ByTypeIsScan(ix, lx, factType, limit);
    SameTypeExactly(ix.facts, alphanumeric, lower, factType);
    FirstAscend(ByType(ix, lx, factType, limit), SameType(ix.facts, lower, factType), ix.facts, Limit(limit));
  }
}
