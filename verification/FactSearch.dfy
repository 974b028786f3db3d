/** Ranked search over the index, against a reference that reads every fact. */
module FactSearch {
  import opened Order
  import opened Sorting
  import opened Text
  import opened FactRecords
  import opened FactIndex

  datatype Hit = Hit(fact: FactRecord, score: nat)

  // ---- What the index computes ----

  /** Ten points for every occurrence of a query token under which the id is posted. */
  function Points(p: Postings, tokens: seq<string>, id: string): nat {
    if tokens == [] then 0 else (if id in Posted(p, tokens[0]) then 10 else 0) + Points(p, tokens[1..], id)
  }

  function ScoredIds(p: Postings, tokens: seq<string>): set<string> {
    if tokens == [] then {} else Posted(p, tokens[0]) + ScoredIds(p, tokens[1..])
  }

  function TokenScores(p: Postings, tokens: seq<string>): map<string, nat> {
    map id | id in ScoredIds(p, tokens) :: Points(p, tokens, id)
  }

  predicate Mentions(lx: Lexicon, f: FactRecord, needle: string) {
    Contains(lx.lower(f.statement), needle) || Contains(lx.lower(f.factType), needle)
  }

  function FallbackScores(facts: map<string, FactRecord>, lx: Lexicon, needle: string): map<string, nat> {
    map id | id in facts && Mentions(lx, facts[id], needle) :: 5
  }

  /** Token scores; when there are none and the query is not blank, substring matches. */
  function Scores(ix: Index, lx: Lexicon, query: string): map<string, nat> {
    var scores := TokenScores(ix.tokens, lx.tokens(query));
    if scores == map[] && !Blank(query) then FallbackScores(ix.facts, lx, lx.lower(query)) else scores
  }

  function HitsOf(ids: seq<string>, facts: map<string, FactRecord>, scores: map<string, nat>): seq<Hit>
    requires forall i :: 0 <= i < |ids| ==> ids[i] in scores
  {
    if ids == [] then []
    else
      (if ids[0] in facts then [Hit(facts[ids[0]], scores[ids[0]])] else []) + HitsOf(ids[1..], facts, scores)
  }

  /** A missing confidence ranks below every confidence. */
  function Confidence(f: FactRecord): int { if f.confidence.Some? then f.confidence.value else -1 }

  /** Higher score first, then higher confidence, then the later update. */
  predicate Ranks(a: Hit, b: Hit) {
    || a.score > b.score
    || (a.score == b.score
        && (Confidence(a.fact) > Confidence(b.fact)
            || (Confidence(a.fact) == Confidence(b.fact) && a.fact.updatedAt >= b.fact.updatedAt)))
  }

  function Limit(limit: nat): nat { if limit == 0 then 1 else limit }

  function Search(ix: Index, lx: Lexicon, query: string, limit: nat): seq<Hit> {
    var scores := Scores(ix, lx, query);
    Truncate(SortBy(HitsOf(Sorted(scores.Keys), ix.facts, scores), Ranks), Limit(limit))
  }

  // ---- What a reader of every fact would compute ----

  /** Ten points for every occurrence of a query token among the fact's own tokens. */
  function Relevance(lx: Lexicon, f: FactRecord, tokens: seq<string>): nat {
    if tokens == [] then 0 else (if tokens[0] in TokensOf(lx, f) then 10 else 0) + Relevance(lx, f, tokens[1..])
  }

  ghost predicate AnyRelevant(facts: map<string, FactRecord>, lx: Lexicon, tokens: seq<string>) {
    exists id :: id in facts && Relevance(lx, facts[id], tokens) > 0
  }

  /** The score a fact deserves; zero when it does not match. */
  ghost function Deserved(facts: map<string, FactRecord>, lx: Lexicon, query: string, f: FactRecord): nat {
    if AnyRelevant(facts, lx, lx.tokens(query)) then Relevance(lx, f, lx.tokens(query))
    else if !Blank(query) && Mentions(lx, f, lx.lower(query)) then 5 else 0
  }

  /** The order of results: rank, and the smaller id among facts of one rank. */
  ghost predicate Precedes(a: Hit, b: Hit) {
    Ranks(a, b) && (Ranks(b, a) ==> Less(a.fact.id, b.fact.id))
  }

  // ---- Agreement ----

  lemma {:induction false} ScoredExactly(p: Postings, tokens: seq<string>, id: string)
    ensures id in ScoredIds(p, tokens) <==> Points(p, tokens, id) > 0
  {
    if tokens != [] {
      ScoredExactly(p, tokens[1..], id);
    }
  }

  /** Completeness alone: no fact is scored below what its own tokens earn, so none is missed. */
  lemma {:induction false} CompleteNeverMisses(ix: Index, lx: Lexicon, tokens: seq<string>, id: string)
    requires Complete(ix, lx) && id in ix.facts
    ensures Points(ix.tokens, tokens, id) >= Relevance(lx, ix.facts[id], tokens)
  {
    if tokens != [] {
      CompleteNeverMisses(ix, lx, tokens[1..], id);
    }
  }

  lemma {:induction false} ExactPoints(ix: Index, lx: Lexicon, tokens: seq<string>, id: string)
    requires Complete(ix, lx) && Exact(ix, lx)
    ensures Points(ix.tokens, tokens, id) == if id in ix.facts then Relevance(lx, ix.facts[id], tokens) else 0
  {
    if tokens != [] {
      ExactPoints(ix, lx, tokens[1..], id);
    }
  }

  /** After an id is indexed again without one of its old tokens, that token still finds it. */
  lemma StalePostingScores(ix: Index, lx: Lexicon, f: FactRecord, t: string)
    requires Complete(ix, lx) && f.id in ix.facts
    requires t in TokensOf(lx, ix.facts[f.id]) && t !in TokensOf(lx, f)
    ensures Points(IndexFact(ix, lx, f).tokens, [t], f.id) == 10
    ensures Relevance(lx, IndexFact(ix, lx, f).facts[f.id], [t]) == 0
  {
    PostAllExactly(ix.tokens, TokensOf(lx, f), f.id, t, f.id);
  }

  lemma NoScores(p: Postings, tokens: seq<string>)
    ensures TokenScores(p, tokens) == map[] <==> ScoredIds(p, tokens) == {}
  {
    assert TokenScores(p, tokens).Keys == ScoredIds(p, tokens);
  }

  lemma TokenScoresEmpty(ix: Index, lx: Lexicon, tokens: seq<string>)
    requires Complete(ix, lx) && Exact(ix, lx)
    ensures TokenScores(ix.tokens, tokens) == map[] <==> !AnyRelevant(ix.facts, lx, tokens)
  {
    forall id ensures id in ScoredIds(ix.tokens, tokens) <==> id in ix.facts && Relevance(lx, ix.facts[id], tokens) > 0 {
      ScoredExactly(ix.tokens, tokens, id);
      ExactPoints(ix, lx, tokens, id);
    }
    NoScores(ix.tokens, tokens);
  }

  /** On an exact index the scores are the deserved ones, of exactly the matching facts. */
  lemma ScoresAreDeserved(ix: Index, lx: Lexicon, query: string, id: string)
    requires Complete(ix, lx) && Exact(ix, lx)
    ensures id in Scores(ix, lx, query) <==> id in ix.facts && Deserved(ix.facts, lx, query, ix.facts[id]) > 0
    ensures id in Scores(ix, lx, query) ==> Scores(ix, lx, query)[id] == Deserved(ix.facts, lx, query, ix.facts[id])
  {
    var tokens := lx.tokens(query);
    TokenScoresEmpty(ix, lx, tokens);
    ScoredExactly(ix.tokens, tokens, id);
    ExactPoints(ix, lx, tokens, id);
  }

  lemma {:induction false} HitsExactly(ids: seq<string>, facts: map<string, FactRecord>, scores: map<string, nat>, h: Hit)
    requires Keyed(facts) && forall i :: 0 <= i < |ids| ==> ids[i] in scores
    ensures h in HitsOf(ids, facts, scores)
            <==> h.fact.id in ids && h.fact.id in facts && h == Hit(facts[h.fact.id], scores[h.fact.id])
  {
    if ids != [] {
      HitsExactly(ids[1..], facts, scores, h);
      assert h.fact.id in ids <==> h.fact.id == ids[0] || h.fact.id in ids[1..];
    }
  }

  ghost predicate IdsAscend(hits: seq<Hit>) {
    forall i, j :: 0 <= i < j < |hits| ==> Less(hits[i].fact.id, hits[j].fact.id)
  }

  ghost predicate InOrder(hits: seq<Hit>) {
    forall i, j :: 0 <= i < j < |hits| ==> Precedes(hits[i], hits[j])
  }

  lemma {:induction false} HitsAscend(ids: seq<string>, facts: map<string, FactRecord>, scores: map<string, nat>)
    requires Keyed(facts) && Ascending(ids) && forall i :: 0 <= i < |ids| ==> ids[i] in scores
    ensures IdsAscend(HitsOf(ids, facts, scores))
  {
    if ids != [] {
      var rest := HitsOf(ids[1..], facts, scores);
      HitsAscend(ids[1..], facts, scores);
      forall j | 0 <= j < |rest| ensures Less(ids[0], rest[j].fact.id) {
        HitsExactly(ids[1..], facts, scores, rest[j]);
      }
      if ids[0] in facts {
        assert HitsOf(ids, facts, scores) == [Hit(facts[ids[0]], scores[ids[0]])] + rest;
      } else {
        assert HitsOf(ids, facts, scores) == rest;
      }
    }
  }

  lemma RankIsPreorder()
    ensures TotalPreorder(Ranks)
  {
  }

  lemma RankedInOrder(ids: seq<string>, facts: map<string, FactRecord>, scores: map<string, nat>)
    requires Keyed(facts) && Ascending(ids) && forall i :: 0 <= i < |ids| ==> ids[i] in scores
    ensures InOrder(SortBy(HitsOf(ids, facts, scores), Ranks))
  {
    HitsAscend(ids, facts, scores);
    RankIsPreorder();
    SortByIsStable(HitsOf(ids, facts, scores), Ranks, (a: Hit, b: Hit) => Less(a.fact.id, b.fact.id));
  }

  /** The list is the best of the hits: in order, real, and nothing left out belongs before any of them. */
  ghost predicate IsTop(r: seq<Hit>, limit: nat, hits: iset<Hit>) {
    && (forall i :: 0 <= i < |r| ==> r[i] in hits)
    && InOrder(r)
    && (forall h :: h in hits && h !in r ==> |r| == limit && forall i :: 0 <= i < |r| ==> Precedes(r[i], h))
  }

  lemma PrefixIsTop(all: seq<Hit>, limit: nat, hits: iset<Hit>)
    requires InOrder(all)
    requires forall h :: h in all <==> h in hits
    ensures IsTop(Truncate(all, limit), limit, hits)
  {
    var r := Truncate(all, limit);
    forall h | h in hits && h !in r ensures |r| == limit && forall i :: 0 <= i < |r| ==> Precedes(r[i], h) {
      assert h in all;
      var j :| 0 <= j < |all| && all[j] == h;
      assert j >= |r|;
    }
  }

  /** The facts that match, with the scores they deserve. */
  ghost function Matches(facts: map<string, FactRecord>, lx: Lexicon, query: string): iset<Hit> {
    iset h: Hit | h.fact.id in facts && h.fact == facts[h.fact.id]
                  && h.score == Deserved(facts, lx, query, h.fact) && h.score > 0
  }

  lemma TopOfScores(ids: seq<string>, facts: map<string, FactRecord>, scores: map<string, nat>, limit: nat, matches: iset<Hit>)
    requires Keyed(facts) && Ascending(ids) && forall i :: 0 <= i < |ids| ==> ids[i] in scores
    requires forall h :: h in HitsOf(ids, facts, scores) <==> h in matches
    ensures IsTop(Truncate(SortBy(HitsOf(ids, facts, scores), Ranks), limit), limit, matches)
  {
    var hits := HitsOf(ids, facts, scores);
    RankedInOrder(ids, facts, scores);
    MembersSame(SortBy(hits, Ranks), hits);
    PrefixIsTop(SortBy(hits, Ranks), limit, matches);
  }

  /** On an exact index, search returns the best matches of a scan over every fact. */
  lemma SearchIsScan(ix: Index, lx: Lexicon, query: string, limit: nat)
    requires Complete(ix, lx) && Exact(ix, lx)
    ensures IsTop(Search(ix, lx, query, limit), Limit(limit), Matches(ix.facts, lx, query))
  {
    var scores := Scores(ix, lx, query);
    var ids := Sorted(scores.Keys);
    forall h ensures h in HitsOf(ids, ix.facts, scores) <==> h in Matches(ix.facts, lx, query) {
      HitsExactly(ids, ix.facts, scores, h);
      ScoresAreDeserved(ix, lx, query, h.fact.id);
    }
    TopOfScores(ids, ix.facts, scores, Limit(limit), Matches(ix.facts, lx, query));
  }

  /** Under the kernel's own analysis and on an exact index, a query token scores a fact exactly when it is a lower-cased
      longest alphanumeric stretch of the fact's statement or type. */
  lemma TokenScoresExactly(ix: Index, alphanumeric: char -> bool, lower: string -> string, token: string, id: string)
    requires Complete(ix, LexiconOf(alphanumeric, lower)) && Exact(ix, LexiconOf(alphanumeric, lower))
    ensures Points(ix.tokens, [token], id) > 0
            <==> id in ix.facts && (IsToken(alphanumeric, lower, ix.facts[id].statement, token)
                                    || IsToken(alphanumeric, lower, ix.facts[id].factType, token))
  {
    var lx := LexiconOf(alphanumeric, lower);
    ExactPoints(ix, lx, [token], id);
    assert [token][1..] == [];
    if id in ix.facts {
      TokenExactly(alphanumeric, lower, ix.facts[id].statement, token);
      TokenExactly(alphanumeric, lower, ix.facts[id].factType, token);
    }
  }

  // ---- Listing by type ----

  function FactsAt(ids: seq<string>, facts: map<string, FactRecord>): seq<FactRecord> {
    if ids == [] then [] else (if ids[0] in facts then [facts[ids[0]]] else []) + FactsAt(ids[1..], facts)
  }

  function ByType(ix: Index, lx: Lexicon, factType: string, limit: nat): seq<FactRecord> {
    Truncate(FactsAt(Sorted(Posted(ix.types, lx.typeKey(factType))), ix.facts), Limit(limit))
  }

  lemma {:induction false} FactsAtAll(ids: seq<string>, facts: map<string, FactRecord>)
    requires Keyed(facts) && forall i :: 0 <= i < |ids| ==> ids[i] in facts
    ensures |FactsAt(ids, facts)| == |ids|
    ensures forall i :: 0 <= i < |ids| ==> FactsAt(ids, facts)[i] == facts[ids[i]]
  {
    if ids != [] {
      FactsAtAll(ids[1..], facts);
    }
  }

  function OfType(facts: map<string, FactRecord>, lx: Lexicon, factType: string): set<string> {
    set id | id in facts && lx.typeKey(facts[id].factType) == lx.typeKey(factType)
  }

  /** The facts under the first `limit` ids. */
  ghost predicate AreFirst(r: seq<FactRecord>, ids: seq<string>, facts: map<string, FactRecord>, limit: nat) {
    && |r| == (if |ids| <= limit then |ids| else limit)
    && (forall i :: 0 <= i < |r| ==> ids[i] in facts && r[i] == facts[ids[i]])
  }

  lemma FirstFacts(ids: seq<string>, facts: map<string, FactRecord>, limit: nat)
    requires Keyed(facts) && forall i :: 0 <= i < |ids| ==> ids[i] in facts
    ensures AreFirst(Truncate(FactsAt(ids, facts), limit), ids, facts, limit)
  {
    FactsAtAll(ids, facts);
  }

  lemma PostedOfType(ix: Index, lx: Lexicon, factType: string)
    requires Complete(ix, lx) && Exact(ix, lx)
    ensures Posted(ix.types, lx.typeKey(factType)) == OfType(ix.facts, lx, factType)
  {
  }

  /** On an exact index, a type lists the first facts of that type in id order. */
  lemma ByTypeIsScan(ix: Index, lx: Lexicon, factType: string, limit: nat)
    requires Complete(ix, lx) && Exact(ix, lx)
    ensures AreFirst(ByType(ix, lx, factType, limit), Sorted(OfType(ix.facts, lx, factType)), ix.facts, Limit(limit))
  {
    PostedOfType(ix, lx, factType);
    FirstFacts(Sorted(OfType(ix.facts, lx, factType)), ix.facts, Limit(limit));
  }
}
