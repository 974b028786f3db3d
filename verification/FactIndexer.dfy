/** The index as an object that is updated in place, and search as its loops compute it. */
module FactIndexer {
  import opened Order
  import opened Sorting
  import opened Text
  import opened FactRecords
  import FI = FactIndex
  import FS = FactSearch

  function ScoreIn(scores: map<string, nat>, id: string): nat { if id in scores then scores[id] else 0 }

  /** Ten more points for each id of the set, and for no other. */
  ghost predicate Added(r: map<string, nat>, scores: map<string, nat>, ids: set<string>) {
    forall id :: (id in r <==> id in scores || id in ids) && ScoreIn(r, id) == ScoreIn(scores, id) + if id in ids then 10 else 0
  }

  lemma AddedOneMore(r: map<string, nat>, scores: map<string, nat>, ids: set<string>, id: string)
    requires Added(r, scores, ids) && id !in ids
    ensures Added(r[id := ScoreIn(r, id) + 10], scores, ids + {id})
  {
  }

  method AddPoints(scores: map<string, nat>, ids: set<string>) returns (r: map<string, nat>)
    ensures Added(r, scores, ids)
  {
    r := scores;
    var todo := ids;
    ghost var done := {};
    while todo != {}
      invariant done !! todo && done + todo == ids
      invariant Added(r, scores, done)
      decreases |todo|
    {
      var id :| id in todo;
      AddedOneMore(r, scores, done, id);
      todo, done := todo - {id}, done + {id};
      r := r[id := ScoreIn(r, id) + 10];
    }
    assert done == ids;
  }

  lemma {:induction false} PointsOfNext(p: FI.Postings, tokens: seq<string>, i: nat, id: string)
    requires i < |tokens|
    ensures FS.Points(p, tokens[..i + 1], id) == FS.Points(p, tokens[..i], id) + if id in FI.Posted(p, tokens[i]) then 10 else 0
    decreases i
  {
    if i == 0 {
      assert tokens[..1][1..] == [];
    } else {
      assert tokens[..i + 1][1..] == tokens[1..][..i] && tokens[..i][1..] == tokens[1..][..i - 1];
      PointsOfNext(p, tokens[1..], i - 1, id);
    }
  }

  /** The points a scores map gives: only scored ids are in it. */
  ghost predicate Tallies(scores: map<string, nat>, p: FI.Postings, tokens: seq<string>) {
    forall id :: (id in scores <==> FS.Points(p, tokens, id) > 0) && ScoreIn(scores, id) == FS.Points(p, tokens, id)
  }

  lemma TalliesNext(before: map<string, nat>, after: map<string, nat>, p: FI.Postings, tokens: seq<string>, i: nat)
    requires i < |tokens| && Tallies(before, p, tokens[..i])
    requires Added(after, before, FI.Posted(p, tokens[i]))
    ensures Tallies(after, p, tokens[..i + 1])
  {
    forall id ensures (id in after <==> FS.Points(p, tokens[..i + 1], id) > 0)
                      && ScoreIn(after, id) == FS.Points(p, tokens[..i + 1], id) {
      PointsOfNext(p, tokens, i, id);
    }
  }

  lemma TalliesUnique(scores: map<string, nat>, p: FI.Postings, tokens: seq<string>)
    requires Tallies(scores, p, tokens)
    ensures scores == FS.TokenScores(p, tokens)
  {
    forall id ensures id in scores <==> id in FS.ScoredIds(p, tokens) {
      FS.ScoredExactly(p, tokens, id);
    }
  }

  method ScoreTokens(p: FI.Postings, tokens: seq<string>) returns (scores: map<string, nat>)
    ensures scores == FS.TokenScores(p, tokens)
  {
    scores := map[];
    for i := 0 to |tokens|
      invariant Tallies(scores, p, tokens[..i])
    {
      ghost var before := scores;
      if tokens[i] in p {
        scores := AddPoints(scores, p[tokens[i]]);
      }
      TalliesNext(before, scores, p, tokens, i);
    }
    assert tokens[..|tokens|] == tokens;
    TalliesUnique(scores, p, tokens);
  }

  method ScoreMentions(facts: map<string, FactRecord>, lx: Lexicon, needle: string) returns (scores: map<string, nat>)
    ensures scores == FS.FallbackScores(facts, lx, needle)
  {
    scores := map[];
    var todo := facts.Keys;
    while todo != {}
      invariant todo <= facts.Keys
      invariant forall id :: id in scores <==> id in facts && id !in todo && FS.Mentions(lx, facts[id], needle)
      invariant forall id :: id in scores ==> scores[id] == 5
      decreases |todo|
    {
      var id :| id in todo;
      todo := todo - {id};
      if FS.Mentions(lx, facts[id], needle) {
        scores := scores[id := 5];
      }
    }
  }

  lemma {:induction false} HitsOfNext(ids: seq<string>, facts: map<string, FactRecord>, scores: map<string, nat>, i: nat)
    requires i < |ids| && forall k :: 0 <= k < |ids| ==> ids[k] in scores
    ensures FS.HitsOf(ids[..i + 1], facts, scores)
            == FS.HitsOf(ids[..i], facts, scores) + if ids[i] in facts then [FS.Hit(facts[ids[i]], scores[ids[i]])] else []
    decreases i
  {
    if i == 0 {
      assert ids[..1][1..] == [];
    } else {
      assert ids[..i + 1][1..] == ids[1..][..i] && ids[..i][1..] == ids[1..][..i - 1];
      HitsOfNext(ids[1..], facts, scores, i - 1);
    }
  }

  method CollectHits(ids: seq<string>, facts: map<string, FactRecord>, scores: map<string, nat>) returns (hits: seq<FS.Hit>)
    requires forall k :: 0 <= k < |ids| ==> ids[k] in scores
    ensures hits == FS.HitsOf(ids, facts, scores)
  {
    hits := [];
    for i := 0 to |ids|
      invariant hits == FS.HitsOf(ids[..i], facts, scores)
    {
      HitsOfNext(ids, facts, scores, i);
      if ids[i] in facts {
        hits := hits + [FS.Hit(facts[ids[i]], scores[ids[i]])];
      }
    }
    assert ids[..|ids|] == ids;
  }

  lemma {:induction false} FactsAtConcat(a: seq<string>, b: seq<string>, facts: map<string, FactRecord>)
    ensures FS.FactsAt(a + b, facts) == FS.FactsAt(a, facts) + FS.FactsAt(b, facts)
  {
    if a == [] {
      assert a + b == b;
    } else {
      assert (a + b)[1..] == a[1..] + b;
      FactsAtConcat(a[1..], b, facts);
    }
  }

  /** The first facts found under the ids, stopping as soon as there are enough. */
  method TakeFacts(ids: seq<string>, facts: map<string, FactRecord>, limit: nat) returns (r: seq<FactRecord>)
    ensures r == Truncate(FS.FactsAt(ids, facts), limit)
  {
    r := [];
    var i := 0;
    while i < |ids| && |r| < limit
      invariant i <= |ids| && |r| <= limit
      invariant r == FS.FactsAt(ids[..i], facts)
    {
      assert ids[..i + 1] == ids[..i] + [ids[i]];
      FactsAtConcat(ids[..i], [ids[i]], facts);
      if ids[i] in facts {
        r := r + [facts[ids[i]]];
      }
      i := i + 1;
    }
    assert ids == ids[..i] + ids[i..];
    FactsAtConcat(ids[..i], ids[i..], facts);
  }

  lemma {:induction false} IndexAllNext(ix: FI.Index, lx: Lexicon, facts: seq<FactRecord>, i: nat)
    requires i < |facts|
    ensures FI.IndexAll(ix, lx, facts[..i + 1]) == FI.IndexFact(FI.IndexAll(ix, lx, facts[..i]), lx, facts[i])
    decreases i
  {
    if i == 0 {
      assert facts[..1][1..] == [];
    } else {
      assert facts[..i + 1][1..] == facts[1..][..i] && facts[..i][1..] == facts[1..][..i - 1];
      IndexAllNext(FI.IndexFact(ix, lx, facts[0]), lx, facts[1..], i - 1);
    }
  }

  lemma {:induction false} PostAllNext(p: FI.Postings, keys: seq<string>, id: string, i: nat)
    requires i < |keys|
    ensures FI.PostAll(p, keys[..i + 1], id) == FI.Post(FI.PostAll(p, keys[..i], id), keys[i], id)
    decreases i
  {
    if i == 0 {
      assert keys[..1][1..] == [];
    } else {
      assert keys[..i + 1][1..] == keys[1..][..i] && keys[..i][1..] == keys[1..][..i - 1];
      PostAllNext(FI.Post(p, keys[0], id), keys[1..], id, i - 1);
    }
  }

  method PostEach(p: FI.Postings, keys: seq<string>, id: string) returns (r: FI.Postings)
    ensures r == FI.PostAll(p, keys, id)
  {
    r := p;
    for i := 0 to |keys|
      invariant r == FI.PostAll(p, keys[..i], id)
    {
      PostAllNext(p, keys, id, i);
      r := FI.Post(r, keys[i], id);
    }
    assert keys[..|keys|] == keys;
  }

  class FactIndex {
    var facts: map<string, FactRecord>
    var tokenIndex: FI.Postings
    var typeIndex: FI.Postings

    function Model(): FI.Index
      reads this
    {
      FI.Index(facts, tokenIndex, typeIndex)
    }

    constructor ()
      ensures Model() == FI.EMPTY
    {
      facts, tokenIndex, typeIndex := map[], map[], map[];
    }

    method IndexFact(lx: Lexicon, f: FactRecord)
      modifies this
      ensures Model() == FI.IndexFact(old(Model()), lx, f)
    {
      typeIndex := FI.Post(typeIndex, lx.typeKey(f.factType), f.id);
      tokenIndex := PostEach(tokenIndex, lx.tokens(f.statement) + lx.tokens(f.factType), f.id);
      facts := facts[f.id := f];
    }

    method Rebuild(lx: Lexicon, all: seq<FactRecord>)
      modifies this
      ensures Model() == FI.Rebuild(lx, all)
    {
      facts, tokenIndex, typeIndex := map[], map[], map[];
      for i := 0 to |all|
        invariant Model() == FI.IndexAll(FI.EMPTY, lx, all[..i])
      {
        IndexAllNext(FI.EMPTY, lx, all, i);
        IndexFact(lx, all[i]);
      }
      assert all[..|all|] == all;
    }

    method Search(lx: Lexicon, query: string, limit: nat) returns (hits: seq<FS.Hit>)
      ensures hits == FS.Search(Model(), lx, query, limit)
    {
      var scores := ScoreTokens(tokenIndex, lx.tokens(query));
      TrimBlank(query);
      if scores == map[] && Trim(query) != [] {
        scores := ScoreMentions(facts, lx, lx.lower(query));
      }
      hits := CollectHits(Sorted(scores.Keys), facts, scores);
      hits := Truncate(SortBy(hits, FS.Ranks), FS.Limit(limit));
    }

    method ByType(lx: Lexicon, factType: string, limit: nat) returns (r: seq<FactRecord>)
      ensures r == FS.ByType(Model(), lx, factType, limit)
    {
      r := TakeFacts(Sorted(FI.Posted(typeIndex, lx.typeKey(factType))), facts, FS.Limit(limit));
    }
  }
}
