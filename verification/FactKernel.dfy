/** The fact kernel as a state machine: the store, its index, and every way of adding facts. */
module FactKernel {
  import opened Common
  import opened Order
  import opened FactRecords
  import opened FactIndex
  import FactSearch
  import FactRanking
  import FactReview
  import FactPromotion
  import FactHealth

  datatype Kernel = Kernel(facts: map<string, FactRecord>, index: Index, evidence: set<string>)

  datatype Arrival = Arrival(candidate: FactReview.Candidate, now: int)

  datatype Operation =
    | Upsert(fact: FactRecord)
    | Ingest(packet: string)
    | Grow(growth: FactPromotion.Growth, freshId: string, now: int)
    | Review(batch: seq<Arrival>)

  /** A kernel over an existing store, with the index rebuilt from the listing in id order. */
  function Start(facts: map<string, FactRecord>, evidence: set<string>, lx: Lexicon): Kernel {
    Kernel(facts, Rebuild(lx, FactSearch.FactsAt(Sorted(facts.Keys), facts)), evidence)
  }

  function Store(k: Kernel, lx: Lexicon, f: FactRecord): Kernel {
    k.(facts := k.facts[f.id := f], index := IndexFact(k.index, lx, f))
  }

  function GrowWith(k: Kernel, lx: Lexicon, g: FactPromotion.Growth, freshId: string, now: int): Kernel {
    var planned := FactPromotion.Plan(g, freshId, now).1;
    if planned.Some? then Store(k, lx, planned.value) else k
  }

  function ReviewOne(k: Kernel, lx: Lexicon, a: Arrival): (Kernel, FactReview.Decision) {
    var d := FactReview.Decide(k.facts, lx, a.candidate, a.now);
    (if d.promoted.Some? then Store(k, lx, d.promoted.value) else k, d)
  }

  function ReviewAll(k: Kernel, lx: Lexicon, batch: seq<Arrival>): (Kernel, seq<FactReview.Decision>)
    decreases |batch|
  {
    if batch == [] then (k, [])
    else
      var (k', d) := ReviewOne(k, lx, batch[0]);
      var (k'', ds) := ReviewAll(k', lx, batch[1..]);
      (k'', [d] + ds)
  }

  function Step(k: Kernel, lx: Lexicon, op: Operation): Kernel {
    match op
    case Upsert(f) => Store(k, lx, f)
    case Ingest(packet) => k.(evidence := k.evidence + {packet})
    case Grow(g, freshId, now) => GrowWith(k, lx, g, freshId, now)
    case Review(batch) => ReviewAll(k, lx, batch).0
  }

  function Run(k: Kernel, lx: Lexicon, ops: seq<Operation>): Kernel
    decreases |ops|
  {
    if ops == [] then k else Run(Step(k, lx, ops[0]), lx, ops[1..])
  }

  // ---- The index follows the store, whatever is done ----

  ghost predicate Indexed(k: Kernel, lx: Lexicon) {
    k.index.facts == k.facts && Complete(k.index, lx)
  }

  lemma ListingDistinct(ids: seq<string>, facts: map<string, FactRecord>, listed: seq<FactRecord>)
    requires Keyed(facts) && Ascending(ids) && |listed| == |ids|
    requires forall i :: 0 <= i < |ids| ==> ids[i] in facts && listed[i] == facts[ids[i]]
    ensures DistinctIds(listed)
  {
    forall i, j | 0 <= i < j < |listed| ensures listed[i].id != listed[j].id {
      LessAsymmetric(ids[i], ids[j]);
    }
  }

  lemma HeldIsListed(ids: seq<string>, facts: map<string, FactRecord>, listed: seq<FactRecord>, held: map<string, FactRecord>)
    requires Keyed(facts) && (forall id :: id in ids <==> id in facts) && |listed| == |ids|
    requires forall i :: 0 <= i < |ids| ==> listed[i] == facts[ids[i]]
    requires Holds(held, listed)
    ensures held == facts
  {
    forall id | id in facts ensures id in held && held[id] == facts[id] {
      var i :| 0 <= i < |ids| && ids[i] == id;
      assert listed[i].id == id;
    }
  }

  lemma ListingHolds(ids: seq<string>, facts: map<string, FactRecord>, lx: Lexicon)
    requires Keyed(facts) && Ascending(ids) && forall id :: id in ids <==> id in facts
    ensures var ix := Rebuild(lx, FactSearch.FactsAt(ids, facts));
            ix.facts == facts && Complete(ix, lx) && Exact(ix, lx)
  {
    var listed := FactSearch.FactsAt(ids, facts);
    FactSearch.FactsAtAll(ids, facts);
    ListingDistinct(ids, facts, listed);
    RebuildAgrees(lx, listed);
    HeldIsListed(ids, facts, listed, Rebuild(lx, listed).facts);
  }

  /** A kernel starts with an index that is complete and exact. */
  lemma StartAgrees(facts: map<string, FactRecord>, evidence: set<string>, lx: Lexicon)
    requires Keyed(facts)
    ensures Indexed(Start(facts, evidence, lx), lx) && Exact(Start(facts, evidence, lx).index, lx)
  {
    ListingHolds(Sorted(facts.Keys), facts, lx);
  }

  lemma StoreKeepsIndexed(k: Kernel, lx: Lexicon, f: FactRecord)
    requires Indexed(k, lx)
    ensures Indexed(Store(k, lx, f), lx)
  {
    IndexFactComplete(k.index, lx, f);
  }

  lemma {:induction false} ReviewKeepsIndexed(k: Kernel, lx: Lexicon, batch: seq<Arrival>)
    requires Indexed(k, lx)
    ensures Indexed(ReviewAll(k, lx, batch).0, lx)
    decreases |batch|
  {
    if batch != [] {
      var (k', d) := ReviewOne(k, lx, batch[0]);
      if d.promoted.Some? {
        StoreKeepsIndexed(k, lx, d.promoted.value);
      }
      ReviewKeepsIndexed(k', lx, batch[1..]);
    }
  }

  lemma StepKeepsIndexed(k: Kernel, lx: Lexicon, op: Operation)
    requires Indexed(k, lx)
    ensures Indexed(Step(k, lx, op), lx)
  {
    match op
    case Upsert(f) => StoreKeepsIndexed(k, lx, f);
    case Ingest(_) =>
    case Grow(g, freshId, now) =>
      var planned := FactPromotion.Plan(g, freshId, now).1;
      if planned.Some? {
        StoreKeepsIndexed(k, lx, planned.value);
      }
    case Review(batch) => ReviewKeepsIndexed(k, lx, batch);
  }

  /** Over every run the index holds exactly the stored facts, and recall misses no fact that the query names. */
  lemma {:induction false} RunKeepsIndexed(k: Kernel, lx: Lexicon, ops: seq<Operation>)
    requires Indexed(k, lx)
    ensures Indexed(Run(k, lx, ops), lx)
    decreases |ops|
  {
    if ops != [] {
      StepKeepsIndexed(k, lx, ops[0]);
      RunKeepsIndexed(Step(k, lx, ops[0]), lx, ops[1..]);
    }
  }

  lemma RecallMissesNothing(k: Kernel, lx: Lexicon, ops: seq<Operation>, query: string, id: string)
    requires Indexed(k, lx)
    ensures var k' := Run(k, lx, ops);
            id in k'.facts && FactSearch.Relevance(lx, k'.facts[id], lx.tokens(query)) > 0 ==>
              id in FactSearch.Scores(k'.index, lx, query)
              && FactSearch.Scores(k'.index, lx, query)[id] >= FactSearch.Relevance(lx, k'.facts[id], lx.tokens(query))
  {
    RunKeepsIndexed(k, lx, ops);
    var k' := Run(k, lx, ops);
    var tokens := lx.tokens(query);
    if id in k'.facts && FactSearch.Relevance(lx, k'.facts[id], tokens) > 0 {
      FactSearch.CompleteNeverMisses(k'.index, lx, tokens, id);
      FactSearch.ScoredExactly(k'.index.tokens, tokens, id);
      assert id in FactSearch.TokenScores(k'.index.tokens, tokens);
    }
  }

  // ---- When recall is the scan ----

  function WrittenByReview(k: Kernel, lx: Lexicon, batch: seq<Arrival>): seq<FactRecord>
    decreases |batch|
  {
    if batch == [] then []
    else
      var (k', d) := ReviewOne(k, lx, batch[0]);
      (if d.promoted.Some? then [d.promoted.value] else []) + WrittenByReview(k', lx, batch[1..])
  }

  /** The facts an operation writes, in order. */
  function WrittenBy(k: Kernel, lx: Lexicon, op: Operation): seq<FactRecord> {
    match op
    case Upsert(f) => [f]
    case Ingest(_) => []
    case Grow(g, freshId, now) =>
      (match FactPromotion.Plan(g, freshId, now).1 case Some(f) => [f] case None => [])
    case Review(batch) => WrittenByReview(k, lx, batch)
  }

  function Written(k: Kernel, lx: Lexicon, ops: seq<Operation>): seq<FactRecord>
    decreases |ops|
  {
    if ops == [] then [] else WrittenBy(k, lx, ops[0]) + Written(Step(k, lx, ops[0]), lx, ops[1..])
  }

  lemma IndexOne(ix: Index, lx: Lexicon, f: FactRecord)
    ensures IndexAll(ix, lx, [f]) == IndexFact(ix, lx, f)
  {
    assert [f][1..] == [];
  }

  lemma {:induction false} ReviewIndexes(k: Kernel, lx: Lexicon, batch: seq<Arrival>)
    ensures ReviewAll(k, lx, batch).0.index == IndexAll(k.index, lx, WrittenByReview(k, lx, batch))
    decreases |batch|
  {
    if batch != [] {
      var (k', d) := ReviewOne(k, lx, batch[0]);
      var rest := WrittenByReview(k', lx, batch[1..]);
      ReviewIndexes(k', lx, batch[1..]);
      if d.promoted.Some? {
        IndexOne(k.index, lx, d.promoted.value);
        IndexAllConcat(k.index, lx, [d.promoted.value], rest);
      } else {
        assert [] + rest == rest;
      }
    }
  }

  lemma StepIndexes(k: Kernel, lx: Lexicon, op: Operation)
    ensures Step(k, lx, op).index == IndexAll(k.index, lx, WrittenBy(k, lx, op))
  {
    match op
    case Upsert(f) => IndexOne(k.index, lx, f);
    case Ingest(_) =>
    case Grow(g, freshId, now) =>
      var planned := FactPromotion.Plan(g, freshId, now).1;
      if planned.Some? {
        IndexOne(k.index, lx, planned.value);
      }
    case Review(batch) => ReviewIndexes(k, lx, batch);
  }

  /** The index after a run is the index before it with the written facts indexed one after another. */
  lemma {:induction false} RunIndexes(k: Kernel, lx: Lexicon, ops: seq<Operation>)
    ensures Run(k, lx, ops).index == IndexAll(k.index, lx, Written(k, lx, ops))
    decreases |ops|
  {
    if ops != [] {
      var k' := Step(k, lx, ops[0]);
      StepIndexes(k, lx, ops[0]);
      RunIndexes(k', lx, ops[1..]);
      IndexAllConcat(k.index, lx, WrittenBy(k, lx, ops[0]), Written(k', lx, ops[1..]));
    }
  }

  /** Over a run the index stays exact at every write if and only if every write is of a new id or covers the version it
      replaces; then recall returns the best matches of a scan of every stored fact. */
  lemma RecallIsScan(k: Kernel, lx: Lexicon, ops: seq<Operation>, query: string, limit: nat)
    requires Indexed(k, lx) && Exact(k.index, lx)
    ensures ExactThroughout(k.index, lx, Written(k, lx, ops)) <==> CoverStored(k.index, lx, Written(k, lx, ops))
    ensures CoverStored(k.index, lx, Written(k, lx, ops)) ==>
              var k' := Run(k, lx, ops);
              && FactSearch.IsTop(FactSearch.Search(k'.index, lx, query, limit), FactSearch.Limit(limit), FactSearch.Matches(k'.facts, lx, query))
              && FactRanking.Ranked(FactSearch.Search(k'.index, lx, query, limit), k'.facts, FactRanking.WorthOf(k'.facts, lx, query), limit)
  {
    ThroughoutExactly(k.index, lx, Written(k, lx, ops));
    RunIndexes(k, lx, ops);
    RunKeepsIndexed(k, lx, ops);
    if CoverStored(k.index, lx, Written(k, lx, ops)) {
      FactSearch.SearchIsScan(Run(k, lx, ops).index, lx, query, limit);
      FactRanking.SearchRanks(Run(k, lx, ops).index, lx, query, limit);
    }
  }

  // ---- What review and promotion keep ----

  ghost predicate AllGrounded(facts: map<string, FactRecord>) {
    forall id :: id in facts ==> FactPromotion.Grounded(facts[id])
  }

  /** Facts outside every scope come from promotion, so they are confident. */
  ghost predicate UnscopedConfident(facts: map<string, FactRecord>) {
    forall id :: id in facts && facts[id].scopeKey.None? ==> FactPromotion.Confident(facts[id].confidence)
  }

  ghost predicate Sound(facts: map<string, FactRecord>, lx: Lexicon) {
    FactReview.Unique(facts, lx) && AllGrounded(facts) && UnscopedConfident(facts)
  }

  lemma GrowKeepsSound(k: Kernel, lx: Lexicon, g: FactPromotion.Growth, freshId: string, now: int)
    requires Sound(k.facts, lx)
    ensures Sound(GrowWith(k, lx, g, freshId, now).facts, lx)
  {
    var planned := FactPromotion.Plan(g, freshId, now).1;
    if planned.Some? {
      FactPromotion.PlanExactly(g, freshId, now);
      FactReview.UpsertKeepsUniqueExactly(k.facts, lx, planned.value);
    }
  }

  lemma StoredIsSound(facts: map<string, FactRecord>, lx: Lexicon, f: FactRecord)
    requires Sound(facts, lx) && FactPromotion.Grounded(f) && f.scopeKey.Some?
    requires forall id :: id in facts ==> !FactReview.Clash(lx, f, facts[id])
    ensures Sound(facts[f.id := f], lx)
  {
    FactReview.UpsertKeepsUniqueExactly(facts, lx, f);
  }

  lemma ReviewOneKeepsSound(k: Kernel, lx: Lexicon, a: Arrival)
    requires Sound(k.facts, lx)
    ensures Sound(ReviewOne(k, lx, a).0.facts, lx)
  {
    SettledExactly(k, lx, a);
    if !Settled(k.facts, lx, a) {
      UnsettledIsStored(k, lx, a);
      StoredIsSound(k.facts, lx, FactReview.FactOf(a.candidate, a.now));
    }
  }

  lemma {:induction false} ReviewKeepsSound(k: Kernel, lx: Lexicon, batch: seq<Arrival>)
    requires Sound(k.facts, lx)
    ensures Sound(ReviewAll(k, lx, batch).0.facts, lx)
    decreases |batch|
  {
    if batch != [] {
      ReviewOneKeepsSound(k, lx, batch[0]);
      ReviewKeepsSound(ReviewOne(k, lx, batch[0]).0, lx, batch[1..]);
    }
  }

  /** Over every run of reviews, promotions and evidence: active facts stay unique in their place, every fact is
      grounded in evidence or policy, and every fact outside a scope is confident. */
  lemma {:induction false} RunKeepsSound(k: Kernel, lx: Lexicon, ops: seq<Operation>)
    requires Sound(k.facts, lx) && forall i :: 0 <= i < |ops| ==> !ops[i].Upsert?
    ensures Sound(Run(k, lx, ops).facts, lx)
    decreases |ops|
  {
    if ops != [] {
      match ops[0] {
        case Ingest(_) =>
        case Grow(g, freshId, now) => GrowKeepsSound(k, lx, g, freshId, now);
        case Review(batch) => ReviewKeepsSound(k, lx, batch);
      }
      RunKeepsSound(Step(k, lx, ops[0]), lx, ops[1..]);
    }
  }

  /** In a sound store two active facts of one type and scope have different statements, and there are no two when the
      type begins with "matrix."; whatever is stored was observed or inferred with evidence, or is a lesson about policy
      at 7000 or more; and whatever has no scope is at 7000 or more. */
  lemma SoundMeans(facts: map<string, FactRecord>, lx: Lexicon)
    requires Sound(facts, lx)
    ensures forall a, b :: a in facts && b in facts && a != b && facts[a].status == "active" && facts[b].status == "active"
                           && facts[a].factType == facts[b].factType && facts[a].scopeKey.Some? && facts[a].scopeKey == facts[b].scopeKey ==>
                             !("matrix." <= facts[a].factType) && lx.normal(facts[a].statement) != lx.normal(facts[b].statement)
    ensures forall id :: id in facts ==>
              && (facts[id].reality == Observed || facts[id].reality == Inferred)
              && (facts[id].evidence == [] ==>
                    facts[id].reality == Inferred && facts[id].factType == "policy_learning"
                    && facts[id].confidence.Some? && facts[id].confidence.value >= 7000)
              && (facts[id].scopeKey.None? ==> facts[id].confidence.Some? && facts[id].confidence.value >= 7000)
  {
    forall a, b | a in facts && b in facts && a != b && facts[a].status == "active" && facts[b].status == "active"
                  && facts[a].factType == facts[b].factType && facts[a].scopeKey.Some? && facts[a].scopeKey == facts[b].scopeKey
      ensures !("matrix." <= facts[a].factType) && lx.normal(facts[a].statement) != lx.normal(facts[b].statement) {
      assert !FactReview.Clash(lx, facts[a], facts[b]);
    }
  }

  // ---- Batches ----

  /** Every candidate of a batch gets one decision, in its place. */
  lemma {:induction false} OneDecisionEach(k: Kernel, lx: Lexicon, batch: seq<Arrival>)
    ensures |ReviewAll(k, lx, batch).1| == |batch|
    ensures forall i :: 0 <= i < |batch| ==> ReviewAll(k, lx, batch).1[i].candidate == batch[i].candidate
    decreases |batch|
  {
    if batch != [] {
      OneDecisionEach(ReviewOne(k, lx, batch[0]).0, lx, batch[1..]);
    }
  }

  /** The candidate cannot be promoted, and no further fact can change that. */
  ghost predicate Settled(facts: map<string, FactRecord>, lx: Lexicon, a: Arrival) {
    !FactReview.Admissible(a.candidate)
    || exists id :: id in facts && FactReview.Clash(lx, FactReview.FactOf(a.candidate, a.now), facts[id])
  }

  ghost predicate Extends(facts: map<string, FactRecord>, more: map<string, FactRecord>) {
    forall id :: id in facts ==> id in more && more[id] == facts[id]
  }

  lemma SettledStays(facts: map<string, FactRecord>, more: map<string, FactRecord>, lx: Lexicon, a: Arrival)
    requires Extends(facts, more) && Settled(facts, lx, a)
    ensures Settled(more, lx, a)
  {
    var f := FactReview.FactOf(a.candidate, a.now);
    if FactReview.Admissible(a.candidate) {
      var id :| id in facts && FactReview.Clash(lx, f, facts[id]);
      assert id in more && FactReview.Clash(lx, f, more[id]);
    }
  }

  function FactId(a: Arrival): string { "candidate:" + a.candidate.id }

  ghost predicate FreshIds(facts: map<string, FactRecord>, batch: seq<Arrival>) {
    && (forall i :: 0 <= i < |batch| ==> FactId(batch[i]) !in facts)
    && (forall i, j :: 0 <= i < j < |batch| ==> FactId(batch[i]) != FactId(batch[j]))
  }

  lemma ReviewOneSettles(k: Kernel, lx: Lexicon, a: Arrival)
    requires FactId(a) !in k.facts
    ensures var k' := ReviewOne(k, lx, a).0;
            Extends(k.facts, k'.facts) && Settled(k'.facts, lx, a) && k'.facts.Keys <= k.facts.Keys + {FactId(a)}
  {
    SettledExactly(k, lx, a);
    if !Settled(k.facts, lx, a) {
      UnsettledIsStored(k, lx, a);
      var f := FactReview.FactOf(a.candidate, a.now);
      OwnFactSettles(k.facts[FactId(a) := f], lx, a);
    }
  }

  lemma OwnFactSettles(facts: map<string, FactRecord>, lx: Lexicon, a: Arrival)
    requires FactId(a) in facts && facts[FactId(a)] == FactReview.FactOf(a.candidate, a.now)
    ensures Settled(facts, lx, a)
  {
    var f := FactReview.FactOf(a.candidate, a.now);
    assert FactReview.Clash(lx, f, f);
  }

  lemma {:induction false} ReviewSettles(k: Kernel, lx: Lexicon, batch: seq<Arrival>)
    requires FreshIds(k.facts, batch)
    ensures Extends(k.facts, ReviewAll(k, lx, batch).0.facts)
    ensures forall i :: 0 <= i < |batch| ==> Settled(ReviewAll(k, lx, batch).0.facts, lx, batch[i])
    decreases |batch|
  {
    if batch != [] {
      var k' := ReviewOne(k, lx, batch[0]).0;
      var rest := batch[1..];
      ReviewOneSettles(k, lx, batch[0]);
      assert forall i :: 0 <= i < |rest| ==> rest[i] == batch[i + 1];
      ReviewSettles(k', lx, rest);
      SettledStays(k'.facts, ReviewAll(k', lx, rest).0.facts, lx, batch[0]);
    }
  }

  ghost predicate PromotesNothing(decisions: seq<FactReview.Decision>) {
    forall i :: 0 <= i < |decisions| ==> decisions[i].kind != FactReview.Promote
  }

  lemma SettledExactly(k: Kernel, lx: Lexicon, a: Arrival)
    ensures ReviewOne(k, lx, a).1.kind == FactReview.Promote <==> !Settled(k.facts, lx, a)
    ensures Settled(k.facts, lx, a) ==> ReviewOne(k, lx, a).0 == k
  {
    FactReview.PromotedExactly(k.facts, lx, a.candidate, a.now);
    FactReview.DecisionExactly(k.facts, lx, a.candidate, a.now);
  }

  lemma PromotesNothingCons(d: FactReview.Decision, rest: seq<FactReview.Decision>)
    ensures PromotesNothing([d] + rest) <==> d.kind != FactReview.Promote && PromotesNothing(rest)
  {
    var all := [d] + rest;
    assert all[0] == d;
    forall i | 0 <= i < |rest| ensures all[i + 1] == rest[i] {
    }
    if PromotesNothing(all) {
      forall i | 0 <= i < |rest| ensures rest[i].kind != FactReview.Promote {
        assert all[i + 1].kind != FactReview.Promote;
      }
    }
  }

  /** A review promotes nothing if and only if every candidate is settled before it, and then it changes nothing. */
  lemma {:induction false} PromotesNothingExactly(k: Kernel, lx: Lexicon, batch: seq<Arrival>)
    ensures PromotesNothing(ReviewAll(k, lx, batch).1) <==> forall i :: 0 <= i < |batch| ==> Settled(k.facts, lx, batch[i])
    ensures PromotesNothing(ReviewAll(k, lx, batch).1) ==> ReviewAll(k, lx, batch).0 == k
    decreases |batch|
  {
    if batch != [] {
      var (k', d) := ReviewOne(k, lx, batch[0]);
      var rest := ReviewAll(k', lx, batch[1..]).1;
      SettledExactly(k, lx, batch[0]);
      PromotesNothingExactly(k', lx, batch[1..]);
      assert ReviewAll(k, lx, batch).1 == [d] + rest;
      PromotesNothingCons(d, rest);
      assert forall i :: 0 < i < |batch| ==> batch[i] == batch[1..][i - 1];
    }
  }

  /** Reviewing a batch a second time promotes nothing if and only if the first review left every candidate settled;
      then the second review changes nothing. */
  lemma RepeatedReviewExactly(k: Kernel, lx: Lexicon, batch: seq<Arrival>)
    ensures var k' := ReviewAll(k, lx, batch).0;
            && (PromotesNothing(ReviewAll(k', lx, batch).1) <==> forall i :: 0 <= i < |batch| ==> Settled(k'.facts, lx, batch[i]))
            && (PromotesNothing(ReviewAll(k', lx, batch).1) ==> ReviewAll(k', lx, batch).0 == k')
  {
    PromotesNothingExactly(ReviewAll(k, lx, batch).0, lx, batch);
  }

  /** In particular reviewing is idempotent on candidates whose ids are distinct and new to the store. */
  lemma ReviewIsIdempotent(k: Kernel, lx: Lexicon, batch: seq<Arrival>)
    requires FreshIds(k.facts, batch)
    ensures var k' := ReviewAll(k, lx, batch).0;
            ReviewAll(k', lx, batch).0 == k' && PromotesNothing(ReviewAll(k', lx, batch).1)
  {
    ReviewSettles(k, lx, batch);
    RepeatedReviewExactly(k, lx, batch);
  }

  lemma UnsettledIsStored(k: Kernel, lx: Lexicon, a: Arrival)
    requires !Settled(k.facts, lx, a)
    ensures ReviewOne(k, lx, a).0.facts == k.facts[FactId(a) := FactReview.FactOf(a.candidate, a.now)]
  {
    SettledExactly(k, lx, a);
    FactReview.DecisionExactly(k.facts, lx, a.candidate, a.now);
  }

  lemma ReviewTwo(k: Kernel, lx: Lexicon, a: Arrival, b: Arrival)
    ensures var one := ReviewOne(k, lx, a);
            var two := ReviewOne(one.0, lx, b);
            ReviewAll(k, lx, [a, b]).0 == two.0 && ReviewAll(k, lx, [a, b]).1[0] == one.1
  {
    var k' := ReviewOne(k, lx, a).0;
    assert [a, b][1..] == [b] && [b][1..] == [];
    assert ReviewAll(k', lx, [b]).0 == ReviewOne(k', lx, b).0;
  }

  /** Otherwise it need not be: two admissible candidates under one id that do not clash overwrite each other, and the
      first is promoted again by the second review. */
  lemma SharedIdPromotesAgain(k: Kernel, lx: Lexicon, a: Arrival, b: Arrival)
    requires k.facts == map[] && a.candidate.id == b.candidate.id
    requires FactReview.Admissible(a.candidate) && FactReview.Admissible(b.candidate)
    requires !FactReview.Clash(lx, FactReview.FactOf(a.candidate, a.now), FactReview.FactOf(b.candidate, b.now))
    ensures ReviewAll(ReviewAll(k, lx, [a, b]).0, lx, [a, b]).1[0].kind == FactReview.Promote
  {
    var k1 := ReviewOne(k, lx, a).0;
    var k2 := ReviewOne(k1, lx, b).0;
    SharedIdUnsettled(k, lx, a, b, k1, k2);
    SettledExactly(k2, lx, a);
    ReviewTwo(k, lx, a, b);
    ReviewTwo(k2, lx, a, b);
  }

  lemma AloneUnsettled(facts: map<string, FactRecord>, id: string, g: FactRecord, lx: Lexicon, a: Arrival)
    requires facts == map[id := g] && FactReview.Admissible(a.candidate)
    requires !FactReview.Clash(lx, FactReview.FactOf(a.candidate, a.now), g)
    ensures !Settled(facts, lx, a)
  {
  }

  lemma StoredAlone(k: Kernel, lx: Lexicon, a: Arrival)
    requires !Settled(k.facts, lx, a) && k.facts.Keys <= {FactId(a)}
    ensures ReviewOne(k, lx, a).0.facts == map[FactId(a) := FactReview.FactOf(a.candidate, a.now)]
  {
    UnsettledIsStored(k, lx, a);
  }

  lemma SharedIdUnsettled(k: Kernel, lx: Lexicon, a: Arrival, b: Arrival, k1: Kernel, k2: Kernel)
    requires k.facts == map[] && a.candidate.id == b.candidate.id
    requires FactReview.Admissible(a.candidate) && FactReview.Admissible(b.candidate)
    requires !FactReview.Clash(lx, FactReview.FactOf(a.candidate, a.now), FactReview.FactOf(b.candidate, b.now))
    requires k1 == ReviewOne(k, lx, a).0 && k2 == ReviewOne(k1, lx, b).0
    ensures !Settled(k2.facts, lx, a)
  {
    var f, g := FactReview.FactOf(a.candidate, a.now), FactReview.FactOf(b.candidate, b.now);
    StoredAlone(k, lx, a);
    AloneUnsettled(k1.facts, FactId(a), f, lx, b);
    StoredAlone(k1, lx, b);
    AloneUnsettled(k2.facts, FactId(a), g, lx, a);
  }

  /** Such a batch: two notes under one id. */
  lemma SharedIdWitness() returns (lx: Lexicon, a: Arrival, b: Arrival)
    ensures FactId(a) == FactId(b)
    ensures var k := Kernel(map[], EMPTY, {}); ReviewAll(ReviewAll(k, lx, [a, b]).0, lx, [a, b]).1[0].kind == FactReview.Promote
  {
    lx := Lexicon((s: string) => [s], (s: string) => s, (s: string) => s, (s: string) => s);
    var x := FactReview.Candidate("1", "note", "x", FactReview.Global, Observed, ["e"], None, []);
    a, b := Arrival(x, 0), Arrival(x.(statement := "y"), 0);
    assert lx.normal("x")[0] != lx.normal("y")[0];
    SharedIdPromotesAgain(Kernel(map[], EMPTY, {}), lx, a, b);
  }

  /** In a sound store only reviewed facts can be reported for their confidence. */
  lemma OnlyReviewedLackConfidence(facts: map<string, FactRecord>, lx: Lexicon, listed: seq<FactRecord>, evidence: set<string>, issue: FactHealth.Issue)
    requires Keyed(facts) && Sound(facts, lx) && (forall f :: f in listed ==> f.id in facts && facts[f.id] == f)
    requires issue.UnknownConfidence? || issue.LowConfidence?
    ensures issue in FactHealth.IssuesOf(listed, evidence) ==> issue.id in facts && facts[issue.id].scopeKey.Some?
  {
    FactHealth.IssuesExactly(listed, evidence, issue);
  }

  /** Observed with evidence, or an inferred lesson about policy; confident in either case. */
  ghost predicate Earned(f: FactRecord) {
    f.confidence.Some? && f.confidence.value >= 7000
    && ((f.reality == Observed && f.evidence != []) || (f.reality == Inferred && f.factType == "policy_learning"))
  }

  ghost predicate AllEarned(facts: map<string, FactRecord>) {
    forall id :: id in facts ==> Earned(facts[id])
  }

  lemma GrowKeepsEarned(k: Kernel, lx: Lexicon, g: FactPromotion.Growth, freshId: string, now: int)
    requires AllEarned(k.facts)
    ensures AllEarned(GrowWith(k, lx, g, freshId, now).facts)
  {
    var planned := FactPromotion.Plan(g, freshId, now).1;
    if planned.Some? {
      FactPromotion.PlanExactly(g, freshId, now);
      assert Earned(planned.value);
    }
  }

  /** Whatever is promoted, every fact that a run of promotions stores is earned. */
  lemma {:induction false} PromotionsKeepEarned(k: Kernel, lx: Lexicon, ops: seq<Operation>)
    requires AllEarned(k.facts) && forall i :: 0 <= i < |ops| ==> ops[i].Grow? || ops[i].Ingest?
    ensures AllEarned(Run(k, lx, ops).facts)
    decreases |ops|
  {
    if ops != [] {
      match ops[0] {
        case Grow(g, freshId, now) => GrowKeepsEarned(k, lx, g, freshId, now);
        case Ingest(_) =>
      }
      PromotionsKeepEarned(Step(k, lx, ops[0]), lx, ops[1..]);
    }
  }

  /** So after promotions alone the health report never complains of confidence. */
  lemma EarnedNeverLackConfidence(facts: map<string, FactRecord>, listed: seq<FactRecord>, evidence: set<string>, issue: FactHealth.Issue)
    requires AllEarned(facts) && (forall f :: f in listed ==> f.id in facts && facts[f.id] == f)
    requires issue.UnknownConfidence? || issue.LowConfidence?
    ensures issue !in FactHealth.IssuesOf(listed, evidence)
  {
    FactHealth.IssuesExactly(listed, evidence, issue);
  }
}
