/** The kernel service and its review receipts as objects that are updated in place. */
module FactService {
  import opened Common
  import opened Order
  import opened FactRecords
  import FS = FactSearch
  import FR = FactReview
  import FK = FactKernel
  import FactHealth
  import FactIndexer
  import FactPromotion

  datatype Dispute = Dispute(candidateId: string, factId: string, reason: string)

  /** The first relation of a decision that names a conflict. */
  function FirstConflict(relations: seq<FR.Relation>): Option<FR.Relation> {
    if relations == [] then None
    else if relations[0].kind == FR.ConflictsWith then Some(relations[0]) else FirstConflict(relations[1..])
  }

  function DisputeOf(d: FR.Decision): Option<Dispute> {
    match FirstConflict(d.relations)
    case None => None
    case Some(r) => Some(Dispute(d.candidate.id, r.target, r.reason))
  }

  function Disputes(decisions: seq<FR.Decision>): seq<Dispute> {
    if decisions == [] then []
    else Disputes(decisions[..|decisions| - 1])
         + match DisputeOf(decisions[|decisions| - 1]) { case None => [] case Some(x) => [x] }
  }

  function OfKinds(decisions: seq<FR.Decision>, kinds: set<FR.DecisionKind>): seq<FR.Decision> {
    if decisions == [] then []
    else
      var last := decisions[|decisions| - 1];
      OfKinds(decisions[..|decisions| - 1], kinds) + if last.kind in kinds then [last] else []
  }

  lemma OfKindsPushed(decisions: seq<FR.Decision>, d: FR.Decision, kinds: set<FR.DecisionKind>)
    ensures OfKinds(decisions + [d], kinds) == With(OfKinds(decisions, kinds), d, d.kind in kinds)
  {
    assert (decisions + [d])[..|decisions|] == decisions;
  }

  /** What one more decision adds to the three lists. */
  lemma KindsPushed(decisions: seq<FR.Decision>, d: FR.Decision)
    ensures OfKinds(decisions + [d], {FR.Promote}) == With(OfKinds(decisions, {FR.Promote}), d, d.kind == FR.Promote)
    ensures OfKinds(decisions + [d], {FR.Hold, FR.Contested})
            == With(OfKinds(decisions, {FR.Hold, FR.Contested}), d, d.kind == FR.Hold || d.kind == FR.Contested)
    ensures OfKinds(decisions + [d], {FR.Reject}) == With(OfKinds(decisions, {FR.Reject}), d, d.kind == FR.Reject)
  {
    assert d.kind in {FR.Hold, FR.Contested} <==> d.kind == FR.Hold || d.kind == FR.Contested;
    OfKindsPushed(decisions, d, {FR.Promote});
    OfKindsPushed(decisions, d, {FR.Hold, FR.Contested});
    OfKindsPushed(decisions, d, {FR.Reject});
  }

  function With(list: seq<FR.Decision>, d: FR.Decision, more: bool): seq<FR.Decision> { if more then list + [d] else list }

  lemma DisputesPushed(decisions: seq<FR.Decision>, d: FR.Decision)
    ensures Disputes(decisions + [d]) == Disputes(decisions) + match DisputeOf(d) { case None => [] case Some(x) => [x] }
  {
    assert (decisions + [d])[..|decisions|] == decisions;
  }

  /** A decision disputes a stored fact exactly when it is contested, and it names the first rival of the store. */
  lemma DisputedExactly(facts: map<string, FactRecord>, lx: Lexicon, c: FR.Candidate, now: int)
    ensures DisputeOf(FR.Decide(facts, lx, c, now)).Some? <==> FR.Decide(facts, lx, c, now).kind == FR.Contested
    ensures FR.Decide(facts, lx, c, now).kind == FR.Contested ==>
              FR.FindRival(facts, lx, c).Some?
              && DisputeOf(FR.Decide(facts, lx, c, now)).value == Dispute(c.id, FR.FindRival(facts, lx, c).value, FR.CONFLICT_REASON)
  {
    DisputedOn(c, now, FR.FindDuplicate(facts, lx, c), FR.FindRival(facts, lx, c));
  }

  lemma DisputedOn(c: FR.Candidate, now: int, duplicate: Option<string>, rival: Option<string>)
    ensures var d := FR.DecideOn(c, now, duplicate, rival);
            && (DisputeOf(d).Some? <==> d.kind == FR.Contested)
            && (d.kind == FR.Contested ==> rival.Some? && DisputeOf(d).value == Dispute(c.id, rival.value, FR.CONFLICT_REASON))
  {
    var d := FR.DecideOn(c, now, duplicate, rival);
    if d.relations != [] {
      FirstConflictOfOne(d.relations[0]);
      assert d.relations == [d.relations[0]];
    }
  }

  lemma FirstConflictOfOne(r: FR.Relation)
    ensures FirstConflict([r]) == if r.kind == FR.ConflictsWith then Some(r) else None
  {
    assert [r][1..] == [];
  }

  /** Exactly the contested decisions dispute a fact, each in the name of its own candidate. */
  ghost predicate DisputesFit(decisions: seq<FR.Decision>) {
    forall i :: 0 <= i < |decisions| ==> FitsDispute(decisions[i])
  }

  ghost predicate FitsDispute(d: FR.Decision) {
    (DisputeOf(d).Some? <==> d.kind == FR.Contested) && (DisputeOf(d).Some? ==> DisputeOf(d).value.candidateId == d.candidate.id)
  }

  lemma DecideFits(facts: map<string, FactRecord>, lx: Lexicon, c: FR.Candidate, now: int)
    ensures FitsDispute(FR.Decide(facts, lx, c, now))
  {
    DisputedExactly(facts, lx, c, now);
  }

  lemma {:induction false} ReviewFits(k: FK.Kernel, lx: Lexicon, batch: seq<FK.Arrival>)
    ensures DisputesFit(FK.ReviewAll(k, lx, batch).1)
    decreases |batch|
  {
    if batch != [] {
      ReviewFirst(k, lx, batch);
      var (k', d) := FK.ReviewOne(k, lx, batch[0]);
      DecideFits(k.facts, lx, batch[0].candidate, batch[0].now);
      ReviewFits(k', lx, batch[1..]);
    }
  }

  /** One dispute per contested decision, in the same order and of the same candidates. */
  ghost predicate OneEach(disputes: seq<Dispute>, contested: seq<FR.Decision>) {
    |disputes| == |contested| && forall i :: 0 <= i < |disputes| ==> disputes[i].candidateId == contested[i].candidate.id
  }

  lemma {:induction false} FittingDisputes(decisions: seq<FR.Decision>)
    requires DisputesFit(decisions)
    ensures OneEach(Disputes(decisions), OfKinds(decisions, {FR.Contested}))
  {
    if decisions != [] {
      var n := |decisions| - 1;
      FittingDisputes(decisions[..n]);
      assert FitsDispute(decisions[n]);
    }
  }

  /** The conflict entries of a reviewed batch are one per contested candidate, in batch order. */
  lemma OneDisputeEach(k: FK.Kernel, lx: Lexicon, batch: seq<FK.Arrival>)
    ensures var decisions := FK.ReviewAll(k, lx, batch).1;
            OneEach(Disputes(decisions), OfKinds(decisions, {FR.Contested}))
  {
    ReviewFits(k, lx, batch);
    FittingDisputes(FK.ReviewAll(k, lx, batch).1);
  }

  /** The three lists of a receipt share out the decisions. */
  lemma {:induction false} ListsShareOut(decisions: seq<FR.Decision>)
    ensures multiset(OfKinds(decisions, {FR.Promote})) + multiset(OfKinds(decisions, {FR.Hold, FR.Contested}))
            + multiset(OfKinds(decisions, {FR.Reject})) == multiset(decisions)
  {
    if decisions != [] {
      var n := |decisions| - 1;
      var init, d := decisions[..n], decisions[n];
      ListsShareOut(init);
      assert decisions == init + [d];
      KindsPushed(init, d);
      ShareOutOne(OfKinds(init, {FR.Promote}), OfKinds(init, {FR.Hold, FR.Contested}), OfKinds(init, {FR.Reject}), d, init);
    }
  }

  lemma ShareOutOne(p: seq<FR.Decision>, h: seq<FR.Decision>, r: seq<FR.Decision>, d: FR.Decision, all: seq<FR.Decision>)
    requires multiset(p) + multiset(h) + multiset(r) == multiset(all)
    ensures multiset(With(p, d, d.kind == FR.Promote)) + multiset(With(h, d, d.kind == FR.Hold || d.kind == FR.Contested))
            + multiset(With(r, d, d.kind == FR.Reject)) == multiset(all + [d])
  {
  }

  class FactReviewReceipt {
    var promoted: seq<FR.Decision>
    var held: seq<FR.Decision>
    var rejected: seq<FR.Decision>
    var conflicts: seq<Dispute>
    var decisions: seq<FR.Decision>

    /** The lists are the decisions of their kinds, in order; contested candidates are held. */
    ghost predicate Valid()
      reads this
    {
      && promoted == OfKinds(decisions, {FR.Promote})
      && held == OfKinds(decisions, {FR.Hold, FR.Contested})
      && rejected == OfKinds(decisions, {FR.Reject})
      && conflicts == Disputes(decisions)
    }

    constructor ()
      ensures Valid() && decisions == []
    {
      promoted, held, rejected, conflicts, decisions := [], [], [], [], [];
    }

    method PushDecision(d: FR.Decision)
      requires Valid()
      modifies this
      ensures Valid() && decisions == old(decisions) + [d]
    {
      DisputesPushed(decisions, d);
      KindsPushed(decisions, d);
      match DisputeOf(d) {
        case None =>
        case Some(x) => conflicts := conflicts + [x];
      }
      match d.kind {
        case Promote => promoted := promoted + [d];
        case Hold => held := held + [d];
        case Reject => rejected := rejected + [d];
        case Contested => held := held + [d];
      }
      decisions := decisions + [d];
    }
  }

  lemma ReviewFirst(k: FK.Kernel, lx: Lexicon, batch: seq<FK.Arrival>)
    requires batch != []
    ensures var one := FK.ReviewOne(k, lx, batch[0]);
            FK.ReviewAll(k, lx, batch) == (FK.ReviewAll(one.0, lx, batch[1..]).0, [one.1] + FK.ReviewAll(one.0, lx, batch[1..]).1)
  {
  }

  lemma {:induction false} ReviewNext(k: FK.Kernel, lx: Lexicon, batch: seq<FK.Arrival>, i: nat)
    requires i < |batch|
    ensures var before := FK.ReviewAll(k, lx, batch[..i]);
            var one := FK.ReviewOne(before.0, lx, batch[i]);
            FK.ReviewAll(k, lx, batch[..i + 1]) == (one.0, before.1 + [one.1])
    decreases i
  {
    ReviewFirst(k, lx, batch[..i + 1]);
    if i == 0 {
      assert batch[..1][1..] == [] && batch[..0] == [];
      var (k', d) := FK.ReviewOne(k, lx, batch[0]);
      assert [d] + [] == [] + [d];
      assert FK.ReviewAll(k, lx, []) == (k, []) && FK.ReviewAll(k', lx, []) == (k', []);
    } else {
      assert batch[..i + 1][1..] == batch[1..][..i] && batch[..i][1..] == batch[1..][..i - 1];
      var (k', d) := FK.ReviewOne(k, lx, batch[0]);
      ReviewNext(k', lx, batch[1..], i - 1);
      var middle := FK.ReviewAll(k', lx, batch[1..][..i - 1]);
      var one := FK.ReviewOne(middle.0, lx, batch[i]);
      assert FK.ReviewAll(k, lx, batch[..i]) == (middle.0, [d] + middle.1) by {
        ReviewFirst(k, lx, batch[..i]);
      }
      assert [d] + (middle.1 + [one.1]) == ([d] + middle.1) + [one.1];
    }
  }

  class FactKernelService {
    var store: map<string, FactRecord>
    var evidence: set<string>
    const index: FactIndexer.FactIndex

    function Model(): FK.Kernel
      reads this, index
    {
      FK.Kernel(store, index.Model(), evidence)
    }

    /** Opens the service over an existing store and rebuilds the index from its listing. */
    constructor (lx: Lexicon, facts: map<string, FactRecord>, packets: set<string>)
      ensures Model() == FK.Start(facts, packets, lx) && fresh(index)
    {
      store, evidence := facts, packets;
      index := new FactIndexer.FactIndex();
      new;
      index.Rebuild(lx, FS.FactsAt(Sorted(facts.Keys), facts));
    }

    method UpsertFact(lx: Lexicon, f: FactRecord)
      modifies this, index
      ensures Model() == FK.Store(old(Model()), lx, f)
    {
      store := store[f.id := f];
      index.IndexFact(lx, f);
    }

    method PromoteCandidate(lx: Lexicon, g: FactPromotion.Growth, freshId: string, now: int)
      returns (verdict: FactPromotion.Verdict, fact: Option<FactRecord>)
      modifies this, index
      ensures (verdict, fact) == FactPromotion.Plan(g, freshId, now)
      ensures Model() == FK.GrowWith(old(Model()), lx, g, freshId, now)
    {
      verdict, fact := FactPromotion.Plan(g, freshId, now).0, FactPromotion.Plan(g, freshId, now).1;
      if fact.Some? {
        UpsertFact(lx, fact.value);
      }
    }

    method ReviewSingle(lx: Lexicon, a: FK.Arrival) returns (d: FR.Decision)
      modifies this, index
      ensures (Model(), d) == FK.ReviewOne(old(Model()), lx, a)
    {
      d := FR.Decide(store, lx, a.candidate, a.now);
      if d.promoted.Some? {
        UpsertFact(lx, d.promoted.value);
      }
    }

    method ReviewCandidates(lx: Lexicon, batch: seq<FK.Arrival>) returns (receipt: FactReviewReceipt)
      modifies this, index
      ensures fresh(receipt) && receipt.Valid()
      ensures (Model(), receipt.decisions) == FK.ReviewAll(old(Model()), lx, batch)
    {
      ghost var start := Model();
      receipt := new FactReviewReceipt();
      for i := 0 to |batch|
        invariant fresh(receipt) && receipt.Valid()
        invariant (Model(), receipt.decisions) == FK.ReviewAll(start, lx, batch[..i])
      {
        ReviewNext(start, lx, batch, i);
        var d := ReviewSingle(lx, batch[i]);
        receipt.PushDecision(d);
      }
      assert batch[..|batch|] == batch;
    }

    method EvaluateHealth() returns (issues: seq<FactHealth.Issue>)
      ensures FactHealth.IsReport(issues, FS.FactsAt(Sorted(store.Keys), store), evidence)
    {
      issues := FactHealth.Evaluate(FS.FactsAt(Sorted(store.Keys), store), evidence);
    }
  }
}
