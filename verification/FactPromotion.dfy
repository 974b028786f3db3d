/** Promotion of grown knowledge: the bridge's policy and the fact it leads to. */
module FactPromotion {
  import opened Common
  import opened FactRecords

  const PROMOTION_CONFIDENCE_FLOOR: nat := 7000

  datatype Growth =
    | Memory(summary: string, evidence: seq<string>, confidence: Option<nat>, reality: Reality, allowed: bool)
    | MatrixFact(id: string, entity: string, attribute: string, value: string,
                 evidence: seq<string>, confidence: Option<nat>, reality: Reality, allowed: bool)
    | PolicyLearning(summary: string, confidence: Option<nat>)

  datatype Verdict = Promoted | Held | Rejected

  predicate BelowFloor(confidence: Option<nat>) {
    confidence.None? || confidence.value < PROMOTION_CONFIDENCE_FLOOR
  }

  function Decide(g: Growth): Verdict {
    if !g.PolicyLearning? && !g.allowed then Rejected
    else if !g.PolicyLearning? && g.evidence == [] then Held
    else if BelowFloor(g.confidence) then Held
    else Promoted
  }

  /** The fact of a promoted candidate; knowledge that was not observed has none. */
  function FactFrom(g: Growth, freshId: string, now: int): Option<FactRecord> {
    match g
    case Memory(summary, evidence, confidence, reality, _) =>
      if reality != Observed then None
      else Some(FactRecord(freshId, "memory", summary, None, "active", reality, confidence, evidence, [], now))
    case MatrixFact(id, entity, attribute, value, evidence, confidence, reality, _) =>
      if reality != Observed then None
      else Some(FactRecord(id, "matrix." + attribute, entity + " " + attribute + " " + value, None, "active",
                           reality, confidence, evidence, [], now))
    case PolicyLearning(summary, confidence) =>
      Some(FactRecord(freshId, "policy_learning", summary, None, "active", Inferred, confidence, [], [], now))
  }

  function Plan(g: Growth, freshId: string, now: int): (Verdict, Option<FactRecord>) {
    (Decide(g), if Decide(g) == Promoted then FactFrom(g, freshId, now) else None)
  }

  /** Assessed, and at or above the floor. */
  predicate Confident(confidence: Option<nat>) {
    confidence.Some? && confidence.value >= PROMOTION_CONFIDENCE_FLOOR
  }

  /** A fact someone observed with evidence, or inferred with evidence, or a confident lesson about policy. */
  predicate Grounded(f: FactRecord) {
    || (f.reality == Observed && f.evidence != [])
    || (f.reality == Inferred && f.evidence != [])
    || (f.reality == Inferred && f.factType == "policy_learning" && Confident(f.confidence))
  }

  predicate Qualifies(g: Growth) {
    Confident(g.confidence) && (g.PolicyLearning? || (g.allowed && g.evidence != [] && g.reality == Observed))
  }

  /** A fact comes out exactly when the candidate qualifies, and it is grounded, confident and in no scope. */
  lemma PlanExactly(g: Growth, freshId: string, now: int)
    ensures Plan(g, freshId, now).1.Some? <==> Qualifies(g)
    ensures Plan(g, freshId, now).1.Some? ==>
              var f := Plan(g, freshId, now).1.value;
              Grounded(f) && Confident(f.confidence) && f.scopeKey.None? && f.confidence == g.confidence
  {
  }

  /** What kind of knowledge gives what fact, field by field; the verdict is to hold whatever lacks evidence or has less
      than 7000 confidence, and to reject what is not allowed. */
  lemma PlanReads(g: Growth, freshId: string, now: int)
    ensures var (verdict, fact) := Plan(g, freshId, now);
            && (verdict == Rejected <==> !g.PolicyLearning? && !g.allowed)
            && (verdict == Promoted <==> g.confidence.Some? && g.confidence.value >= 7000 && (g.PolicyLearning? || (g.allowed && g.evidence != [])))
            && (fact.Some? <==> verdict == Promoted && (g.PolicyLearning? || g.reality == Observed))
            && (fact.Some? ==>
                  && fact.value.status == "active" && fact.value.scopeKey == None && fact.value.relations == []
                  && fact.value.confidence == g.confidence && fact.value.updatedAt == now
                  && fact.value.id == (if g.MatrixFact? then g.id else freshId)
                  && fact.value.reality == (if g.PolicyLearning? then Inferred else Observed)
                  && fact.value.evidence == (if g.PolicyLearning? then [] else g.evidence)
                  && fact.value.factType == (match g case Memory(_, _, _, _, _) => "memory" case PolicyLearning(_, _) => "policy_learning"
                                             case MatrixFact(_, _, _, _, _, _, _, _) => "matrix." + g.attribute)
                  && fact.value.statement == if g.MatrixFact? then g.entity + " " + g.attribute + " " + g.value else g.summary)
  {
  }

  /** The verdict can be to promote without any fact coming out: exactly when a permitted, evidenced and
      confident memory or matrix fact was not observed. */
  lemma PromotedWithoutFact(g: Growth, freshId: string, now: int)
    ensures (Plan(g, freshId, now).0 == Promoted && Plan(g, freshId, now).1.None?)
            <==> !g.PolicyLearning? && g.allowed && g.evidence != [] && Confident(g.confidence) && g.reality != Observed
  {
  }
}
