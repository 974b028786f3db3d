/** Review of extracted fact candidates: which are promoted, held, rejected or in conflict,
    and the uniqueness that review maintains among active facts. */
module FactReview {
  import opened Common
  import opened Order
  import opened FactRecords

  datatype Scope = Global | Project(value: string) | Conversation(value: string) | Task(value: string)
                 | Team(value: string) | Agent(value: string)

  function Key(s: Scope): string {
    match s
    case Global => "global"
    case Project(v) => "project:" + v
    case Conversation(v) => "session:" + v
    case Task(v) => "task:" + v
    case Team(v) => "team:" + v
    case Agent(v) => "agent:" + v
  }

  datatype RelationKind = Supersedes | ConflictsWith | DerivedFrom | Duplicates

  datatype Relation = Relation(kind: RelationKind, target: string, reason: string)

  datatype Candidate = Candidate(
    id: string,
    factType: string,
    statement: string,
    scope: Scope,
    reality: Reality,
    evidence: seq<string>,
    confidence: Option<nat>,
    relations: seq<Relation>)

  datatype DecisionKind = Promote | Hold | Reject | Contested

  datatype Decision = Decision(candidate: Candidate, kind: DecisionKind, promoted: Option<FactRecord>, relations: seq<Relation>)

  /** Distinct scopes have distinct keys. */
  lemma KeyInjective(a: Scope, b: Scope)
    requires Key(a) == Key(b)
    ensures a == b
  {
    var k := Key(a);
    match a
    case Global => assert k[0] == 'g';
    case Project(v) => assert k[0] == 'p' && k[8..] == v;
    case Conversation(v) => assert k[0] == 's' && k[8..] == v;
    case Task(v) => assert k[1] == 'a' && k[5..] == v;
    case Team(v) => assert k[0] == 't' && k[1] == 'e' && k[5..] == v;
    case Agent(v) => assert k[0] == 'a' && k[6..] == v;
  }

  // ---- One candidate ----

  predicate RequiresUniqueStatement(factType: string) { "matrix." <= factType }

  predicate SamePlace(f: FactRecord, factType: string, scopeKey: string) {
    f.status == "active" && f.factType == factType && f.scopeKey == Some(scopeKey)
  }

  predicate IsDuplicate(lx: Lexicon, c: Candidate, f: FactRecord) {
    SamePlace(f, c.factType, Key(c.scope)) && lx.normal(f.statement) == lx.normal(c.statement)
  }

  predicate IsRival(lx: Lexicon, c: Candidate, f: FactRecord) {
    RequiresUniqueStatement(c.factType) && SamePlace(f, c.factType, Key(c.scope))
    && lx.normal(f.statement) != lx.normal(c.statement)
  }

  /** The first fact, in id order, that the predicate picks. */
  function First(ids: seq<string>, facts: map<string, FactRecord>, picks: FactRecord -> bool): (r: Option<string>)
    ensures r.Some? ==> r.value in ids && r.value in facts && picks(facts[r.value])
  {
    if ids == [] then None
    else if ids[0] in facts && picks(facts[ids[0]]) then Some(ids[0])
    else First(ids[1..], facts, picks)
  }

  lemma {:induction false} FirstExactly(ids: seq<string>, facts: map<string, FactRecord>, picks: FactRecord -> bool)
    requires Ascending(ids)
    ensures First(ids, facts, picks).None? ==> forall id :: id in ids && id in facts ==> !picks(facts[id])
    ensures First(ids, facts, picks).Some? ==>
              forall id :: id in ids && id in facts && picks(facts[id]) ==>
                id == First(ids, facts, picks).value || Less(First(ids, facts, picks).value, id)
  {
    if ids != [] {
      FirstExactly(ids[1..], facts, picks);
      assert forall id :: id in ids ==> id == ids[0] || id in ids[1..];
    }
  }

  function FindDuplicate(facts: map<string, FactRecord>, lx: Lexicon, c: Candidate): Option<string> {
    First(Sorted(facts.Keys), facts, f => IsDuplicate(lx, c, f))
  }

  function FindRival(facts: map<string, FactRecord>, lx: Lexicon, c: Candidate): Option<string> {
    First(Sorted(facts.Keys), facts, f => IsRival(lx, c, f))
  }

  function KindName(k: RelationKind): string {
    match k
    case Supersedes => "Supersedes"
    case ConflictsWith => "ConflictsWith"
    case DerivedFrom => "DerivedFrom"
    case Duplicates => "Duplicates"
  }

  function Rendered(relations: seq<Relation>): seq<string> {
    if relations == [] then []
    else [KindName(relations[0].kind) + ":" + relations[0].target + ":" + relations[0].reason] + Rendered(relations[1..])
  }

  function FactOf(c: Candidate, now: int): FactRecord {
    FactRecord("candidate:" + c.id, c.factType, c.statement, Some(Key(c.scope)), "active", c.reality,
               c.confidence, c.evidence, Rendered(c.relations), now)
  }

  const DUPLICATE_REASON := "candidate statement already exists in the same scope"
  const CONFLICT_REASON := "same fact type and scope but different statement"

  /** The decision, given the first duplicate and the first rival if there are any. */
  function DecideOn(c: Candidate, now: int, duplicate: Option<string>, rival: Option<string>): Decision {
    if c.evidence == [] then Decision(c, Hold, None, [])
    else if c.reality != Observed && c.reality != Inferred then Decision(c, Reject, None, [])
    else if duplicate.Some? then Decision(c, Hold, None, [Relation(Duplicates, duplicate.value, DUPLICATE_REASON)])
    else if rival.Some? then Decision(c, Contested, None, [Relation(ConflictsWith, rival.value, CONFLICT_REASON)])
    else Decision(c, Promote, Some(FactOf(c, now)), [])
  }

  function Decide(facts: map<string, FactRecord>, lx: Lexicon, c: Candidate, now: int): Decision {
    DecideOn(c, now, FindDuplicate(facts, lx, c), FindRival(facts, lx, c))
  }

  // ---- Uniqueness ----

  /** Two facts that review must not let stand side by side. */
  ghost predicate Clash(lx: Lexicon, f: FactRecord, g: FactRecord) {
    && f.status == "active" && g.status == "active"
    && f.factType == g.factType && f.scopeKey.Some? && f.scopeKey == g.scopeKey
    && (RequiresUniqueStatement(f.factType) || lx.normal(f.statement) == lx.normal(g.statement))
  }

  ghost predicate Unique(facts: map<string, FactRecord>, lx: Lexicon) {
    forall a, b :: a in facts && b in facts && a != b ==> !Clash(lx, facts[a], facts[b])
  }

  ghost predicate Admissible(c: Candidate) {
    c.evidence != [] && (c.reality == Observed || c.reality == Inferred)
  }

  ghost predicate Matched(facts: map<string, FactRecord>, picks: FactRecord -> bool) {
    exists id :: id in facts && picks(facts[id])
  }

  lemma FirstMatches(facts: map<string, FactRecord>, ids: seq<string>, picks: FactRecord -> bool)
    requires Ascending(ids) && forall id :: id in ids <==> id in facts
    ensures First(ids, facts, picks).Some? <==> Matched(facts, picks)
    ensures First(ids, facts, picks).Some? ==>
              forall id :: id in facts && picks(facts[id]) ==>
                id == First(ids, facts, picks).value || Less(First(ids, facts, picks).value, id)
  {
    FirstExactly(ids, facts, picks);
  }

  /** The four outcomes, in the order in which the rules apply; the relation names the first fact in the way. */
  lemma DecisionExactly(facts: map<string, FactRecord>, lx: Lexicon, c: Candidate, now: int)
    ensures var d := Decide(facts, lx, c, now);
            var duplicated := Matched(facts, f => IsDuplicate(lx, c, f));
            var rivalled := Matched(facts, f => IsRival(lx, c, f));
            && (d.kind == Hold <==> c.evidence == [] || (Admissible(c) && duplicated))
            && (d.kind == Reject <==> c.evidence != [] && !Admissible(c))
            && (d.kind == Contested <==> Admissible(c) && !duplicated && rivalled)
            && (d.kind == Promote <==> Admissible(c) && !duplicated && !rivalled)
            && (d.promoted.Some? <==> d.kind == Promote)
            && (forall i :: 0 <= i < |d.relations| ==> d.relations[i].target in facts)
  {
    var ids := Sorted(facts.Keys);
    FirstMatches(facts, ids, f => IsDuplicate(lx, c, f));
    FirstMatches(facts, ids, f => IsRival(lx, c, f));
  }

  /** A candidate is promoted exactly when it is admissible and its fact would clash with no stored fact. */
  lemma PromotedExactly(facts: map<string, FactRecord>, lx: Lexicon, c: Candidate, now: int)
    ensures Decide(facts, lx, c, now).kind == Promote
            <==> Admissible(c) && forall id :: id in facts ==> !Clash(lx, FactOf(c, now), facts[id])
  {
    DecisionExactly(facts, lx, c, now);
    var dup := f => IsDuplicate(lx, c, f);
    var riv := f => IsRival(lx, c, f);
    forall id | id in facts ensures Clash(lx, FactOf(c, now), facts[id]) <==> dup(facts[id]) || riv(facts[id]) {
    }
    assert Matched(facts, dup) || Matched(facts, riv) <==> exists id :: id in facts && Clash(lx, FactOf(c, now), facts[id]);
  }

  /** Writing a fact keeps uniqueness exactly when it clashes with no fact under another id. */
  lemma UpsertKeepsUniqueExactly(facts: map<string, FactRecord>, lx: Lexicon, f: FactRecord)
    requires Unique(facts, lx)
    ensures Unique(facts[f.id := f], lx) <==> forall id :: id in facts && id != f.id ==> !Clash(lx, f, facts[id])
  {
    var facts' := facts[f.id := f];
    if Unique(facts', lx) {
      forall id | id in facts && id != f.id ensures !Clash(lx, f, facts[id]) {
        assert facts'[f.id] == f && facts'[id] == facts[id];
      }
    }
  }

  /** Under the kernel's own analysis, a candidate with the same words as an active fact of its type and scope is held,
      however it is spaced. */
  lemma SameWordsAreHeld(alphanumeric: char -> bool, lower: string -> string, facts: map<string, FactRecord>, id: string, c: Candidate, now: int)
    requires id in facts && SamePlace(facts[id], c.factType, Key(c.scope)) && Admissible(c)
    requires WordsOf(facts[id].statement) == WordsOf(c.statement)
    ensures Decide(facts, LexiconOf(alphanumeric, lower), c, now).kind == Hold
  {
    var lx := LexiconOf(alphanumeric, lower);
    assert lx.normal(facts[id].statement) == lx.normal(c.statement);
    DecisionExactly(facts, lx, c, now);
    assert Matched(facts, f => IsDuplicate(lx, c, f)) by {
      assert IsDuplicate(lx, c, facts[id]);
    }
  }

  // ---- A decision, read off the stored facts ----

  /** The stored facts that are active and of the candidate's type and scope. */
  function InPlace(facts: map<string, FactRecord>, c: Candidate): set<string> {
    set id | id in facts && facts[id].status == "active" && facts[id].factType == c.factType && facts[id].scopeKey == Some(ScopeText(c.scope))
  }

  /** Of these, the ones with the candidate's words up to spacing and case. */
  function SameWords(facts: map<string, FactRecord>, c: Candidate, lower: string -> string): set<string> {
    set id | id in InPlace(facts, c) && lower(Join(WordsOf(facts[id].statement))) == lower(Join(WordsOf(c.statement)))
  }

  function ScopeText(s: Scope): string {
    if s.Global? then "global"
    else (match s
          case Project(_) => "project"
          case Conversation(_) => "session"
          case Task(_) => "task"
          case Team(_) => "team"
          case Agent(_) => "agent"
          case Global => "") + ":" + s.value
  }

  /** The one relation, of the given kind, to the least of the ids. */
  ghost predicate RelatedToLeast(relations: seq<Relation>, kind: RelationKind, ids: set<string>) {
    && |relations| == 1 && relations[0].kind == kind && relations[0].target in ids
    && forall id :: id in ids ==> id == relations[0].target || Less(relations[0].target, id)
  }

  /** The fact a candidate becomes. */
  ghost predicate Becomes(f: FactRecord, c: Candidate, now: int) {
    && f.id == "candidate:" + c.id && f.factType == c.factType && f.statement == c.statement
    && f.scopeKey == Some(ScopeText(c.scope)) && f.status == "active" && f.reality == c.reality
    && f.confidence == c.confidence && f.evidence == c.evidence && f.updatedAt == now
    && |f.relations| == |c.relations|
    && forall i :: 0 <= i < |c.relations| ==>
         f.relations[i] == KindName(c.relations[i].kind) + ":" + c.relations[i].target + ":" + c.relations[i].reason
  }

  lemma ScopeTextIsKey(s: Scope)
    ensures Key(s) == ScopeText(s)
  {
    match s
    case Global =>
    case Project(v) => assert "project" + ":" == "project:";
    case Conversation(v) => assert "session" + ":" == "session:";
    case Task(v) => assert "task" + ":" == "task:";
    case Team(v) => assert "team" + ":" == "team:";
    case Agent(v) => assert "agent" + ":" == "agent:";
  }

  lemma {:induction false} RenderedExactly(relations: seq<Relation>)
    ensures |Rendered(relations)| == |relations|
    ensures forall i :: 0 <= i < |relations| ==>
              Rendered(relations)[i] == KindName(relations[i].kind) + ":" + relations[i].target + ":" + relations[i].reason
  {
    if relations != [] {
      RenderedExactly(relations[1..]);
    }
  }

  lemma FirstOfThese(facts: map<string, FactRecord>, picks: FactRecord -> bool, these: set<string>)
    requires forall id :: id in these <==> id in facts && picks(facts[id])
    ensures IsLeast(First(Sorted(facts.Keys), facts, picks), these)
  {
    FirstMatches(facts, Sorted(facts.Keys), picks);
    if these != {} {
      var id :| id in these;
      assert picks(facts[id]);
    }
  }

  lemma DuplicatesRead(alphanumeric: char -> bool, lower: string -> string, facts: map<string, FactRecord>, c: Candidate)
    ensures forall id :: id in SameWords(facts, c, lower) <==> id in facts && IsDuplicate(LexiconOf(alphanumeric, lower), c, facts[id])
  {
    ScopeTextIsKey(c.scope);
  }

  lemma RivalsRead(alphanumeric: char -> bool, lower: string -> string, facts: map<string, FactRecord>, c: Candidate)
    ensures forall id :: "matrix." <= c.factType && id in InPlace(facts, c) - SameWords(facts, c, lower)
                         <==> id in facts && IsRival(LexiconOf(alphanumeric, lower), c, facts[id])
  {
    ScopeTextIsKey(c.scope);
  }

  /** What stands in a candidate's way: facts with its words, and for a matrix type any other fact in its place. */
  ghost predicate Reads(d: Decision, c: Candidate, same: set<string>, others: set<string>, now: int) {
    && d.candidate == c
    && (d.kind == Promote <==> Admissible(c) && same == {} && others == {})
    && (d.kind == Contested <==> Admissible(c) && same == {} && others != {})
    && (d.kind == Reject <==> c.evidence != [] && c.reality != Observed && c.reality != Inferred)
    && (d.kind == Hold && Admissible(c) ==> RelatedToLeast(d.relations, Duplicates, same))
    && (d.kind == Contested ==> RelatedToLeast(d.relations, ConflictsWith, others))
    && (d.kind == Promote ==> d.promoted.Some? && Becomes(d.promoted.value, c, now))
    && (d.kind != Promote ==> d.promoted.None?) && (d.kind == Promote || d.kind == Reject || c.evidence == [] ==> d.relations == [])
  }

  /** The first of the ids, if there is any. */
  ghost predicate IsLeast(first: Option<string>, ids: set<string>) {
    && (first.Some? <==> ids != {})
    && (first.Some? ==> first.value in ids && forall id :: id in ids ==> id == first.value || Less(first.value, id))
  }

  lemma DecisionFrom(c: Candidate, now: int, duplicate: Option<string>, rival: Option<string>, same: set<string>, others: set<string>)
    requires IsLeast(duplicate, same) && IsLeast(rival, others)
    ensures Reads(DecideOn(c, now, duplicate, rival), c, same, others, now)
  {
    FactBecomes(c, now);
  }

  lemma FactBecomes(c: Candidate, now: int)
    ensures Becomes(FactOf(c, now), c, now)
  {
    ScopeTextIsKey(c.scope);
    RenderedExactly(c.relations);
  }

  /** Under the kernel's own analysis, a candidate is decided by the active facts of its type and scope: those with its
      words up to spacing and case hold it, and any other contests it when its type begins with "matrix."; the relation
      names the first of them, and a promoted candidate becomes a fact field by field. */
  lemma DecisionReads(alphanumeric: char -> bool, lower: string -> string, facts: map<string, FactRecord>, c: Candidate, now: int)
    ensures Reads(Decide(facts, LexiconOf(alphanumeric, lower), c, now), c, SameWords(facts, c, lower),
                  if "matrix." <= c.factType then InPlace(facts, c) - SameWords(facts, c, lower) else {}, now)
  {
    DuplicatesRead(alphanumeric, lower, facts, c);
    RivalsRead(alphanumeric, lower, facts, c);
    var others := if "matrix." <= c.factType then InPlace(facts, c) - SameWords(facts, c, lower) else {};
    var lx := LexiconOf(alphanumeric, lower);
    FirstOfThese(facts, f => IsDuplicate(lx, c, f), SameWords(facts, c, lower));
    FirstOfThese(facts, f => IsRival(lx, c, f), others);
    DecisionFrom(c, now, FindDuplicate(facts, lx, c), FindRival(facts, lx, c), SameWords(facts, c, lower), others);
  }
}
