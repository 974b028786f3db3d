/** Execution summaries of APPs and their one canonical form. */
module ExecutionSummary {
  import opened Common
  import opened Order
  import opened Sorting
  import opened NormalForms
  import CS = CanonicalSets
  import OF = OperationForms

  datatype Reference = Reference(refType: string, id: string, caption: Option<string>)

  datatype Counter = Counter(name: string, value: int)

  datatype Head = Head(schemaVersion: nat, summaryId: string, kind: string, status: string, title: string,
                       text: string, domain: Option<string>, occurredAt: nat)

  datatype Summary = Summary(head: Head, refs: seq<Reference>, evidence: seq<string>, metrics: seq<string>, counters: seq<Counter>)

  datatype Fault = BadSchema | Malformed(problem: CS.Problem) | TooManyValues | RepeatedRefs | RepeatedEvidence
                 | RepeatedMetrics | RepeatedCounters | NotCanonical

  // ---- Fields ----

  function BoundFault(value: string, maximum: nat): Option<Fault> {
    var p := CS.BoundProblem(value, maximum);
    if p.Some? then Some(Malformed(p.value)) else None
  }

  function OptionFault(value: Option<string>, maximum: nat): Option<Fault> {
    if value.Some? then BoundFault(value.value, maximum) else None
  }

  function SetFault(values: seq<string>): Option<Fault> {
    var p := CS.CanonicalProblem(values, 128, 256);
    if p.Some? then Some(Malformed(p.value)) else None
  }

  function RefFault(r: Reference): Option<Fault> {
    if BoundFault(r.refType, 256).Some? then BoundFault(r.refType, 256)
    else if BoundFault(r.id, 256).Some? then BoundFault(r.id, 256)
    else OptionFault(r.caption, 512)
  }

  function CounterFault(c: Counter): Option<Fault> { BoundFault(c.name, 256) }

  function FirstFault<T>(items: seq<T>, fault: T -> Option<Fault>): Option<Fault> {
    if items == [] then None
    else if fault(items[0]).Some? then fault(items[0])
    else FirstFault(items[1..], fault)
  }

  function HeadFault(h: Head): Option<Fault> {
    if h.schemaVersion != 1 then Some(BadSchema)
    else if BoundFault(h.summaryId, 256).Some? then BoundFault(h.summaryId, 256)
    else if BoundFault(h.title, 512).Some? then BoundFault(h.title, 512)
    else if BoundFault(h.text, 16384).Some? then BoundFault(h.text, 16384)
    else OptionFault(h.domain, 256)
  }

  function FieldsFault(s: Summary): Option<Fault> {
    if HeadFault(s.head).Some? then HeadFault(s.head)
    else if |s.refs| > 128 || |s.counters| > 128 then Some(TooManyValues)
    else if FirstFault(s.refs, RefFault).Some? then FirstFault(s.refs, RefFault)
    else if FirstFault(s.counters, CounterFault).Some? then FirstFault(s.counters, CounterFault)
    else if SetFault(s.evidence).Some? then SetFault(s.evidence)
    else SetFault(s.metrics)
  }

  // ---- Normal form ----

  predicate CaptionLeq(a: Option<string>, b: Option<string>) { a.None? || (b.Some? && !Less(b.value, a.value)) }

  predicate RefLeq(a: Reference, b: Reference) {
    Less(a.refType, b.refType)
    || (a.refType == b.refType && (Less(a.id, b.id) || (a.id == b.id && CaptionLeq(a.caption, b.caption))))
  }

  predicate IdentityLeq(a: Reference, b: Reference) {
    Less(a.refType, b.refType) || (a.refType == b.refType && !Less(b.id, a.id))
  }

  predicate SameIdentity(a: Reference, b: Reference) { a.refType == b.refType && a.id == b.id }

  predicate NameLeq(a: Counter, b: Counter) { !Less(b.name, a.name) }

  predicate SameName(a: Counter, b: Counter) { a.name == b.name }

  predicate SameText(a: string, b: string) { a == b }

  function Arranged(s: Summary): Summary {
    Summary(s.head, SortBy(s.refs, RefLeq), SortBy(s.evidence, CS.KeyLeq), SortBy(s.metrics, CS.KeyLeq), SortBy(s.counters, NameLeq))
  }

  /** An arranged summary passes unless something repeats or a field is bad. */
  function Judged(n: Summary): Result<Summary, Fault> {
    if HasTwins(n.refs, SameIdentity) then Err(RepeatedRefs)
    else if HasTwins(n.evidence, SameText) then Err(RepeatedEvidence)
    else if HasTwins(n.metrics, SameText) then Err(RepeatedMetrics)
    else if HasTwins(n.counters, SameName) then Err(RepeatedCounters)
    else if FieldsFault(n).Some? then Err(FieldsFault(n).value)
    else Ok(n)
  }

  /** Sorts each collection and refuses repetition. */
  function Normalized(s: Summary): Result<Summary, Fault> { Judged(Arranged(s)) }

  function ValidateFault(s: Summary): Option<Fault> {
    if FieldsFault(s).Some? then FieldsFault(s)
    else if Normalized(s).Err? then Some(Normalized(s).error)
    else if Normalized(s).value != s then Some(NotCanonical)
    else None
  }

  // ---- Orders ----

  lemma RefOrders()
    ensures TotalPreorder(RefLeq) && TotalPreorder(IdentityLeq) && KeyOf(SameIdentity, IdentityLeq)
    ensures forall a, b :: RefLeq(a, b) ==> IdentityLeq(a, b)
    ensures forall a, b :: RefLeq(a, b) && RefLeq(b, a) ==> a == b
  {
    LessStrictTotal();
  }

  lemma TextOrder()
    ensures TotalPreorder(CS.KeyLeq) && KeyOf(SameText, CS.KeyLeq)
  {
    LessStrictTotal();
  }

  lemma NameOrder()
    ensures TotalPreorder(NameLeq) && KeyOf(SameName, NameLeq)
  {
    LessStrictTotal();
  }

  // ---- Any order, one form ----

  /** The same summary with its collections in another order. */
  ghost predicate Reordered(a: Summary, b: Summary) {
    && a.head == b.head && multiset(a.refs) == multiset(b.refs) && multiset(a.evidence) == multiset(b.evidence)
    && multiset(a.metrics) == multiset(b.metrics) && multiset(a.counters) == multiset(b.counters)
  }

  lemma RefsForgetOrder(a: seq<Reference>, b: seq<Reference>)
    requires multiset(a) == multiset(b)
    ensures SortBy(a, RefLeq) == SortBy(b, RefLeq)
  {
    RefOrders();
    SortForgetsOrder(a, b, RefLeq);
  }

  lemma TextsForgetOrder(a: seq<string>, b: seq<string>)
    requires multiset(a) == multiset(b)
    ensures SortBy(a, CS.KeyLeq) == SortBy(b, CS.KeyLeq)
  {
    TextOrder();
    SortForgetsOrder(a, b, CS.KeyLeq);
  }

  lemma CountersForgetOrder(a: seq<Counter>, b: seq<Counter>)
    requires multiset(a) == multiset(b)
    ensures HasTwins(SortBy(a, NameLeq), SameName) <==> HasTwins(SortBy(b, NameLeq), SameName)
    ensures !HasTwins(SortBy(a, NameLeq), SameName) ==> SortBy(a, NameLeq) == SortBy(b, NameLeq)
  {
    NameOrder();
    SortedFormForgetsOrder(a, b, NameLeq, SameName);
  }

  lemma JudgedAlike(m: Summary, n: Summary)
    requires m.head == n.head && m.refs == n.refs && m.evidence == n.evidence && m.metrics == n.metrics
    requires HasTwins(m.counters, SameName) <==> HasTwins(n.counters, SameName)
    requires !HasTwins(m.counters, SameName) ==> m.counters == n.counters
    ensures Judged(m) == Judged(n)
  {
  }

  /** Reordering any of the four collections changes neither the result nor the failure. */
  lemma NormalFormForgetsOrder(a: Summary, b: Summary)
    requires Reordered(a, b)
    ensures Normalized(a) == Normalized(b)
  {
    RefsForgetOrder(a.refs, b.refs);
    TextsForgetOrder(a.evidence, b.evidence);
    TextsForgetOrder(a.metrics, b.metrics);
    CountersForgetOrder(a.counters, b.counters);
    JudgedAlike(Arranged(a), Arranged(b));
  }

  lemma ArrangedIsFixed(s: Summary)
    ensures Arranged(Arranged(s)) == Arranged(s)
  {
    RefOrders();
    TextOrder();
    NameOrder();
    SortByIsSorted(s.refs, RefLeq);
    SortByIsSorted(s.evidence, CS.KeyLeq);
    SortByIsSorted(s.metrics, CS.KeyLeq);
    SortByIsSorted(s.counters, NameLeq);
    SortedIsFixed(Arranged(s).refs, RefLeq);
    SortedIsFixed(Arranged(s).evidence, CS.KeyLeq);
    SortedIsFixed(Arranged(s).metrics, CS.KeyLeq);
    SortedIsFixed(Arranged(s).counters, NameLeq);
  }

  /** A normal form is a reordering of its summary and is its own normal form. */
  lemma NormalFormIsFixed(s: Summary)
    requires Normalized(s).Ok?
    ensures Reordered(s, Normalized(s).value)
    ensures Normalized(Normalized(s).value) == Normalized(s)
  {
    ArrangedIsFixed(s);
    JudgedKeeps(Arranged(s));
  }

  lemma JudgedKeeps(n: Summary)
    ensures Judged(n).Ok? ==> Judged(n).value == n && FieldsFault(n).None?
  {
  }

  /** Validation accepts exactly the summaries that are their own normal form. */
  lemma ValidExactly(s: Summary)
    ensures ValidateFault(s).None? <==> Normalized(s) == Ok(s)
  {
    JudgedKeeps(Arranged(s));
  }

  // ---- When there is a normal form ----

  lemma {:induction false} FirstFaultExactly<T>(items: seq<T>, fault: T -> Option<Fault>)
    ensures FirstFault(items, fault).None? <==> forall x :: x in items ==> fault(x).None?
  {
    if items != [] {
      FirstFaultExactly(items[1..], fault);
      assert forall x :: x in items <==> x == items[0] || x in items[1..];
    }
  }

  lemma SortedFaults<T>(items: seq<T>, leq: (T, T) -> bool, fault: T -> Option<Fault>)
    ensures FirstFault(SortBy(items, leq), fault).None? <==> forall x :: x in items ==> fault(x).None?
  {
    var sorted := SortBy(items, leq);
    FirstFaultExactly(sorted, fault);
    MembersSame(sorted, items);
    if FirstFault(sorted, fault).None? {
      forall x | x in items ensures fault(x).None? {
        assert x in sorted;
      }
    } else {
      var x :| x in sorted && fault(x).Some?;
      assert x in items;
    }
  }

  /** A collection of distinct, bounded texts within its limit. */
  ghost predicate GoodSet(values: seq<string>) {
    |values| <= 128 && CS.Distinct(values) && CS.AllBounded(values, 256)
  }

  lemma SortedBounds(values: seq<string>)
    ensures CS.AllBounded(SortBy(values, CS.KeyLeq), 256) <==> CS.AllBounded(values, 256)
  {
    var sorted := SortBy(values, CS.KeyLeq);
    MembersSame(sorted, values);
    assert forall i :: 0 <= i < |sorted| ==> sorted[i] in values;
    assert forall i :: 0 <= i < |values| ==> values[i] in sorted;
    assert forall x :: x in values ==> exists i :: 0 <= i < |values| && values[i] == x;
    assert forall x :: x in sorted ==> exists i :: 0 <= i < |sorted| && sorted[i] == x;
  }

  lemma SortedAscends(sorted: seq<string>)
    requires IsSorted(sorted, CS.KeyLeq) && !HasTwins(sorted, SameText)
    ensures Ascending(sorted)
  {
    forall i | 0 <= i < |sorted| - 1 ensures Less(sorted[i], sorted[i + 1]) {
      LessConnected(sorted[i], sorted[i + 1]);
      assert !SameText(sorted[i], sorted[i + 1]);
    }
    CS.StepsExactly(sorted);
  }

  lemma SetGoodExactly(values: seq<string>)
    ensures var sorted := SortBy(values, CS.KeyLeq);
            (!HasTwins(sorted, SameText) && SetFault(sorted).None?) <==> GoodSet(values)
  {
    var sorted := SortBy(values, CS.KeyLeq);
    TextOrder();
    SortShowsTwins(values, CS.KeyLeq, CS.KeyLeq, SameText);
    assert Apart(values, SameText) <==> CS.Distinct(values);
    SortByIsSorted(values, CS.KeyLeq);
    SortedBounds(values);
    CS.CanonicalExactly(sorted, 128, 256);
    if !HasTwins(sorted, SameText) {
      SortedAscends(sorted);
    }
  }

  ghost predicate GoodRefs(refs: seq<Reference>) {
    |refs| <= 128 && (forall r :: r in refs ==> RefFault(r).None?) && Apart(refs, SameIdentity)
  }

  ghost predicate GoodCounters(counters: seq<Counter>) {
    |counters| <= 128 && (forall c :: c in counters ==> CounterFault(c).None?) && Apart(counters, SameName)
  }

  lemma RefsGoodExactly(refs: seq<Reference>)
    ensures GoodRefs(refs) <==> |SortBy(refs, RefLeq)| <= 128 && !HasTwins(SortBy(refs, RefLeq), SameIdentity)
                                && FirstFault(SortBy(refs, RefLeq), RefFault).None?
  {
    RefOrders();
    SortShowsTwins(refs, RefLeq, IdentityLeq, SameIdentity);
    SortedFaults(refs, RefLeq, RefFault);
  }

  lemma CountersGoodExactly(counters: seq<Counter>)
    ensures GoodCounters(counters) <==> |SortBy(counters, NameLeq)| <= 128 && !HasTwins(SortBy(counters, NameLeq), SameName)
                                        && FirstFault(SortBy(counters, NameLeq), CounterFault).None?
  {
    NameOrder();
    SortShowsTwins(counters, NameLeq, NameLeq, SameName);
    SortedFaults(counters, NameLeq, CounterFault);
  }

  lemma JudgedOkExactly(n: Summary, refs: bool, evidence: bool, metrics: bool, counters: bool)
    requires refs <==> |n.refs| <= 128 && !HasTwins(n.refs, SameIdentity) && FirstFault(n.refs, RefFault).None?
    requires evidence <==> !HasTwins(n.evidence, SameText) && SetFault(n.evidence).None?
    requires metrics <==> !HasTwins(n.metrics, SameText) && SetFault(n.metrics).None?
    requires counters <==> |n.counters| <= 128 && !HasTwins(n.counters, SameName) && FirstFault(n.counters, CounterFault).None?
    ensures Judged(n).Ok? <==> HeadFault(n.head).None? && refs && evidence && metrics && counters
  {
  }

  /** A summary has a normal form exactly when its head is good and each collection, in whatever order, is within
      its limit, well-formed and free of repeated identities. */
  lemma NormalFormExactly(s: Summary)
    ensures Normalized(s).Ok?
            <==> HeadFault(s.head).None? && GoodRefs(s.refs) && GoodSet(s.evidence) && GoodSet(s.metrics) && GoodCounters(s.counters)
  {
    RefsGoodExactly(s.refs);
    SetGoodExactly(s.evidence);
    SetGoodExactly(s.metrics);
    CountersGoodExactly(s.counters);
    JudgedOkExactly(Arranged(s), GoodRefs(s.refs), GoodSet(s.evidence), GoodSet(s.metrics), GoodCounters(s.counters));
  }

  // ---- The normal form, field by field ----

  ghost predicate HeadForm(h: Head) {
    && h.schemaVersion == 1 && OF.Fitting(h.summaryId, 256) && OF.Fitting(h.title, 512) && OF.Fitting(h.text, 16384)
    && (h.domain.Some? ==> OF.Fitting(h.domain.value, 256))
  }

  ghost predicate RefForm(r: Reference) {
    OF.Fitting(r.refType, 256) && OF.Fitting(r.id, 256) && (r.caption.Some? ==> OF.Fitting(r.caption.value, 512))
  }

  /** In strictly ascending order of type, then id. */
  ghost predicate RefsForm(refs: seq<Reference>) {
    && |refs| <= 128 && (forall i :: 0 <= i < |refs| ==> RefForm(refs[i]))
    && (forall i, j :: 0 <= i < j < |refs| ==>
          Less(refs[i].refType, refs[j].refType) || (refs[i].refType == refs[j].refType && Less(refs[i].id, refs[j].id)))
  }

  ghost predicate CountersForm(counters: seq<Counter>) {
    && |counters| <= 128 && (forall i :: 0 <= i < |counters| ==> OF.Fitting(counters[i].name, 256))
    && (forall i, j :: 0 <= i < j < |counters| ==> Less(counters[i].name, counters[j].name))
  }

  ghost predicate SummaryForm(s: Summary) {
    && HeadForm(s.head) && RefsForm(s.refs) && CountersForm(s.counters)
    && OF.Canonical(s.evidence, 128, 256) && OF.Canonical(s.metrics, 128, 256)
  }

  lemma BoundForm(value: string, maximum: nat)
    ensures BoundFault(value, maximum).None? <==> OF.Fitting(value, maximum)
  {
    OF.BoundExactly(value, maximum);
  }

  lemma HeadExactly(h: Head)
    ensures HeadFault(h).None? <==> HeadForm(h)
  {
    BoundForm(h.summaryId, 256);
    BoundForm(h.title, 512);
    BoundForm(h.text, 16384);
    if h.domain.Some? {
      BoundForm(h.domain.value, 256);
    }
  }

  lemma RefExactly(r: Reference)
    ensures RefFault(r).None? <==> RefForm(r)
  {
    BoundForm(r.refType, 256);
    BoundForm(r.id, 256);
    if r.caption.Some? {
      BoundForm(r.caption.value, 512);
    }
  }

  /** A list is sorted and has no twins exactly when every place comes strictly before the later ones. */
  lemma StrictlySorted<T(!new)>(s: seq<T>, fine: (T, T) -> bool, leq: (T, T) -> bool, same: (T, T) -> bool)
    requires TotalPreorder(fine) && TotalPreorder(leq) && KeyOf(same, leq)
    requires (forall a, b :: fine(a, b) ==> leq(a, b)) && (forall a, b :: leq(a, b) && !leq(b, a) ==> fine(a, b))
    ensures (SortBy(s, fine) == s && !HasTwins(s, same)) <==> forall i, j :: 0 <= i < j < |s| ==> leq(s[i], s[j]) && !leq(s[j], s[i])
  {
    SortByIsSorted(s, fine);
    if SortBy(s, fine) == s && !HasTwins(s, same) {
      TwinsExactly(s, leq, same);
      forall i, j | 0 <= i < j < |s| ensures leq(s[i], s[j]) && !leq(s[j], s[i]) {
        assert fine(s[i], s[j]) && !same(s[i], s[j]);
      }
    }
    if forall i, j :: 0 <= i < j < |s| ==> leq(s[i], s[j]) && !leq(s[j], s[i]) {
      assert IsSorted(s, fine);
      SortedIsFixed(s, fine);
    }
  }

  lemma RefsFit(refs: seq<Reference>)
    ensures FirstFault(refs, RefFault).None? <==> forall i :: 0 <= i < |refs| ==> RefForm(refs[i])
  {
    FirstFaultExactly(refs, RefFault);
    forall r ensures RefFault(r).None? <==> RefForm(r) {
      RefExactly(r);
    }
    assert forall i :: 0 <= i < |refs| ==> refs[i] in refs;
  }

  lemma RefsExactly(refs: seq<Reference>)
    ensures SortBy(refs, RefLeq) == refs && |refs| <= 128 && !HasTwins(refs, SameIdentity) && FirstFault(refs, RefFault).None?
            <==> RefsForm(refs)
  {
    RefsRise(refs);
    RefsFit(refs);
  }

  lemma RefsRise(refs: seq<Reference>)
    ensures (SortBy(refs, RefLeq) == refs && !HasTwins(refs, SameIdentity))
            <==> forall i, j :: 0 <= i < j < |refs| ==>
                   Less(refs[i].refType, refs[j].refType) || (refs[i].refType == refs[j].refType && Less(refs[i].id, refs[j].id))
  {
    RefOrders();
    LessStrictTotal();
    StrictlySorted(refs, RefLeq, IdentityLeq, SameIdentity);
    forall i, j | 0 <= i < j < |refs|
      ensures IdentityLeq(refs[i], refs[j]) && !IdentityLeq(refs[j], refs[i])
              <==> Less(refs[i].refType, refs[j].refType) || (refs[i].refType == refs[j].refType && Less(refs[i].id, refs[j].id)) {
      LessConnected(refs[i].refType, refs[j].refType);
      LessConnected(refs[i].id, refs[j].id);
    }
  }

  lemma CountersFit(counters: seq<Counter>)
    ensures FirstFault(counters, CounterFault).None? <==> forall i :: 0 <= i < |counters| ==> OF.Fitting(counters[i].name, 256)
  {
    FirstFaultExactly(counters, CounterFault);
    forall c: Counter ensures CounterFault(c).None? <==> OF.Fitting(c.name, 256) {
      BoundForm(c.name, 256);
    }
    assert forall i :: 0 <= i < |counters| ==> counters[i] in counters;
  }

  lemma CountersRise(counters: seq<Counter>)
    ensures (SortBy(counters, NameLeq) == counters && !HasTwins(counters, SameName))
            <==> forall i, j :: 0 <= i < j < |counters| ==> Less(counters[i].name, counters[j].name)
  {
    NameOrder();
    LessStrictTotal();
    StrictlySorted(counters, NameLeq, NameLeq, SameName);
    forall i, j | 0 <= i < j < |counters|
      ensures NameLeq(counters[i], counters[j]) && !NameLeq(counters[j], counters[i]) <==> Less(counters[i].name, counters[j].name) {
      LessConnected(counters[i].name, counters[j].name);
    }
  }

  lemma CountersExactly(counters: seq<Counter>)
    ensures SortBy(counters, NameLeq) == counters && |counters| <= 128 && !HasTwins(counters, SameName) && FirstFault(counters, CounterFault).None?
            <==> CountersForm(counters)
  {
    CountersRise(counters);
    CountersFit(counters);
  }

  lemma TextsExactly(values: seq<string>)
    ensures SortBy(values, CS.KeyLeq) == values && !HasTwins(values, SameText) && SetFault(values).None? <==> OF.Canonical(values, 128, 256)
  {
    TextOrder();
    LessStrictTotal();
    StrictlySorted(values, CS.KeyLeq, CS.KeyLeq, SameText);
    OF.CanonicalForm(values, 128, 256);
  }

  lemma ArrangedExactly(s: Summary)
    ensures Arranged(s) == s <==> SortBy(s.refs, RefLeq) == s.refs && SortBy(s.evidence, CS.KeyLeq) == s.evidence
                                  && SortBy(s.metrics, CS.KeyLeq) == s.metrics && SortBy(s.counters, NameLeq) == s.counters
  {
  }

  lemma FixedJudged(s: Summary)
    ensures Normalized(s) == Ok(s) <==> Arranged(s) == s && Judged(s).Ok?
  {
    JudgedKeeps(Arranged(s));
    JudgedKeeps(s);
  }

  lemma FixedExactly(s: Summary)
    ensures Normalized(s) == Ok(s) <==> SummaryForm(s)
  {
    FixedJudged(s);
    ArrangedExactly(s);
    HeadExactly(s.head);
    RefsExactly(s.refs);
    TextsExactly(s.evidence);
    TextsExactly(s.metrics);
    CountersExactly(s.counters);
    JudgedOkExactly(s, |s.refs| <= 128 && !HasTwins(s.refs, SameIdentity) && FirstFault(s.refs, RefFault).None?,
                    !HasTwins(s.evidence, SameText) && SetFault(s.evidence).None?,
                    !HasTwins(s.metrics, SameText) && SetFault(s.metrics).None?,
                    |s.counters| <= 128 && !HasTwins(s.counters, SameName) && FirstFault(s.counters, CounterFault).None?);
  }

  /** A summary has a normal form exactly when it is a reordering of a summary of the one form: bounded fields, references
      in strictly ascending order of type and id, and evidence, metrics and counter names in strictly ascending order; and
      that summary is the normal form. */
  lemma NormalFormReads(s: Summary, n: Summary)
    ensures Normalized(s) == Ok(n) <==> Reordered(s, n) && SummaryForm(n)
  {
    FixedExactly(n);
    if Normalized(s) == Ok(n) {
      NormalFormIsFixed(s);
    }
    if Reordered(s, n) && SummaryForm(n) {
      NormalFormForgetsOrder(s, n);
    }
  }

  /** Validation accepts exactly the summaries of the form. */
  lemma ValidReads(s: Summary)
    ensures ValidateFault(s).None? <==> SummaryForm(s)
  {
    ValidExactly(s);
    FixedExactly(s);
  }
}
