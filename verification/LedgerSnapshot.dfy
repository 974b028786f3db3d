/** The digest of a fact-ledger snapshot, which depends on its records and not on their order. */
module LedgerSnapshot {
  import opened Common
  import opened Order
  import opened Sorting
  import opened NormalForms
  import CS = CanonicalSets

  /** A record of any of the four collections: its id and everything else it says. */
  datatype Entry = Entry(id: string, body: string)

  datatype Snapshot = Snapshot(facts: seq<Entry>, evidence: seq<Entry>, events: seq<Entry>, promotions: seq<Entry>)

  datatype Collection = Facts | Evidence | Events | Promotions

  /** The collection in which an id repeats, and the first id that does. */
  datatype Refusal = Refusal(collection: Collection, problem: CS.Problem)

  function Ids(entries: seq<Entry>): (ids: seq<string>)
    ensures |ids| == |entries| && forall i :: 0 <= i < |entries| ==> ids[i] == entries[i].id
  {
    seq(|entries|, i requires 0 <= i < |entries| => entries[i].id)
  }

  function Repeat(entries: seq<Entry>): Option<CS.Problem> { CS.RepeatProblem(Ids(entries), {}) }

  function Refused(s: Snapshot): Option<Refusal> {
    if Repeat(s.facts).Some? then Some(Refusal(Facts, Repeat(s.facts).value))
    else if Repeat(s.evidence).Some? then Some(Refusal(Evidence, Repeat(s.evidence).value))
    else if Repeat(s.events).Some? then Some(Refusal(Events, Repeat(s.events).value))
    else if Repeat(s.promotions).Some? then Some(Refusal(Promotions, Repeat(s.promotions).value))
    else None
  }

  predicate IdLeq(a: Entry, b: Entry) { !Less(b.id, a.id) }

  predicate SameId(a: Entry, b: Entry) { a.id == b.id }

  function Stable(s: Snapshot): Snapshot {
    Snapshot(SortBy(s.facts, IdLeq), SortBy(s.evidence, IdLeq), SortBy(s.events, IdLeq), SortBy(s.promotions, IdLeq))
  }

  function CanonicalDigest(s: Snapshot, digest: Snapshot -> string): Result<string, Refusal> {
    if Refused(s).Some? then Err(Refused(s).value) else Ok(digest(Stable(s)))
  }

  method Validate(s: Snapshot) returns (r: Option<Refusal>)
    ensures r == Refused(s)
  {
    var problem := CS.CheckUnique(Ids(s.facts));
    if problem.Some? {
      return Some(Refusal(Facts, problem.value));
    }
    problem := CS.CheckUnique(Ids(s.evidence));
    if problem.Some? {
      return Some(Refusal(Evidence, problem.value));
    }
    problem := CS.CheckUnique(Ids(s.events));
    if problem.Some? {
      return Some(Refusal(Events, problem.value));
    }
    problem := CS.CheckUnique(Ids(s.promotions));
    if problem.Some? {
      return Some(Refusal(Promotions, problem.value));
    }
    return None;
  }

  // ---- Order does not matter ----

  ghost predicate Reordered(a: Snapshot, b: Snapshot) {
    && multiset(a.facts) == multiset(b.facts) && multiset(a.evidence) == multiset(b.evidence)
    && multiset(a.events) == multiset(b.events) && multiset(a.promotions) == multiset(b.promotions)
  }

  lemma IdOrder()
    ensures TotalPreorder(IdLeq) && KeyOf(SameId, IdLeq)
  {
    LessStrictTotal();
  }

  lemma RepeatsExactly(entries: seq<Entry>)
    ensures Repeat(entries).Some? <==> !Apart(entries, SameId)
  {
    var ids := Ids(entries);
    CS.RepeatExactly(ids, {});
    assert CS.Distinct(ids) <==> Apart(entries, SameId) by {
      if Apart(entries, SameId) {
        forall i, j | 0 <= i < j < |ids| ensures ids[i] != ids[j] {
          assert !SameId(entries[i], entries[j]);
        }
      }
    }
  }

  lemma RepeatsForgetsOrder(a: seq<Entry>, b: seq<Entry>)
    requires multiset(a) == multiset(b)
    ensures Repeat(a).Some? <==> Repeat(b).Some?
  {
    RepeatsExactly(a);
    RepeatsExactly(b);
    if Apart(a, SameId) {
      ApartForgetsOrder(a, b, SameId);
    }
    if Apart(b, SameId) {
      ApartForgetsOrder(b, a, SameId);
    }
  }

  lemma SortedForgetsOrder(a: seq<Entry>, b: seq<Entry>)
    requires multiset(a) == multiset(b) && Repeat(a).None?
    ensures SortBy(a, IdLeq) == SortBy(b, IdLeq)
  {
    IdOrder();
    RepeatsExactly(a);
    ApartAntisymmetric(a, IdLeq, SameId);
    SortForgetsOrder(a, b, IdLeq);
  }

  /** Reordering the records changes neither the digest nor the collection for which it is refused; which repeated id is
      named depends on the order. */
  lemma DigestForgetsOrder(a: Snapshot, b: Snapshot, digest: Snapshot -> string)
    requires Reordered(a, b)
    ensures CanonicalDigest(a, digest).Ok? || CanonicalDigest(b, digest).Ok? ==> CanonicalDigest(a, digest) == CanonicalDigest(b, digest)
    ensures CanonicalDigest(a, digest).Err? ==>
              CanonicalDigest(b, digest).Err? && CanonicalDigest(a, digest).error.collection == CanonicalDigest(b, digest).error.collection
  {
    RepeatsForgetsOrder(a.facts, b.facts);
    RepeatsForgetsOrder(a.evidence, b.evidence);
    RepeatsForgetsOrder(a.events, b.events);
    RepeatsForgetsOrder(a.promotions, b.promotions);
    if Refused(a).None? {
      SortedForgetsOrder(a.facts, b.facts);
      SortedForgetsOrder(a.evidence, b.evidence);
      SortedForgetsOrder(a.events, b.events);
      SortedForgetsOrder(a.promotions, b.promotions);
    }
  }

  /** Where digests do not collide, equal digests mean the same records. */
  lemma DigestTellsRecords(a: Snapshot, b: Snapshot, digest: Snapshot -> string)
    requires forall s, t :: digest(s) == digest(t) ==> s == t
    requires CanonicalDigest(a, digest).Ok? && CanonicalDigest(a, digest) == CanonicalDigest(b, digest)
    ensures Reordered(a, b)
  {
    assert Stable(a) == Stable(b);
    assert multiset(Stable(a).facts) == multiset(Stable(b).facts);
  }

  // ---- The one arrangement that is hashed ----

  ghost predicate IdsDiffer(entries: seq<Entry>) {
    forall i, j :: 0 <= i < j < |entries| ==> entries[i].id != entries[j].id
  }

  ghost predicate IdsAscend(entries: seq<Entry>) {
    forall i, j :: 0 <= i < j < |entries| ==> Less(entries[i].id, entries[j].id)
  }

  lemma SortedAscends(entries: seq<Entry>)
    requires IdsDiffer(entries)
    ensures IdsAscend(SortBy(entries, IdLeq))
  {
    IdOrder();
    SortByIsSorted(entries, IdLeq);
    var sorted := SortBy(entries, IdLeq);
    assert Apart(entries, SameId);
    ApartForgetsOrder(entries, sorted, SameId);
    forall i, j | 0 <= i < j < |sorted| ensures Less(sorted[i].id, sorted[j].id) {
      assert IdLeq(sorted[i], sorted[j]) && !SameId(sorted[i], sorted[j]);
      LessConnected(sorted[i].id, sorted[j].id);
    }
  }

  lemma DiffersExactly(entries: seq<Entry>)
    ensures Repeat(entries).None? <==> IdsDiffer(entries)
  {
    RepeatsExactly(entries);
  }

  /** A snapshot has a digest exactly when no id repeats within a collection; it is the digest of the arrangement in which
      every collection holds the same records in strictly ascending order of id. */
  lemma DigestReads(s: Snapshot, digest: Snapshot -> string) returns (t: Snapshot)
    ensures CanonicalDigest(s, digest).Ok? <==> IdsDiffer(s.facts) && IdsDiffer(s.evidence) && IdsDiffer(s.events) && IdsDiffer(s.promotions)
    ensures CanonicalDigest(s, digest).Ok? ==>
              && Reordered(s, t) && IdsAscend(t.facts) && IdsAscend(t.evidence) && IdsAscend(t.events) && IdsAscend(t.promotions)
              && CanonicalDigest(s, digest).value == digest(t)
  {
    DiffersExactly(s.facts);
    DiffersExactly(s.evidence);
    DiffersExactly(s.events);
    DiffersExactly(s.promotions);
    t := Stable(s);
    if CanonicalDigest(s, digest).Ok? {
      SortedAscends(s.facts);
      SortedAscends(s.evidence);
      SortedAscends(s.events);
      SortedAscends(s.promotions);
    }
  }
}
