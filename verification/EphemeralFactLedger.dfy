/** The in-memory ledger as it runs: a list of facts searched and replaced in place, revision counters
    raised key by key, and pages filtered, sorted and truncated. */
module EphemeralFactLedger {
  import opened Common
  import opened Order
  import opened Sorting
  import opened FactCatalog
  import opened EphemeralLedger

  ghost predicate DistinctIds(facts: seq<Fact>) {
    forall i, j :: 0 <= i < j < |facts| ==> facts[i].id != facts[j].id
  }

  /** The list holds each fact of the table once, at the place recorded for its id. */
  ghost predicate Represents(facts: seq<Fact>, place: map<string, nat>, table: Items) {
    && place.Keys == table.Keys
    && (forall id :: id in table ==> place[id] < |facts| && facts[place[id]] == table[id])
    && (forall i :: 0 <= i < |facts| ==> facts[i].id in place && place[facts[i].id] == i)
  }

  method Find(facts: seq<Fact>, id: string) returns (i: nat)
    ensures i <= |facts| && (i < |facts| ==> facts[i].id == id)
    ensures forall j :: 0 <= j < i ==> facts[j].id != id
  {
    i := 0;
    while i < |facts| && facts[i].id != id
      invariant i <= |facts| && forall j :: 0 <= j < i ==> facts[j].id != id
    {
      i := i + 1;
    }
  }

  method RaiseEach(revisions: map<string, nat>, keys: set<string>) returns (r: map<string, nat>)
    ensures r == Bump(revisions, keys)
  {
    r := revisions;
    var todo := keys;
    while todo != {}
      invariant todo <= keys && r == Bump(revisions, keys - todo)
    {
      var key :| key in todo;
      r := r[key := (if key in r then r[key] else 0) + 1];
      assert r == Bump(revisions, keys - (todo - {key}));
      todo := todo - {key};
    }
    assert keys - todo == keys;
  }

  lemma FoundIffStored(facts: seq<Fact>, place: map<string, nat>, table: Items, i: nat, id: string)
    requires Represents(facts, place, table) && i <= |facts|
    requires (i < |facts| ==> facts[i].id == id) && forall j :: 0 <= j < i ==> facts[j].id != id
    ensures i < |facts| <==> id in table
    ensures i < |facts| ==> facts[i] == table[id]
  {
    if i < |facts| {
      assert place[facts[i].id] == i;
    }
  }

  lemma PutRepresents(facts: seq<Fact>, place: map<string, nat>, table: Items, i: nat, fact: Fact)
    requires Represents(facts, place, table)
    requires i <= |facts| && (i < |facts| ==> facts[i].id == fact.id) && (i == |facts| ==> fact.id !in table)
    ensures i < |facts| ==> Represents(facts[i := fact], place, Put(table, fact))
    ensures i == |facts| ==> Represents(facts + [fact], place[fact.id := i], Put(table, fact))
  {
    if i < |facts| {
      assert place[fact.id] == i;
    }
  }

  /** Facts in id order. */
  predicate IdLeq(a: Fact, b: Fact) { !Less(b.id, a.id) }

  lemma IdLeqOrder()
    ensures TotalPreorder(IdLeq)
  {
    LessStrictTotal();
  }

  predicate After(afterId: Option<string>, id: string) {
    afterId.None? || Less(afterId.value, id)
  }

  lemma {:induction false} OnceInMultiset(s: seq<Fact>, x: Fact)
    requires DistinctIds(s)
    ensures multiset(s)[x] <= 1
  {
    if s != [] {
      assert s == [s[0]] + s[1..];
      OnceInMultiset(s[1..], x);
      assert x == s[0] ==> x !in s[1..];
    }
  }

  lemma TwiceInMultiset(s: seq<Fact>, i: nat, j: nat)
    requires i < j < |s| && s[i] == s[j]
    ensures multiset(s)[s[i]] >= 2
  {
    assert s == s[..j] + [s[j]] + s[j + 1..];
    assert s[i] in s[..j];
    assert multiset(s[..j])[s[i]] >= 1;
  }

  /** Sorting facts with distinct ids puts their ids in strictly ascending order. */
  lemma SortedIdsAscend(chosen: seq<Fact>, sorted: seq<Fact>, i: nat, j: nat)
    requires DistinctIds(chosen) && multiset(sorted) == multiset(chosen) && IsSorted(sorted, IdLeq)
    requires i < j < |sorted|
    ensures Less(sorted[i].id, sorted[j].id)
  {
    LessConnected(sorted[i].id, sorted[j].id);
    assert IdLeq(sorted[i], sorted[j]);
    if sorted[i].id == sorted[j].id {
      MembersSame(sorted, chosen);
      assert sorted[i] in chosen && sorted[j] in chosen;
      assert sorted[i] == sorted[j];
      TwiceInMultiset(sorted, i, j);
      OnceInMultiset(chosen, sorted[i]);
    }
  }

  function Ids(facts: seq<Fact>): (r: seq<string>)
    ensures |r| == |facts| && forall i :: 0 <= i < |r| ==> r[i] == facts[i].id
  {
    seq(|facts|, i requires 0 <= i < |facts| => facts[i].id)
  }

  lemma AscendingListing(ids: seq<string>, s: set<string>)
    requires Ascending(ids) && forall x :: x in ids <==> x in s
    ensures ids == Sorted(s)
  {
    AscendingUnique(ids, Sorted(s));
  }

  lemma PickIds(items: Items, sorted: seq<Fact>)
    requires forall f :: f in sorted ==> f.id in items && items[f.id] == f
    ensures forall id :: id in Ids(sorted) ==> id in items
    ensures Pick(items, Ids(sorted)) == sorted
  {
    forall i | 0 <= i < |sorted| ensures sorted[i].id in items && items[sorted[i].id] == sorted[i] {
      assert sorted[i] in sorted;
    }
  }

  lemma SameIds(items: Items, wanted: set<string>, sorted: seq<Fact>, id: string)
    requires wanted <= items.Keys
    requires forall f :: f in sorted <==> f.id in wanted && items[f.id] == f
    ensures id in Ids(sorted) <==> id in wanted
  {
    if id in Ids(sorted) {
      var i :| 0 <= i < |sorted| && Ids(sorted)[i] == id;
      assert sorted[i] in sorted;
    }
    if id in wanted {
      assert items[id] in sorted;
      var i :| 0 <= i < |sorted| && sorted[i] == items[id];
      assert Ids(sorted)[i] == id;
    }
  }

  /** Choosing from the list and sorting by id is the ordered selection of the table. */
  lemma SortedChoice(items: Items, wanted: set<string>, chosen: seq<Fact>)
    requires DistinctIds(chosen) && wanted <= items.Keys
    requires forall f :: f in chosen <==> f.id in wanted && items[f.id] == f
    ensures Pick(items, Sorted(wanted)) == SortBy(chosen, IdLeq)
  {
    var sorted := SortBy(chosen, IdLeq);
    IdLeqOrder();
    SortByIsSorted(chosen, IdLeq);
    MembersSame(sorted, chosen);
    forall i, j | 0 <= i < j < |sorted| ensures Less(Ids(sorted)[i], Ids(sorted)[j]) {
      SortedIdsAscend(chosen, sorted, i, j);
    }
    forall id ensures id in Ids(sorted) <==> id in wanted {
      SameIds(items, wanted, sorted, id);
    }
    AscendingListing(Ids(sorted), wanted);
    PickIds(items, sorted);
  }

  lemma SortedChoiceIsSelection(items: Items, afterId: Option<string>, chosen: seq<Fact>)
    requires DistinctIds(chosen)
    requires forall f :: f in chosen <==> f.id in items && items[f.id] == f && After(afterId, f.id)
    ensures Pick(items, IdsFrom(items, afterId)) == SortBy(chosen, IdLeq)
  {
    SortedChoice(items, if afterId.None? then items.Keys else KeysAfter(items.Keys, afterId.value), chosen);
  }

  /** The distinct keys of a changed fact: its id, its scope before and its scope after. */
  method KeysOfChange(existing: Fact, fact: Fact) returns (keys: set<string>)
    ensures keys == RowKeys(fact.id, existing.scopeKey) + RowKeys(fact.id, fact.scopeKey)
  {
    keys := {FactKey(fact.id)};
    if existing.scopeKey.Some? {
      keys := keys + {ScopeKey(existing.scopeKey.value)};
    }
    if fact.scopeKey.Some? {
      keys := keys + {ScopeKey(fact.scopeKey.value)};
    }
  }

  /** A changed fact raises its keys; an unchanged one raises none. */
  method RaiseChanged(revisions: map<string, nat>, existing: Fact, fact: Fact) returns (r: map<string, nat>)
    ensures r == Bump(revisions, ChangedKeys(existing, fact))
  {
    var keys := {};
    if existing != fact {
      keys := KeysOfChange(existing, fact);
    }
    r := RaiseEach(revisions, keys);
  }

  /** The list, and where each fact stands in it, represent a valid state of the table. */
  ghost predicate Holds(facts: seq<Fact>, place: map<string, nat>, s: State) {
    Represents(facts, place, s.table) && EphemeralLedger.Valid(s)
  }

  lemma ReplaceHolds(facts: seq<Fact>, place: map<string, nat>, s: State, i: nat, fact: Fact)
    requires Holds(facts, place, s) && i < |facts| && fact.id in s.table && facts[i] == s.table[fact.id]
    ensures Upsert(s, fact) == s.(table := Put(s.table, fact), revisions := Bump(s.revisions, ChangedKeys(s.table[fact.id], fact)))
    ensures Holds(facts[i := fact], place, Upsert(s, fact))
  {
    PutRepresents(facts, place, s.table, i, fact);
    UpsertValid(s, fact);
  }

  lemma AppendHolds(facts: seq<Fact>, place: map<string, nat>, s: State, fact: Fact)
    requires Holds(facts, place, s) && fact.id !in s.table
    ensures Upsert(s, fact) == State(Put(s.table, fact), s.sequence + 1, s.created[fact.id := s.sequence + 1], s.revisions)
    ensures Holds(facts + [fact], place[fact.id := |facts|], Upsert(s, fact))
  {
    PutRepresents(facts, place, s.table, |facts|, fact);
    UpsertValid(s, fact);
  }

  class Ledger {
    var facts: seq<Fact>
    var sequence: nat
    var created: map<string, nat>
    var revisions: map<string, nat>
    ghost var table: Items
    ghost var place: map<string, nat>

    ghost function Contents(): State reads this { State(table, sequence, created, revisions) }

    ghost predicate Valid() reads this {
      Holds(facts, place, Contents())
    }

    constructor ()
      ensures Valid() && Contents() == EMPTY
    {
      facts, sequence, created, revisions, table, place := [], 0, map[], map[], map[], map[];
    }

    method UpsertFact(fact: Fact) returns (stored: Fact)
      requires Valid()
      modifies this
      ensures Valid() && stored == fact
      ensures Contents() == old(Upsert(Contents(), fact))
    {
      var i := Find(facts, fact.id);
      FoundIffStored(facts, place, table, i, fact.id);
      if i < |facts| {
        ReplaceAt(i, fact);
      } else {
        Append(fact);
      }
      stored := fact;
    }

    method ReplaceAt(i: nat, fact: Fact)
      requires Valid() && i < |facts| && fact.id in table && facts[i] == table[fact.id]
      modifies this
      ensures Valid() && Contents() == old(Upsert(Contents(), fact))
    {
      ghost var next := Upsert(Contents(), fact);
      ReplaceHolds(facts, place, Contents(), i, fact);
      Overwrite(i, fact, next);
    }

    /** The fields after a replacement, given that they hold the next state. */
    method Overwrite(i: nat, fact: Fact, ghost next: State)
      requires i < |facts| && fact.id in table && facts[i] == table[fact.id] && Holds(facts[i := fact], place, next)
      requires next == State(Put(table, fact), sequence, created, Bump(revisions, ChangedKeys(facts[i], fact)))
      modifies this
      ensures Valid() && Contents() == next
    {
      var raised := RaiseChanged(revisions, facts[i], fact);
      assert raised == next.revisions;
      revisions := raised;
      facts := facts[i := fact];
      table := next.table;
      assert Contents() == next;
    }

    method Append(fact: Fact)
      requires Valid() && fact.id !in table
      modifies this
      ensures Valid() && Contents() == old(Upsert(Contents(), fact))
    {
      ghost var next := Upsert(Contents(), fact);
      AppendHolds(facts, place, Contents(), fact);
      sequence := sequence + 1;
      created := created[fact.id := sequence];
      place := place[fact.id := |facts|];
      facts := facts + [fact];
      table := Put(table, fact);
      assert Contents() == next;
    }

    /** The facts of the list that belong on the page, in list order. */
    method Choose(q: Query, fence: nat) returns (chosen: seq<Fact>)
      requires Valid()
      ensures DistinctIds(chosen)
      ensures var items := Selected(table, created, q.grant, q.exactId, fence);
              forall f :: f in chosen <==> f.id in items && items[f.id] == f && After(q.afterId, f.id)
    {
      chosen := [];
      var i := 0;
      while i < |facts|
        invariant 0 <= i <= |facts|
        invariant DistinctIds(chosen)
        invariant forall f :: f in chosen ==> f in facts[..i]
        invariant forall j :: 0 <= j < i ==> (facts[j] in chosen <==> Wanted(q, fence, facts[j]))
      {
        var fact := facts[i];
        forall f | f in chosen ensures f.id != fact.id {
          var j :| 0 <= j < i && facts[j] == f;
          assert place[facts[j].id] == j && place[fact.id] == i;
        }
        assert facts[..i + 1] == facts[..i] + [fact];
        if Wanted(q, fence, fact) {
          chosen := chosen + [fact];
        }
        i := i + 1;
      }
      assert facts[..i] == facts;
      forall f ensures f in chosen <==> f.id in table && table[f.id] == f && Wanted(q, fence, f) {
        if f.id in table && table[f.id] == f {
          assert facts[place[f.id]] == f;
        }
        if f in chosen {
          var j :| 0 <= j < |facts| && facts[j] == f;
        }
      }
    }

    predicate Wanted(q: Query, fence: nat, fact: Fact) reads this {
      && Matches(q.grant, q.exactId, fact)
      && After(q.afterId, fact.id)
      && fact.id in created && created[fact.id] <= fence
    }

    method ReadRevisions(g: Grant) returns (seen: map<string, nat>)
      ensures seen == GrantedRevisions(Contents(), g)
    {
      var keys := RevisionKeys(g);
      var todo := keys;
      seen := map[];
      while todo != {}
        invariant todo <= keys && seen.Keys == keys - todo
        invariant forall k :: k in seen ==> seen[k] == Revision(Contents(), k)
      {
        var key :| key in todo;
        seen := seen[key := if key in revisions then revisions[key] else 0];
        todo := todo - {key};
      }
    }

    method CatalogPage(q: Query) returns (r: Result<(Page, Snapshot), PageError>)
      requires Valid()
      ensures r == PageRead(Contents(), q)
    {
      var current := ReadRevisions(q.grant);
      var snapshot := if q.snapshot.Some? then q.snapshot.value else Snapshot(Ephemeral(sequence), current);
      if snapshot.revisions != current {
        return Err(SourceChanged);
      }
      if snapshot.fence.Unreadable? || snapshot.fence.sequence > sequence {
        return Err(InvalidSnapshot);
      }
      var chosen := Choose(q, snapshot.fence.sequence);
      var records := SortBy(chosen, IdLeq);
      ghost var items := Selected(table, created, q.grant, q.exactId, snapshot.fence.sequence);
      SortedChoiceIsSelection(items, q.afterId, chosen);
      var page := TruncateRecords(items, IdsFrom(items, q.afterId), records, q.limit);
      r := Ok((page, snapshot));
    }
  }

  /** Cuts the sorted records at the limit; when some are dropped, the last kept id is the next one,
      and it always exists. */
  method TruncateRecords(ghost items: Items, ghost ids: seq<string>, all: seq<Fact>, requested: nat) returns (page: Page)
    requires forall id :: id in ids ==> id in items
    requires all == Pick(items, ids)
    ensures page == Cut(items, ids, requested)
  {
    var limit := Clamp(requested);
    var records := all;
    var more := |records| > limit;
    if more {
      records := records[..limit];
      assert records == Pick(items, ids[..limit]);
    }
    page := Page(records, if more then Some(records[|records| - 1].id) else None);
  }
}
