/** The in-memory fact ledger. It promises the same directory paging as the PostgreSQL adapter, with a
    creation sequence number in place of the transaction fence. */
module EphemeralLedger {
  import opened Common
  import opened FactCatalog

  /** The text of a fence, as far as it can be read back. */
  datatype Fence = Ephemeral(sequence: nat) | Unreadable

  datatype Snapshot = Snapshot(fence: Fence, revisions: map<string, nat>)

  datatype Query = Query(
    grant: Grant, exactId: Option<string>, afterId: Option<string>, snapshot: Option<Snapshot>, limit: nat)

  datatype PageError = SourceChanged | InvalidSnapshot

  /** The ledger's two guarded parts, with the list of facts seen as a table by id. */
  datatype State = State(table: Items, sequence: nat, created: map<string, nat>, revisions: map<string, nat>)

  const EMPTY: State := State(map[], 0, map[], map[])

  ghost predicate Valid(s: State) {
    && s.created.Keys == s.table.Keys
    && forall id :: id in s.created ==> s.created[id] <= s.sequence
  }

  function Revision(s: State, key: string): nat {
    if key in s.revisions then s.revisions[key] else 0
  }

  function Bump(revisions: map<string, nat>, keys: set<string>): map<string, nat> {
    map k | k in revisions.Keys + keys ::
      (if k in revisions then revisions[k] else 0) + (if k in keys then 1 else 0)
  }

  function ChangedKeys(stored: Fact, fact: Fact): set<string> {
    if stored == fact then {} else RowKeys(fact.id, stored.scopeKey) + RowKeys(fact.id, fact.scopeKey)
  }

  function Put(table: Items, fact: Fact): Items { table[fact.id := fact] }

  /** Inserting stamps the next sequence number; a change raises the keys of the fact before and after. */
  function Upsert(s: State, fact: Fact): State {
    if fact.id in s.table then
      s.(table := Put(s.table, fact), revisions := Bump(s.revisions, ChangedKeys(s.table[fact.id], fact)))
    else
      State(Put(s.table, fact), s.sequence + 1, s.created[fact.id := s.sequence + 1], s.revisions)
  }

  predicate Matches(g: Grant, exactId: Option<string>, fact: Fact) {
    && Authorized(g, fact.id, fact.scopeKey, Some(fact.boundary))
    && TermsMatch(g, fact.statement)
    && (exactId.None? || exactId.value == fact.id)
  }

  /** The granted, matching facts: what a directory answer consists of. */
  function Matching(table: Items, g: Grant, exactId: Option<string>): Items {
    map id | id in table && Matches(g, exactId, table[id]) :: table[id]
  }

  /** The facts a page selects: matching, and created no later than the fence. */
  function Selected(table: Items, created: map<string, nat>, g: Grant, exactId: Option<string>, fence: nat): Items {
    map id | id in table && Matches(g, exactId, table[id]) && id in created && created[id] <= fence :: table[id]
  }

  function GrantedRevisions(s: State, g: Grant): map<string, nat> {
    map key | key in RevisionKeys(g) :: Revision(s, key)
  }

  function PageRead(s: State, q: Query): Result<(Page, Snapshot), PageError>
  {
    var current := GrantedRevisions(s, q.grant);
    var snapshot := if q.snapshot.Some? then q.snapshot.value else Snapshot(Ephemeral(s.sequence), current);
    if snapshot.revisions != current then Err(SourceChanged)
    else if snapshot.fence.Unreadable? || snapshot.fence.sequence > s.sequence then Err(InvalidSnapshot)
    else
      var items := Selected(s.table, s.created, q.grant, q.exactId, snapshot.fence.sequence);
      Ok((PageAfter(items, q.afterId, q.limit), snapshot))
  }

  lemma UpsertValid(s: State, fact: Fact)
    requires Valid(s)
    ensures Valid(Upsert(s, fact))
  {
  }

  lemma UpsertRevision(s: State, fact: Fact, key: string)
    ensures var touched := fact.id in s.table && key in ChangedKeys(s.table[fact.id], fact);
            Revision(Upsert(s, fact), key) == Revision(s, key) + (if touched then 1 else 0)
  {
  }

  // ---- A paging client interleaved with upserts ----

  datatype World = World(state: State, session: Session<Snapshot>)

  datatype Event = Store(fact: Fact) | ReadPage(limit: nat)

  function ReadNext(s: State, g: Grant, exactId: Option<string>, session: Session<Snapshot>, limit: nat): Session<Snapshot>
  {
    match session
    case Fresh =>
      (match PageRead(s, Query(g, exactId, None, None, limit))
       case Ok(r) => Receive(r.1, [], r.0)
       case Err(_) => Failed)
    case Paging(snapshot, collected, after) =>
      (match PageRead(s, Query(g, exactId, Some(after), Some(snapshot), limit))
       case Ok(r) => Receive(r.1, collected, r.0)
       case Err(_) => Failed)
    case Done(_) => session
    case Failed => session
  }

  function Play(w: World, g: Grant, exactId: Option<string>, events: seq<Event>): World
    requires Valid(w.state)
    decreases |events|
  {
    if events == [] then w
    else
      match events[0]
      case Store(fact) =>
        Play(w.(state := Upsert(w.state, fact)), g, exactId, events[1..])
      case ReadPage(limit) =>
        Play(w.(session := ReadNext(w.state, g, exactId, w.session, limit)), g, exactId, events[1..])
  }

  ghost predicate KeysRaised(s0: State, s: State, fact: Fact) {
    forall k :: k in RowKeys(fact.id, fact.scopeKey) ==> Revision(s0, k) < Revision(s, k)
  }

  ghost predicate RevisionsGrew(s0: State, s: State) {
    forall k :: Revision(s0, k) <= Revision(s, k)
  }

  /** A fact stored at page one is still stored under its old creation stamp; if it has changed, the
      keys of its old and of its current version were raised. */
  ghost predicate Accounted(s0: State, s: State, id: string)
    requires id in s0.table
  {
    && id in s.table && id in s.created && id in s0.created && s.created[id] == s0.created[id]
    && (s.table[id] == s0.table[id] || (KeysRaised(s0, s, s0.table[id]) && KeysRaised(s0, s, s.table[id])))
  }

  /** Relative to page one: facts stored then are accounted for, later ones are stamped above the fence. */
  ghost predicate Since(s0: State, s: State) {
    && s0.sequence <= s.sequence
    && RevisionsGrew(s0, s)
    && (forall id :: id in s0.table ==> Accounted(s0, s, id))
    && (forall id :: id in s.table && id !in s0.table ==> id in s.created && s.created[id] > s0.sequence)
  }

  lemma UpsertGrows(s: State, fact: Fact)
    ensures RevisionsGrew(s, Upsert(s, fact))
  {
    forall k ensures Revision(s, k) <= Revision(Upsert(s, fact), k) {
      UpsertRevision(s, fact, k);
    }
  }

  lemma ChangeRaises(s0: State, s: State, fact: Fact)
    requires RevisionsGrew(s0, s) && fact.id in s.table && s.table[fact.id] != fact
    ensures KeysRaised(s0, Upsert(s, fact), s.table[fact.id]) && KeysRaised(s0, Upsert(s, fact), fact)
  {
    forall k ensures Revision(Upsert(s, fact), k)
                     == Revision(s, k) + (if k in ChangedKeys(s.table[fact.id], fact) then 1 else 0) {
      UpsertRevision(s, fact, k);
    }
  }

  lemma UpsertAccounts(s0: State, s: State, fact: Fact, id: string)
    requires Valid(s0) && Valid(s) && RevisionsGrew(s0, s) && id in s0.table && Accounted(s0, s, id)
    ensures Accounted(s0, Upsert(s, fact), id)
  {
    UpsertGrows(s, fact);
    if id == fact.id && s.table[id] != fact {
      ChangeRaises(s0, s, fact);
    }
  }

  lemma NewcomersAreLater(s0: State, s: State, fact: Fact)
    requires Valid(s) && Since(s0, s)
    ensures var s' := Upsert(s, fact);
            s0.sequence <= s'.sequence && forall id :: id in s'.table && id !in s0.table ==> id in s'.created && s'.created[id] > s0.sequence
  {
  }

  lemma UpsertKeepsSince(s0: State, s: State, fact: Fact)
    requires Valid(s0) && Valid(s) && Since(s0, s)
    ensures Valid(Upsert(s, fact)) && Since(s0, Upsert(s, fact))
  {
    var s' := Upsert(s, fact);
    UpsertGrows(s, fact);
    UpsertValid(s, fact);
    NewcomersAreLater(s0, s, fact);
    forall id | id in s0.table ensures Accounted(s0, s', id) {
      UpsertAccounts(s0, s, fact, id);
    }
  }

  /** A fact whose old or current version is granted is unchanged as long as no granted revision has moved. */
  lemma GrantedIsUnchanged(s0: State, s: State, g: Grant, exactId: Option<string>, id: string)
    requires Since(s0, s) && GrantedRevisions(s0, g) == GrantedRevisions(s, g)
    requires id in s0.table && id in s.table && (Matches(g, exactId, s0.table[id]) || Matches(g, exactId, s.table[id]))
    ensures s.table[id] == s0.table[id]
  {
    assert Accounted(s0, s, id);
    var fact := if Matches(g, exactId, s0.table[id]) then s0.table[id] else s.table[id];
    AuthorizedIsFenced(g, id, fact.scopeKey, Some(fact.boundary));
    var k :| k in RowKeys(id, fact.scopeKey) && k in RevisionKeys(g);
    assert GrantedRevisions(s0, g)[k] == GrantedRevisions(s, g)[k];
  }

  lemma UnmovedRevisionsFreeze(s0: State, s: State, g: Grant, exactId: Option<string>)
    requires Valid(s0) && Since(s0, s)
    requires GrantedRevisions(s0, g) == GrantedRevisions(s, g)
    ensures Selected(s.table, s.created, g, exactId, s0.sequence) == Matching(s0.table, g, exactId)
  {
    forall id | id in s0.table && (Matches(g, exactId, s0.table[id]) || Matches(g, exactId, s.table[id]))
      ensures s.table[id] == s0.table[id]
    {
      GrantedIsUnchanged(s0, s, g, exactId, id);
    }
  }

  ghost predicate Follows(s0: State, g: Grant, exactId: Option<string>, session: Session<Snapshot>)
    requires Valid(s0)
  {
    && !session.Fresh?
    && Frozen(Matching(s0.table, g, exactId), session)
    && (session.Paging? ==> session.snapshot == Snapshot(Ephemeral(s0.sequence), GrantedRevisions(s0, g)))
  }

  lemma SinceItself(s: State)
    requires Valid(s)
    ensures Since(s, s)
  {
  }

  lemma FirstPageReads(s: State, g: Grant, exactId: Option<string>, limit: nat)
    requires Valid(s)
    ensures PageRead(s, Query(g, exactId, None, None, limit))
            == Ok((PageAfter(Matching(s.table, g, exactId), None, limit), Snapshot(Ephemeral(s.sequence), GrantedRevisions(s, g))))
  {
    SinceItself(s);
    UnmovedRevisionsFreeze(s, s, g, exactId);
  }

  lemma FirstPageFollows(s: State, g: Grant, exactId: Option<string>, limit: nat)
    requires Valid(s)
    ensures Follows(s, g, exactId, ReadNext(s, g, exactId, Fresh, limit))
  {
    FirstPageReads(s, g, exactId, limit);
    FirstStep(Matching(s.table, g, exactId), Snapshot(Ephemeral(s.sequence), GrantedRevisions(s, g)), limit,
              ReadNext(s, g, exactId, Fresh, limit));
  }

  lemma PageReadIsFrozen(s0: State, s: State, g: Grant, exactId: Option<string>, after: string, limit: nat)
    requires Valid(s0) && Since(s0, s)
    requires GrantedRevisions(s0, g) == GrantedRevisions(s, g)
    ensures var snapshot := Snapshot(Ephemeral(s0.sequence), GrantedRevisions(s0, g));
            PageRead(s, Query(g, exactId, Some(after), Some(snapshot), limit))
            == Ok((PageAfter(Matching(s0.table, g, exactId), Some(after), limit), snapshot))
  {
    UnmovedRevisionsFreeze(s0, s, g, exactId);
  }

  lemma ReadNextReceives(s: State, g: Grant, exactId: Option<string>, session: Session<Snapshot>, limit: nat, page: Page)
    requires session.Paging?
    requires PageRead(s, Query(g, exactId, Some(session.after), Some(session.snapshot), limit)) == Ok((page, session.snapshot))
    ensures ReadNext(s, g, exactId, session, limit) == Receive(session.snapshot, session.collected, page)
  {
  }

  lemma LaterPageFollows(s0: State, s: State, g: Grant, exactId: Option<string>, session: Session<Snapshot>, limit: nat)
    requires Valid(s0) && Valid(s) && Since(s0, s) && Follows(s0, g, exactId, session)
    ensures Follows(s0, g, exactId, ReadNext(s, g, exactId, session, limit))
  {
    if session.Paging? && GrantedRevisions(s0, g) == GrantedRevisions(s, g) {
      var items := Matching(s0.table, g, exactId);
      PageReadIsFrozen(s0, s, g, exactId, session.after, limit);
      ReadNextReceives(s, g, exactId, session, limit, PageAfter(items, Some(session.after), limit));
      LaterStep(items, session, limit, ReadNext(s, g, exactId, session, limit));
    } else if session.Paging? {
      MismatchFails(s, g, exactId, session, limit);
      FailureFollows(s0, g, exactId);
    }
  }

  lemma MismatchFails(s: State, g: Grant, exactId: Option<string>, session: Session<Snapshot>, limit: nat)
    requires session.Paging? && session.snapshot.revisions != GrantedRevisions(s, g)
    ensures ReadNext(s, g, exactId, session, limit).Failed?
  {
  }

  lemma FailureFollows(s0: State, g: Grant, exactId: Option<string>)
    requires Valid(s0)
    ensures Follows(s0, g, exactId, Failed)
  {
  }

  lemma {:induction false} PlayFollows(s0: State, w: World, g: Grant, exactId: Option<string>, events: seq<Event>)
    requires Valid(s0) && Valid(w.state) && Since(s0, w.state) && Follows(s0, g, exactId, w.session)
    ensures Follows(s0, g, exactId, Play(w, g, exactId, events).session)
    decreases |events|
  {
    if events != [] {
      match events[0]
      case Store(fact) =>
        UpsertKeepsSince(s0, w.state, fact);
        PlayFollows(s0, w.(state := Upsert(w.state, fact)), g, exactId, events[1..]);
      case ReadPage(limit) =>
        LaterPageFollows(s0, w.state, g, exactId, w.session, limit);
        PlayFollows(s0, w.(session := ReadNext(w.state, g, exactId, w.session, limit)), g, exactId, events[1..]);
    }
  }

  function StoreAll(s: State, facts: seq<Fact>): (r: State)
    requires Valid(s)
    ensures Valid(r)
    decreases |facts|
  {
    if facts == [] then s
    else
      StoreAll(Upsert(s, facts[0]), facts[1..])
  }

  /** The in-memory ledger keeps the same promise: with any upserts before and between the pages and any
      page sizes, a session that ended without an error returned exactly the facts that matched at page
      one, with their contents of that moment, each once, in ascending id order. */
  lemma PaginationIsFrozen(before: seq<Fact>, g: Grant, exactId: Option<string>, limit: nat, events: seq<Event>)
    ensures var s0 := StoreAll(EMPTY, before);
            var w := Play(World(s0, ReadNext(s0, g, exactId, Fresh, limit)), g, exactId, events);
            var answer := Answer(Matching(s0.table, g, exactId));
            && !w.session.Fresh?
            && (w.session.Done? ==> w.session.collected == answer)
            && (w.session.Paging? ==> 0 < |w.session.collected| < |answer| && w.session.collected <= answer)
  {
    var s0 := StoreAll(EMPTY, before);
    FirstPageFollows(s0, g, exactId, limit);
    PlayFollows(s0, World(s0, ReadNext(s0, g, exactId, Fresh, limit)), g, exactId, events);
  }

  ghost predicate Absent(facts: seq<Fact>, id: string) {
    forall j :: 0 <= j < |facts| ==> facts[j].id != id
  }

  /** The fact is the last one stored under its id. */
  ghost predicate LastStored(facts: seq<Fact>, f: Fact) {
    exists i :: 0 <= i < |facts| && facts[i] == f && Absent(facts[i + 1..], f.id)
  }

  ghost predicate Stored(s: State, f: Fact) { f.id in s.table && s.table[f.id] == f }

  lemma UpsertStores(s: State, fact: Fact, f: Fact)
    ensures Stored(Upsert(s, fact), f) <==> fact == f || (Stored(s, f) && fact.id != f.id)
  {
  }

  lemma AbsentCons(facts: seq<Fact>, id: string)
    requires facts != []
    ensures Absent(facts, id) <==> facts[0].id != id && Absent(facts[1..], id)
  {
    assert forall j :: 0 <= j < |facts[1..]| ==> facts[1..][j] == facts[j + 1];
    if facts[0].id != id && Absent(facts[1..], id) {
      forall j | 0 <= j < |facts| ensures facts[j].id != id {
        assert j == 0 || facts[1..][j - 1] == facts[j];
      }
    }
  }

  lemma LastStoredCons(facts: seq<Fact>, f: Fact)
    requires facts != []
    ensures LastStored(facts, f) <==> LastStored(facts[1..], f) || (facts[0] == f && Absent(facts[1..], f.id))
  {
    var rest := facts[1..];
    if i :| 0 < i < |facts| && facts[i] == f && Absent(facts[i + 1..], f.id) {
      assert rest[i - 1] == f && rest[i..] == facts[i + 1..];
    }
    if i :| 0 <= i < |rest| && rest[i] == f && Absent(rest[i + 1..], f.id) {
      assert facts[i + 1] == f && facts[i + 2..] == rest[i + 1..];
    }
  }

  lemma {:induction false} StoreAllHolds(s: State, facts: seq<Fact>, f: Fact)
    requires Valid(s)
    ensures Stored(StoreAll(s, facts), f) <==> LastStored(facts, f) || (Stored(s, f) && Absent(facts, f.id))
    decreases |facts|
  {
    if facts != [] {
      UpsertValid(s, facts[0]);
      UpsertStores(s, facts[0], f);
      StoreAllHolds(Upsert(s, facts[0]), facts[1..], f);
      LastStoredCons(facts, f);
      AbsentCons(facts, f.id);
    }
  }

  /** Whatever is stored before page one and between the pages, a session that ends has collected, in strictly ascending id
      order, exactly the facts last stored before page one that the grant shows. */
  lemma SessionShowsExactly(before: seq<Fact>, g: Grant, exactId: Option<string>, limit: nat, events: seq<Event>)
    ensures var s0 := StoreAll(EMPTY, before);
            var session := Play(World(s0, ReadNext(s0, g, exactId, Fresh, limit)), g, exactId, events).session;
            session.Done? ==>
              IdsAscend(session.collected)
              && forall f :: f in session.collected
                   <==> LastStored(before, f) && Shown(g, exactId, f.id, f.scopeKey, Some(f.boundary), f.statement)
  {
    PaginationIsFrozen(before, g, exactId, limit, events);
    var s0 := StoreAll(EMPTY, before);
    var items := Matching(s0.table, g, exactId);
    AnswerExactly(items);
    forall f: Fact ensures f.id in items && items[f.id] == f
                     <==> LastStored(before, f) && Shown(g, exactId, f.id, f.scopeKey, Some(f.boundary), f.statement) {
      ShownExactly(g, exactId, f.id, f.scopeKey, Some(f.boundary), f.statement);
      StoreAllHolds(EMPTY, before, f);
    }
  }

  /** The fence is exact: an upsert moves a granted revision exactly when it changes a stored fact that
      has a granted id, or a granted scope before or after the change. */
  lemma FenceMovesExactly(s: State, fact: Fact, g: Grant)
    requires Valid(s)
    ensures var t := s.table;
            (exists k :: k in RevisionKeys(g) && Revision(s, k) < Revision(Upsert(s, fact), k))
            <==> fact.id in t && t[fact.id] != fact
                 && (|| fact.id in g.factIds
                     || (fact.scopeKey.Some? && fact.scopeKey.value in g.scopeKeys)
                     || (t[fact.id].scopeKey.Some? && t[fact.id].scopeKey.value in g.scopeKeys))
  {
    var t := s.table;
    if fact.id in t && t[fact.id] != fact {
      var stored := t[fact.id];
      UpsertRevision(s, fact, FactKey(fact.id));
      if fact.id in g.factIds {
        assert FactKey(fact.id) in RevisionKeys(g);
      } else if fact.scopeKey.Some? && fact.scopeKey.value in g.scopeKeys {
        UpsertRevision(s, fact, ScopeKey(fact.scopeKey.value));
        assert ScopeKey(fact.scopeKey.value) in RevisionKeys(g);
      } else if stored.scopeKey.Some? && stored.scopeKey.value in g.scopeKeys {
        UpsertRevision(s, fact, ScopeKey(stored.scopeKey.value));
        assert ScopeKey(stored.scopeKey.value) in RevisionKeys(g);
      } else {
        UngrantedIsUnfenced(g, fact.id, fact.scopeKey);
        UngrantedIsUnfenced(g, fact.id, stored.scopeKey);
        forall k | k in RevisionKeys(g) ensures Revision(s, k) == Revision(Upsert(s, fact), k) {
          UpsertRevision(s, fact, k);
        }
      }
    } else {
      forall k ensures Revision(s, k) == Revision(Upsert(s, fact), k) {
        UpsertRevision(s, fact, k);
      }
    }
  }
}
