/** Paging the fact directory over the PostgreSQL tables: the first page records a creation fence and
    the granted revisions; every later page re-checks the revisions and filters rows by the fence. */
module PostgresCatalog {
  import opened Common
  import opened FactCatalog
  import opened PostgresTransactions

  /** The value of `pg_current_snapshot()`. */
  datatype Fence = Fence(xmin: nat, xmax: nat, xip: set<nat>)

  datatype Snapshot = Snapshot(fence: Fence, revisions: map<string, nat>)

  datatype Query = Query(
    grant: Grant, exactId: Option<string>, afterId: Option<string>, snapshot: Option<Snapshot>, limit: nat)

  datatype PageError = SourceChanged

  predicate IsLowest(m: nat, s: set<nat>, top: nat) {
    (m in s || m == top) && m <= top && forall x :: x in s ==> m <= x
  }

  lemma LowestExists(s: set<nat>, top: nat)
    ensures exists m :: IsLowest(m, s, top)
  {
    if s == {} {
      assert IsLowest(top, s, top);
    } else {
      var x :| x in s;
      LowestExists(s - {x}, top);
      var m :| IsLowest(m, s - {x}, top);
      var low := if x < m then x else m;
      forall y | y in s ensures low <= y {
        assert y == x || y in s - {x};
      }
      assert IsLowest(low, s, top);
    }
  }

  function FenceOf(db: Db): Fence {
    var xmax := db.lastCompleted + 1;
    var xip := set x | x in db.active && x < xmax;
    LowestExists(xip, xmax);
    var xmin: nat :| IsLowest(xmin, xip, xmax);
    Fence(xmin, xmax, xip)
  }

  /** `pg_visible_in_snapshot`: the transaction had completed when the snapshot was taken. */
  predicate Visible(f: Fence, xid: nat) {
    xid < f.xmin || (xid < f.xmax && xid !in f.xip)
  }

  predicate Keyed(rows: map<string, Row>) {
    forall id :: id in rows ==> rows[id].payload.id == id
  }

  predicate Matches(g: Grant, exactId: Option<string>, id: string, row: Row) {
    && Authorized(g, id, row.scopeKey, row.boundary)
    && TermsMatch(g, row.payload.statement)
    && (exactId.None? || exactId.value == id)
  }

  /** The granted, matching rows of a table: what a directory answer consists of. */
  function Matching(rows: map<string, Row>, g: Grant, exactId: Option<string>): Items
    requires Keyed(rows)
  {
    map id | id in rows && Matches(g, exactId, id, rows[id]) :: rows[id].payload
  }

  /** The rows the page statement selects: matching, and created before the fence. */
  function Selected(rows: map<string, Row>, g: Grant, exactId: Option<string>, fence: Fence): Items
    requires Keyed(rows)
  {
    map id | id in rows && Matches(g, exactId, id, rows[id]) && Visible(fence, rows[id].creationXid) ::
      rows[id].payload
  }

  function GrantedRevisions(db: Db, g: Grant): map<string, nat> {
    map key | key in RevisionKeys(g) :: Revision(db, key)
  }

  /** One page read; a repeatable-read transaction sees one committed state throughout. */
  function PageRead(db: Db, q: Query): Result<(Page, Snapshot), PageError>
    requires Keyed(db.rows)
  {
    var revisions := GrantedRevisions(db, q.grant);
    if q.snapshot.Some? && q.snapshot.value.revisions != revisions then Err(SourceChanged)
    else
      var snapshot := if q.snapshot.Some? then q.snapshot.value else Snapshot(FenceOf(db), revisions);
      Ok((PageAfter(Selected(db.rows, q.grant, q.exactId, snapshot.fence), q.afterId, q.limit), snapshot))
  }

  // ---- A paging client interleaved with writers ----

  datatype World = World(db: Db, session: Session<Snapshot>)

  datatype Event = Writer(step: Step) | ReadPage(limit: nat)

  function ReadNext(db: Db, g: Grant, exactId: Option<string>, session: Session<Snapshot>, limit: nat): Session<Snapshot>
    requires Keyed(db.rows)
  {
    match session
    case Fresh =>
      (match PageRead(db, Query(g, exactId, None, None, limit))
       case Ok(r) => Receive(r.1, [], r.0)
       case Err(_) => Failed)
    case Paging(snapshot, collected, after) =>
      (match PageRead(db, Query(g, exactId, Some(after), Some(snapshot), limit))
       case Ok(r) => Receive(r.1, collected, r.0)
       case Err(_) => Failed)
    case Done(_) => session
    case Failed => session
  }

  function Play(w: World, g: Grant, exactId: Option<string>, events: seq<Event>): World
    requires Inv(w.db)
    decreases |events|
  {
    if events == [] then w
    else
      match events[0]
      case Writer(step) =>
        NextPreservesInv(w.db, step);
        Play(w.(db := Next(w.db, step)), g, exactId, events[1..])
      case ReadPage(limit) =>
        Play(w.(session := ReadNext(w.db, g, exactId, w.session, limit)), g, exactId, events[1..])
  }

  // ---- The fence is exactly "completed when page one was read" ----

  lemma FenceIsExact(db: Db, xid: nat)
    requires XidsOk(db)
    ensures Visible(FenceOf(db), xid) <==> Settled(db, xid)
  {
    var f := FenceOf(db);
    assert IsLowest(f.xmin, f.xip, f.xmax);
    assert xid in f.xip <==> xid in db.active && xid < f.xmax;
  }

  lemma FirstPageSeesAllCommitted(db: Db, g: Grant, exactId: Option<string>)
    requires Inv(db)
    ensures Selected(db.rows, g, exactId, FenceOf(db)) == Matching(db.rows, g, exactId)
  {
    forall id | id in db.rows ensures Visible(FenceOf(db), db.rows[id].creationXid) {
      FenceIsExact(db, db.rows[id].creationXid);
    }
  }

  // ---- What later commits can and cannot have done, relative to page one ----

  ghost predicate KeysRaised(db0: Db, db: Db, keys: set<string>) {
    forall k :: k in keys ==> Revision(db0, k) < Revision(db, k)
  }

  ghost predicate SameRow(db0: Db, db: Db, id: string) {
    id in db0.rows && id in db.rows && db0.rows[id] == db.rows[id]
  }

  ghost predicate RevisionsGrew(db0: Db, db: Db) {
    forall k :: Revision(db0, k) <= Revision(db, k)
  }

  /** Any row present now is unchanged since `db0`, or was created too late for the fence, or its keys were raised. */
  ghost predicate RowsAccounted(db0: Db, db: Db) {
    forall id :: id in db.rows ==>
      SameRow(db0, db, id) || !Visible(FenceOf(db0), db.rows[id].creationXid) || KeysRaised(db0, db, Keys(db.rows[id]))
  }

  /** Any row present at `db0` is still there unchanged, or its keys were raised. */
  ghost predicate FrozenAccounted(db0: Db, db: Db) {
    forall id :: id in db0.rows ==> SameRow(db0, db, id) || KeysRaised(db0, db, Keys(db0.rows[id]))
  }

  /** Transactions that complete from now on are invisible to the fence. */
  ghost predicate OpenIsInvisible(db0: Db, db: Db) {
    && FenceOf(db0).xmin <= FenceOf(db0).xmax <= db.nextXid
    && forall x :: x in db.active ==> !Visible(FenceOf(db0), x)
  }

  ghost predicate Since(db0: Db, db: Db) {
    RevisionsGrew(db0, db) && RowsAccounted(db0, db) && FrozenAccounted(db0, db) && OpenIsInvisible(db0, db)
  }

  lemma SinceStart(db: Db)
    requires Inv(db)
    ensures Since(db, db)
  {
    forall x | x in db.active ensures !Visible(FenceOf(db), x) {
      FenceIsExact(db, x);
    }
    assert IsLowest(FenceOf(db).xmin, FenceOf(db).xip, FenceOf(db).xmax);
  }

  lemma CommitRevision(db: Db, xid: nat, key: string)
    requires xid in db.active
    ensures Revision(DoCommit(db, xid), key) == Revision(db, key) + db.active[xid].bumps[key]
  {
  }

  lemma CommitKeepsRowsAccounted(db0: Db, db: Db, xid: nat)
    requires Inv(db) && Since(db0, db) && xid in db.active
    ensures RowsAccounted(db0, DoCommit(db, xid))
  {
    var db' := DoCommit(db, xid);
    var tx := db.active[xid];
    assert TxOk(db, xid);
    forall id | id in db'.rows
      ensures SameRow(db0, db', id) || !Visible(FenceOf(db0), db'.rows[id].creationXid)
              || KeysRaised(db0, db', Keys(db'.rows[id]))
    {
      if id in tx.writes && !(id in db.rows && db.rows[id] == db'.rows[id]) {
        assert WriteOk(db, xid, tx, id);
      } else {
        assert SameRow(db0, db, id) || !Visible(FenceOf(db0), db.rows[id].creationXid)
               || KeysRaised(db0, db, Keys(db.rows[id]));
      }
      forall k ensures Revision(db', k) == Revision(db, k) + tx.bumps[k] {
        CommitRevision(db, xid, k);
      }
    }
  }

  lemma CommitKeepsFrozenAccounted(db0: Db, db: Db, xid: nat)
    requires Inv(db) && Since(db0, db) && xid in db.active
    ensures FrozenAccounted(db0, DoCommit(db, xid)) && RevisionsGrew(db0, DoCommit(db, xid))
  {
    var db' := DoCommit(db, xid);
    var tx := db.active[xid];
    assert TxOk(db, xid);
    forall k ensures Revision(db', k) == Revision(db, k) + tx.bumps[k] {
      CommitRevision(db, xid, k);
    }
    forall id | id in db0.rows ensures SameRow(db0, db', id) || KeysRaised(db0, db', Keys(db0.rows[id])) {
      assert SameRow(db0, db, id) || KeysRaised(db0, db, Keys(db0.rows[id]));
      if id in tx.writes {
        assert WriteOk(db, xid, tx, id);
      }
    }
  }

  lemma NextKeepsSince(db0: Db, db: Db, step: Step)
    requires Inv(db) && Since(db0, db)
    ensures Since(db0, Next(db, step))
  {
    if step.Commit? && step.xid in db.active {
      CommitKeepsRowsAccounted(db0, db, step.xid);
      CommitKeepsFrozenAccounted(db0, db, step.xid);
    } else {
      var db' := Next(db, step);
      assert db'.rows == db.rows && db'.revisions == db.revisions;
      assert forall k :: Revision(db', k) == Revision(db, k);
      assert forall id :: id in db.rows ==> (SameRow(db0, db', id) <==> SameRow(db0, db, id));
    }
  }

  /** While no granted revision has moved, the fence filter selects exactly page one's facts. */
  lemma UnmovedRevisionsFreeze(db0: Db, db: Db, g: Grant, exactId: Option<string>)
    requires Inv(db0) && Inv(db) && Since(db0, db)
    requires GrantedRevisions(db0, g) == GrantedRevisions(db, g)
    ensures Selected(db.rows, g, exactId, FenceOf(db0)) == Matching(db0.rows, g, exactId)
  {
    FirstPageSeesAllCommitted(db0, g, exactId);
    UnmovedKeys(db0, db, g);
    forall id | id in db.rows && Matches(g, exactId, id, db.rows[id]) && Visible(FenceOf(db0), db.rows[id].creationXid)
      ensures SameRow(db0, db, id)
    {
      AuthorizedIsFenced(g, id, db.rows[id].scopeKey, db.rows[id].boundary);
      var k :| k in Keys(db.rows[id]) && k in RevisionKeys(g);
    }
    forall id | id in db0.rows && Matches(g, exactId, id, db0.rows[id]) ensures SameRow(db0, db, id) {
      AuthorizedIsFenced(g, id, db0.rows[id].scopeKey, db0.rows[id].boundary);
      var k :| k in Keys(db0.rows[id]) && k in RevisionKeys(g);
    }
    assert Selected(db.rows, g, exactId, FenceOf(db0)).Keys == Matching(db0.rows, g, exactId).Keys by {
      AllVisible(db0);
    }
  }

  lemma AllVisible(db0: Db)
    requires Inv(db0)
    ensures forall id :: id in db0.rows ==> Visible(FenceOf(db0), db0.rows[id].creationXid)
  {
    forall id | id in db0.rows ensures Visible(FenceOf(db0), db0.rows[id].creationXid) {
      FenceIsExact(db0, db0.rows[id].creationXid);
    }
  }

  lemma UnmovedKeys(db0: Db, db: Db, g: Grant)
    requires GrantedRevisions(db0, g) == GrantedRevisions(db, g)
    ensures forall k :: k in RevisionKeys(g) ==> Revision(db0, k) == Revision(db, k)
  {
    forall k | k in RevisionKeys(g) ensures Revision(db0, k) == Revision(db, k) {
      assert GrantedRevisions(db0, g)[k] == GrantedRevisions(db, g)[k];
    }
  }

  /** The session follows the frozen answer of `db0` and carries `db0`'s fence and revisions. */
  ghost predicate Follows(db0: Db, g: Grant, exactId: Option<string>, session: Session<Snapshot>)
    requires Inv(db0)
  {
    && !session.Fresh?
    && Frozen(Matching(db0.rows, g, exactId), session)
    && (session.Paging? ==> session.snapshot == Snapshot(FenceOf(db0), GrantedRevisions(db0, g)))
  }

  lemma FirstPageReads(db: Db, g: Grant, exactId: Option<string>, limit: nat)
    requires Inv(db)
    ensures PageRead(db, Query(g, exactId, None, None, limit))
            == Ok((PageAfter(Matching(db.rows, g, exactId), None, limit), Snapshot(FenceOf(db), GrantedRevisions(db, g))))
  {
    FirstPageSeesAllCommitted(db, g, exactId);
  }

  lemma FirstPageFollows(db: Db, g: Grant, exactId: Option<string>, limit: nat)
    requires Inv(db)
    ensures Follows(db, g, exactId, ReadNext(db, g, exactId, Fresh, limit))
  {
    FirstPageReads(db, g, exactId, limit);
    FirstStep(Matching(db.rows, g, exactId), Snapshot(FenceOf(db), GrantedRevisions(db, g)), limit,
              ReadNext(db, g, exactId, Fresh, limit));
  }

  lemma PageReadIsFrozen(db0: Db, db: Db, g: Grant, exactId: Option<string>, after: string, limit: nat)
    requires Inv(db0) && Inv(db) && Since(db0, db)
    requires GrantedRevisions(db0, g) == GrantedRevisions(db, g)
    ensures var snapshot := Snapshot(FenceOf(db0), GrantedRevisions(db0, g));
            PageRead(db, Query(g, exactId, Some(after), Some(snapshot), limit))
            == Ok((PageAfter(Matching(db0.rows, g, exactId), Some(after), limit), snapshot))
  {
    UnmovedRevisionsFreeze(db0, db, g, exactId);
  }

  lemma ReadNextReceives(db: Db, g: Grant, exactId: Option<string>, session: Session<Snapshot>, limit: nat, page: Page)
    requires Keyed(db.rows) && session.Paging?
    requires PageRead(db, Query(g, exactId, Some(session.after), Some(session.snapshot), limit)) == Ok((page, session.snapshot))
    ensures ReadNext(db, g, exactId, session, limit) == Receive(session.snapshot, session.collected, page)
  {
  }

  lemma LaterPageFollows(db0: Db, db: Db, g: Grant, exactId: Option<string>, session: Session<Snapshot>, limit: nat)
    requires Inv(db0) && Inv(db) && Since(db0, db) && Follows(db0, g, exactId, session)
    ensures Follows(db0, g, exactId, ReadNext(db, g, exactId, session, limit))
  {
    if session.Paging? && GrantedRevisions(db0, g) == GrantedRevisions(db, g) {
      var items := Matching(db0.rows, g, exactId);
      PageReadIsFrozen(db0, db, g, exactId, session.after, limit);
      ReadNextReceives(db, g, exactId, session, limit, PageAfter(items, Some(session.after), limit));
      LaterStep(items, session, limit, ReadNext(db, g, exactId, session, limit));
    } else if session.Paging? {
      ReadFailsOnMismatch(db, g, exactId, session, limit);
      FailureFollows(db0, g, exactId);
    }
  }

  lemma FailureFollows(db0: Db, g: Grant, exactId: Option<string>)
    requires Inv(db0)
    ensures Follows(db0, g, exactId, Failed)
  {
  }

  lemma {:induction false} PlayFollows(db0: Db, w: World, g: Grant, exactId: Option<string>, events: seq<Event>)
    requires Inv(db0) && Inv(w.db) && Since(db0, w.db) && Follows(db0, g, exactId, w.session)
    ensures var w' := Play(w, g, exactId, events);
            Inv(w'.db) && Since(db0, w'.db) && Follows(db0, g, exactId, w'.session)
    decreases |events|
  {
    if events != [] {
      match events[0]
      case Writer(step) =>
        NextPreservesInv(w.db, step);
        NextKeepsSince(db0, w.db, step);
        PlayFollows(db0, w.(db := Next(w.db, step)), g, exactId, events[1..]);
      case ReadPage(limit) =>
        LaterPageFollows(db0, w.db, g, exactId, w.session, limit);
        PlayFollows(db0, w.(session := ReadNext(w.db, g, exactId, w.session, limit)), g, exactId, events[1..]);
    }
  }

  /** The state of the tables when page one is read, after any history of writers. */
  function Reached(before: seq<Step>): (db: Db)
    ensures Inv(db)
  {
    RunPreservesInv(EMPTY, before);
    Run(EMPTY, before)
  }

  /** Main theorem. After any history, read page one; then let any interleaving of writer statements,
      commits, aborts and further pages of any size happen. If the session has come to an end without
      an error, what it returned is exactly the granted, matching rows committed at page one, with
      their contents of that moment, each once, in ascending id order. At any earlier point it holds
      a prefix of that answer. */
  lemma PaginationIsFrozen(before: seq<Step>, g: Grant, exactId: Option<string>, limit: nat, events: seq<Event>)
    ensures var db0 := Reached(before);
            var w := Play(World(db0, ReadNext(db0, g, exactId, Fresh, limit)), g, exactId, events);
            var answer := Answer(Matching(db0.rows, g, exactId));
            && !w.session.Fresh?
            && (w.session.Done? ==> w.session.collected == answer)
            && (w.session.Paging? ==> 0 < |w.session.collected| < |answer| && w.session.collected <= answer)
  {
    var db0 := Reached(before);
    FirstPageFollows(db0, g, exactId, limit);
    SinceStart(db0);
    PlayFollows(db0, World(db0, ReadNext(db0, g, exactId, Fresh, limit)), g, exactId, events);
  }

  // ---- When a page fails, and when it must not ----

  /** Some granted revision has risen. */
  ghost predicate Moved(db0: Db, db: Db, g: Grant) { exists k :: k in RevisionKeys(g) && Revision(db0, k) < Revision(db, k) }

  lemma MovedRevision(db0: Db, db: Db, g: Grant)
    requires RevisionsGrew(db0, db)
    ensures GrantedRevisions(db0, g) != GrantedRevisions(db, g)
            <==> exists k :: k in RevisionKeys(g) && Revision(db0, k) < Revision(db, k)
  {
    if k :| k in RevisionKeys(g) && Revision(db0, k) < Revision(db, k) {
      assert GrantedRevisions(db0, g)[k] != GrantedRevisions(db, g)[k];
    } else {
      assert GrantedRevisions(db0, g) == GrantedRevisions(db, g);
    }
  }

  lemma ReadFailsOnMismatch(db: Db, g: Grant, exactId: Option<string>, session: Session<Snapshot>, limit: nat)
    requires Keyed(db.rows) && session.Paging?
    ensures ReadNext(db, g, exactId, session, limit).Failed? <==> session.snapshot.revisions != GrantedRevisions(db, g)
  {
  }

  /** A page fails exactly when some granted revision has moved since page one. */
  lemma PageFailsExactly(db0: Db, db: Db, g: Grant, exactId: Option<string>, session: Session<Snapshot>, limit: nat)
    requires Inv(db0) && Inv(db) && Since(db0, db) && Follows(db0, g, exactId, session) && session.Paging?
    ensures ReadNext(db, g, exactId, session, limit).Failed?
            <==> Moved(db0, db, g)
  {
    MovedRevision(db0, db, g);
    ReadFailsOnMismatch(db, g, exactId, session, limit);
  }

  /** The world after page one, read after any history of writers, and any further events. */
  function Played(before: seq<Step>, g: Grant, exactId: Option<string>, limit: nat, events: seq<Event>): World {
    var db0 := Reached(before);
    Play(World(db0, ReadNext(db0, g, exactId, Fresh, limit)), g, exactId, events)
  }

  lemma PlayedFollows(before: seq<Step>, g: Grant, exactId: Option<string>, limit: nat, events: seq<Event>)
    ensures var db0 := Reached(before);
            var w := Played(before, g, exactId, limit, events);
            Inv(w.db) && Since(db0, w.db) && Follows(db0, g, exactId, w.session)
  {
    var db0 := Reached(before);
    FirstPageFollows(db0, g, exactId, limit);
    SinceStart(db0);
    PlayFollows(db0, World(db0, ReadNext(db0, g, exactId, Fresh, limit)), g, exactId, events);
  }

  /** The row was committed when page one was read, and the grant shows it. */
  ghost predicate ShownRow(rows: map<string, Row>, g: Grant, exactId: Option<string>, f: Fact) {
    f.id in rows && rows[f.id].payload == f && Shown(g, exactId, f.id, rows[f.id].scopeKey, rows[f.id].boundary, f.statement)
  }

  /** Over every history and every interleaving, a session that ends has collected, in strictly ascending id order, exactly
      the facts that were committed when page one was read and that the grant shows. */
  lemma SessionShowsExactly(before: seq<Step>, g: Grant, exactId: Option<string>, limit: nat, events: seq<Event>)
    requires Played(before, g, exactId, limit, events).session.Done?
    ensures var collected := Played(before, g, exactId, limit, events).session.collected;
            IdsAscend(collected) && forall f :: f in collected <==> ShownRow(Reached(before).rows, g, exactId, f)
  {
    PaginationIsFrozen(before, g, exactId, limit, events);
    var rows := Reached(before).rows;
    var items := Matching(rows, g, exactId);
    AnswerExactly(items);
    forall f: Fact ensures f.id in items && items[f.id] == f <==> ShownRow(rows, g, exactId, f) {
      if f.id in rows {
        ShownExactly(g, exactId, f.id, rows[f.id].scopeKey, rows[f.id].boundary, rows[f.id].payload.statement);
      }
    }
  }

  /** Over every run: the next page of a session that is under way fails if and only if some granted revision has moved
      since page one was read. */
  lemma NextPageFailsExactly(before: seq<Step>, g: Grant, exactId: Option<string>, limit: nat, events: seq<Event>, next: nat)
    requires Played(before, g, exactId, limit, events).session.Paging?
    ensures var w := Played(before, g, exactId, limit, events);
            Keyed(w.db.rows) && (ReadNext(w.db, g, exactId, w.session, next).Failed? <==> Moved(Reached(before), w.db, g))
  {
    var w := Played(before, g, exactId, limit, events);
    PlayedFollows(before, g, exactId, limit, events);
    PageFailsExactly(Reached(before), w.db, g, exactId, w.session, next);
  }

  /** A session without error either ends with this page or has grown by a full page. */
  lemma PageMakesProgress(db0: Db, db: Db, g: Grant, exactId: Option<string>, session: Session<Snapshot>, limit: nat)
    requires Inv(db0) && Inv(db) && Since(db0, db) && Follows(db0, g, exactId, session) && session.Paging?
    ensures var s' := ReadNext(db, g, exactId, session, limit);
            s'.Failed? || s'.Done? || (s'.Paging? && |s'.collected| == |session.collected| + Clamp(limit))
  {
    if GrantedRevisions(db0, g) == GrantedRevisions(db, g) {
      var items := Matching(db0.rows, g, exactId);
      PageReadIsFrozen(db0, db, g, exactId, session.after, limit);
      ReadNextReceives(db, g, exactId, session, limit, PageAfter(items, Some(session.after), limit));
      LaterStep(items, session, limit, ReadNext(db, g, exactId, session, limit));
    }
  }

  /** Committing a change to a stored row that is authorized before or after the change moves the grant's fence. */
  lemma GrantedChangeMovesFence(db: Db, xid: nat, g: Grant, id: string)
    requires Inv(db) && xid in db.active && !SameRow(db, DoCommit(db, xid), id)
    requires var db' := DoCommit(db, xid);
             || (id in db.rows && Authorized(g, id, db.rows[id].scopeKey, db.rows[id].boundary))
             || (id in db'.rows && db'.rows[id].creationXid != xid
                 && Authorized(g, id, db'.rows[id].scopeKey, db'.rows[id].boundary))
    ensures exists k :: k in RevisionKeys(g) && Revision(db, k) < Revision(DoCommit(db, xid), k)
  {
    var db' := DoCommit(db, xid);
    assert TxOk(db, xid);
    assert WriteOk(db, xid, db.active[xid], id);
    var row := if id in db.rows && Authorized(g, id, db.rows[id].scopeKey, db.rows[id].boundary)
               then db.rows[id] else db'.rows[id];
    AuthorizedIsFenced(g, id, row.scopeKey, row.boundary);
    var k :| k in Keys(row) && k in RevisionKeys(g);
    CommitRevision(db, xid, k);
  }

  /** The keys a statement adds to the pending increments of its transaction. */
  function StepKeys(db: Db, step: Step): set<string> {
    match step
    case Update(xid, id, payload, scopeKey, boundary) =>
      if Next(db, step) == db then {}
      else
        var prior := Lookup(db, xid, id).value;
        TriggerKeys(prior, Some(Row(payload, scopeKey, boundary, prior.creationXid)))
    case Delete(xid, id) =>
      if Next(db, step) == db then {} else TriggerKeys(Lookup(db, xid, id).value, None)
    case _ => {}
  }

  /** Pure inserts, rewrites with identical contents, and updates or deletions of rows that lie outside
      the granted ids and scopes both before and after, touch no revision of the grant. */
  lemma HarmlessStatement(db: Db, step: Step, g: Grant)
    requires Inv(db)
    requires step.Update? || step.Delete? ==>
               step.xid in db.active && Lookup(db, step.xid, step.id).Some?
    requires step.Update? ==>
               var prior := Lookup(db, step.xid, step.id).value;
               || (prior.payload == step.payload && prior.scopeKey == step.scopeKey && prior.boundary == step.boundary)
               || (step.payload.id !in g.factIds && (step.scopeKey.Some? ==> step.scopeKey.value !in g.scopeKeys)
                   && step.id !in g.factIds && (prior.scopeKey.Some? ==> prior.scopeKey.value !in g.scopeKeys))
    requires step.Delete? ==>
               var prior := Lookup(db, step.xid, step.id).value;
               step.id !in g.factIds && (prior.scopeKey.Some? ==> prior.scopeKey.value !in g.scopeKeys)
    ensures StepKeys(db, step) !! RevisionKeys(g)
  {
    if step.Update? || step.Delete? {
      LookupOk(db, step.xid, step.id);
      var prior := Lookup(db, step.xid, step.id).value;
      if step.id !in g.factIds && (prior.scopeKey.Some? ==> prior.scopeKey.value !in g.scopeKeys) {
        UngrantedIsUnfenced(g, step.id, prior.scopeKey);
      }
      if step.Update? && step.payload.id !in g.factIds && (step.scopeKey.Some? ==> step.scopeKey.value !in g.scopeKeys) {
        UngrantedIsUnfenced(g, step.payload.id, step.scopeKey);
      }
    }
  }

  /** No open transaction holds a pending increment of these keys. */
  ghost predicate Quiet(db: Db, keys: set<string>) {
    forall x, k :: x in db.active && k in keys ==> k !in db.active[x].bumps
  }

  /** Along this interleaving no statement touches these keys. */
  ghost predicate StaysOut(db: Db, keys: set<string>, events: seq<Event>)
    decreases |events|
  {
    events == [] ||
    match events[0]
    case ReadPage(_) => StaysOut(db, keys, events[1..])
    case Writer(step) => StepKeys(db, step) !! keys && StaysOut(Next(db, step), keys, events[1..])
  }

  lemma QuietCommit(db: Db, keys: set<string>, xid: nat)
    requires Quiet(db, keys) && xid in db.active
    ensures Quiet(DoCommit(db, xid), keys)
    ensures forall k :: k in keys ==> Revision(DoCommit(db, xid), k) == Revision(db, k)
  {
    forall k | k in keys ensures Revision(DoCommit(db, xid), k) == Revision(db, k) {
      CommitRevision(db, xid, k);
    }
  }

  lemma QuietStatement(db: Db, keys: set<string>, step: Step)
    requires Quiet(db, keys) && StepKeys(db, step) !! keys && !step.Commit?
    ensures Quiet(Next(db, step), keys) && Next(db, step).revisions == db.revisions
  {
    var db' := Next(db, step);
    forall x, k | x in db'.active && k in keys ensures k !in db'.active[x].bumps {
      if db' != db && (step.Update? || step.Delete?) && x == step.xid {
        assert db'.active[x].bumps == db.active[x].bumps + multiset(StepKeys(db, step));
      }
    }
  }

  lemma QuietStep(db: Db, keys: set<string>, step: Step)
    requires Quiet(db, keys) && StepKeys(db, step) !! keys
    ensures Quiet(Next(db, step), keys)
    ensures forall k :: k in keys ==> Revision(Next(db, step), k) == Revision(db, k)
  {
    if step.Commit? {
      if step.xid in db.active {
        QuietCommit(db, keys, step.xid);
      }
    } else {
      QuietStatement(db, keys, step);
    }
  }

  lemma SameRevisions(db: Db, db': Db, g: Grant)
    requires forall k :: k in RevisionKeys(g) ==> Revision(db', k) == Revision(db, k)
    ensures GrantedRevisions(db', g) == GrantedRevisions(db, g)
  {
  }

  lemma QuietPage(db0: Db, db: Db, g: Grant, exactId: Option<string>, session: Session<Snapshot>, limit: nat)
    requires Inv(db0) && Keyed(db.rows) && Follows(db0, g, exactId, session) && !session.Failed?
    requires GrantedRevisions(db, g) == GrantedRevisions(db0, g)
    ensures !ReadNext(db, g, exactId, session, limit).Failed?
  {
    if session.Paging? {
      ReadFailsOnMismatch(db, g, exactId, session, limit);
    }
  }

  lemma {:induction false} PlayNeverFails(db0: Db, w: World, g: Grant, exactId: Option<string>, events: seq<Event>)
    requires Inv(db0) && Inv(w.db) && Since(db0, w.db) && Follows(db0, g, exactId, w.session)
    requires !w.session.Failed? && Quiet(w.db, RevisionKeys(g)) && StaysOut(w.db, RevisionKeys(g), events)
    requires GrantedRevisions(w.db, g) == GrantedRevisions(db0, g)
    ensures !Play(w, g, exactId, events).session.Failed?
    decreases |events|
  {
    if events != [] {
      match events[0]
      case Writer(step) =>
        NextPreservesInv(w.db, step);
        NextKeepsSince(db0, w.db, step);
        QuietStep(w.db, RevisionKeys(g), step);
        SameRevisions(w.db, Next(w.db, step), g);
        PlayNeverFails(db0, w.(db := Next(w.db, step)), g, exactId, events[1..]);
      case ReadPage(limit) =>
        LaterPageFollows(db0, w.db, g, exactId, w.session, limit);
        QuietPage(db0, w.db, g, exactId, w.session, limit);
        PlayNeverFails(db0, w.(session := ReadNext(w.db, g, exactId, w.session, limit)), g, exactId, events[1..]);
    }
  }

  /** No false alarm: if no transaction open at page one has touched the grant's keys and none does
      later, no page fails, whatever else is inserted, updated, moved or deleted in between. */
  lemma NoFalseAlarm(before: seq<Step>, g: Grant, exactId: Option<string>, limit: nat, events: seq<Event>)
    requires Quiet(Reached(before), RevisionKeys(g)) && StaysOut(Reached(before), RevisionKeys(g), events)
    ensures var db0 := Reached(before);
            !Play(World(db0, ReadNext(db0, g, exactId, Fresh, limit)), g, exactId, events).session.Failed?
  {
    var db0 := Reached(before);
    FirstPageFollows(db0, g, exactId, limit);
    SinceStart(db0);
    PlayNeverFails(db0, World(db0, ReadNext(db0, g, exactId, Fresh, limit)), g, exactId, events);
  }
}
