/** What the statements of a transaction do, told by what each transaction sees before and after them. */
module PostgresStatements {
  import opened Common
  import opened FactCatalog
  import opened PostgresTransactions

  /** Neither the tables nor what any other transaction sees or has pending is different. */
  ghost predicate OnlyOwn(db: Db, db': Db, xid: nat) {
    && db'.rows == db.rows && db'.revisions == db.revisions && db'.active.Keys == db.active.Keys
    && (forall other :: other in db.active && other != xid ==> db'.active[other] == db.active[other])
  }

  /** The transaction sees the given rows under the ids of the map, and everywhere else what it saw. */
  ghost predicate NowSees(db: Db, db': Db, xid: nat, changes: map<string, Option<Row>>)
    requires xid in db.active && xid in db'.active
  {
    forall id :: Lookup(db', xid, id) == if id in changes then changes[id] else Lookup(db, xid, id)
  }

  /** The transaction has one more increment pending for each of the keys, and no other. */
  ghost predicate NowPending(db: Db, db': Db, xid: nat, keys: set<string>)
    requires xid in db.active && xid in db'.active
  {
    forall key :: db'.active[xid].bumps[key] == db.active[xid].bumps[key] + if key in keys then 1 else 0
  }

  lemma WriteExactly(db: Db, xid: nat, writes: map<string, Option<Row>>, keys: set<string>)
    requires xid in db.active
    ensures var db' := Write(db, xid, writes, keys);
            OnlyOwn(db, db', xid) && NowSees(db, db', xid, writes) && NowPending(db, db', xid, keys)
  {
  }

  /** An insertion takes effect exactly when the transaction is open, sees no row under the id, and no other transaction
      holds the id; then it sees the new row, created by itself, and no revision is to rise. */
  lemma InsertExactly(db: Db, xid: nat, payload: Fact, scopeKey: Option<string>, boundary: Option<string>)
    requires xid in db.active
    ensures var db' := Next(db, Insert(xid, payload, scopeKey, boundary));
            if !Locked(db, xid, payload.id) && Lookup(db, xid, payload.id) == None then
              && OnlyOwn(db, db', xid) && NowPending(db, db', xid, {})
              && NowSees(db, db', xid, map[payload.id := Some(Row(payload, scopeKey, boundary, xid))])
            else db' == db
  {
    if !Locked(db, xid, payload.id) && Lookup(db, xid, payload.id) == None {
      WriteExactly(db, xid, map[payload.id := Some(Row(payload, scopeKey, boundary, xid))], {});
    }
  }

  /** The keys of a row: one for its id, and one for its scope if it has one. */
  function KeysAt(id: string, scopeKey: Option<string>): set<string> {
    if scopeKey.Some? then {"fact:" + id, "scope:" + scopeKey.value} else {"fact:" + id}
  }

  lemma KeysExactly(row: Row)
    ensures Keys(row) == KeysAt(row.payload.id, row.scopeKey)
  {
  }

  /** The transaction sees a row under the id, the new id is the same or free, and no other transaction holds either. */
  ghost predicate Updatable(db: Db, xid: nat, id: string, newId: string)
    requires xid in db.active
  {
    && Lookup(db, xid, id).Some? && !Locked(db, xid, id)
    && (newId == id || (!Locked(db, xid, newId) && Lookup(db, xid, newId) == None))
  }

  lemma UpdateWrites(db: Db, xid: nat, id: string, payload: Fact, scopeKey: Option<string>, boundary: Option<string>)
    requires xid in db.active
    ensures Next(db, Update(xid, id, payload, scopeKey, boundary)) ==
            if Updatable(db, xid, id, payload.id) then
              var prior := Lookup(db, xid, id).value;
              var next := Row(payload, scopeKey, boundary, prior.creationXid);
              Write(db, xid, map[id := None][payload.id := Some(next)], TriggerKeys(prior, Some(next)))
            else db
  {
  }

  lemma TriggerExactly(prior: Row, next: Row)
    ensures TriggerKeys(prior, Some(next)) ==
            if prior.payload == next.payload && prior.scopeKey == next.scopeKey && prior.boundary == next.boundary then {}
            else KeysAt(prior.payload.id, prior.scopeKey) + KeysAt(next.payload.id, next.scopeKey)
  {
    KeysExactly(prior);
    KeysExactly(next);
  }

  /** An update takes effect exactly when the row can be updated; then the transaction sees the new row instead, created
      when the old one was, and one increment is pending for each key of the old and of the new row unless they have the
      same payload, scope and boundary. */
  lemma UpdateExactly(db: Db, xid: nat, id: string, payload: Fact, scopeKey: Option<string>, boundary: Option<string>)
    requires Inv(db) && xid in db.active
    ensures var db' := Next(db, Update(xid, id, payload, scopeKey, boundary));
            if Updatable(db, xid, id, payload.id) then
              var prior := Lookup(db, xid, id).value;
              var same := prior.payload == payload && prior.scopeKey == scopeKey && prior.boundary == boundary;
              && OnlyOwn(db, db', xid)
              && NowPending(db, db', xid, if same then {} else KeysAt(id, prior.scopeKey) + KeysAt(payload.id, scopeKey))
              && NowSees(db, db', xid, map[id := None][payload.id := Some(Row(payload, scopeKey, boundary, prior.creationXid))])
            else db' == db
  {
    UpdateWrites(db, xid, id, payload, scopeKey, boundary);
    if Updatable(db, xid, id, payload.id) {
      LookupOk(db, xid, id);
      var prior := Lookup(db, xid, id).value;
      var next := Row(payload, scopeKey, boundary, prior.creationXid);
      TriggerExactly(prior, next);
      WriteExactly(db, xid, map[id := None][payload.id := Some(next)], TriggerKeys(prior, Some(next)));
    }
  }

  /** A deletion takes effect exactly when the transaction sees a row under the id that no other transaction holds; then it
      sees none, and one increment is pending for each key of the row. */
  lemma DeleteExactly(db: Db, xid: nat, id: string)
    requires Inv(db) && xid in db.active
    ensures var db' := Next(db, Delete(xid, id));
            var seen := Lookup(db, xid, id);
            if seen.Some? && !Locked(db, xid, id) then
              && OnlyOwn(db, db', xid) && NowSees(db, db', xid, map[id := None])
              && NowPending(db, db', xid, KeysAt(id, seen.value.scopeKey))
            else db' == db
  {
    var seen := Lookup(db, xid, id);
    if seen.Some? && !Locked(db, xid, id) {
      LookupOk(db, xid, id);
      KeysExactly(seen.value);
      WriteExactly(db, xid, map[id := None], TriggerKeys(seen.value, None));
    }
  }

  /** A commit publishes exactly what the transaction saw and raises every revision by its pending increments; an abort
      publishes nothing. Either way the transaction is over and no other is touched. */
  lemma FinishExactly(db: Db, xid: nat, id: string, key: string)
    requires xid in db.active
    ensures var done := Next(db, Commit(xid));
            && (id in done.rows <==> Lookup(db, xid, id).Some?)
            && (id in done.rows ==> Some(done.rows[id]) == Lookup(db, xid, id))
            && Revision(done, key) == Revision(db, key) + db.active[xid].bumps[key]
            && done.active == db.active - {xid}
    ensures var undone := Next(db, Abort(xid));
            undone.rows == db.rows && undone.revisions == db.revisions && undone.active == db.active - {xid}
  {
  }

  /** A transaction that begins sees the committed rows and has nothing pending. */
  lemma BeginExactly(db: Db, id: string)
    requires Inv(db)
    ensures var db' := Next(db, Begin);
            && db.nextXid !in db.active && db.nextXid in db'.active && db'.nextXid == db.nextXid + 1
            && db'.rows == db.rows && db'.revisions == db.revisions
            && (forall other :: other in db.active ==> other in db'.active && db'.active[other] == db.active[other])
            && (Lookup(db', db.nextXid, id) == if id in db.rows then Some(db.rows[id]) else None)
            && db'.active[db.nextXid].bumps == multiset{}
  {
  }
}
