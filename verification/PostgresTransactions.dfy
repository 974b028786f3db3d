/** The fact tables under concurrent writer transactions: committed rows, the invalidation counters,
    and the pending effects of every open transaction. A statement that would wait for another
    transaction's row lock, or that has no such row, leaves the state as it is. */
module PostgresTransactions {
  import opened Common
  import opened FactCatalog

  /** A row of `fact_records`; its primary key is the payload's id. */
  datatype Row = Row(payload: Fact, scopeKey: Option<string>, boundary: Option<string>, creationXid: nat)

  /** An open transaction: its row versions (`None` for a deletion) and the trigger's pending increments. */
  datatype Tx = Tx(writes: map<string, Option<Row>>, bumps: multiset<string>)

  datatype Db = Db(
    rows: map<string, Row>,
    revisions: map<string, nat>,
    nextXid: nat,
    lastCompleted: nat,
    active: map<nat, Tx>)

  const EMPTY: Db := Db(map[], map[], 1, 0, map[])

  datatype Step =
    | Begin
    | Insert(xid: nat, payload: Fact, scopeKey: Option<string>, boundary: Option<string>)
    | Update(xid: nat, id: string, payload: Fact, scopeKey: Option<string>, boundary: Option<string>)
    | Delete(xid: nat, id: string)
    | Commit(xid: nat)
    | Abort(xid: nat)

  function Keys(row: Row): set<string> { RowKeys(row.payload.id, row.scopeKey) }

  function Revision(db: Db, key: string): nat {
    if key in db.revisions then db.revisions[key] else 0
  }

  /** The version of a row that transaction `xid` sees: its own, otherwise the committed one. */
  function Lookup(db: Db, xid: nat, id: string): Option<Row>
    requires xid in db.active
  {
    if id in db.active[xid].writes then db.active[xid].writes[id]
    else if id in db.rows then Some(db.rows[id])
    else None
  }

  /** Another open transaction holds the lock on this row or on this unique key. */
  predicate Locked(db: Db, xid: nat, id: string) {
    exists other :: other in db.active && other != xid && id in db.active[other].writes
  }

  /** The keys the invalidation trigger increments for an UPDATE (`Some`) or DELETE (`None`). */
  function TriggerKeys(prior: Row, next: Option<Row>): set<string> {
    if next.Some? && prior.payload == next.value.payload && prior.scopeKey == next.value.scopeKey
       && prior.boundary == next.value.boundary then {}
    else Keys(prior) + (if next.Some? then Keys(next.value) else {})
  }

  function Write(db: Db, xid: nat, writes: map<string, Option<Row>>, keys: set<string>): Db
    requires xid in db.active
  {
    var tx := db.active[xid];
    db.(active := db.active[xid := Tx(tx.writes + writes, tx.bumps + multiset(keys))])
  }

  function DoInsert(db: Db, xid: nat, payload: Fact, scopeKey: Option<string>, boundary: Option<string>): Db {
    if xid !in db.active || Locked(db, xid, payload.id) || Lookup(db, xid, payload.id).Some? then db
    else Write(db, xid, map[payload.id := Some(Row(payload, scopeKey, boundary, xid))], {})
  }

  function DoUpdate(db: Db, xid: nat, id: string, payload: Fact, scopeKey: Option<string>, boundary: Option<string>): Db {
    if xid !in db.active || Locked(db, xid, id) || Lookup(db, xid, id).None?
       || (payload.id != id && (Locked(db, xid, payload.id) || Lookup(db, xid, payload.id).Some?)) then db
    else
      var prior := Lookup(db, xid, id).value;
      var next := Row(payload, scopeKey, boundary, prior.creationXid);
      Write(db, xid, map[id := None][payload.id := Some(next)], TriggerKeys(prior, Some(next)))
  }

  function DoDelete(db: Db, xid: nat, id: string): Db {
    if xid !in db.active || Locked(db, xid, id) || Lookup(db, xid, id).None? then db
    else Write(db, xid, map[id := None], TriggerKeys(Lookup(db, xid, id).value, None))
  }

  function Merged(rows: map<string, Row>, writes: map<string, Option<Row>>): map<string, Row> {
    map id | id in rows.Keys + writes.Keys && (id in writes ==> writes[id].Some?) ::
      if id in writes then writes[id].value else rows[id]
  }

  function Raised(revisions: map<string, nat>, bumps: multiset<string>): map<string, nat> {
    map key | key in revisions.Keys + (set b | b in bumps) ::
      (if key in revisions then revisions[key] else 0) + bumps[key]
  }

  function Finish(db: Db, xid: nat): Db {
    db.(active := db.active - {xid}, lastCompleted := if db.lastCompleted < xid then xid else db.lastCompleted)
  }

  function DoCommit(db: Db, xid: nat): Db {
    if xid !in db.active then db
    else
      Finish(db, xid).(rows := Merged(db.rows, db.active[xid].writes),
                       revisions := Raised(db.revisions, db.active[xid].bumps))
  }

  function Next(db: Db, step: Step): Db {
    match step
    case Begin => db.(active := db.active[db.nextXid := Tx(map[], multiset{})], nextXid := db.nextXid + 1)
    case Insert(xid, payload, scopeKey, boundary) => DoInsert(db, xid, payload, scopeKey, boundary)
    case Update(xid, id, payload, scopeKey, boundary) => DoUpdate(db, xid, id, payload, scopeKey, boundary)
    case Delete(xid, id) => DoDelete(db, xid, id)
    case Commit(xid) => DoCommit(db, xid)
    case Abort(xid) => if xid in db.active then Finish(db, xid) else db
  }

  function Run(db: Db, steps: seq<Step>): Db
    decreases |steps|
  {
    if steps == [] then db else Run(Next(db, steps[0]), steps[1..])
  }

  // ---- What every reachable state keeps ----

  /** Transaction ids are handed out in order; every id above the last completed one is still open. */
  ghost predicate XidsOk(db: Db) {
    && db.lastCompleted < db.nextXid
    && (forall x :: x in db.active ==> x < db.nextXid)
    && (forall x :: db.lastCompleted < x < db.nextXid ==> x in db.active)
  }

  ghost predicate Settled(db: Db, xid: nat) {
    xid < db.nextXid && xid !in db.active
  }

  ghost predicate RowsOk(db: Db) {
    forall id :: id in db.rows ==> db.rows[id].payload.id == id && Settled(db, db.rows[id].creationXid)
  }

  ghost predicate LocksOk(db: Db) {
    forall x, y, id :: x in db.active && y in db.active && x != y && id in db.active[x].writes ==>
                         id !in db.active[y].writes
  }

  /** What a pending write guarantees. If it replaces a committed row, the keys of that row are
      pending increments; if it leaves a row that neither this transaction created nor the
      committed table already holds, the keys of the new row are too. */
  ghost predicate WriteOk(db: Db, xid: nat, tx: Tx, id: string)
    requires id in tx.writes
  {
    var w := tx.writes[id];
    && (w.Some? ==> w.value.payload.id == id && (w.value.creationXid == xid || Settled(db, w.value.creationXid)))
    && (id in db.rows && w != Some(db.rows[id]) ==> Pending(tx, Keys(db.rows[id])))
    && (w.Some? && w.value.creationXid != xid && !(id in db.rows && db.rows[id] == w.value) ==>
          Pending(tx, Keys(w.value)))
  }

  ghost predicate Pending(tx: Tx, keys: set<string>) {
    forall k :: k in keys ==> k in tx.bumps
  }

  ghost predicate TxOk(db: Db, xid: nat)
    requires xid in db.active
  {
    forall id :: id in db.active[xid].writes ==> WriteOk(db, xid, db.active[xid], id)
  }

  ghost predicate Inv(db: Db) {
    XidsOk(db) && RowsOk(db) && LocksOk(db) && forall x :: x in db.active ==> TxOk(db, x)
  }

  lemma WritePreservesInv(db: Db, xid: nat, writes: map<string, Option<Row>>, keys: set<string>)
    requires Inv(db) && xid in db.active
    requires forall id :: id in writes ==> !Locked(db, xid, id)
    requires var tx' := Write(db, xid, writes, keys).active[xid];
             forall id :: id in writes ==> WriteOk(db, xid, tx', id)
    ensures Inv(Write(db, xid, writes, keys))
  {
    var db' := Write(db, xid, writes, keys);
    assert db'.active.Keys == db.active.Keys;
    forall x | x in db'.active ensures TxOk(db', x) {
      assert TxOk(db, x);
      forall id | id in db'.active[x].writes ensures WriteOk(db', x, db'.active[x], id) {
        if x == xid && id !in writes {
          assert WriteOk(db, x, db.active[x], id);
        }
      }
    }
  }

  lemma InsertPreservesInv(db: Db, xid: nat, payload: Fact, scopeKey: Option<string>, boundary: Option<string>)
    requires Inv(db)
    ensures Inv(DoInsert(db, xid, payload, scopeKey, boundary))
  {
    if xid in db.active && !Locked(db, xid, payload.id) && Lookup(db, xid, payload.id).None? {
      assert TxOk(db, xid);
      assert payload.id in db.active[xid].writes ==> WriteOk(db, xid, db.active[xid], payload.id);
      WritePreservesInv(db, xid, map[payload.id := Some(Row(payload, scopeKey, boundary, xid))], {});
    }
  }

  /** The row a transaction sees under `id` is committed under `id`, or it meets `WriteOk`. */
  lemma LookupOk(db: Db, xid: nat, id: string)
    requires Inv(db) && xid in db.active && Lookup(db, xid, id).Some?
    ensures var row := Lookup(db, xid, id).value;
            && row.payload.id == id
            && (row.creationXid == xid || Settled(db, row.creationXid))
            && (id in db.rows && row != db.rows[id] ==> Pending(db.active[xid], Keys(db.rows[id])))
            && (row.creationXid != xid && !(id in db.rows && db.rows[id] == row) ==>
                  Pending(db.active[xid], Keys(row)))
  {
    assert TxOk(db, xid);
    assert id in db.active[xid].writes ==> WriteOk(db, xid, db.active[xid], id);
  }

  /** After the trigger has run, the old id (when it is given up) and the new id meet `WriteOk`. */
  lemma UpdatedOk(db: Db, xid: nat, prior: Row, next: Row, tx': Tx)
    requires Inv(db) && xid in db.active && Lookup(db, xid, prior.payload.id) == Some(prior)
    requires next.creationXid == prior.creationXid
    requires next.payload.id != prior.payload.id ==> Lookup(db, xid, next.payload.id).None?
    requires tx'.bumps == db.active[xid].bumps + multiset(TriggerKeys(prior, Some(next)))
    requires prior.payload.id in tx'.writes
    requires next.payload.id in tx'.writes && tx'.writes[next.payload.id] == Some(next)
    ensures WriteOk(db, xid, tx', next.payload.id)
    ensures tx'.writes[prior.payload.id] == None ==> WriteOk(db, xid, tx', prior.payload.id)
  {
    LookupOk(db, xid, prior.payload.id);
    assert TxOk(db, xid);
    var id := next.payload.id;
    assert id in db.active[xid].writes ==> WriteOk(db, xid, db.active[xid], id);
    assert forall k :: k in db.active[xid].bumps || k in TriggerKeys(prior, Some(next)) ==> k in tx'.bumps;
    assert next != prior ==> TriggerKeys(prior, Some(next)) == Keys(prior) + Keys(next);
  }

  lemma ReplacePreservesInv(db: Db, xid: nat, prior: Row, next: Row)
    requires Inv(db) && xid in db.active && Lookup(db, xid, prior.payload.id) == Some(prior)
    requires next.creationXid == prior.creationXid
    requires next.payload.id != prior.payload.id ==> Lookup(db, xid, next.payload.id).None?
    requires !Locked(db, xid, prior.payload.id) && !Locked(db, xid, next.payload.id)
    ensures Inv(Write(db, xid, map[prior.payload.id := None][next.payload.id := Some(next)], TriggerKeys(prior, Some(next))))
  {
    var writes := map[prior.payload.id := None][next.payload.id := Some(next)];
    var tx' := Write(db, xid, writes, TriggerKeys(prior, Some(next))).active[xid];
    UpdatedOk(db, xid, prior, next, tx');
    WritePreservesInv(db, xid, writes, TriggerKeys(prior, Some(next)));
  }

  lemma UpdatePreservesInv(db: Db, xid: nat, id: string, payload: Fact, scopeKey: Option<string>, boundary: Option<string>)
    requires Inv(db)
    ensures Inv(DoUpdate(db, xid, id, payload, scopeKey, boundary))
  {
    if xid in db.active && Lookup(db, xid, id).Some? && !Locked(db, xid, id) && !Locked(db, xid, payload.id)
       && (payload.id != id ==> Lookup(db, xid, payload.id).None?) {
      LookupOk(db, xid, id);
      var prior := Lookup(db, xid, id).value;
      ReplacePreservesInv(db, xid, prior, Row(payload, scopeKey, boundary, prior.creationXid));
    }
  }

  lemma DeletePreservesInv(db: Db, xid: nat, id: string)
    requires Inv(db)
    ensures Inv(DoDelete(db, xid, id))
  {
    var db' := DoDelete(db, xid, id);
    if db' != db {
      LookupOk(db, xid, id);
      WritePreservesInv(db, xid, map[id := None], TriggerKeys(Lookup(db, xid, id).value, None));
    }
  }

  lemma FinishPreservesXids(db: Db, xid: nat)
    requires XidsOk(db) && xid in db.active
    ensures XidsOk(Finish(db, xid))
  {
  }

  lemma CommitPreservesInv(db: Db, xid: nat)
    requires Inv(db)
    ensures Inv(DoCommit(db, xid))
  {
    if xid in db.active {
      var db' := DoCommit(db, xid);
      FinishPreservesXids(db, xid);
      assert TxOk(db, xid);
      forall id | id in db'.rows
        ensures db'.rows[id].payload.id == id && Settled(db', db'.rows[id].creationXid)
      {
        assert id in db.active[xid].writes ==> WriteOk(db, xid, db.active[xid], id);
      }
      forall x | x in db'.active ensures TxOk(db', x) {
        assert TxOk(db, x);
        forall id | id in db'.active[x].writes ensures WriteOk(db', x, db'.active[x], id) {
          assert WriteOk(db, x, db.active[x], id);
          assert id !in db.active[xid].writes;
        }
      }
    }
  }

  lemma AbortPreservesInv(db: Db, xid: nat)
    requires Inv(db)
    ensures Inv(Next(db, Abort(xid)))
  {
    if xid in db.active {
      var db' := Finish(db, xid);
      FinishPreservesXids(db, xid);
      forall x | x in db'.active ensures TxOk(db', x) {
        assert TxOk(db, x);
        forall id | id in db'.active[x].writes ensures WriteOk(db', x, db'.active[x], id) {
          assert WriteOk(db, x, db.active[x], id);
        }
      }
    }
  }

  lemma BeginPreservesInv(db: Db)
    requires Inv(db)
    ensures Inv(Next(db, Begin))
  {
    var db' := Next(db, Begin);
    forall x | x in db'.active ensures TxOk(db', x) {
      if x in db.active {
        assert TxOk(db, x);
        forall id | id in db'.active[x].writes ensures WriteOk(db', x, db'.active[x], id) {
          assert WriteOk(db, x, db.active[x], id);
        }
      }
    }
  }

  lemma NextPreservesInv(db: Db, step: Step)
    requires Inv(db)
    ensures Inv(Next(db, step))
  {
    match step
    case Begin => BeginPreservesInv(db);
    case Insert(xid, payload, scopeKey, boundary) => InsertPreservesInv(db, xid, payload, scopeKey, boundary);
    case Update(xid, id, payload, scopeKey, boundary) => UpdatePreservesInv(db, xid, id, payload, scopeKey, boundary);
    case Delete(xid, id) => DeletePreservesInv(db, xid, id);
    case Commit(xid) => CommitPreservesInv(db, xid);
    case Abort(xid) => AbortPreservesInv(db, xid);
  }

  /** Every state reachable from the empty tables keeps the invariant. */
  lemma {:induction false} RunPreservesInv(db: Db, steps: seq<Step>)
    requires Inv(db)
    ensures Inv(Run(db, steps))
    decreases |steps|
  {
    if steps != [] {
      NextPreservesInv(db, steps[0]);
      RunPreservesInv(Next(db, steps[0]), steps[1..]);
    }
  }
}
