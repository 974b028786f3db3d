/** The PostgreSQL adapter as it runs: tables that statements change in place, the invalidation
    trigger's loop, the batch write inside one transaction, and the page read statement by statement. */
module PostgresFactLedger {
  import opened Common
  import opened FactCatalog
  import opened PostgresTransactions
  import opened PostgresCatalog

  // ---- What the write path computes ----

  /** `INSERT … ON CONFLICT(fact_id) DO UPDATE`, with the scope and boundary columns taken from the fact. */
  function Upsert(db: Db, xid: nat, fact: Fact): (r: Db)
    requires xid in db.active
    ensures OnlyTxDiffers(db, r, xid)
  {
    if Lookup(db, xid, fact.id).Some? then DoUpdate(db, xid, fact.id, fact, fact.scopeKey, Some(fact.boundary))
    else DoInsert(db, xid, fact, fact.scopeKey, Some(fact.boundary))
  }

  predicate AnyLocked(db: Db, xid: nat, facts: seq<Fact>) {
    exists i :: 0 <= i < |facts| && Locked(db, xid, facts[i].id)
  }

  /** Two states that differ at most in what transaction `xid` has pending. */
  ghost predicate OnlyTxDiffers(a: Db, b: Db, xid: nat) {
    && a.(active := map[]) == b.(active := map[])
    && xid in a.active && xid in b.active
    && forall x :: x != xid ==> (x in a.active <==> x in b.active) && (x in a.active ==> a.active[x] == b.active[x])
  }

  function UpsertAll(db: Db, xid: nat, facts: seq<Fact>): (r: Db)
    requires xid in db.active
    ensures OnlyTxDiffers(db, r, xid)
    decreases |facts|
  {
    if facts == [] then db else UpsertAll(Upsert(db, xid, facts[0]), xid, facts[1..])
  }

  /** A batch of facts written in one transaction: committed as a whole, or rolled back. */
  function Batch(db: Db, facts: seq<Fact>): Db {
    BatchIn(Next(db, Begin), db.nextXid, facts)
  }

  function BatchIn(begun: Db, xid: nat, facts: seq<Fact>): Db
    requires xid in begun.active
  {
    if AnyLocked(begun, xid, facts) then Finish(begun, xid) else DoCommit(UpsertAll(begun, xid, facts), xid)
  }

  /** The last fact of the batch with this id. */
  function Latest(facts: seq<Fact>, id: string): Option<Fact> {
    if facts == [] then None
    else if facts[|facts| - 1].id == id then Some(facts[|facts| - 1])
    else Latest(facts[..|facts| - 1], id)
  }

  function Upserted(rows: map<string, Row>, xid: nat, fact: Fact): Row {
    Row(fact, fact.scopeKey, Some(fact.boundary), if fact.id in rows then rows[fact.id].creationXid else xid)
  }

  /** The pending writes of a batch: each id of the batch holds the batch's last fact with that id,
      and keeps the creation stamp of the row it replaces. */
  ghost predicate HoldsBatch(db: Db, xid: nat, facts: seq<Fact>) {
    && xid in db.active
    && forall id :: (id in db.active[xid].writes <==> Latest(facts, id).Some?)
                    && (id in db.active[xid].writes ==>
                          db.active[xid].writes[id] == Some(Upserted(db.rows, xid, Latest(facts, id).value)))
  }

  lemma {:induction false} LatestId(facts: seq<Fact>, id: string)
    ensures Latest(facts, id).Some? ==> Latest(facts, id).value.id == id
  {
    if facts != [] && facts[|facts| - 1].id != id {
      LatestId(facts[..|facts| - 1], id);
    }
  }

  lemma UpsertHoldsBatch(db: Db, xid: nat, done: seq<Fact>, fact: Fact)
    requires HoldsBatch(db, xid, done) && !Locked(db, xid, fact.id)
    ensures HoldsBatch(Upsert(db, xid, fact), xid, done + [fact])
  {
    var db' := Upsert(db, xid, fact);
    LatestId(done, fact.id);
    assert (done + [fact])[..|done|] == done;
    assert db'.rows == db.rows;
    forall id ensures (id in db'.active[xid].writes <==> Latest(done + [fact], id).Some?)
                      && (id in db'.active[xid].writes ==>
                            db'.active[xid].writes[id] == Some(Upserted(db.rows, xid, Latest(done + [fact], id).value)))
    {
      if id != fact.id {
        assert Latest(done + [fact], id) == Latest(done, id);
        assert id in db'.active[xid].writes <==> id in db.active[xid].writes;
      }
    }
  }

  lemma SameLock(a: Db, b: Db, xid: nat, id: string)
    requires OnlyTxDiffers(a, b, xid)
    ensures Locked(a, xid, id) <==> Locked(b, xid, id)
  {
  }

  lemma SameLocks(a: Db, b: Db, xid: nat, facts: seq<Fact>)
    requires OnlyTxDiffers(a, b, xid)
    ensures AnyLocked(a, xid, facts) <==> AnyLocked(b, xid, facts)
  {
    forall id ensures Locked(a, xid, id) <==> Locked(b, xid, id) {
      SameLock(a, b, xid, id);
    }
  }

  lemma OnlyTxDiffersTransitive(a: Db, b: Db, c: Db, xid: nat)
    requires OnlyTxDiffers(a, b, xid) && OnlyTxDiffers(b, c, xid)
    ensures OnlyTxDiffers(a, c, xid)
  {
  }

  lemma RestUnlocked(db: Db, xid: nat, facts: seq<Fact>)
    requires facts != [] && !AnyLocked(db, xid, facts)
    ensures !Locked(db, xid, facts[0].id) && !AnyLocked(db, xid, facts[1..])
  {
    assert forall i :: 0 <= i < |facts[1..]| ==> facts[1..][i] == facts[i + 1];
  }

  lemma {:induction false} UpsertAllHoldsBatch(db: Db, xid: nat, done: seq<Fact>, facts: seq<Fact>)
    requires HoldsBatch(db, xid, done) && !AnyLocked(db, xid, facts)
    ensures HoldsBatch(UpsertAll(db, xid, facts), xid, done + facts)
    decreases |facts|, 1
  {
    if facts == [] {
      assert done + facts == done;
    } else {
      RestUnlocked(db, xid, facts);
      UpsertHoldsBatch(db, xid, done, facts[0]);
      RestHoldsBatch(db, Upsert(db, xid, facts[0]), xid, done, facts);
    }
  }

  lemma {:induction false} RestHoldsBatch(db: Db, db': Db, xid: nat, done: seq<Fact>, facts: seq<Fact>)
    requires facts != [] && OnlyTxDiffers(db, db', xid)
    requires HoldsBatch(db', xid, done + [facts[0]]) && !AnyLocked(db, xid, facts[1..])
    ensures HoldsBatch(UpsertAll(db', xid, facts[1..]), xid, done + facts)
    decreases |facts|, 0
  {
    SameLocks(db, db', xid, facts[1..]);
    UpsertAllHoldsBatch(db', xid, done + [facts[0]], facts[1..]);
    assert done + [facts[0]] + facts[1..] == done + facts;
  }

  lemma {:induction false} UpsertAllPreservesInv(db: Db, xid: nat, facts: seq<Fact>)
    requires Inv(db) && xid in db.active
    ensures Inv(UpsertAll(db, xid, facts))
    decreases |facts|
  {
    if facts != [] {
      UpdatePreservesInv(db, xid, facts[0].id, facts[0], facts[0].scopeKey, Some(facts[0].boundary));
      InsertPreservesInv(db, xid, facts[0], facts[0].scopeKey, Some(facts[0].boundary));
      UpsertAllPreservesInv(Upsert(db, xid, facts[0]), xid, facts[1..]);
    }
  }

  lemma UpsertAllUnfolds(db: Db, xid: nat, facts: seq<Fact>, i: nat)
    requires xid in db.active && i < |facts|
    ensures OnlyTxDiffers(db, Upsert(db, xid, facts[i]), xid)
    ensures UpsertAll(db, xid, facts[i..]) == UpsertAll(Upsert(db, xid, facts[i]), xid, facts[i + 1..])
  {
    assert facts[i..][0] == facts[i] && facts[i..][1..] == facts[i + 1..];
  }

  /** The row an upsert leaves, and the keys its trigger increments. */
  lemma UpsertAsWrite(db: Db, xid: nat, fact: Fact)
    requires xid in db.active && !Locked(db, xid, fact.id)
    ensures var prior := Lookup(db, xid, fact.id);
            var next := Row(fact, fact.scopeKey, Some(fact.boundary), if prior.Some? then prior.value.creationXid else xid);
            Upsert(db, xid, fact)
            == Write(db, xid, map[fact.id := Some(next)], if prior.Some? then TriggerKeys(prior.value, Some(next)) else {})
  {
    var prior := Lookup(db, xid, fact.id);
    var next := Row(fact, fact.scopeKey, Some(fact.boundary), if prior.Some? then prior.value.creationXid else xid);
    assert map[fact.id := None][fact.id := Some(next)] == map[fact.id := Some(next)];
  }

  /** Recording the row first and running the trigger afterwards is one write. */
  lemma WriteThenTrigger(db: Db, xid: nat, id: string, row: Row, keys: set<string>)
    requires xid in db.active
    ensures var written := Write(db, xid, map[id := Some(row)], {});
            && xid in written.active
            && Write(written, xid, map[], keys) == Write(db, xid, map[id := Some(row)], keys)
            && written == db.(active := db.active[xid := db.active[xid].(writes := db.active[xid].writes[id := Some(row)])])
  {
    var tx := db.active[xid];
    assert tx.writes + map[id := Some(row)] + map[] == tx.writes + map[id := Some(row)] == tx.writes[id := Some(row)];
    assert tx.bumps + multiset({}) == tx.bumps;
  }

  lemma BatchInPreservesInv(begun: Db, xid: nat, facts: seq<Fact>)
    requires Inv(begun) && xid in begun.active
    ensures Inv(BatchIn(begun, xid, facts))
  {
    if AnyLocked(begun, xid, facts) {
      AbortPreservesInv(begun, xid);
    } else {
      UpsertAllPreservesInv(begun, xid, facts);
      CommitPreservesInv(UpsertAll(begun, xid, facts), xid);
    }
  }

  lemma FinishForgets(begun: Db, current: Db, xid: nat)
    requires OnlyTxDiffers(begun, current, xid)
    ensures Finish(begun, xid) == Finish(current, xid)
  {
    assert begun.(active := map[]).rows == begun.rows && current.(active := map[]).rows == current.rows;
    assert begun.active - {xid} == current.active - {xid};
  }

  /** A batch is all or nothing: blocked by a lock it changes no table; otherwise every fact of it is
      stored under its own id (the last one of that id), keeps the creation stamp of the row it
      replaced, and no other row changes. */
  lemma BatchIsAtomic(db: Db, facts: seq<Fact>)
    requires Inv(db)
    ensures AnyLocked(Next(db, Begin), db.nextXid, facts) ==>
              Batch(db, facts).rows == db.rows && Batch(db, facts).revisions == db.revisions
    ensures !AnyLocked(Next(db, Begin), db.nextXid, facts) ==>
              forall id ::
                && (id in Batch(db, facts).rows <==> id in db.rows || Latest(facts, id).Some?)
                && (id in Batch(db, facts).rows ==>
                      Batch(db, facts).rows[id]
                      == if Latest(facts, id).Some? then Upserted(db.rows, db.nextXid, Latest(facts, id).value)
                         else db.rows[id])
  {
    var begun := Next(db, Begin);
    var xid := db.nextXid;
    if !AnyLocked(begun, xid, facts) {
      UpsertAllHoldsBatch(begun, xid, [], facts);
      assert [] + facts == facts;
    }
  }

  // ---- The adapter ----

  class Ledger {
    var rows: map<string, Row>
    var revisions: map<string, nat>
    var nextXid: nat
    var lastCompleted: nat
    var active: map<nat, Tx>

    ghost function Tables(): Db reads this {
      Db(rows, revisions, nextXid, lastCompleted, active)
    }

    ghost predicate Valid() reads this { Inv(Tables()) }

    constructor ()
      ensures Valid() && Tables() == EMPTY
    {
      rows, revisions, nextXid, lastCompleted, active := map[], map[], 1, 0, map[];
    }

    /** The trigger: one increment per distinct key of the row before and after. */
    method Invalidate(xid: nat, prior: Row, next: Option<Row>)
      requires xid in active
      modifies this`active
      ensures Tables() == old(Write(Tables(), xid, map[], TriggerKeys(prior, next)))
    {
      ghost var tx0 := active[xid];
      assert tx0.writes + map[] == tx0.writes;
      var keys: set<string> := {};
      if !(next.Some? && prior.payload == next.value.payload && prior.scopeKey == next.value.scopeKey
           && prior.boundary == next.value.boundary) {
        keys := Keys(prior) + (if next.Some? then Keys(next.value) else {});
      }
      var bumps := Increment(active[xid].bumps, keys);
      active := active[xid := active[xid].(bumps := bumps)];
    }

    /** Upserts one fact inside a transaction; a row locked by another transaction is not written. */
    method UpsertFactIn(xid: nat, fact: Fact) returns (ok: bool)
      requires xid in active
      modifies this`active
      ensures ok <==> !old(Locked(Tables(), xid, fact.id))
      ensures Tables() == old(Upsert(Tables(), xid, fact))
    {
      ghost var db := Tables();
      ok := !IsLocked(xid, fact.id);
      if ok {
        UpsertAsWrite(db, xid, fact);
        var tx := active[xid];
        var prior := if fact.id in tx.writes then tx.writes[fact.id]
                     else if fact.id in rows then Some(rows[fact.id]) else None;
        var next := Row(fact, fact.scopeKey, Some(fact.boundary), if prior.Some? then prior.value.creationXid else xid);
        WriteThenTrigger(db, xid, fact.id, next, if prior.Some? then TriggerKeys(prior.value, Some(next)) else {});
        active := active[xid := tx.(writes := tx.writes[fact.id := Some(next)])];
        if prior.Some? {
          Invalidate(xid, prior.value, Some(next));
        }
      }
    }

    predicate IsLocked(xid: nat, id: string)
      reads this
      ensures IsLocked(xid, id) <==> Locked(Tables(), xid, id)
    {
      exists other :: other in active && other != xid && id in active[other].writes
    }

    /** The loop over the facts of a batch; it stops at the first row another transaction has locked. */
    method UpsertEach(xid: nat, facts: seq<Fact>) returns (ok: bool)
      requires xid in active
      modifies this`active
      ensures ok <==> !old(AnyLocked(Tables(), xid, facts))
      ensures OnlyTxDiffers(old(Tables()), Tables(), xid)
      ensures ok ==> Tables() == old(UpsertAll(Tables(), xid, facts))
    {
      ghost var db := Tables();
      var i := 0;
      assert facts[0..] == facts;
      while i < |facts|
        invariant 0 <= i <= |facts| && OnlyTxDiffers(db, Tables(), xid)
        invariant forall j :: 0 <= j < i ==> !Locked(db, xid, facts[j].id)
        invariant UpsertAll(db, xid, facts) == UpsertAll(Tables(), xid, facts[i..])
      {
        ghost var current := Tables();
        SameLock(db, current, xid, facts[i].id);
        UpsertAllUnfolds(current, xid, facts, i);
        ok := UpsertFactIn(xid, facts[i]);
        OnlyTxDiffersTransitive(db, current, Tables(), xid);
        if !ok {
          return;
        }
        i := i + 1;
      }
      assert facts[i..] == [];
      ok := true;
    }

    method BeginTransaction() returns (xid: nat)
      modifies this`active, this`nextXid
      ensures xid == old(nextXid) && Tables() == old(Next(Tables(), Begin))
    {
      xid := nextXid;
      active := active[xid := Tx(map[], multiset{})];
      nextXid := nextXid + 1;
    }

    method CommitTransaction(xid: nat)
      requires xid in active
      modifies this
      ensures Tables() == old(DoCommit(Tables(), xid))
    {
      rows, revisions := Merged(rows, active[xid].writes), Raised(revisions, active[xid].bumps);
      AbortTransaction(xid);
    }

    method AbortTransaction(xid: nat)
      modifies this`active, this`lastCompleted
      ensures Tables() == old(Finish(Tables(), xid))
    {
      active := active - {xid};
      if lastCompleted < xid {
        lastCompleted := xid;
      }
    }

    /** Writes the facts of a growth batch in one transaction. */
    method PersistFacts(facts: seq<Fact>) returns (committed: bool)
      requires Valid()
      modifies this
      ensures Valid()
      ensures committed <==> !old(AnyLocked(Next(Tables(), Begin), nextXid, facts))
      ensures Tables() == old(Batch(Tables(), facts))
    {
      BeginPreservesInv(Tables());
      BatchInPreservesInv(Next(Tables(), Begin), nextXid, facts);
      var xid := BeginTransaction();
      ghost var begun := Tables();
      committed := UpsertEach(xid, facts);
      if committed {
        CommitTransaction(xid);
      } else {
        FinishForgets(begun, Tables(), xid);
        AbortTransaction(xid);
      }
    }

    method ReadRevisions(g: Grant) returns (seen: map<string, nat>)
      ensures seen == GrantedRevisions(Tables(), g)
    {
      var keys := RevisionKeys(g);
      var todo := keys;
      seen := map[];
      while todo != {}
        invariant todo <= keys && seen.Keys == keys - todo
        invariant forall k :: k in seen ==> seen[k] == Revision(Tables(), k)
      {
        var key :| key in todo;
        seen := seen[key := if key in revisions then revisions[key] else 0];
        todo := todo - {key};
      }
    }

    /** One page, statement by statement inside a repeatable-read transaction. */
    method ReadCatalogPage(q: Query) returns (r: Result<(Page, Snapshot), PageError>)
      requires Keyed(rows)
      ensures r == PageRead(Tables(), q)
    {
      var seen := ReadRevisions(q.grant);
      if q.snapshot.Some? && q.snapshot.value.revisions != seen {
        return Err(SourceChanged);
      }
      var snapshot := if q.snapshot.Some? then q.snapshot.value
                      else Snapshot(FenceOf(Db(rows, revisions, nextXid, lastCompleted, active)), seen);
      var items := Selected(rows, q.grant, q.exactId, snapshot.fence);
      var page := TruncatePage(items, IdsFrom(items, q.afterId), q.limit);
      r := Ok((page, snapshot));
    }
  }

  /** The trigger's loop over the distinct keys. */
  method Increment(bumps: multiset<string>, keys: set<string>) returns (r: multiset<string>)
    ensures r == bumps + multiset(keys)
  {
    r := bumps;
    var todo := keys;
    while todo != {}
      invariant todo <= keys && r == bumps + multiset(keys - todo)
    {
      var key :| key in todo;
      assert multiset(keys - (todo - {key})) == multiset(keys - todo) + multiset{key};
      r := r + multiset{key};
      todo := todo - {key};
    }
    assert keys - todo == keys;
  }

  /** The page statement asks for one row more than the limit; the page then drops it again. */
  method TruncatePage(items: Items, ids: seq<string>, requested: nat) returns (page: Page)
    requires forall id :: id in ids ==> id in items
    ensures page == Cut(items, ids, requested)
  {
    var limit := Clamp(requested);
    var fetched := if |ids| > limit + 1 then ids[..limit + 1] else ids;
    var records := Pick(items, fetched);
    var more := |records| > limit;
    if more {
      records := records[..limit];
      assert records == Pick(items, ids[..limit]);
    }
    page := Page(records, if more then Some(records[|records| - 1].id) else None);
  }
}
