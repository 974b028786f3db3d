/** The life of an authority over several processes: it serves requests, stops or crashes, and is opened again,
    perhaps by a build with another catalogue, which reconciles the stored state. */
module AuthLifetime {
  import opened Common
  import opened Text
  import opened AuthCatalog
  import opened Authority
  import opened AuthReconcile

  /** `catalog` is the one the state on disk was written for. */
  datatype Life = Down(disk: Credential, audit: seq<AuditRecord>, catalog: Catalog) | Up(world: World, catalog: Catalog)

  datatype Turn =
    | Serve(request: Request)
    | Stop
    | Open(offered: Catalog, credential: string, now: nat, io: Io)

  /** What opening checks before it reconciles. */
  function OpenRefusal(disk: Credential, c: Catalog, k: Crypto, credential: string): Option<AuthError> {
    if Blank(credential) then Some(InvalidCredential)
    else if !CatalogValid(c) then Some(InvalidCatalog)
    else if disk.version != STATE_VERSION || disk.epoch == 0 then Some(InvalidState)
    else if disk.catalogDigest == k.catalog(c) && !StateValid(disk, RulesOf(c, k)) then Some(InvalidState)
    else VerifyCredential(disk, RulesOf(c, k), credential)
  }

  /** Start with a reconciled state, writing it first if it changed. */
  function Start(l: Life, rules: Rules, c: Catalog, changed: bool, s: Credential, io: Io): (Life, Option<AuthError>)
    requires l.Down?
  {
    if !changed then (Up(World(s, l.disk, l.audit), c), None)
    else
      var (disk, failure) := Persisted(l.disk, s, rules, io);
      if failure.Some? then (Down(disk, l.audit, if disk == s then c else l.catalog), failure)
      else (Up(World(s, disk, l.audit), c), None)
  }

  function Reopen(l: Life, k: Crypto, c: Catalog, credential: string, now: nat, io: Io): (Life, Option<AuthError>)
    requires l.Down?
  {
    var refusal := OpenRefusal(l.disk, c, k, credential);
    if refusal.Some? then (l, refusal)
    else
      match Reconcile(l.disk, c, k, now)
      case Err(e) => (l, Some(e))
      case Ok((changed, s)) => Start(l, RulesOf(c, k), c, changed, s, io)
  }

  function Take(l: Life, k: Crypto, t: Turn): Life {
    match t
    case Serve(r) => if l.Up? then Up(Step(l.world, RulesOf(l.catalog, k), r), l.catalog) else l
    case Stop => if l.Up? then Down(l.world.disk, l.world.audit, l.catalog) else l
    case Open(c, credential, now, io) => if l.Down? then Reopen(l, k, c, credential, now, io).0 else l
  }

  function Live(l: Life, k: Crypto, turns: seq<Turn>): Life
    decreases |turns|
  {
    if turns == [] then l else Live(Take(l, k, turns[0]), k, turns[1..])
  }

  // ---- What every life keeps ----

  /** The reference of the last update is in the log. */
  ghost predicate Referenced(audit: seq<AuditRecord>, s: Credential) {
    s.lastAudit.Some? ==> exists i :: 0 <= i < |audit| && audit[i].ref == s.lastAudit.value
  }

  /** States validate against the catalogue they were written for, and the log knows their last update. */
  ghost predicate Sound(l: Life, k: Crypto) {
    match l
    case Down(disk, audit, c) => StateValid(disk, RulesOf(c, k)) && Referenced(audit, disk)
    case Up(w, c) =>
      StateValid(w.state, RulesOf(c, k)) && StateValid(w.disk, RulesOf(c, k))
      && Referenced(w.audit, w.state) && Referenced(w.audit, w.disk)
  }

  lemma ReferencedStays(audit: seq<AuditRecord>, more: seq<AuditRecord>, s: Credential)
    requires audit <= more && Referenced(audit, s)
    ensures Referenced(more, s)
  {
    if s.lastAudit.Some? {
      var i :| 0 <= i < |audit| && audit[i].ref == s.lastAudit.value;
      assert more[i] == audit[i];
    }
  }

  lemma ServeKeepsReferenced(w: World, k: Rules, r: Request)
    requires Referenced(w.audit, w.state) && Referenced(w.audit, w.disk)
    ensures var w' := Step(w, k, r); Referenced(w'.audit, w'.state) && Referenced(w'.audit, w'.disk)
  {
    AuditAfter(w, k, r);
    var w' := Step(w, k, r);
    ReferencedStays(w.audit, w'.audit, w.state);
    ReferencedStays(w.audit, w'.audit, w.disk);
  }

  lemma ServeKeepsValid(w: World, k: Rules, r: Request)
    requires StateValid(w.state, k) && StateValid(w.disk, k) && Coherent(k)
    ensures StateValid(Step(w, k, r).state, k) && StateValid(Step(w, k, r).disk, k)
  {
    if r.change.SetEntitlements? {
      if Refusal(w.state, k, r.change).None? {
        UpdatedValid(w.state, k, r.change.core, r.change.apps, r.now);
        InstallKeepsValid(w, Updated(w.state, r.change.core, r.change.apps, k.ceiling(r.change.core, r.change.apps).value, r.now), k, r);
      }
    } else if Edited(w.state, k, r.change).Ok? {
      EditedValid(w.state, k, r.change);
      var edited := Edited(w.state, k, r.change).value;
      if Advance(edited, r.now).Ok? {
        AdvancedValid(edited, k, r.now);
      }
    }
  }

  lemma StartKeepsSound(l: Life, k: Crypto, c: Catalog, changed: bool, s: Credential, io: Io)
    requires l.Down? && Sound(l, k) && StateValid(s, RulesOf(c, k)) && s.lastAudit == l.disk.lastAudit && (changed || s == l.disk)
    ensures Sound(Start(l, RulesOf(c, k), c, changed, s, io).0, k)
  {
    assert Referenced(l.audit, s);
  }

  lemma ReopenKeepsSound(l: Life, k: Crypto, c: Catalog, credential: string, now: nat, io: Io)
    requires l.Down? && Sound(l, k)
    ensures Sound(Reopen(l, k, c, credential, now, io).0, k)
  {
    if OpenRefusal(l.disk, c, k, credential).None? && Reconcile(l.disk, c, k, now).Ok? {
      var (changed, s) := Reconcile(l.disk, c, k, now).value;
      if l.disk.catalogDigest != k.catalog(c) {
        ReconciledValid(l.disk, l.catalog, c, k, now);
      }
      StartKeepsSound(l, k, c, changed, s, io);
    }
  }

  lemma TakeKeepsSound(l: Life, k: Crypto, t: Turn)
    requires Sound(l, k) && DigestsDecode(k)
    ensures Sound(Take(l, k, t), k)
  {
    match t
    case Serve(r) =>
      if l.Up? {
        CatalogRulesCoherent(l.catalog, k);
        ServeKeepsValid(l.world, RulesOf(l.catalog, k), r);
        ServeKeepsReferenced(l.world, RulesOf(l.catalog, k), r);
      }
    case Stop =>
    case Open(c, credential, now, io) =>
      if l.Down? {
        ReopenKeepsSound(l, k, c, credential, now, io);
      }
  }

  /** Over every life, with crashes at any point, storage failures of any kind and any sequence of catalogues, what is in
      memory and on disk validates against the catalogue it was written for, and the log holds the reference of its last
      entitlement update. */
  lemma {:induction false} LifeKeepsSound(l: Life, k: Crypto, turns: seq<Turn>)
    requires Sound(l, k) && DigestsDecode(k)
    ensures Sound(Live(l, k, turns), k)
    decreases |turns|
  {
    if turns != [] {
      TakeKeepsSound(l, k, turns[0]);
      LifeKeepsSound(Take(l, k, turns[0]), k, turns[1..]);
    }
  }

  // ---- The audit log and reconciliation ----

  /** The catalogue gives the state the selection and the ceiling it already has. */
  ghost predicate KeepsSelection(s: Credential, c: Catalog) {
    Reselected(s.apps, c.apps) == s.apps && CapabilitiesFor(c, s.core, s.apps) == Ok(s.entitled)
  }

  /** Reconciliation writes no audit record. The log still tells the selection and ceiling of an updated state if and
      only if the new catalogue keeps them. */
  lemma ReconcileLoggedExactly(audit: seq<AuditRecord>, s: Credential, c: Catalog, k: Crypto, now: nat)
    requires Logged(audit, s) && RefsUnique(audit) && s.lastAudit.Some?
    requires Reconcile(s, c, k, now).Ok? && s.catalogDigest != k.catalog(c)
    ensures Logged(audit, Reconcile(s, c, k, now).value.1) <==> KeepsSelection(s, c)
  {
    var next := Reconcile(s, c, k, now).value.1;
    LoggedSelection(audit, s, next);
  }

  lemma LoggedSelection(audit: seq<AuditRecord>, s: Credential, next: Credential)
    requires Logged(audit, s) && RefsUnique(audit) && s.lastAudit.Some? && next.lastAudit == s.lastAudit && next.core == s.core
    ensures Logged(audit, next) <==> next.apps == s.apps && next.entitled == s.entitled
  {
    var i :| 0 <= i < |audit| && audit[i].ref == s.lastAudit.value
             && audit[i].core == s.core && audit[i].apps == s.apps && audit[i].entitled == s.entitled;
    if Logged(audit, next) {
      var j :| 0 <= j < |audit| && audit[j].ref == next.lastAudit.value
               && audit[j].core == next.core && audit[j].apps == next.apps && audit[j].entitled == next.entitled;
      assert i == j;
    }
  }

  ghost predicate FullyLogged(l: Life) {
    match l
    case Down(disk, audit, _) => Logged(audit, disk)
    case Up(w, _) => Logged(w.audit, w.state) && Logged(w.audit, w.disk)
  }

  /** A turn that opens with another catalogue keeps the selection of the state it finds. */
  ghost predicate Keeping(l: Life, k: Crypto, t: Turn) {
    t.Open? && l.Down? && l.disk.lastAudit.Some? && l.disk.catalogDigest != k.catalog(t.offered) ==> KeepsSelection(l.disk, t.offered)
  }

  ghost predicate KeepingLife(l: Life, k: Crypto, turns: seq<Turn>)
    decreases |turns|
  {
    turns == [] || (Keeping(l, k, turns[0]) && KeepingLife(Take(l, k, turns[0]), k, turns[1..]))
  }

  lemma StartKeepsLogged(l: Life, rules: Rules, c: Catalog, changed: bool, s: Credential, io: Io)
    requires l.Down? && FullyLogged(l) && Logged(l.audit, s)
    ensures FullyLogged(Start(l, rules, c, changed, s, io).0)
  {
  }

  lemma ReconcileKeepsLogged(audit: seq<AuditRecord>, s: Credential, c: Catalog, k: Crypto, now: nat)
    requires Logged(audit, s) && Reconcile(s, c, k, now).Ok?
    requires s.lastAudit.Some? && s.catalogDigest != k.catalog(c) ==> KeepsSelection(s, c)
    ensures Logged(audit, Reconcile(s, c, k, now).value.1)
  {
    var next := Reconcile(s, c, k, now).value.1;
    assert next.core == s.core && next.lastAudit == s.lastAudit;
    assert s.lastAudit.Some? ==> next.apps == s.apps && next.entitled == s.entitled;
  }

  lemma ReopenKeepsLogged(l: Life, k: Crypto, c: Catalog, credential: string, now: nat, io: Io)
    requires l.Down? && FullyLogged(l) && Keeping(l, k, Open(c, credential, now, io))
    ensures FullyLogged(Reopen(l, k, c, credential, now, io).0)
  {
    if OpenRefusal(l.disk, c, k, credential).None? && Reconcile(l.disk, c, k, now).Ok? {
      var (changed, s) := Reconcile(l.disk, c, k, now).value;
      ReconcileKeepsLogged(l.audit, l.disk, c, k, now);
      StartKeepsLogged(l, RulesOf(c, k), c, changed, s, io);
    }
  }

  lemma ServeKeepsLogged(w: World, k: Rules, r: Request)
    requires Good(w, k) && Coherent(k)
    ensures Good(Step(w, k, r), k)
  {
    if r.change.SetEntitlements? {
      SetKeepsGood(w, k, r);
    } else {
      LifecycleKeepsGood(w, k, r);
    }
  }

  lemma TakeKeepsLogged(l: Life, k: Crypto, t: Turn)
    requires Sound(l, k) && FullyLogged(l) && DigestsDecode(k) && Keeping(l, k, t)
    ensures FullyLogged(Take(l, k, t))
  {
    match t
    case Serve(r) =>
      if l.Up? {
        CatalogRulesCoherent(l.catalog, k);
        ServeKeepsLogged(l.world, RulesOf(l.catalog, k), r);
      }
    case Stop =>
    case Open(c, credential, now, io) =>
      if l.Down? {
        ReopenKeepsLogged(l, k, c, credential, now, io);
      }
  }

  /** Over every life in which no opening changes the selection of an updated state, the log tells the selection and the
      ceiling of what is in memory and on disk. */
  lemma {:induction false} LifeKeepsLogged(l: Life, k: Crypto, turns: seq<Turn>)
    requires Sound(l, k) && FullyLogged(l) && DigestsDecode(k) && KeepingLife(l, k, turns)
    ensures FullyLogged(Live(l, k, turns))
    decreases |turns|
  {
    if turns != [] {
      TakeKeepsSound(l, k, turns[0]);
      TakeKeepsLogged(l, k, turns[0]);
      LifeKeepsLogged(Take(l, k, turns[0]), k, turns[1..]);
    }
  }

  // ---- A life in which the log falls behind ----

  lemma NothingSelected(selection: map<string, string>)
    ensures Reselected(selection, []) == map[]
  {
    assert Retained(selection, []) == map[];
  }

  lemma CredentialOpens(disk: Credential, before: Rules, c: Catalog, k: Crypto, credential: string)
    requires StateValid(disk, before) && before.wellFormed == k.wellFormed && CatalogValid(c) && disk.catalogDigest != k.catalog(c)
    requires !Blank(credential) && disk.credentialDigest == k.credential(credential)
    ensures OpenRefusal(disk, c, k, credential).None?
  {
  }

  lemma ReconcileSucceeds(s: Credential, c: Catalog, k: Crypto, now: nat)
    requires CatalogValid(c) && s.catalogDigest != k.catalog(c)
    requires Offers(c.coreProfiles, s.core) && s.revision < MAX_U64 && s.epoch < MAX_U64
    ensures Reconcile(s, c, k, now).Ok? && Reconcile(s, c, k, now).value.0
  {
    ReselectedFits(s.apps, c, s.core);
  }

  lemma StartWritten(l: Life, rules: Rules, c: Catalog, s: Credential)
    requires l.Down? && StateValid(s, rules)
    ensures Start(l, rules, c, true, s, Written).0 == Up(World(s, s, l.audit), c)
  {
  }

  /** Opening an updated state with a catalogue that has dropped its APPs leaves a running authority whose entitlements
      no record of the log tells. */
  lemma DroppedAppsAreUnlogged(l: Life, k: Crypto, c: Catalog, credential: string, now: nat)
    requires l.Down? && Sound(l, k) && FullyLogged(l) && RefsUnique(l.audit) && l.disk.lastAudit.Some? && l.disk.apps != map[]
    requires CatalogValid(c) && c.apps == [] && l.disk.catalogDigest != k.catalog(c)
    requires Offers(c.coreProfiles, l.disk.core) && l.disk.revision < MAX_U64 && l.disk.epoch < MAX_U64
    requires !Blank(credential) && l.disk.credentialDigest == k.credential(credential)
    ensures var l' := Reopen(l, k, c, credential, now, Written).0; l'.Up? && !Logged(l'.world.audit, l'.world.state)
  {
    NothingSelected(l.disk.apps);
    CredentialOpens(l.disk, RulesOf(l.catalog, k), c, k, credential);
    ReconcileSucceeds(l.disk, c, k, now);
    ReconciledValid(l.disk, l.catalog, c, k, now);
    StartWritten(l, RulesOf(c, k), c, Reconcile(l.disk, c, k, now).value.1);
    ReconcileLoggedExactly(l.audit, l.disk, c, k, now);
  }

  // ---- When opening succeeds ----

  /** The state that was written for the same catalogue is valid, or it can be reconciled with another and written. */
  ghost predicate Resumable(disk: Credential, c: Catalog, k: Crypto, io: Io) {
    if disk.catalogDigest == k.catalog(c) then StateValid(disk, RulesOf(c, k))
    else Offers(c.coreProfiles, disk.core) && disk.revision < MAX_U64 && disk.epoch < MAX_U64 && io.Written?
  }

  lemma ReconcilesExactly(s: Credential, c: Catalog, k: Crypto, now: nat)
    requires CatalogValid(c) && s.catalogDigest != k.catalog(c)
    ensures Reconcile(s, c, k, now).Ok? <==> Offers(c.coreProfiles, s.core) && s.revision < MAX_U64 && s.epoch < MAX_U64
  {
    if Offers(c.coreProfiles, s.core) && s.revision < MAX_U64 && s.epoch < MAX_U64 {
      ReconcileSucceeds(s, c, k, now);
    }
  }

  lemma RefusesExactly(disk: Credential, before: Rules, c: Catalog, k: Crypto, credential: string)
    requires StateValid(disk, before) && before.wellFormed == k.wellFormed
    ensures OpenRefusal(disk, c, k, credential).None?
            <==> !Blank(credential) && CatalogValid(c) && disk.credentialDigest == k.credential(credential)
                 && (disk.catalogDigest == k.catalog(c) ==> StateValid(disk, RulesOf(c, k)))
  {
  }

  lemma StartExactly(l: Life, k: Crypto, c: Catalog, changed: bool, s: Credential, io: Io)
    requires l.Down? && StateValid(s, RulesOf(c, k)) && (changed || s == l.disk)
    ensures var (l', failure) := Start(l, RulesOf(c, k), c, changed, s, io);
            && (failure.None? <==> !changed || io.Written?)
            && (failure.None? ==> l' == Up(World(s, s, l.audit), c))
            && (failure.Some? ==> l'.Down? && l'.audit == l.audit && (if io.Lost? then l'.disk == l.disk else l'.disk == s))
  {
  }

  /** Opening a stored state succeeds if and only if the credential is the stored one and not blank, the catalogue is
      valid, and the state can be resumed; then memory and disk agree, and the log and the credential are as before. A
      failure leaves the log alone, and the disk too unless the write failed after the bytes were in place. */
  lemma ReopenExactly(l: Life, k: Crypto, c: Catalog, credential: string, now: nat, io: Io)
    requires l.Down? && Sound(l, k)
    ensures var (l', failure) := Reopen(l, k, c, credential, now, io);
            && (failure.None? <==> !Blank(credential) && CatalogValid(c) && l.disk.credentialDigest == k.credential(credential)
                                   && Resumable(l.disk, c, k, io))
            && (failure.None? ==>
                  && l'.Up? && l'.catalog == c && l'.world.audit == l.audit && l'.world.disk == l'.world.state
                  && l'.world.state.status == l.disk.status && l'.world.state.credentialDigest == l.disk.credentialDigest
                  && (l.disk.catalogDigest == k.catalog(c) ==> l'.world.state == l.disk))
            && (failure.Some? ==> l'.Down? && l'.audit == l.audit && (l'.disk == l.disk || io.WrittenButFailed?))
  {
    RefusesExactly(l.disk, RulesOf(l.catalog, k), c, k, credential);
    if OpenRefusal(l.disk, c, k, credential).None? {
      if l.disk.catalogDigest == k.catalog(c) {
        StartExactly(l, k, c, false, l.disk, io);
      } else {
        ReconcilesExactly(l.disk, c, k, now);
        if Reconcile(l.disk, c, k, now).Ok? {
          StartReconciled(l, k, c, now, io);
        }
      }
    }
  }

  lemma StartReconciled(l: Life, k: Crypto, c: Catalog, now: nat, io: Io)
    requires l.Down? && Sound(l, k) && l.disk.catalogDigest != k.catalog(c) && Reconcile(l.disk, c, k, now).Ok?
    ensures var (changed, s) := Reconcile(l.disk, c, k, now).value;
            var (l', failure) := Start(l, RulesOf(c, k), c, changed, s, io);
            && s.status == l.disk.status && s.credentialDigest == l.disk.credentialDigest
            && (failure.None? <==> io.Written?)
            && (failure.None? ==> l' == Up(World(s, s, l.audit), c))
            && (failure.Some? ==> l'.Down? && l'.audit == l.audit && (l'.disk == l.disk || io.WrittenButFailed?))
  {
    ReconciledValid(l.disk, l.catalog, c, k, now);
    StartExactly(l, k, c, true, Reconcile(l.disk, c, k, now).value.1, io);
  }
}
