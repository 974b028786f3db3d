/** The local credential and entitlement authority: two version counters, compare-and-set updates with
    a preview/confirm handshake, a write-ahead audit log, and persistence that may fail. */
module Authority {
  import opened Common
  import opened Order
  import opened Text
  import opened AuthCatalog

  const MAX_U64: nat := 0xFFFF_FFFF_FFFF_FFFF
  const STATE_VERSION: nat := 3

  /** Everything a running authority consults: its digests, and of its catalogue the ceiling of each
      selection, the capabilities that exist, and the catalogue's own digest. */
  datatype Rules = Rules(
    ceiling: (string, map<string, string>) -> Result<seq<string>, AuthError>,
    known: set<string>,
    catalogDigest: string,
    credential: string -> string,
    confirmation: (nat, nat, string, map<string, string>, seq<string>) -> string,
    wellFormed: string -> bool)

  /** Different confirmation documents have different digests. */
  ghost predicate ConfirmationInjective(k: Rules) {
    forall e, r, c, p, s, e', r', c', p', s' ::
      k.confirmation(e, r, c, p, s) == k.confirmation(e', r', c', p', s') ==>
        e == e' && r == r' && c == c' && p == p' && s == s'
  }

  /** A ceiling lists known capabilities in ascending order, and the digest of a credential decodes. */
  ghost predicate Coherent(k: Rules) {
    && (forall core, apps :: k.ceiling(core, apps).Ok? ==> CeilingFits(k.ceiling(core, apps).value, k.known))
    && (forall x :: k.wellFormed(k.credential(x)))
  }

  ghost predicate CeilingFits(ceiling: seq<string>, known: set<string>) {
    Ascending(ceiling) && forall x :: x in ceiling ==> x in known
  }

  datatype Status = Active | Revoked

  datatype AuditRef = AuditRef(epoch: nat, revision: nat)

  datatype Credential = Credential(
    version: nat,
    credentialDigest: string,
    epoch: nat,
    status: Status,
    enrolledAt: nat,
    updatedAt: nat,
    catalogDigest: string,
    core: string,
    apps: map<string, string>,
    revision: nat,
    entitled: seq<string>,
    entitlementUpdatedAt: nat,
    entitlementUpdatedBy: string,
    lastAudit: Option<AuditRef>)

  datatype AuditRecord = AuditRecord(
    ref: AuditRef, updatedAt: nat,
    previousCore: string, previousApps: map<string, string>, previousEntitled: seq<string>,
    core: string, apps: map<string, string>, entitled: seq<string>)

  datatype Projection = Projection(
    core: string, apps: map<string, string>, revision: nat, epoch: nat,
    ceiling: seq<string>, granted: seq<string>, denied: seq<string>)

  /** How a durable write can end: done, failed without effect, or failed after the bytes were in place. */
  datatype Io = Written | Lost | WrittenButFailed

  /** What the authority holds in memory, what is on disk, and the audit log. */
  datatype World = World(state: Credential, disk: Credential, audit: seq<AuditRecord>)

  predicate StateValid(s: Credential, k: Rules) {
    && s.version == STATE_VERSION
    && s.epoch != 0
    && s.enrolledAt != 0 && s.updatedAt >= s.enrolledAt
    && s.revision != 0 && s.entitlementUpdatedAt >= s.enrolledAt && !Blank(s.entitlementUpdatedBy)
    && s.catalogDigest == k.catalogDigest
    && k.ceiling(s.core, s.apps) == Ok(s.entitled)
    && k.wellFormed(s.credentialDigest)
  }

  /** The later of two times. */
  function Later(now: nat, t: nat): (r: nat)
    ensures r >= now && r >= t && (r == now || r == t)
  {
    if now < t then t else now
  }

  // ---- Reading ----

  function VerifyCredential(s: Credential, k: Rules, candidate: string): Option<AuthError> {
    if !k.wellFormed(s.credentialDigest) then Some(Storage)
    else if s.credentialDigest != k.credential(candidate) then Some(InvalidCredential)
    else None
  }

  function VerifyActive(s: Credential, k: Rules, candidate: string): Option<AuthError> {
    var failure := VerifyCredential(s, k, candidate);
    if failure.Some? then failure else if s.status != Active then Some(CredentialRevoked) else None
  }

  /** Requested capabilities must be known; repeats are dropped, order is kept. */
  function Approve(known: set<string>, requested: seq<string>, approved: seq<string>): Result<seq<string>, AuthError>
    decreases |requested|
  {
    if requested == [] then Ok(approved)
    else if requested[0] !in known then Err(CapabilityDenied(requested[0]))
    else Approve(known, requested[1..], if requested[0] in approved then approved else approved + [requested[0]])
  }

  function Keep(s: seq<string>, allowed: seq<string>, wanted: bool): seq<string> {
    if s == [] then []
    else (if (s[0] in allowed) == wanted then [s[0]] else []) + Keep(s[1..], allowed, wanted)
  }

  function Project(s: Credential, requested: seq<string>, k: Rules): Result<Projection, AuthError> {
    match Approve(k.known, requested, [])
    case Err(e) => Err(e)
    case Ok(approved) =>
      var granted := Keep(approved, s.entitled, true);
      Ok(Projection(s.core, s.apps, s.revision, s.epoch, s.entitled, granted, Keep(approved, granted, false)))
  }

  function HumanEntitlements(s: Credential, k: Rules, credential: string): Result<Projection, AuthError> {
    var failure := VerifyActive(s, k, credential);
    if failure.Some? then Err(failure.value) else Project(s, s.entitled, k)
  }

  function Preview(s: Credential, k: Rules, credential: string, core: string, apps: map<string, string>)
    : Result<(Projection, string), AuthError>
  {
    var failure := VerifyActive(s, k, credential);
    if failure.Some? then Err(failure.value)
    else
      match k.ceiling(core, apps)
      case Err(e) => Err(e)
      case Ok(ceiling) =>
        Ok((Projection(core, apps, s.revision, s.epoch, ceiling, ceiling, []),
            k.confirmation(s.epoch, s.revision, core, apps, ceiling)))
  }

  // ---- Changing ----

  /** Advances the epoch with a checked addition. */
  function Advance(s: Credential, now: nat): Result<Credential, AuthError> {
    if s.epoch >= MAX_U64 then Err(CounterExhausted)
    else Ok(s.(epoch := s.epoch + 1, updatedAt := Later(now, s.updatedAt)))
  }

  function Persisted(disk: Credential, s: Credential, k: Rules, io: Io): (Credential, Option<AuthError>) {
    if !StateValid(s, k) then (disk, Some(InvalidState))
    else (if io.Lost? then disk else s, if io.Written? then None else Some(Storage))
  }

  /** The state an accepted entitlement update installs. */
  function Updated(s: Credential, core: string, apps: map<string, string>, entitled: seq<string>, now: nat): Credential {
    s.(core := core, apps := apps, revision := s.revision + 1, entitled := entitled,
       entitlementUpdatedAt := Later(now, s.updatedAt), entitlementUpdatedBy := "local_same_uid_cli",
       epoch := s.epoch + 1, updatedAt := Later(now, s.updatedAt),
       lastAudit := Some(AuditRef(s.epoch + 1, s.revision + 1)))
  }

  function RecordOf(s: Credential, next: Credential, now: nat): AuditRecord {
    AuditRecord(AuditRef(next.epoch, next.revision), Later(now, s.updatedAt),
                s.core, s.apps, s.entitled, next.core, next.apps, next.entitled)
  }

  datatype Change =
    | SetEntitlements(credential: string, expectedEpoch: nat, expectedRevision: nat,
                      core: string, apps: map<string, string>, confirmation: string, auditIo: Io)
    | Rotate(credential: string, replacement: string)
    | Revoke(credential: string)
    | Recover(credential: string, replacement: string)

  /** A change request with the clock reading it meets and how writing the state to disk ends. */
  datatype Request = Request(change: Change, now: nat, diskIo: Io)

  /** The checks that come before anything is written. */
  function Refusal(s: Credential, k: Rules, change: Change): Option<AuthError>
    requires change.SetEntitlements?
  {
    var failure := VerifyActive(s, k, change.credential);
    if failure.Some? then failure
    else if s.epoch != change.expectedEpoch || s.revision != change.expectedRevision then Some(EntitlementConflict)
    else
      match k.ceiling(change.core, change.apps)
      case Err(e) => Some(e)
      case Ok(entitled) =>
        if k.confirmation(s.epoch, s.revision, change.core, change.apps, entitled) != change.confirmation then
          Some(InvalidConfirmation)
        else if s.revision >= MAX_U64 || s.epoch >= MAX_U64 then Some(CounterExhausted)
        else None
  }

  /** Appends the audit record, then writes the new state, and only then replaces the one in memory. */
  function Install(w: World, next: Credential, k: Rules, r: Request): (World, Option<AuthError>)
    requires r.change.SetEntitlements?
  {
    var logged := if r.change.auditIo.Lost? then w else w.(audit := w.audit + [RecordOf(w.state, next, r.now)]);
    if !r.change.auditIo.Written? then (logged, Some(Storage))
    else
      var (disk, failure) := Persisted(w.disk, next, k, r.diskIo);
      (logged.(disk := disk, state := if failure.Some? then w.state else next), failure)
  }

  function ApplySet(w: World, k: Rules, r: Request): (World, Result<Projection, AuthError>)
    requires r.change.SetEntitlements?
  {
    var refusal := Refusal(w.state, k, r.change);
    if refusal.Some? then (w, Err(refusal.value))
    else
      var entitled := k.ceiling(r.change.core, r.change.apps).value;
      var next := Updated(w.state, r.change.core, r.change.apps, entitled, r.now);
      var (w', failure) := Install(w, next, k, r);
      (w', if failure.Some? then Err(failure.value) else HumanEntitlements(next, k, r.change.credential))
  }

  /** Advance the epoch of an already edited state and write it; memory keeps the edit either way. */
  function AdvanceAndPersist(w: World, edited: Credential, k: Rules, r: Request): (World, Option<AuthError>) {
    match Advance(edited, r.now)
    case Err(e) => (w.(state := edited), Some(e))
    case Ok(next) =>
      var (disk, failure) := Persisted(w.disk, next, k, r.diskIo);
      (w.(state := next, disk := disk), failure)
  }

  /** What rotation, revocation and recovery edit, once their checks have passed. */
  function Edited(s: Credential, k: Rules, change: Change): Result<Credential, AuthError>
    requires !change.SetEntitlements?
  {
    match change
    case Rotate(credential, replacement) =>
      var failure := VerifyActive(s, k, credential);
      if failure.Some? then Err(failure.value)
      else if Blank(replacement) then Err(InvalidCredential)
      else Ok(s.(credentialDigest := k.credential(replacement)))
    case Revoke(credential) =>
      var failure := VerifyActive(s, k, credential);
      if failure.Some? then Err(failure.value) else Ok(s.(status := Revoked))
    case Recover(credential, replacement) =>
      var failure := VerifyCredential(s, k, credential);
      if failure.Some? then Err(failure.value)
      else if s.status != Revoked then Err(RecoveryUnavailable)
      else if Blank(replacement) then Err(InvalidCredential)
      else Ok(s.(credentialDigest := k.credential(replacement), status := Active))
  }

  function ApplyLifecycle(w: World, k: Rules, r: Request): (World, Option<AuthError>)
    requires !r.change.SetEntitlements?
  {
    match Edited(w.state, k, r.change)
    case Err(e) => (w, Some(e))
    case Ok(edited) => AdvanceAndPersist(w, edited, k, r)
  }

  function Step(w: World, k: Rules, r: Request): World {
    if r.change.SetEntitlements? then ApplySet(w, k, r).0 else ApplyLifecycle(w, k, r).0
  }

  function Run(w: World, k: Rules, requests: seq<Request>): World
    decreases |requests|
  {
    if requests == [] then w else Run(Step(w, k, requests[0]), k, requests[1..])
  }

  /** Whether a step is reported as a success. */
  predicate Succeeds(w: World, k: Rules, r: Request) {
    if r.change.SetEntitlements? then ApplySet(w, k, r).1.Ok? else ApplyLifecycle(w, k, r).1.None?
  }

  // ---- No stale confirmation ----

  lemma SetAdvances(w: World, k: Rules, r: Request)
    requires r.change.SetEntitlements?
    ensures var (w', result) := ApplySet(w, k, r);
            && (result.Ok? ==> w'.state.epoch == w.state.epoch + 1 && w'.state.revision == w.state.revision + 1)
            && (w'.state == w.state || (w'.state.epoch == w.state.epoch + 1 && w'.state.revision == w.state.revision + 1))
  {
  }

  lemma LifecycleAdvances(w: World, k: Rules, r: Request)
    requires !r.change.SetEntitlements?
    ensures var (w', failure) := ApplyLifecycle(w, k, r);
            && w'.state.revision == w.state.revision
            && (failure.None? ==> w'.state.epoch == w.state.epoch + 1)
            && (w'.state == w.state || w'.state.epoch == w.state.epoch + 1 || (w'.state.epoch == w.state.epoch >= MAX_U64))
  {
  }

  /** A successful step raises the epoch by exactly one, and an entitlement update the revision too. Whatever happens,
      failures included, the counters never fall, and a state that changed below the end of the epoch range has a
      higher epoch. */
  lemma StepAdvances(w: World, k: Rules, r: Request)
    ensures var s' := Step(w, k, r).state;
            && (Succeeds(w, k, r) ==> s'.epoch == w.state.epoch + 1)
            && (Succeeds(w, k, r) ==> s'.revision == w.state.revision + if r.change.SetEntitlements? then 1 else 0)
            && w.state.epoch <= s'.epoch && w.state.revision <= s'.revision
            && (s' == w.state || w.state.epoch < s'.epoch || w.state.epoch >= MAX_U64)
  {
    if r.change.SetEntitlements? {
      SetAdvances(w, k, r);
    } else {
      LifecycleAdvances(w, k, r);
    }
  }

  lemma {:induction false} RunAdvances(w: World, k: Rules, requests: seq<Request>)
    ensures var s' := Run(w, k, requests).state;
            && w.state.epoch <= s'.epoch && w.state.revision <= s'.revision
            && (s' == w.state || w.state.epoch < s'.epoch || w.state.epoch >= MAX_U64)
    decreases |requests|
  {
    if requests != [] {
      StepAdvances(w, k, requests[0]);
      RunAdvances(Step(w, k, requests[0]), k, requests[1..]);
    }
  }

  /** Compare-and-set with a confirmation is safe over every run: if an update presents the epoch,
      revision and digest of an earlier preview and is accepted, nothing has changed since the preview,
      the update asks for exactly the previewed selection, and it installs exactly the previewed ceiling. */
  lemma NoStaleConfirmation(w: World, k: Rules, credential: string, core: string,
                            apps: map<string, string>, between: seq<Request>, r: Request)
    requires ConfirmationInjective(k)
    requires Preview(w.state, k, credential, core, apps).Ok?
    requires var (shown, digest) := Preview(w.state, k, credential, core, apps).value;
             && r.change.SetEntitlements?
             && r.change.expectedEpoch == shown.epoch && r.change.expectedRevision == shown.revision
             && r.change.confirmation == digest
    requires ApplySet(Run(w, k, between), k, r).1.Ok?
    ensures var shown := Preview(w.state, k, credential, core, apps).value.0;
            var (w', result) := ApplySet(Run(w, k, between), k, r);
            && Run(w, k, between).state == w.state
            && r.change.core == core && r.change.apps == apps
            && w'.state.core == core && w'.state.apps == apps && w'.state.entitled == shown.ceiling
            && result.value.ceiling == shown.ceiling
  {
    RunAdvances(w, k, between);
  }

  // ---- What a projection and a preview show ----

  ghost predicate Distinct(s: seq<string>) {
    forall i, j :: 0 <= i < j < |s| ==> s[i] != s[j]
  }

  /** In the list, `x` occurs before `y` first occurs. */
  ghost predicate Earlier(all: seq<string>, x: string, y: string) {
    exists i :: 0 <= i < |all| && all[i] == x && y !in all[..i + 1]
  }

  ghost predicate KeepsOrder(some: seq<string>, all: seq<string>) {
    forall i, j :: 0 <= i < j < |some| ==> Earlier(all, some[i], some[j])
  }

  /** Dropping a repeat of what comes before it makes nothing earlier that was not. */
  lemma EarlierWithRepeat(before: seq<string>, x: string, after: seq<string>, a: string, b: string)
    requires x in before && Earlier(before + after, a, b)
    ensures Earlier(before + [x] + after, a, b)
  {
    var shorter, longer := before + after, before + [x] + after;
    var i :| 0 <= i < |shorter| && shorter[i] == a && b !in shorter[..i + 1];
    if i < |before| {
      assert longer[..i + 1] == shorter[..i + 1] && longer[i] == shorter[i];
    } else {
      assert longer[i + 1] == shorter[i];
      assert shorter[..i + 1] == before + after[..i + 1 - |before|];
      assert longer[..i + 2] == before + [x] + after[..i + 1 - |before|];
    }
  }

  lemma {:induction false} DistinctKeepsOrder(s: seq<string>)
    requires Distinct(s)
    ensures KeepsOrder(s, s)
  {
    forall i, j | 0 <= i < j < |s| ensures Earlier(s, s[i], s[j]) {
      assert s[j] !in s[..i + 1];
    }
  }

  /** The error of a list with something unknown: it names the first such thing. */
  ghost predicate DeniesFirst(r: Result<seq<string>, AuthError>, known: set<string>, requested: seq<string>) {
    exists i :: 0 <= i < |requested| && requested[i] !in known && (forall j :: 0 <= j < i ==> requested[j] in known)
                && r == Err(CapabilityDenied(requested[i]))
  }

  lemma {:induction false} ApproveExactly(known: set<string>, requested: seq<string>, approved: seq<string>)
    requires Distinct(approved)
    ensures var r := Approve(known, requested, approved);
            && (r.Ok? <==> forall x :: x in requested ==> x in known)
            && (r.Err? ==> DeniesFirst(r, known, requested))
            && (r.Ok? ==> Distinct(r.value) && KeepsOrder(r.value, approved + requested)
                          && forall x :: x in r.value <==> x in approved || x in requested)
    decreases |requested|
  {
    if requested == [] {
      assert approved + requested == approved;
      DistinctKeepsOrder(approved);
    } else {
      var x, rest := requested[0], requested[1..];
      assert requested == [x] + rest;
      var next := if x in approved then approved else approved + [x];
      ApproveExactly(known, rest, next);
      var r := Approve(known, rest, next);
      if x in known && r.Err? {
        var i :| 0 <= i < |rest| && rest[i] !in known && (forall j :: 0 <= j < i ==> rest[j] in known) && r == Err(CapabilityDenied(rest[i]));
        assert requested[i + 1] == rest[i];
      }
      if x in known && r.Ok? {
        ApprovedInOrder(r.value, approved, x, rest, next);
      }
    }
  }

  lemma ApprovedInOrder(value: seq<string>, approved: seq<string>, x: string, rest: seq<string>, next: seq<string>)
    requires next == (if x in approved then approved else approved + [x]) && KeepsOrder(value, next + rest)
    ensures KeepsOrder(value, approved + ([x] + rest))
  {
    assert approved + [x] + rest == approved + ([x] + rest);
    if x in approved {
      forall i, j | 0 <= i < j < |value| ensures Earlier(approved + ([x] + rest), value[i], value[j]) {
        EarlierWithRepeat(approved, x, rest, value[i], value[j]);
      }
    }
  }

  lemma {:induction false} KeepExactly(s: seq<string>, allowed: seq<string>, wanted: bool, all: seq<string>)
    requires Distinct(s) && KeepsOrder(s, all)
    ensures forall x :: x in Keep(s, allowed, wanted) <==> x in s && ((x in allowed) == wanted)
    ensures Distinct(Keep(s, allowed, wanted)) && KeepsOrder(Keep(s, allowed, wanted), all)
  {
    if s != [] {
      var rest := Keep(s[1..], allowed, wanted);
      KeepExactly(s[1..], allowed, wanted, all);
      assert s == [s[0]] + s[1..];
      forall j | 0 <= j < |rest| ensures rest[j] != s[0] && Earlier(all, s[0], rest[j]) {
        assert rest[j] in s[1..];
        var i :| 0 <= i < |s[1..]| && s[1..][i] == rest[j];
        assert s[i + 1] == rest[j];
      }
    }
  }

  /** A projection fails exactly when something unknown is requested, and names the first such capability; otherwise it
      shows the selection, counters and ceiling of the state and shares the requested capabilities out into granted and
      denied by whether the state is entitled to them, each once and in the order of the request. */
  lemma ProjectionExactly(s: Credential, requested: seq<string>, k: Rules)
    ensures var r := Project(s, requested, k);
            && (r.Ok? <==> forall x :: x in requested ==> x in k.known)
            && (r.Err? ==> exists i :: 0 <= i < |requested| && requested[i] !in k.known && (forall j :: 0 <= j < i ==> requested[j] in k.known)
                                       && r == Err(CapabilityDenied(requested[i])))
            && (r.Ok? ==>
                  && r.value.core == s.core && r.value.apps == s.apps && r.value.revision == s.revision && r.value.epoch == s.epoch
                  && r.value.ceiling == s.entitled
                  && (forall x :: x in r.value.granted <==> x in requested && x in s.entitled)
                  && (forall x :: x in r.value.denied <==> x in requested && x !in s.entitled)
                  && Distinct(r.value.granted) && Distinct(r.value.denied)
                  && KeepsOrder(r.value.granted, requested) && KeepsOrder(r.value.denied, requested))
  {
    ApproveExactly(k.known, requested, []);
    assert [] + requested == requested;
    var approval := Approve(k.known, requested, []);
    if approval.Ok? {
      var granted := Keep(approval.value, s.entitled, true);
      KeepExactly(approval.value, s.entitled, true, requested);
      KeepExactly(approval.value, granted, false, requested);
    }
  }

  /** A preview is given exactly to the active credential for a selection with a ceiling; it shows that selection and
      ceiling with the current counters, and its digest binds all five. */
  lemma PreviewExactly(s: Credential, k: Rules, credential: string, core: string, apps: map<string, string>)
    requires k.wellFormed(s.credentialDigest)
    ensures var r := Preview(s, k, credential, core, apps);
            && (r.Ok? <==> s.credentialDigest == k.credential(credential) && s.status == Active && k.ceiling(core, apps).Ok?)
            && (r.Ok? ==>
                  && r.value.0.core == core && r.value.0.apps == apps && r.value.0.epoch == s.epoch && r.value.0.revision == s.revision
                  && Ok(r.value.0.ceiling) == k.ceiling(core, apps) && r.value.0.granted == r.value.0.ceiling && r.value.0.denied == []
                  && r.value.1 == k.confirmation(s.epoch, s.revision, core, apps, r.value.0.ceiling))
  {
  }

  // ---- An accepted update ----

  lemma {:induction false} ApproveAll(known: set<string>, requested: seq<string>, approved: seq<string>)
    requires Ascending(approved + requested) && forall x :: x in requested ==> x in known
    ensures Approve(known, requested, approved) == Ok(approved + requested)
    decreases |requested|
  {
    if requested == [] {
      assert approved + requested == approved;
    } else {
      forall i | 0 <= i < |approved| ensures approved[i] != requested[0] {
        assert Less((approved + requested)[i], (approved + requested)[|approved|]);
        LessAsymmetric(requested[0], requested[0]);
      }
      assert approved + [requested[0]] + requested[1..] == approved + requested;
      ApproveAll(known, requested[1..], approved + [requested[0]]);
    }
  }

  lemma {:induction false} KeepSelf(s: seq<string>, allowed: seq<string>)
    requires forall x :: x in s ==> x in allowed
    ensures Keep(s, allowed, true) == s && Keep(s, allowed, false) == []
  {
    if s != [] {
      KeepSelf(s[1..], allowed);
      assert s[0] in allowed;
    }
  }

  /** Reading the entitlements of a state that matches its catalogue cannot fail and denies nothing. */
  lemma OwnEntitlementsGranted(s: Credential, k: Rules)
    requires Coherent(k) && k.ceiling(s.core, s.apps) == Ok(s.entitled)
    ensures Project(s, s.entitled, k)
            == Ok(Projection(s.core, s.apps, s.revision, s.epoch, s.entitled, s.entitled, []))
  {
    assert CeilingFits(k.ceiling(s.core, s.apps).value, k.known);
    assert [] + s.entitled == s.entitled;
    ApproveAll(k.known, s.entitled, []);
    KeepSelf(s.entitled, s.entitled);
  }

  lemma UpdatedValid(s: Credential, k: Rules, core: string, apps: map<string, string>, now: nat)
    requires StateValid(s, k) && k.ceiling(core, apps).Ok?
    ensures StateValid(Updated(s, core, apps, k.ceiling(core, apps).value, now), k)
  {
    assert !IsWhitespace("local_same_uid_cli"[0]);
  }

  /** What an update must get right before anything is written. */
  ghost predicate Entitled(s: Credential, k: Rules, change: Change)
    requires change.SetEntitlements?
  {
    && s.credentialDigest == k.credential(change.credential) && s.status == Active
    && s.epoch == change.expectedEpoch && s.revision == change.expectedRevision
    && k.ceiling(change.core, change.apps).Ok?
    && change.confirmation == k.confirmation(s.epoch, s.revision, change.core, change.apps, k.ceiling(change.core, change.apps).value)
    && s.epoch < MAX_U64 && s.revision < MAX_U64
  }

  lemma RefusedExactly(s: Credential, k: Rules, change: Change)
    requires change.SetEntitlements? && k.wellFormed(s.credentialDigest)
    ensures Refusal(s, k, change).None? <==> Entitled(s, k, change)
  {
  }

  /** An update is accepted if and only if the credential is the active one, epoch and revision are the current ones,
      the selection has a ceiling, the confirmation is that of the selection and its ceiling, neither counter is
      exhausted, and both durable writes succeed; then the final read returns the new selection with both counters one
      higher and nothing denied. */
  lemma UpdateAcceptedExactly(w: World, k: Rules, r: Request)
    requires Coherent(k) && StateValid(w.state, k) && r.change.SetEntitlements?
    ensures var (w', result) := ApplySet(w, k, r);
            && (result.Ok? <==> Entitled(w.state, k, r.change) && r.change.auditIo.Written? && r.diskIo.Written?)
            && (result.Ok? ==>
                  var ceiling := k.ceiling(r.change.core, r.change.apps).value;
                  && result.value == Projection(r.change.core, r.change.apps, w.state.revision + 1, w.state.epoch + 1,
                                                ceiling, ceiling, [])
                  && w'.state == w'.disk
                  && w'.state == w.state.(core := r.change.core, apps := r.change.apps, entitled := ceiling,
                                          epoch := w.state.epoch + 1, revision := w.state.revision + 1,
                                          updatedAt := Later(r.now, w.state.updatedAt),
                                          entitlementUpdatedAt := Later(r.now, w.state.updatedAt),
                                          entitlementUpdatedBy := "local_same_uid_cli",
                                          lastAudit := Some(AuditRef(w.state.epoch + 1, w.state.revision + 1)))
                  && StateValid(w'.state, k))
  {
    RefusedExactly(w.state, k, r.change);
    if Refusal(w.state, k, r.change).None? {
      var ceiling := k.ceiling(r.change.core, r.change.apps).value;
      UpdatedValid(w.state, k, r.change.core, r.change.apps, r.now);
      OwnEntitlementsGranted(Updated(w.state, r.change.core, r.change.apps, ceiling, r.now), k);
    }
  }

  /** A refused or failed update leaves the state in memory as it was, and nothing reaches the disk
      whose audit record is not already in the log. */
  lemma UpdateIsFailureAtomic(w: World, k: Rules, r: Request)
    requires Coherent(k) && StateValid(w.state, k) && r.change.SetEntitlements?
    ensures var (w', result) := ApplySet(w, k, r);
            && (result.Err? ==> w'.state == w.state)
            && w.audit <= w'.audit
            && (w'.disk != w.disk || w'.state != w.state ==>
                  && k.ceiling(r.change.core, r.change.apps).Ok?
                  && w'.audit == w.audit + [AuditRecord(AuditRef(w.state.epoch + 1, w.state.revision + 1), Later(r.now, w.state.updatedAt),
                                                        w.state.core, w.state.apps, w.state.entitled,
                                                        r.change.core, r.change.apps, k.ceiling(r.change.core, r.change.apps).value)])
  {
    UpdateAcceptedExactly(w, k, r);
  }

  // ---- Over every run ----

  /** The audit log names this state's last entitlement update, with exactly its selection and ceiling. */
  ghost predicate Logged(audit: seq<AuditRecord>, s: Credential) {
    s.lastAudit.Some? ==>
      exists i :: 0 <= i < |audit| && audit[i].ref == s.lastAudit.value
                  && audit[i].core == s.core && audit[i].apps == s.apps && audit[i].entitled == s.entitled
  }

  ghost predicate Good(w: World, k: Rules) {
    StateValid(w.state, k) && StateValid(w.disk, k) && Logged(w.audit, w.state) && Logged(w.audit, w.disk)
  }

  lemma LoggedStays(audit: seq<AuditRecord>, record: AuditRecord, s: Credential)
    requires Logged(audit, s)
    ensures Logged(audit + [record], s)
  {
    if s.lastAudit.Some? {
      var i :| 0 <= i < |audit| && audit[i].ref == s.lastAudit.value
               && audit[i].core == s.core && audit[i].apps == s.apps && audit[i].entitled == s.entitled;
      assert (audit + [record])[i] == audit[i];
    }
  }

  lemma InstallKeepsValid(w: World, next: Credential, k: Rules, r: Request)
    requires StateValid(w.state, k) && StateValid(w.disk, k) && StateValid(next, k) && r.change.SetEntitlements?
    ensures StateValid(Install(w, next, k, r).0.state, k) && StateValid(Install(w, next, k, r).0.disk, k)
  {
  }

  lemma InstallKeepsLogged(w: World, next: Credential, k: Rules, r: Request)
    requires Logged(w.audit, w.state) && Logged(w.audit, w.disk) && r.change.SetEntitlements?
    requires next.lastAudit == Some(AuditRef(next.epoch, next.revision))
    ensures var w' := Install(w, next, k, r).0; Logged(w'.audit, w'.state) && Logged(w'.audit, w'.disk)
  {
    LoggedNow(w.audit, w.state, next, r.now);
    LoggedStays(w.audit, RecordOf(w.state, next, r.now), w.state);
    LoggedStays(w.audit, RecordOf(w.state, next, r.now), w.disk);
  }

  lemma SetKeepsGood(w: World, k: Rules, r: Request)
    requires Good(w, k) && r.change.SetEntitlements?
    ensures Good(ApplySet(w, k, r).0, k)
  {
    if Refusal(w.state, k, r.change).None? {
      UpdatedValid(w.state, k, r.change.core, r.change.apps, r.now);
      var entitled := k.ceiling(r.change.core, r.change.apps).value;
      var next := Updated(w.state, r.change.core, r.change.apps, entitled, r.now);
      InstallKeepsValid(w, next, k, r);
      InstallKeepsLogged(w, next, k, r);
    }
  }

  lemma LoggedNow(audit: seq<AuditRecord>, s: Credential, next: Credential, now: nat)
    requires next.lastAudit == Some(AuditRef(next.epoch, next.revision))
    ensures Logged(audit + [RecordOf(s, next, now)], next)
  {
    assert (audit + [RecordOf(s, next, now)])[|audit|] == RecordOf(s, next, now);
  }

  lemma AdvancedValid(edited: Credential, k: Rules, now: nat)
    requires StateValid(edited, k) && Advance(edited, now).Ok?
    ensures StateValid(Advance(edited, now).value, k)
  {
  }

  /** Editing the credential but not the entitlement keeps everything. */
  lemma EditKeepsGood(w: World, edited: Credential, k: Rules, r: Request)
    requires Good(w, k) && StateValid(edited, k) && Logged(w.audit, edited)
    ensures Good(AdvanceAndPersist(w, edited, k, r).0, k)
  {
    if Advance(edited, r.now).Ok? {
      AdvancedValid(edited, k, r.now);
    }
  }

  lemma EditedValid(s: Credential, k: Rules, change: Change)
    requires StateValid(s, k) && Coherent(k) && !change.SetEntitlements? && Edited(s, k, change).Ok?
    ensures var edited := Edited(s, k, change).value;
            && StateValid(edited, k)
            && edited == s.(credentialDigest := edited.credentialDigest, status := edited.status)
  {
  }

  lemma LifecycleKeepsGood(w: World, k: Rules, r: Request)
    requires Good(w, k) && Coherent(k) && !r.change.SetEntitlements?
    ensures Good(ApplyLifecycle(w, k, r).0, k)
  {
    if Edited(w.state, k, r.change).Ok? {
      EditedValid(w.state, k, r.change);
      EditKeepsGood(w, Edited(w.state, k, r.change).value, k, r);
    }
  }

  /** In every reachable state both the memory and the disk copy validate against the catalogue, and
      their last entitlement update is in the audit log: the record is always written ahead. */
  lemma {:induction false} RunKeepsGood(w: World, k: Rules, requests: seq<Request>)
    requires Good(w, k) && Coherent(k)
    ensures Good(Run(w, k, requests), k)
    decreases |requests|
  {
    if requests != [] {
      if requests[0].change.SetEntitlements? {
        SetKeepsGood(w, k, requests[0]);
      } else {
        LifecycleKeepsGood(w, k, requests[0]);
      }
      RunKeepsGood(Step(w, k, requests[0]), k, requests[1..]);
    }
  }

  // ---- Audit references ----

  ghost predicate RefsUnique(audit: seq<AuditRecord>) {
    forall i, j :: 0 <= i < j < |audit| ==> audit[i].ref != audit[j].ref
  }

  /** No record is ahead of the next update. */
  ghost predicate RefsBounded(w: World) {
    forall i :: 0 <= i < |w.audit| ==> w.audit[i].ref.epoch <= w.state.epoch + 1
  }

  /** A record already stands where the next update will write its own: an update that was logged but not installed. */
  ghost predicate Pending(w: World) {
    exists i :: 0 <= i < |w.audit| && w.audit[i].ref == AuditRef(w.state.epoch + 1, w.state.revision + 1)
  }

  /** The request gets as far as leaving a record in the log. */
  ghost predicate Lands(w: World, k: Rules, r: Request) {
    r.change.SetEntitlements? && Refusal(w.state, k, r.change).None? && !r.change.auditIo.Lost?
  }

  lemma AuditAfter(w: World, k: Rules, r: Request)
    ensures var w' := Step(w, k, r);
            if Lands(w, k, r) then
              |w'.audit| == |w.audit| + 1 && w'.audit[..|w.audit|] == w.audit
              && w'.audit[|w.audit|].ref == AuditRef(w.state.epoch + 1, w.state.revision + 1)
            else w'.audit == w.audit
  {
  }

  /** A step keeps audit references unique if and only if it does not write a record while one is pending. */
  lemma StepRefsExactly(w: World, k: Rules, r: Request)
    requires RefsUnique(w.audit) && RefsBounded(w)
    ensures RefsBounded(Step(w, k, r))
    ensures RefsUnique(Step(w, k, r).audit) <==> !(Lands(w, k, r) && Pending(w))
  {
    AuditAfter(w, k, r);
    StepAdvances(w, k, r);
    var w' := Step(w, k, r);
    if Lands(w, k, r) {
      var n := |w.audit|;
      assert forall i :: 0 <= i < n ==> w'.audit[i] == w'.audit[..n][i];
      if Pending(w) {
        var i :| 0 <= i < n && w.audit[i].ref == AuditRef(w.state.epoch + 1, w.state.revision + 1);
        assert w'.audit[i].ref == w'.audit[n].ref;
      }
    }
  }

  ghost predicate Orderly(w: World, k: Rules, requests: seq<Request>)
    decreases |requests|
  {
    requests == [] || (!(Lands(w, k, requests[0]) && Pending(w)) && Orderly(Step(w, k, requests[0]), k, requests[1..]))
  }

  lemma {:induction false} RepeatedRefsStay(w: World, k: Rules, requests: seq<Request>)
    requires !RefsUnique(w.audit)
    ensures !RefsUnique(Run(w, k, requests).audit)
    decreases |requests|
  {
    if requests != [] {
      AuditAfter(w, k, requests[0]);
      var w' := Step(w, k, requests[0]);
      var i, j :| 0 <= i < j < |w.audit| && w.audit[i].ref == w.audit[j].ref;
      assert w'.audit[i] == w.audit[i] && w'.audit[j] == w.audit[j];
      RepeatedRefsStay(w', k, requests[1..]);
    }
  }

  /** Over a run the audit references are unique if and only if no update is logged while an earlier one, logged but not
      installed, is pending at the same epoch and revision. */
  lemma {:induction false} RunRefsExactly(w: World, k: Rules, requests: seq<Request>)
    requires RefsUnique(w.audit) && RefsBounded(w)
    ensures RefsUnique(Run(w, k, requests).audit) <==> Orderly(w, k, requests)
    decreases |requests|
  {
    if requests != [] {
      StepRefsExactly(w, k, requests[0]);
      if Lands(w, k, requests[0]) && Pending(w) {
        RepeatedRefsStay(Step(w, k, requests[0]), k, requests[1..]);
      } else {
        RunRefsExactly(Step(w, k, requests[0]), k, requests[1..]);
      }
    }
  }

  /** So an update whose state write is lost, retried, leaves two records with one reference. */
  lemma RetryRepeatsRef(w: World, k: Rules, r: Request, again: Request)
    requires Lands(w, k, r) && r.diskIo.Lost? && again == r.(diskIo := Written)
    ensures !RefsUnique(Run(w, k, [r, again]).audit)
  {
    AuditAfter(w, k, r);
    var w1 := Step(w, k, r);
    assert w1.state == w.state;
    AuditAfter(w1, k, again);
    var w2 := Step(w1, k, again);
    var n := |w.audit|;
    assert w2.audit[n] == w2.audit[..n + 1][n];
    assert w2.audit[n].ref == w2.audit[n + 1].ref;
    assert [r, again][1..] == [again] && [again][1..] == [];
    assert Run(w1, k, [again]) == w2;
  }
}
