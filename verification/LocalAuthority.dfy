/** The authority as it runs: fields replaced in place, maps retained and completed in loops, and the
    three durable steps of an entitlement update in their order. */
module LocalAuthority {
  import opened Common
  import opened AuthCatalog
  import opened Authority
  import opened AuthReconcile

  /** Collects the requested capabilities that exist, each once, in request order. */
  method ApproveCapabilities(known: set<string>, requested: seq<string>) returns (r: Result<seq<string>, AuthError>)
    ensures r == Approve(known, requested, [])
  {
    var approved := [];
    var i := 0;
    assert requested[0..] == requested;
    while i < |requested|
      invariant 0 <= i <= |requested|
      invariant Approve(known, requested, []) == Approve(known, requested[i..], approved)
    {
      assert requested[i..][1..] == requested[i + 1..];
      if requested[i] !in known {
        return Err(CapabilityDenied(requested[i]));
      }
      if requested[i] !in approved {
        approved := approved + [requested[i]];
      }
      i := i + 1;
    }
    r := Ok(approved);
  }

  /** Drops the APPs the catalogue no longer has, then gives every APP of the catalogue its profile. */
  method Reselect(selection: map<string, string>, apps: seq<AppProfiles>) returns (r: map<string, string>)
    ensures r == Reselected(selection, apps)
  {
    r := map id | id in selection && id in AppIds(apps) :: selection[id];
    ghost var retained := r;
    assert retained == Retained(selection, apps);
    var i := 0;
    while i < |apps|
      invariant 0 <= i <= |apps|
      invariant r == Filled(retained, apps[..i])
    {
      assert apps[..i + 1][..i] == apps[..i];
      if !(apps[i].appId in r && Offers(apps[i].profiles, r[apps[i].appId])) {
        r := r[apps[i].appId := apps[i].defaultProfileId];
      }
      i := i + 1;
    }
    assert apps[..i] == apps;
  }

  class LocalAuthority {
    const rules: Rules
    var state: Credential
    var disk: Credential
    var audit: seq<AuditRecord>

    ghost function Contents(): World reads this { World(state, disk, audit) }

    constructor (rules: Rules, state: Credential)
      ensures this.rules == rules && Contents() == World(state, state, [])
    {
      this.rules := rules;
      this.state := state;
      this.disk := state;
      this.audit := [];
    }

    method AdvanceEpoch(now: nat) returns (failure: Option<AuthError>)
      modifies this`state
      ensures failure.None? ==> Advance(old(state), now) == Ok(state)
      ensures failure.Some? ==> Advance(old(state), now) == Err(failure.value) && state == old(state)
    {
      if state.epoch >= MAX_U64 {
        return Some(CounterExhausted);
      }
      state := state.(epoch := state.epoch + 1);
      state := state.(updatedAt := if now < state.updatedAt then state.updatedAt else now);
      failure := None;
    }

    method Persist(next: Credential, io: Io) returns (failure: Option<AuthError>)
      modifies this`disk
      ensures (disk, failure) == Persisted(old(disk), next, rules, io)
    {
      if !StateValid(next, rules) {
        return Some(InvalidState);
      }
      if !io.Lost? {
        disk := next;
      }
      failure := if io.Written? then None else Some(Storage);
    }

    /** Rotation, revocation and recovery edit the state in memory before they advance and persist it. */
    method ChangeLifecycle(r: Request) returns (failure: Option<AuthError>)
      requires !r.change.SetEntitlements?
      modifies this`state, this`disk
      ensures (Contents(), failure) == ApplyLifecycle(old(Contents()), rules, r)
    {
      var edited := Edited(state, rules, r.change);
      if edited.Err? {
        return Some(edited.error);
      }
      state := edited.value;
      failure := AdvanceEpoch(r.now);
      if failure.None? {
        failure := Persist(state, r.diskIo);
      }
    }

    /** Works on a copy of the state; the copy replaces the state only after both durable writes. */
    method SetHumanEntitlements(r: Request) returns (result: Result<Projection, AuthError>)
      requires r.change.SetEntitlements?
      modifies this
      ensures (Contents(), result) == ApplySet(old(Contents()), rules, r)
    {
      var refusal := Refusal(state, rules, r.change);
      if refusal.Some? {
        return Err(refusal.value);
      }
      var entitled := rules.ceiling(r.change.core, r.change.apps).value;
      var next := Updated(state, r.change.core, r.change.apps, entitled, r.now);
      if !r.change.auditIo.Lost? {
        audit := audit + [RecordOf(state, next, r.now)];
      }
      if !r.change.auditIo.Written? {
        return Err(Storage);
      }
      var failure := Persist(next, r.diskIo);
      if failure.Some? {
        return Err(failure.value);
      }
      state := next;
      result := HumanEntitlements(state, rules, r.change.credential);
    }

    /** Raises the revision, signs the update and advances the epoch; an exhausted counter stops it where it stands. */
    method Revise(now: nat) returns (failure: Option<AuthError>)
      modifies this`state
      ensures failure.None? <==> old(state.revision) < MAX_U64 && old(state.epoch) < MAX_U64
      ensures failure.Some? ==> failure == Some(CounterExhausted)
      ensures state == if old(state.revision) >= MAX_U64 then old(state) else Revised(old(state), now, failure.None?)
    {
      if state.revision >= MAX_U64 {
        return Some(CounterExhausted);
      }
      state := state.(revision := state.revision + 1,
                      entitlementUpdatedAt := if now < state.updatedAt then state.updatedAt else now,
                      entitlementUpdatedBy := RECONCILER);
      failure := AdvanceEpoch(now);
    }

    method ReconcileCatalog(c: Catalog, k: Crypto, now: nat) returns (result: Result<bool, AuthError>)
      modifies this`state
      ensures result.Ok? ==> Reconcile(old(state), c, k, now) == Ok((result.value, state))
      ensures result.Err? ==> Reconcile(old(state), c, k, now) == Err(result.error) && state == LeftBehind(old(state), c, k, now)
    {
      if state.catalogDigest == k.catalog(c) {
        return Ok(false);
      }
      if !Offers(c.coreProfiles, state.core) {
        return Err(UnknownCoreProfile);
      }
      var apps := Reselect(state.apps, c.apps);
      state := state.(apps := apps, catalogDigest := k.catalog(c));
      var entitled := ComputeCapabilities(c, state.core, state.apps);
      ReconcileCases(old(state), c, k, now, apps, entitled);
      if entitled.Err? {
        return Err(entitled.error);
      }
      state := state.(entitled := entitled.value);
      var failure := Revise(now);
      result := if failure.Some? then Err(failure.value) else Ok(true);
    }
  }

  /** The counters and signature of a reconciliation; without `advanced` the epoch stays as it was. */
  function Revised(s: Credential, now: nat, advanced: bool): Credential {
    var revised := s.(revision := s.revision + 1, entitlementUpdatedAt := Later(now, s.updatedAt), entitlementUpdatedBy := RECONCILER);
    if advanced then revised.(epoch := s.epoch + 1, updatedAt := Later(now, s.updatedAt)) else revised
  }

  lemma ReconcileCases(s: Credential, c: Catalog, k: Crypto, now: nat, apps: map<string, string>, r: Result<seq<string>, AuthError>)
    ensures var moved := s.(apps := apps, catalogDigest := k.catalog(c));
            && (r.Err? ==> ReconcileWith(s, c, k, now, apps, r) == Err(r.error) && LeftWith(s, c, k, now, apps, r) == moved)
            && (r.Ok? ==>
                  var granted := moved.(entitled := r.value);
                  && ReconcileWith(s, c, k, now, apps, r)
                     == (if s.revision >= MAX_U64 || s.epoch >= MAX_U64 then Err(CounterExhausted) else Ok((true, Revised(granted, now, true))))
                  && LeftWith(s, c, k, now, apps, r) == if s.revision >= MAX_U64 then granted else Revised(granted, now, false))
  {
  }
}
