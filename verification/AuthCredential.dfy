/** The life of the credential: what rotation, revocation and recovery do to it, and what holds until the next of them. */
module AuthCredential {
  import opened Common
  import opened Text
  import opened AuthCatalog
  import opened Authority

  /** Different credentials have different digests. */
  ghost predicate CredentialInjective(k: Rules) {
    forall x, y :: k.credential(x) == k.credential(y) ==> x == y
  }

  // ---- One change ----

  /** A rotation passes its checks: the credential is the stored one and active, and the replacement is not blank. */
  ghost predicate MayRotate(s: Credential, k: Rules, change: Change)
    requires change.Rotate?
  {
    s.status == Active && s.credentialDigest == k.credential(change.credential) && !Blank(change.replacement)
  }

  ghost predicate MayRevoke(s: Credential, k: Rules, change: Change)
    requires change.Revoke?
  {
    s.status == Active && s.credentialDigest == k.credential(change.credential)
  }

  /** A recovery passes its checks: the state is revoked, the credential is the stored one, the replacement is not blank. */
  ghost predicate MayRecover(s: Credential, k: Rules, change: Change)
    requires change.Recover?
  {
    s.status == Revoked && s.credentialDigest == k.credential(change.credential) && !Blank(change.replacement)
  }

  ghost predicate May(s: Credential, k: Rules, change: Change)
    requires !change.SetEntitlements?
  {
    match change
    case Rotate(_, _) => MayRotate(s, k, change)
    case Revoke(_) => MayRevoke(s, k, change)
    case Recover(_, _) => MayRecover(s, k, change)
  }

  /** The status and the credential digest that a change leads to. */
  ghost function Outcome(s: Credential, k: Rules, change: Change): (Status, string)
    requires !change.SetEntitlements?
  {
    match change
    case Rotate(_, replacement) => (Active, k.credential(replacement))
    case Revoke(_) => (Revoked, s.credentialDigest)
    case Recover(_, replacement) => (Active, k.credential(replacement))
  }

  lemma EditedExactly(s: Credential, k: Rules, change: Change)
    requires !change.SetEntitlements? && k.wellFormed(s.credentialDigest)
    ensures Edited(s, k, change).Ok? <==> May(s, k, change)
    ensures Edited(s, k, change).Ok? ==>
              Edited(s, k, change).value == s.(status := Outcome(s, k, change).0, credentialDigest := Outcome(s, k, change).1)
  {
  }

  /** The later of the clock and the last update. */
  ghost function Stamp(now: nat, t: nat): nat { if now > t then now else t }

  /** A change takes effect in memory exactly when it passes its checks: it installs its outcome, advances the epoch by
      one and the time stamp, and leaves the entitlements and the log alone. It is reported as done exactly when the epoch
      could be advanced and the state was written. */
  lemma ChangeExactly(w: World, k: Rules, r: Request)
    requires !r.change.SetEntitlements? && StateValid(w.state, k) && Coherent(k)
    ensures var (w', failure) := ApplyLifecycle(w, k, r);
            var s := w.state;
            var (status, digest) := Outcome(s, k, r.change);
            && (failure.None? <==> May(s, k, r.change) && s.epoch < MAX_U64 && r.diskIo.Written?)
            && w'.audit == w.audit
            && w'.state == (if !May(s, k, r.change) then s
                            else if s.epoch >= MAX_U64 then s.(status := status, credentialDigest := digest)
                            else s.(status := status, credentialDigest := digest, epoch := s.epoch + 1, updatedAt := Stamp(r.now, s.updatedAt)))
            && (failure.None? ==> w'.disk == w'.state)
  {
    EditedExactly(w.state, k, r.change);
    if May(w.state, k, r.change) {
      EditedValid(w.state, k, r.change);
      var edited := Edited(w.state, k, r.change).value;
      if Advance(edited, r.now).Ok? {
        AdvancedValid(edited, k, r.now);
      }
    }
  }

  // ---- Revoked ----

  /** The request recovers the credential of this state: its checks pass. */
  ghost predicate Recovers(s: Credential, k: Rules, r: Request) {
    r.change.Recover? && MayRecover(s, k, r.change)
  }

  lemma RevokedStep(w: World, k: Rules, r: Request)
    requires w.state.status == Revoked && k.wellFormed(w.state.credentialDigest) && !Recovers(w.state, k, r)
    ensures Step(w, k, r) == w
  {
    if !r.change.SetEntitlements? {
      EditedExactly(w.state, k, r.change);
    }
  }

  /** While no recovery passes its checks, nothing whatever changes a revoked authority. */
  lemma {:induction false} RevokedIsFrozen(w: World, k: Rules, requests: seq<Request>)
    requires w.state.status == Revoked && k.wellFormed(w.state.credentialDigest)
    requires forall i :: 0 <= i < |requests| ==> !Recovers(w.state, k, requests[i])
    ensures Run(w, k, requests) == w
    decreases |requests|
  {
    if requests != [] {
      RevokedStep(w, k, requests[0]);
      assert forall i :: 0 <= i < |requests[1..]| ==> requests[1..][i] == requests[i + 1];
      RevokedIsFrozen(w, k, requests[1..]);
    }
  }

  /** Every use of the credential but recovery is refused because it is revoked. */
  ghost predicate RefusedAsRevoked(w: World, k: Rules, credential: string) {
    && HumanEntitlements(w.state, k, credential) == Err(CredentialRevoked)
    && (forall core, apps :: Preview(w.state, k, credential, core, apps) == Err(CredentialRevoked))
    && (forall r: Request :: r.change.SetEntitlements? && r.change.credential == credential ==>
          ApplySet(w, k, r) == (w, Err(CredentialRevoked)))
    && (forall r: Request :: (r.change.Rotate? || r.change.Revoke?) && r.change.credential == credential ==>
          ApplyLifecycle(w, k, r) == (w, Some(CredentialRevoked)))
  }

  lemma RevokedRefuses(w: World, k: Rules, credential: string)
    requires w.state.status == Revoked && k.wellFormed(w.state.credentialDigest) && w.state.credentialDigest == k.credential(credential)
    ensures RefusedAsRevoked(w, k, credential)
  {
  }

  /** After a successful revocation, whatever is requested and however storage behaves, every read, preview, update,
      rotation and revocation with that credential is refused as revoked until a recovery passes its checks. */
  lemma RevocationHolds(w: World, k: Rules, r: Request, between: seq<Request>)
    requires StateValid(w.state, k) && Coherent(k) && r.change.Revoke? && ApplyLifecycle(w, k, r).1.None?
    requires forall i :: 0 <= i < |between| ==> !Recovers(Step(w, k, r).state, k, between[i])
    ensures Run(Step(w, k, r), k, between) == Step(w, k, r)
    ensures RefusedAsRevoked(Run(Step(w, k, r), k, between), k, r.change.credential)
  {
    ChangeExactly(w, k, r);
    RevokedIsFrozen(Step(w, k, r), k, between);
    RevokedRefuses(Step(w, k, r), k, r.change.credential);
  }

  /** It need not be reported as done: a recovery that passes its checks but is not written leaves the credential active
      in memory, although it is reported as failed, and the disk still holds the revoked one. */
  lemma FailedRecoveryActivates(w: World, k: Rules, r: Request)
    requires StateValid(w.state, k) && Coherent(k) && r.change.Recover? && MayRecover(w.state, k, r.change)
    requires w.state.epoch < MAX_U64 && r.diskIo.Lost?
    ensures var (w', failure) := ApplyLifecycle(w, k, r);
            failure == Some(Storage) && w'.disk == w.disk && w'.state.status == Active && HumanEntitlements(w'.state, k, r.change.replacement).Ok?
  {
    ChangeExactly(w, k, r);
    EditedValid(w.state, k, r.change);
    var edited := Edited(w.state, k, r.change).value;
    AdvancedValid(edited, k, r.now);
    OwnEntitlementsGranted(ApplyLifecycle(w, k, r).0.state, k);
  }

  // ---- Replaced ----

  /** The request gives the credential of this state a replacement: its checks pass. */
  ghost predicate Rekeys(s: Credential, k: Rules, r: Request) {
    (r.change.Rotate? && MayRotate(s, k, r.change)) || (r.change.Recover? && MayRecover(s, k, r.change))
  }

  ghost predicate Rekeyless(w: World, k: Rules, requests: seq<Request>)
    decreases |requests|
  {
    requests == [] || (!Rekeys(w.state, k, requests[0]) && Rekeyless(Step(w, k, requests[0]), k, requests[1..]))
  }

  lemma StepKeepsDigest(w: World, k: Rules, r: Request)
    requires Good(w, k) && Coherent(k) && !Rekeys(w.state, k, r)
    ensures Step(w, k, r).state.credentialDigest == w.state.credentialDigest
  {
    if !r.change.SetEntitlements? {
      ChangeExactly(w, k, r);
    }
  }

  lemma {:induction false} RunKeepsDigest(w: World, k: Rules, requests: seq<Request>)
    requires Good(w, k) && Coherent(k) && Rekeyless(w, k, requests)
    ensures Run(w, k, requests).state.credentialDigest == w.state.credentialDigest
    decreases |requests|
  {
    if requests != [] {
      StepKeepsDigest(w, k, requests[0]);
      RunKeepsGood(w, k, [requests[0]]);
      assert [requests[0]][1..] == [];
      assert Run(w, k, [requests[0]]) == Step(w, k, requests[0]);
      RunKeepsDigest(Step(w, k, requests[0]), k, requests[1..]);
    }
  }

  /** The credential opens the state: it is the stored one, whether or not it is active. */
  lemma OpensExactly(s: Credential, k: Rules, x: string)
    requires StateValid(s, k) && Coherent(k)
    ensures VerifyCredential(s, k, x).None? <==> s.credentialDigest == k.credential(x)
    ensures HumanEntitlements(s, k, x).Ok? <==> s.credentialDigest == k.credential(x) && s.status == Active
  {
    OwnEntitlementsGranted(s, k);
  }

  /** After a rotation or recovery that passed its checks, exactly the replacement opens the authority, whatever is requested
      until the next of them: and it may be used exactly while it is active. */
  lemma ReplacementHolds(w: World, k: Rules, r: Request, between: seq<Request>, x: string)
    requires Good(w, k) && Coherent(k) && CredentialInjective(k) && Rekeys(w.state, k, r)
    requires Rekeyless(Step(w, k, r), k, between)
    ensures var s := Run(Step(w, k, r), k, between).state;
            && (VerifyCredential(s, k, x).None? <==> x == r.change.replacement)
            && (HumanEntitlements(s, k, x).Ok? <==> x == r.change.replacement && s.status == Active)
  {
    ChangeExactly(w, k, r);
    RunKeepsGood(w, k, [r]);
    assert [r][1..] == [];
    assert Run(w, k, [r]) == Step(w, k, r);
    RunKeepsDigest(Step(w, k, r), k, between);
    RunKeepsGood(Step(w, k, r), k, between);
    OpensExactly(Run(Step(w, k, r), k, between).state, k, x);
  }
}
