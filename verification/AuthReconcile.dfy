/** Running the authority on a concrete catalogue: enrolment, and reconciling a stored state with the
    catalogue of a new product build. */
module AuthReconcile {
  import opened Common
  import opened Order
  import opened Text
  import opened AuthCatalog
  import opened Authority

  /** The digests in use. `wellFormed` is whether a stored credential digest decodes. */
  datatype Crypto = Crypto(
    credential: string -> string,
    catalog: Catalog -> string,
    confirmation: (nat, nat, string, map<string, string>, seq<string>) -> string,
    wellFormed: string -> bool)

  ghost predicate DigestsDecode(k: Crypto) {
    forall x :: k.wellFormed(k.credential(x))
  }

  /** Different catalogues have different digests. */
  ghost predicate CatalogInjective(k: Crypto) {
    forall a, b :: k.catalog(a) == k.catalog(b) ==> a == b
  }

  /** All capabilities some profile of the catalogue mentions. */
  function Known(c: Catalog): set<string> {
    (set p, x | p in c.coreProfiles && x in p.capabilities :: x)
    + (set a, p, x | a in c.apps && p in a.profiles && x in p.capabilities :: x)
  }

  function RulesOf(c: Catalog, k: Crypto): Rules {
    Rules((core, apps) => CapabilitiesFor(c, core, apps), Known(c), k.catalog(c),
          k.credential, k.confirmation, k.wellFormed)
  }

  lemma {:induction false} AppEntitlementKnown(c: Catalog, n: nat, selection: map<string, string>)
    requires n <= |c.apps|
    ensures AppEntitlement(c.apps[..n], selection) <= Known(c)
  {
    if n > 0 {
      AppEntitlementKnown(c, n - 1, selection);
      assert c.apps[..n][..n - 1] == c.apps[..n - 1];
      assert c.apps[..n][n - 1] in c.apps;
    }
  }

  lemma CeilingIsKnown(c: Catalog, core: string, apps: map<string, string>)
    requires CapabilitiesFor(c, core, apps).Ok?
    ensures CeilingFits(CapabilitiesFor(c, core, apps).value, Known(c))
  {
    AppEntitlementKnown(c, |c.apps|, apps);
    assert c.apps[..|c.apps|] == c.apps;
    var entitlement := Entitlement(c, core, apps);
    assert entitlement <= Known(c);
    assert CapabilitiesFor(c, core, apps).value == Sorted(entitlement);
  }

  lemma RulesCeiling(c: Catalog, k: Crypto, core: string, apps: map<string, string>)
    ensures RulesOf(c, k).ceiling(core, apps) == CapabilitiesFor(c, core, apps)
  {
  }

  /** Any catalogue gives coherent rules: its ceilings are ascending lists of known capabilities. */
  lemma CatalogRulesCoherent(c: Catalog, k: Crypto)
    requires DigestsDecode(k)
    ensures Coherent(RulesOf(c, k))
  {
    var rules := RulesOf(c, k);
    forall core, apps | rules.ceiling(core, apps).Ok?
      ensures CeilingFits(rules.ceiling(core, apps).value, rules.known)
    {
      RulesCeiling(c, k, core, apps);
      CeilingIsKnown(c, core, apps);
    }
  }

  // ---- Enrolment ----

  function AppIds(apps: seq<AppProfiles>): set<string> {
    set i | 0 <= i < |apps| :: apps[i].appId
  }

  lemma {:induction false} AppIdCount(apps: seq<AppProfiles>)
    requires DistinctApps(apps)
    ensures |AppIds(apps)| == |apps|
  {
    if apps != [] {
      var init := apps[..|apps| - 1];
      AppIdCount(init);
      assert AppIds(apps) == AppIds(init) + {apps[|apps| - 1].appId};
      assert apps[|apps| - 1].appId !in AppIds(init);
    }
  }

  /** The selection keeps what an APP still offers and is completed by the APP's default. */
  function Filled(selection: map<string, string>, apps: seq<AppProfiles>): map<string, string>
    decreases |apps|
  {
    if apps == [] then selection
    else
      var prior := Filled(selection, apps[..|apps| - 1]);
      var app := apps[|apps| - 1];
      if app.appId in prior && Offers(app.profiles, prior[app.appId]) then prior
      else prior[app.appId := app.defaultProfileId]
  }

  function Retained(selection: map<string, string>, apps: seq<AppProfiles>): map<string, string> {
    map id | id in selection && id in AppIds(apps) :: selection[id]
  }

  /** What one APP gets: the profile selected so far if it is still offered, otherwise the default. */
  function Kept(selection: map<string, string>, app: AppProfiles): string {
    if app.appId in selection && Offers(app.profiles, selection[app.appId]) then selection[app.appId]
    else app.defaultProfileId
  }

  lemma {:induction false} FilledKeys(selection: map<string, string>, apps: seq<AppProfiles>)
    ensures Filled(selection, apps).Keys == selection.Keys + AppIds(apps)
    decreases |apps|
  {
    if apps != [] {
      FilledKeys(selection, apps[..|apps| - 1]);
      assert AppIds(apps) == AppIds(apps[..|apps| - 1]) + {apps[|apps| - 1].appId};
    }
  }

  lemma {:induction false} FilledElsewhere(selection: map<string, string>, apps: seq<AppProfiles>, id: string)
    requires id !in AppIds(apps)
    ensures id in Filled(selection, apps) <==> id in selection
    ensures id in selection ==> Filled(selection, apps)[id] == selection[id]
    decreases |apps|
  {
    if apps != [] {
      assert apps[|apps| - 1].appId in AppIds(apps);
      assert AppIds(apps[..|apps| - 1]) <= AppIds(apps);
      FilledElsewhere(selection, apps[..|apps| - 1], id);
    }
  }

  lemma {:induction false} FilledAt(selection: map<string, string>, apps: seq<AppProfiles>, i: nat)
    requires DistinctApps(apps) && i < |apps|
    ensures apps[i].appId in Filled(selection, apps)
    ensures Filled(selection, apps)[apps[i].appId] == Kept(selection, apps[i])
    decreases |apps|
  {
    var init := apps[..|apps| - 1];
    var last := apps[|apps| - 1];
    if i < |apps| - 1 {
      FilledAt(selection, init, i);
      assert init[i] == apps[i];
      assert last.appId != apps[i].appId;
    } else {
      assert last.appId !in AppIds(init);
      FilledElsewhere(selection, init, last.appId);
    }
  }

  function Reselected(selection: map<string, string>, apps: seq<AppProfiles>): map<string, string> {
    Filled(Retained(selection, apps), apps)
  }

  /** One profile per APP of the catalogue and nothing else: kept where still offered, else the default. */
  lemma ReselectedExactly(selection: map<string, string>, apps: seq<AppProfiles>)
    requires DistinctApps(apps)
    ensures Reselected(selection, apps).Keys == AppIds(apps) && |Reselected(selection, apps)| == |apps|
    ensures forall i :: 0 <= i < |apps| ==>
              && apps[i].appId in Reselected(selection, apps)
              && Reselected(selection, apps)[apps[i].appId] == Kept(selection, apps[i])
  {
    var retained := Retained(selection, apps);
    FilledKeys(retained, apps);
    AppIdCount(apps);
    assert Filled(retained, apps).Keys == AppIds(apps);
    forall i | 0 <= i < |apps|
      ensures apps[i].appId in Reselected(selection, apps)
              && Reselected(selection, apps)[apps[i].appId] == Kept(selection, apps[i])
    {
      assert apps[i].appId in AppIds(apps);
      FilledAt(retained, apps, i);
    }
  }

  lemma DefaultsOffered(c: Catalog)
    requires CatalogValid(c)
    ensures forall i :: 0 <= i < |c.apps| ==> Offers(c.apps[i].profiles, c.apps[i].defaultProfileId)
  {
    forall i | 0 <= i < |c.apps| ensures Offers(c.apps[i].profiles, c.apps[i].defaultProfileId) {
      assert AppValid(c.apps[i]);
    }
  }

  /** A reconciled selection always has a ceiling when the core profile is offered. */
  lemma ReselectedFits(selection: map<string, string>, c: Catalog, core: string)
    requires CatalogValid(c) && Offers(c.coreProfiles, core)
    ensures CapabilitiesFor(c, core, Reselected(selection, c.apps)).Ok?
  {
    ReselectedOffered(selection, c);
    HasCeiling(c, core, Reselected(selection, c.apps));
  }

  lemma ReselectedOffered(selection: map<string, string>, c: Catalog)
    requires CatalogValid(c)
    ensures SelectionCovers(c.apps, Reselected(selection, c.apps)) && SelectionOffered(c.apps, Reselected(selection, c.apps))
  {
    ReselectedExactly(selection, c.apps);
    DefaultsOffered(c);
  }

  lemma HasCeiling(c: Catalog, core: string, selection: map<string, string>)
    requires Offers(c.coreProfiles, core) && SelectionCovers(c.apps, selection) && SelectionOffered(c.apps, selection)
    ensures CapabilitiesFor(c, core, selection).Ok?
  {
  }

  /** Every APP with its default profile. */
  function DefaultSelection(apps: seq<AppProfiles>): map<string, string> {
    if apps == [] then map[]
    else DefaultSelection(apps[..|apps| - 1])[apps[|apps| - 1].appId := apps[|apps| - 1].defaultProfileId]
  }

  lemma {:induction false} DefaultsAreReselected(apps: seq<AppProfiles>)
    requires DistinctApps(apps)
    ensures DefaultSelection(apps) == Filled(map[], apps)
  {
    if apps != [] {
      var init := apps[..|apps| - 1];
      DefaultsAreReselected(init);
      assert apps[|apps| - 1].appId !in AppIds(init);
      FilledElsewhere(map[], init, apps[|apps| - 1].appId);
    }
  }

  function Enroll(credential: string, c: Catalog, k: Crypto, now: nat): Result<Credential, AuthError> {
    if Blank(credential) then Err(InvalidCredential)
    else
      var apps := DefaultSelection(c.apps);
      match CapabilitiesFor(c, "core_operator", apps)
      case Err(e) => Err(e)
      case Ok(entitled) =>
        Ok(Credential(STATE_VERSION, k.credential(credential), 1, Active, now, now, k.catalog(c), "core_operator",
                      apps, 1, entitled, now, "initial_enrollment", None))
  }

  lemma EnrolledValid(credential: string, c: Catalog, k: Crypto, now: nat)
    requires Enroll(credential, c, k, now).Ok? && DigestsDecode(k) && now != 0
    ensures StateValid(Enroll(credential, c, k, now).value, RulesOf(c, k))
  {
    var s := Enroll(credential, c, k, now).value;
    assert !IsWhitespace(s.entitlementUpdatedBy[0]);
  }

  /** Enrolling on a valid catalogue succeeds for any non-blank credential and starts a good run. */
  lemma EnrollmentIsGood(credential: string, c: Catalog, k: Crypto, now: nat)
    requires CatalogValid(c) && DigestsDecode(k) && !Blank(credential) && now != 0
    ensures Enroll(credential, c, k, now).Ok?
    ensures var s := Enroll(credential, c, k, now).value; Good(World(s, s, []), RulesOf(c, k))
  {
    ReselectedFits(map[], c, "core_operator");
    assert Retained(map[], c.apps) == map[];
    DefaultsAreReselected(c.apps);
    EnrolledValid(credential, c, k, now);
  }

  // ---- Reconciliation ----

  const RECONCILER: string := "compiled_app_catalogue_reconciliation"

  /** The state a reconciliation leads to, for the selection and the ceiling it finds. */
  function Reconciled(s: Credential, c: Catalog, k: Crypto, now: nat, apps: map<string, string>, entitled: seq<string>): Credential {
    s.(apps := apps, catalogDigest := k.catalog(c), entitled := entitled, revision := s.revision + 1,
       entitlementUpdatedAt := Later(now, s.updatedAt), entitlementUpdatedBy := RECONCILER,
       epoch := s.epoch + 1, updatedAt := Later(now, s.updatedAt))
  }

  /** What follows once the selection and its ceiling are known. */
  function ReconcileWith(s: Credential, c: Catalog, k: Crypto, now: nat, apps: map<string, string>, ceiling: Result<seq<string>, AuthError>)
    : Result<(bool, Credential), AuthError>
  {
    match ceiling
    case Err(e) => Err(e)
    case Ok(entitled) =>
      if s.revision >= MAX_U64 || s.epoch >= MAX_U64 then Err(CounterExhausted)
      else Ok((true, Reconciled(s, c, k, now, apps, entitled)))
  }

  function Reconcile(s: Credential, c: Catalog, k: Crypto, now: nat): Result<(bool, Credential), AuthError> {
    if s.catalogDigest == k.catalog(c) then Ok((false, s))
    else if !Offers(c.coreProfiles, s.core) then Err(UnknownCoreProfile)
    else
      var apps := Reselected(s.apps, c.apps);
      ReconcileWith(s, c, k, now, apps, CapabilitiesFor(c, s.core, apps))
  }

  /** What an error leaves behind, since the state is edited field by field. */
  function LeftWith(s: Credential, c: Catalog, k: Crypto, now: nat, apps: map<string, string>, ceiling: Result<seq<string>, AuthError>): Credential {
    var moved := s.(apps := apps, catalogDigest := k.catalog(c));
    match ceiling
    case Err(_) => moved
    case Ok(entitled) =>
      var granted := moved.(entitled := entitled);
      if s.revision >= MAX_U64 then granted
      else granted.(revision := s.revision + 1, entitlementUpdatedAt := Later(now, s.updatedAt), entitlementUpdatedBy := RECONCILER)
  }

  function LeftBehind(s: Credential, c: Catalog, k: Crypto, now: nat): Credential {
    if s.catalogDigest == k.catalog(c) || !Offers(c.coreProfiles, s.core) then s
    else
      var apps := Reselected(s.apps, c.apps);
      LeftWith(s, c, k, now, apps, CapabilitiesFor(c, s.core, apps))
  }

  lemma ReconcilerNamed()
    ensures !Blank(RECONCILER)
  {
    assert !IsWhitespace(RECONCILER[0]);
  }

  /** Apart from its ceiling, a reconciled state is as valid as the state it came from. */
  lemma ReconciledFits(s: Credential, before: Rules, rules: Rules, c: Catalog, k: Crypto, now: nat, apps: map<string, string>, entitled: seq<string>)
    requires StateValid(s, before) && rules.wellFormed(s.credentialDigest) && rules.catalogDigest == k.catalog(c)
    requires rules.ceiling(s.core, apps) == Ok(entitled) && !Blank(RECONCILER)
    ensures StateValid(Reconciled(s, c, k, now, apps, entitled), rules)
  {
  }

  lemma ReconciledValid(s: Credential, before: Catalog, c: Catalog, k: Crypto, now: nat)
    requires StateValid(s, RulesOf(before, k)) && s.catalogDigest != k.catalog(c)
    requires Reconcile(s, c, k, now).Ok?
    ensures StateValid(Reconcile(s, c, k, now).value.1, RulesOf(c, k))
  {
    var apps := Reselected(s.apps, c.apps);
    ReconcilerNamed();
    RulesCeiling(c, k, s.core, apps);
    ReconciledFits(s, RulesOf(before, k), RulesOf(c, k), c, k, now, apps, CapabilitiesFor(c, s.core, apps).value);
  }

  /** Reconciling a state that was valid under an earlier catalogue with a valid new one succeeds exactly
      when the new one still offers the core profile and neither counter is exhausted. The result
      validates against the new catalogue, has one profile per APP (kept where still offered, the
      default otherwise), the sorted union as ceiling and both counters one higher; the credential
      itself is untouched; and reconciling again changes nothing. */
  lemma ReconciliationExact(s: Credential, before: Catalog, c: Catalog, k: Crypto, now: nat, later: nat)
    requires CatalogValid(c) && StateValid(s, RulesOf(before, k)) && s.catalogDigest != k.catalog(c)
    ensures Reconcile(s, c, k, now).Ok? <==>
              Offers(c.coreProfiles, s.core) && s.revision < MAX_U64 && s.epoch < MAX_U64
    ensures Reconcile(s, c, k, now).Ok? ==>
              var (changed, s') := Reconcile(s, c, k, now).value;
              && changed && StateValid(s', RulesOf(c, k))
              && s'.apps.Keys == AppIds(c.apps)
              && (forall i :: 0 <= i < |c.apps| ==>
                    c.apps[i].appId in s'.apps && s'.apps[c.apps[i].appId] == Kept(s.apps, c.apps[i]))
              && s'.entitled == Sorted(Entitlement(c, s.core, s'.apps))
              && s'.revision == s.revision + 1 && s'.epoch == s.epoch + 1
              && s'.credentialDigest == s.credentialDigest && s'.status == s.status && s'.core == s.core
              && Reconcile(s', c, k, later) == Ok((false, s'))
  {
    if Offers(c.coreProfiles, s.core) {
      ReselectedExactly(s.apps, c.apps);
      ReselectedFits(s.apps, c, s.core);
    }
    if Reconcile(s, c, k, now).Ok? {
      ReconciledValid(s, before, c, k, now);
    }
  }

  /** With the catalogue it was written for, a state is left alone, and it is valid for that catalogue. */
  lemma ReconcileSameCatalog(s: Credential, before: Catalog, c: Catalog, k: Crypto, now: nat)
    requires CatalogInjective(k) && StateValid(s, RulesOf(before, k)) && s.catalogDigest == k.catalog(c)
    ensures Reconcile(s, c, k, now) == Ok((false, s))
    ensures before == c && StateValid(s, RulesOf(c, k))
  {
    assert k.catalog(before) == k.catalog(c);
  }
}
