/** The authorization catalogue: which profiles the core and each APP offer, what a selection of
    profiles entitles to, and how the catalogue is composed from admitted manifests. */
module AuthCatalog {
  import opened Common
  import opened Order
  import opened Sorting
  import opened Text
  import opened CanonicalSets

  datatype Profile = Profile(id: string, capabilities: seq<string>)

  datatype AppProfiles = AppProfiles(
    appId: string, defaultProfileId: string, profiles: seq<Profile>, surfaces: map<string, seq<string>>)

  datatype Catalog = Catalog(schemaVersion: nat, coreProfiles: seq<Profile>, apps: seq<AppProfiles>)

  datatype AuthError =
    | InvalidCredential
    | CredentialRevoked
    | RecoveryUnavailable
    | UnknownCoreProfile
    | SelectionMismatch
    | UnknownProfile
    | InvalidManifest
    | InvalidCatalog
    | InvalidState
    | CounterExhausted
    | Storage
    | CapabilityDenied(capability: string)
    | EntitlementConflict
    | InvalidConfirmation

  // ---- Validation ----

  predicate NoBlank(capabilities: seq<string>) {
    forall c :: c in capabilities ==> !Blank(c)
  }

  /** Profile ids are present and unique, and no capability is blank. */
  predicate ProfilesValid(profiles: seq<Profile>) {
    && (forall i :: 0 <= i < |profiles| ==> !Blank(profiles[i].id) && NoBlank(profiles[i].capabilities))
    && (forall i, j :: 0 <= i < j < |profiles| ==> profiles[i].id != profiles[j].id)
  }

  predicate Offers(profiles: seq<Profile>, id: string) {
    exists i :: 0 <= i < |profiles| && profiles[i].id == id
  }

  predicate AppValid(app: AppProfiles) {
    && !Blank(app.appId)
    && ProfilesValid(app.profiles)
    && (forall p, c :: p in app.profiles && c in p.capabilities ==> InNamespace(app.appId, c))
    && Offers(app.profiles, app.defaultProfileId)
    && (forall s :: s in app.surfaces ==> NoBlank(app.surfaces[s]))
    && (forall s, c :: s in app.surfaces && c in app.surfaces[s] ==> InNamespace(app.appId, c))
  }

  predicate DistinctApps(apps: seq<AppProfiles>) {
    forall i, j :: 0 <= i < j < |apps| ==> apps[i].appId != apps[j].appId
  }

  predicate CatalogValid(c: Catalog) {
    && c.schemaVersion == 1
    && c.coreProfiles != []
    && ProfilesValid(c.coreProfiles)
    && Offers(c.coreProfiles, "core_operator") && Offers(c.coreProfiles, "core_manager")
    && DistinctApps(c.apps)
    && (forall i :: 0 <= i < |c.apps| ==> AppValid(c.apps[i]))
  }

  // ---- The ceiling of a selection ----

  /** The first profile with this id. */
  function FindProfile(profiles: seq<Profile>, id: string): (r: Option<Profile>)
    ensures r.Some? <==> Offers(profiles, id)
    ensures r.Some? ==> r.value.id == id && r.value in profiles
  {
    if profiles == [] then None
    else if profiles[0].id == id then Some(profiles[0])
    else
      assert Offers(profiles, id) ==> Offers(profiles[1..], id) by {
        if Offers(profiles, id) {
          var i :| 0 <= i < |profiles| && profiles[i].id == id;
          assert profiles[1..][i - 1].id == id;
        }
      }
      assert Offers(profiles[1..], id) ==> Offers(profiles, id) by {
        if Offers(profiles[1..], id) {
          var i :| 0 <= i < |profiles[1..]| && profiles[1..][i].id == id;
          assert profiles[i + 1].id == id;
        }
      }
      FindProfile(profiles[1..], id)
  }

  /** The selection names exactly as many APPs as there are, and every one of them. */
  predicate SelectionCovers(apps: seq<AppProfiles>, selection: map<string, string>) {
    |apps| == |selection| && forall i :: 0 <= i < |apps| ==> apps[i].appId in selection
  }

  /** Every APP offers the profile selected for it. */
  predicate SelectionOffered(apps: seq<AppProfiles>, selection: map<string, string>)
    requires SelectionCovers(apps, selection)
  {
    forall i :: 0 <= i < |apps| ==> Offers(apps[i].profiles, selection[apps[i].appId])
  }

  function Granted(p: Option<Profile>): set<string> {
    if p.Some? then Members(p.value.capabilities) else {}
  }

  /** The union of what the core profile and the selected APP profiles allow. */
  function Entitlement(c: Catalog, core: string, selection: map<string, string>): set<string> {
    Granted(FindProfile(c.coreProfiles, core)) + AppEntitlement(c.apps, selection)
  }

  function AppEntitlement(apps: seq<AppProfiles>, selection: map<string, string>): set<string> {
    if apps == [] then {}
    else
      var last := apps[|apps| - 1];
      AppEntitlement(apps[..|apps| - 1], selection)
      + (if last.appId in selection then Granted(FindProfile(last.profiles, selection[last.appId])) else {})
  }

  /** The ceiling: the sorted union, or an error when the selection does not fit the catalogue. */
  function CapabilitiesFor(c: Catalog, core: string, selection: map<string, string>): Result<seq<string>, AuthError> {
    if !Offers(c.coreProfiles, core) then Err(UnknownCoreProfile)
    else if !SelectionCovers(c.apps, selection) then Err(SelectionMismatch)
    else if !SelectionOffered(c.apps, selection) then Err(UnknownProfile)
    else Ok(Sorted(Entitlement(c, core, selection)))
  }

  /** Extends a list of capabilities by those of each selected APP profile. */
  method ExtendByApps(base: seq<string>, apps: seq<AppProfiles>, selection: map<string, string>)
    returns (r: Result<seq<string>, AuthError>)
    requires SelectionCovers(apps, selection)
    ensures r.Ok? <==> SelectionOffered(apps, selection)
    ensures r.Ok? ==> Members(r.value) == Members(base) + AppEntitlement(apps, selection)
    ensures r.Err? ==> r.error == UnknownProfile
  {
    var capabilities := base;
    var i := 0;
    while i < |apps|
      invariant 0 <= i <= |apps|
      invariant forall j :: 0 <= j < i ==> Offers(apps[j].profiles, selection[apps[j].appId])
      invariant Members(capabilities) == Members(base) + AppEntitlement(apps[..i], selection)
    {
      var chosen := FindProfile(apps[i].profiles, selection[apps[i].appId]);
      if chosen.None? {
        return Err(UnknownProfile);
      }
      assert apps[..i + 1][..i] == apps[..i];
      MembersOfConcat(capabilities, chosen.value.capabilities);
      capabilities := capabilities + chosen.value.capabilities;
      i := i + 1;
    }
    assert apps[..i] == apps;
    r := Ok(capabilities);
  }

  /** Extends the core capabilities by those of the selected APP profiles, then sorts and dedups. */
  method ComputeCapabilities(c: Catalog, core: string, selection: map<string, string>)
    returns (r: Result<seq<string>, AuthError>)
    ensures r == CapabilitiesFor(c, core, selection)
  {
    var profile := FindProfile(c.coreProfiles, core);
    if profile.None? {
      return Err(UnknownCoreProfile);
    }
    if !SelectionCovers(c.apps, selection) {
      return Err(SelectionMismatch);
    }
    var extended := ExtendByApps(profile.value.capabilities, c.apps, selection);
    if extended.Err? {
      return extended;
    }
    var sorted := SortDedup(extended.value);
    r := Ok(sorted);
  }

  // ---- Composition from manifests ----

  datatype ManifestProfile = ManifestProfile(
    id: string, capabilities: seq<string>, surfaces: map<string, seq<string>>, isDefault: bool)

  /** The authorization part of an APP manifest; `admitted` is whether the manifest itself validates. */
  datatype ManifestAuth = ManifestAuth(appId: string, profiles: seq<ManifestProfile>, admitted: bool)

  function DefaultOf(profiles: seq<ManifestProfile>): Option<ManifestProfile> {
    if profiles == [] then None
    else if profiles[0].isDefault then Some(profiles[0])
    else DefaultOf(profiles[1..])
  }

  function Projected(m: ManifestAuth, d: ManifestProfile): AppProfiles {
    AppProfiles(m.appId, d.id, seq(|m.profiles|, i requires 0 <= i < |m.profiles| =>
      Profile(m.profiles[i].id, m.profiles[i].capabilities)), d.surfaces)
  }

  /** The entry of one manifest; an APP without profiles has none. */
  function Entry(m: ManifestAuth): seq<AppProfiles> {
    var d := DefaultOf(m.profiles);
    if d.Some? then [Projected(m, d.value)] else []
  }

  predicate AppLeq(a: AppProfiles, b: AppProfiles) { !Less(b.appId, a.appId) }

  lemma AppLeqOrder()
    ensures TotalPreorder(AppLeq)
  {
    LessStrictTotal();
  }

  function Compose(core: seq<Profile>, manifests: seq<ManifestAuth>): Result<Catalog, AuthError> {
    if exists m :: m in manifests && !m.admitted then Err(InvalidManifest)
    else Composed(core, SortBy(FlatMap(manifests, Entry), AppLeq))
  }

  function Composed(core: seq<Profile>, apps: seq<AppProfiles>): Result<Catalog, AuthError> {
    var c := Catalog(1, core, apps);
    if CatalogValid(c) then Ok(c) else Err(InvalidCatalog)
  }

  lemma DistinctAntisymmetric(apps: seq<AppProfiles>, sorted: seq<AppProfiles>)
    requires multiset(sorted) == multiset(apps) && DistinctApps(sorted)
    ensures AntisymmetricOn(multiset(apps), AppLeq)
  {
    forall x, y | x in multiset(apps) && y in multiset(apps) && AppLeq(x, y) && AppLeq(y, x) ensures x == y {
      LessConnected(x.appId, y.appId);
      assert x in multiset(sorted) && y in multiset(sorted);
      var i :| 0 <= i < |sorted| && sorted[i] == x;
      var j :| 0 <= j < |sorted| && sorted[j] == y;
    }
  }

  lemma EntriesForgetOrder(a: seq<AppProfiles>, b: seq<AppProfiles>)
    requires multiset(a) == multiset(b) && DistinctApps(SortBy(a, AppLeq))
    ensures SortBy(a, AppLeq) == SortBy(b, AppLeq)
  {
    AppLeqOrder();
    DistinctAntisymmetric(a, SortBy(a, AppLeq));
    SortForgetsOrder(a, b, AppLeq);
  }

  lemma AdmittedForgetsOrder(a: seq<ManifestAuth>, b: seq<ManifestAuth>)
    requires multiset(a) == multiset(b)
    ensures (exists m :: m in a && !m.admitted) <==> (exists m :: m in b && !m.admitted)
  {
    MembersSame(a, b);
  }

  lemma RepeatedAppsRefused(core: seq<Profile>, apps: seq<AppProfiles>)
    requires !DistinctApps(apps)
    ensures Composed(core, apps) == Err(InvalidCatalog)
  {
  }

  lemma ComposedForgetsOrder(core: seq<Profile>, a: seq<AppProfiles>, b: seq<AppProfiles>)
    requires multiset(a) == multiset(b)
    ensures Composed(core, SortBy(a, AppLeq)) == Composed(core, SortBy(b, AppLeq))
  {
    var x, y := SortBy(a, AppLeq), SortBy(b, AppLeq);
    if DistinctApps(x) {
      EntriesForgetOrder(a, b);
    } else if DistinctApps(y) {
      EntriesForgetOrder(b, a);
    } else {
      RepeatedAppsRefused(core, x);
      RepeatedAppsRefused(core, y);
    }
  }

  /** Composing from the same manifests in any order gives the same catalogue, or the same error. */
  lemma CompositionForgetsOrder(core: seq<Profile>, a: seq<ManifestAuth>, b: seq<ManifestAuth>)
    requires multiset(a) == multiset(b)
    ensures Compose(core, a) == Compose(core, b)
  {
    AdmittedForgetsOrder(a, b);
    FlatMapForgetsOrder(a, b, Entry);
    ComposedForgetsOrder(core, FlatMap(a, Entry), FlatMap(b, Entry));
  }
}
