/** What a ceiling, a composed catalogue, an enrolment and a reconciliation contain, told profile by profile. */
module AuthCeiling {
  import opened Common
  import opened Order
  import opened Sorting
  import opened Text
  import opened AuthCatalog
  import opened Authority
  import opened AuthReconcile

  // ---- Ceilings ----

  /** Some profile with the id lists the capability. */
  ghost predicate Lists(profiles: seq<Profile>, id: string, x: string) {
    exists j :: 0 <= j < |profiles| && profiles[j].id == id && x in profiles[j].capabilities
  }

  /** Some APP has a profile whose id is the one selected for it and which lists the capability. */
  ghost predicate SelectedLists(apps: seq<AppProfiles>, selection: map<string, string>, x: string) {
    exists i :: 0 <= i < |apps| && apps[i].appId in selection && Lists(apps[i].profiles, selection[apps[i].appId], x)
  }

  ghost predicate DistinctProfiles(profiles: seq<Profile>) {
    forall i, j :: 0 <= i < j < |profiles| ==> profiles[i].id != profiles[j].id
  }

  lemma GrantedExactly(profiles: seq<Profile>, id: string, x: string)
    requires DistinctProfiles(profiles)
    ensures x in Granted(FindProfile(profiles, id)) <==> Lists(profiles, id, x)
  {
    var found := FindProfile(profiles, id);
    if found.Some? {
      var i :| 0 <= i < |profiles| && profiles[i] == found.value;
      if Lists(profiles, id, x) {
        var j :| 0 <= j < |profiles| && profiles[j].id == id && x in profiles[j].capabilities;
        assert i == j;
      }
    }
  }

  lemma SelectedListsPush(apps: seq<AppProfiles>, n: nat, selection: map<string, string>, x: string)
    requires n < |apps|
    ensures SelectedLists(apps[..n + 1], selection, x)
            <==> SelectedLists(apps[..n], selection, x)
                 || (apps[n].appId in selection && Lists(apps[n].profiles, selection[apps[n].appId], x))
  {
    var more, less := apps[..n + 1], apps[..n];
    assert more[n] == apps[n] && forall i :: 0 <= i < n ==> more[i] == less[i];
    if i :| 0 <= i < n + 1 && more[i].appId in selection && Lists(more[i].profiles, selection[more[i].appId], x) {
      if i < n {
        assert less[i] == more[i];
      }
    }
    if i :| 0 <= i < n && less[i].appId in selection && Lists(less[i].profiles, selection[less[i].appId], x) {
      assert more[i] == less[i];
    }
  }

  lemma {:induction false} AppEntitlementExactly(apps: seq<AppProfiles>, n: nat, selection: map<string, string>, x: string)
    requires n <= |apps| && forall i :: 0 <= i < |apps| ==> DistinctProfiles(apps[i].profiles)
    ensures x in AppEntitlement(apps[..n], selection) <==> SelectedLists(apps[..n], selection, x)
  {
    if n > 0 {
      AppEntitlementExactly(apps, n - 1, selection, x);
      assert apps[..n][..n - 1] == apps[..n - 1] && apps[..n][n - 1] == apps[n - 1];
      SelectedListsPush(apps, n - 1, selection, x);
      if apps[n - 1].appId in selection {
        GrantedExactly(apps[n - 1].profiles, selection[apps[n - 1].appId], x);
      }
    }
  }

  lemma EntitlementExactly(c: Catalog, core: string, selection: map<string, string>, x: string)
    requires CatalogValid(c)
    ensures x in Entitlement(c, core, selection) <==> Lists(c.coreProfiles, core, x) || SelectedLists(c.apps, selection, x)
  {
    forall i | 0 <= i < |c.apps| ensures DistinctProfiles(c.apps[i].profiles) {
      assert AppValid(c.apps[i]);
    }
    GrantedExactly(c.coreProfiles, core, x);
    AppEntitlementExactly(c.apps, |c.apps|, selection, x);
    assert c.apps[..|c.apps|] == c.apps;
  }

  /** The selection names the APPs of the catalogue and no other, and each APP has the profile selected for it. */
  ghost predicate Selects(apps: seq<AppProfiles>, selection: map<string, string>) {
    && (forall id :: id in selection <==> exists i :: 0 <= i < |apps| && apps[i].appId == id)
    && (forall i :: 0 <= i < |apps| ==> Picks(apps[i], selection))
  }

  /** The APP has a profile whose id is the one selected for it. */
  ghost predicate Picks(app: AppProfiles, selection: map<string, string>) {
    app.appId in selection && exists j :: 0 <= j < |app.profiles| && app.profiles[j].id == selection[app.appId]
  }

  lemma CoversExactly(apps: seq<AppProfiles>, selection: map<string, string>)
    requires DistinctApps(apps)
    ensures SelectionCovers(apps, selection) <==> forall id :: id in selection <==> exists i :: 0 <= i < |apps| && apps[i].appId == id
  {
    AppIdCount(apps);
    assert forall id :: id in AppIds(apps) <==> exists i :: 0 <= i < |apps| && apps[i].appId == id;
    if SelectionCovers(apps, selection) {
      assert AppIds(apps) <= selection.Keys;
      SameSize(AppIds(apps), selection.Keys);
    }
    if forall id :: id in selection <==> id in AppIds(apps) {
      assert selection.Keys == AppIds(apps);
      assert |apps| == |selection|;
      assert forall i :: 0 <= i < |apps| ==> apps[i].appId in AppIds(apps);
    }
  }

  lemma SameSize(a: set<string>, b: set<string>)
    requires a <= b && |a| == |b|
    ensures a == b
  {
    assert b == a + (b - a);
    assert |b| == |a| + |b - a|;
  }

  lemma OfferedExactly(apps: seq<AppProfiles>, selection: map<string, string>)
    requires SelectionCovers(apps, selection)
    ensures SelectionOffered(apps, selection)
            <==> forall i :: 0 <= i < |apps| ==> Picks(apps[i], selection)
  {
    if forall i :: 0 <= i < |apps| ==> Picks(apps[i], selection) {
      forall i | 0 <= i < |apps| ensures Offers(apps[i].profiles, selection[apps[i].appId]) {
        assert Picks(apps[i], selection);
      }
    }
    if SelectionOffered(apps, selection) {
      forall i | 0 <= i < |apps| ensures Picks(apps[i], selection) {
        assert Offers(apps[i].profiles, selection[apps[i].appId]);
      }
    }
  }

  lemma SelectsExactly(apps: seq<AppProfiles>, selection: map<string, string>)
    requires DistinctApps(apps)
    ensures Selects(apps, selection) <==> SelectionCovers(apps, selection) && SelectionOffered(apps, selection)
  {
    CoversExactly(apps, selection);
    if SelectionCovers(apps, selection) {
      OfferedExactly(apps, selection);
    }
  }

  lemma CeilingGiven(c: Catalog, core: string, selection: map<string, string>)
    requires DistinctApps(c.apps)
    ensures CapabilitiesFor(c, core, selection).Ok?
            <==> (exists i :: 0 <= i < |c.coreProfiles| && c.coreProfiles[i].id == core) && Selects(c.apps, selection)
    ensures CapabilitiesFor(c, core, selection).Ok? ==> CapabilitiesFor(c, core, selection).value == Sorted(Entitlement(c, core, selection))
  {
    SelectsExactly(c.apps, selection);
    assert Offers(c.coreProfiles, core) <==> exists i :: 0 <= i < |c.coreProfiles| && c.coreProfiles[i].id == core;
  }

  /** A selection has a ceiling if and only if the core profile is there and the selection fits the APPs; the ceiling
      lists, in strictly ascending order, exactly what the core profile and the selected profiles list. */
  lemma CeilingExactly(c: Catalog, core: string, selection: map<string, string>)
    requires CatalogValid(c)
    ensures CapabilitiesFor(c, core, selection).Ok?
            <==> (exists i :: 0 <= i < |c.coreProfiles| && c.coreProfiles[i].id == core) && Selects(c.apps, selection)
    ensures CapabilitiesFor(c, core, selection).Ok? ==>
              Ascending(CapabilitiesFor(c, core, selection).value)
              && forall x :: x in CapabilitiesFor(c, core, selection).value
                   <==> Lists(c.coreProfiles, core, x) || SelectedLists(c.apps, selection, x)
  {
    CeilingGiven(c, core, selection);
    var ceiling := CapabilitiesFor(c, core, selection);
    if ceiling.Ok? {
      var all := Entitlement(c, core, selection);
      SortedLists(all);
      forall x ensures x in ceiling.value <==> Lists(c.coreProfiles, core, x) || SelectedLists(c.apps, selection, x) {
        EntitlementExactly(c, core, selection, x);
      }
    }
  }

  lemma SortedLists(all: set<string>)
    ensures Ascending(Sorted(all)) && forall x :: x in Sorted(all) <==> x in all
  {
    assert forall x :: x in Members(Sorted(all)) <==> x in Sorted(all);
  }

  // ---- Reconciled and enrolled states ----

  /** A reconciled state has, for each APP, the profile it had where the APP still has one with that id and the default
      otherwise, and is entitled to exactly what the core profile and these profiles list. */
  lemma ReconciledExactly(s: Credential, c: Catalog, k: Crypto, now: nat)
    requires CatalogValid(c) && s.catalogDigest != k.catalog(c) && Reconcile(s, c, k, now).Ok?
    ensures var s' := Reconcile(s, c, k, now).value.1;
            && (forall i :: 0 <= i < |c.apps| ==>
                  && c.apps[i].appId in s'.apps
                  && s'.apps[c.apps[i].appId] == if Picks(c.apps[i], s.apps) then s.apps[c.apps[i].appId] else c.apps[i].defaultProfileId)
            && (forall id :: id in s'.apps ==> exists i :: 0 <= i < |c.apps| && c.apps[i].appId == id)
            && s'.core == s.core && s'.catalogDigest == k.catalog(c) && s'.status == s.status
            && s'.credentialDigest == s.credentialDigest && Ascending(s'.entitled)
            && (forall x :: x in s'.entitled <==> Lists(c.coreProfiles, s.core, x) || SelectedLists(c.apps, s'.apps, x))
  {
    var apps := Reselected(s.apps, c.apps);
    ReselectedExactly(s.apps, c.apps);
    assert forall id :: id in AppIds(c.apps) ==> exists i :: 0 <= i < |c.apps| && c.apps[i].appId == id;
    forall i | 0 <= i < |c.apps|
      ensures apps[c.apps[i].appId] == if Picks(c.apps[i], s.apps) then s.apps[c.apps[i].appId] else c.apps[i].defaultProfileId {
      KeptExactly(s.apps, c.apps[i]);
    }
    CeilingExactly(c, s.core, apps);
    ReconciledWith(s, c, k, now, apps, CapabilitiesFor(c, s.core, apps));
  }

  lemma KeptExactly(selection: map<string, string>, app: AppProfiles)
    ensures Kept(selection, app) == if Picks(app, selection) then selection[app.appId] else app.defaultProfileId
  {
    if app.appId in selection {
      assert Offers(app.profiles, selection[app.appId]) <==> Picks(app, selection);
    }
  }

  lemma ReconciledWith(s: Credential, c: Catalog, k: Crypto, now: nat, apps: map<string, string>, ceiling: Result<seq<string>, AuthError>)
    requires ReconcileWith(s, c, k, now, apps, ceiling).Ok?
    ensures ceiling.Ok?
    ensures var s' := ReconcileWith(s, c, k, now, apps, ceiling).value.1;
            && s'.apps == apps && s'.entitled == ceiling.value && s'.core == s.core && s'.catalogDigest == k.catalog(c)
            && s'.status == s.status && s'.credentialDigest == s.credentialDigest
  {
  }

  lemma {:induction false} DefaultsAt(apps: seq<AppProfiles>, i: nat)
    requires DistinctApps(apps) && i < |apps|
    ensures apps[i].appId in DefaultSelection(apps) && DefaultSelection(apps)[apps[i].appId] == apps[i].defaultProfileId
  {
    var n := |apps| - 1;
    if i < n {
      DefaultsAt(apps[..n], i);
    }
  }

  /** An enrolled state is active under its credential, at epoch and revision one, with the operator core profile and the
      default profile of every APP, and no audit reference. */
  lemma EnrolledExactly(credential: string, c: Catalog, k: Crypto, now: nat)
    requires CatalogValid(c) && Enroll(credential, c, k, now).Ok?
    ensures var s := Enroll(credential, c, k, now).value;
            && s.status == Active && s.credentialDigest == k.credential(credential) && s.epoch == 1 && s.revision == 1
            && s.core == "core_operator" && s.lastAudit.None? && s.catalogDigest == k.catalog(c)
            && s.enrolledAt == now && s.updatedAt == now
            && (forall i :: 0 <= i < |c.apps| ==> c.apps[i].appId in s.apps && s.apps[c.apps[i].appId] == c.apps[i].defaultProfileId)
            && (forall x :: x in s.entitled <==> Lists(c.coreProfiles, "core_operator", x) || SelectedLists(c.apps, s.apps, x))
  {
    CeilingExactly(c, "core_operator", DefaultSelection(c.apps));
    forall i | 0 <= i < |c.apps|
      ensures c.apps[i].appId in DefaultSelection(c.apps) && DefaultSelection(c.apps)[c.apps[i].appId] == c.apps[i].defaultProfileId {
      DefaultsAt(c.apps, i);
    }
  }

  // ---- Composition ----

  /** The profile is the first default of the manifest. */
  ghost predicate FirstDefault(profiles: seq<ManifestProfile>, d: nat) {
    d < |profiles| && profiles[d].isDefault && forall i :: 0 <= i < d ==> !profiles[i].isDefault
  }

  /** The entry tells the manifest: its APP, all its profiles in order, and the first default with its surfaces. */
  ghost predicate Tells(a: AppProfiles, m: ManifestAuth) {
    && a.appId == m.appId
    && |a.profiles| == |m.profiles|
    && (forall j :: 0 <= j < |m.profiles| ==> a.profiles[j].id == m.profiles[j].id && a.profiles[j].capabilities == m.profiles[j].capabilities)
    && exists d: nat :: FirstDefault(m.profiles, d) && a.defaultProfileId == m.profiles[d].id && a.surfaces == m.profiles[d].surfaces
  }

  lemma {:induction false} DefaultExactly(profiles: seq<ManifestProfile>)
    ensures DefaultOf(profiles).Some? <==> exists d: nat :: FirstDefault(profiles, d)
    ensures forall d: nat :: FirstDefault(profiles, d) ==> DefaultOf(profiles) == Some(profiles[d])
  {
    if profiles != [] {
      var rest := profiles[1..];
      DefaultExactly(rest);
      assert forall i :: 0 <= i < |rest| ==> rest[i] == profiles[i + 1];
      if profiles[0].isDefault {
        assert FirstDefault(profiles, 0);
      } else {
        forall d: nat ensures FirstDefault(rest, d) ==> FirstDefault(profiles, d + 1) {
          if FirstDefault(rest, d) {
            forall i | 0 <= i < d + 1 ensures !profiles[i].isDefault {
              assert i == 0 || rest[i - 1] == profiles[i];
            }
          }
        }
        forall d: nat ensures FirstDefault(profiles, d) ==> d > 0 && FirstDefault(rest, d - 1) {
        }
      }
    }
  }

  lemma EntryExactly(m: ManifestAuth, a: AppProfiles)
    ensures a in Entry(m) <==> Tells(a, m)
  {
    DefaultExactly(m.profiles);
    if a in Entry(m) {
      var d: nat :| FirstDefault(m.profiles, d);
      assert a == Projected(m, m.profiles[d]);
    }
    if Tells(a, m) {
      var d: nat :| FirstDefault(m.profiles, d) && a.defaultProfileId == m.profiles[d].id && a.surfaces == m.profiles[d].surfaces;
      assert a.profiles == Projected(m, m.profiles[d]).profiles;
    }
  }

  lemma {:induction false} FlatMapHolds<M, A>(s: seq<M>, f: M -> seq<A>, x: A)
    ensures x in FlatMap(s, f) <==> exists i :: 0 <= i < |s| && x in f(s[i])
  {
    if s != [] {
      FlatMapHolds(s[1..], f, x);
      assert forall i :: 0 <= i < |s[1..]| ==> s[1..][i] == s[i + 1];
      if i :| 0 <= i < |s| && x in f(s[i]) {
        if i > 0 {
          assert s[1..][i - 1] == s[i];
        }
      }
    }
  }

  /** Some manifest is told by the entry. */
  ghost predicate ToldBy(a: AppProfiles, manifests: seq<ManifestAuth>) {
    exists i :: 0 <= i < |manifests| && Tells(a, manifests[i])
  }

  ghost predicate IdsRise(apps: seq<AppProfiles>) {
    forall i, j :: 0 <= i < j < |apps| ==> Less(apps[i].appId, apps[j].appId)
  }

  /** A composed catalogue is valid, has the given core profiles, and holds, in strictly ascending id order, exactly the
      entries that tell a manifest; and every manifest was admitted. */
  lemma {:induction false} ComposedExactly(core: seq<Profile>, manifests: seq<ManifestAuth>)
    requires Compose(core, manifests).Ok?
    ensures var c := Compose(core, manifests).value;
            && CatalogValid(c) && c.coreProfiles == core && (forall i :: 0 <= i < |manifests| ==> manifests[i].admitted)
            && (forall a :: a in c.apps <==> ToldBy(a, manifests)) && IdsRise(c.apps)
  {
    var apps := SortBy(FlatMap(manifests, Entry), AppLeq);
    ComposedUnfolded(core, manifests, apps);
    SortedEntries(FlatMap(manifests, Entry), apps);
    forall a ensures a in apps <==> ToldBy(a, manifests) {
      EntriesTell(manifests, a);
    }
  }

  lemma {:induction false} ComposedUnfolded(core: seq<Profile>, manifests: seq<ManifestAuth>, apps: seq<AppProfiles>)
    requires apps == SortBy(FlatMap(manifests, Entry), AppLeq) && Compose(core, manifests).Ok?
    ensures Compose(core, manifests).value == Catalog(1, core, apps) && CatalogValid(Catalog(1, core, apps)) && DistinctApps(apps)
    ensures forall i :: 0 <= i < |manifests| ==> manifests[i].admitted
  {
    forall i | 0 <= i < |manifests| ensures manifests[i].admitted {
      assert manifests[i] in manifests;
    }
  }

  lemma {:induction false} SortedEntries(entries: seq<AppProfiles>, apps: seq<AppProfiles>)
    requires apps == SortBy(entries, AppLeq) && DistinctApps(apps)
    ensures (forall a :: a in apps <==> a in entries) && IdsRise(apps)
  {
    AppLeqOrder();
    SortByIsSorted(entries, AppLeq);
    MembersSame(apps, entries);
    forall i, j | 0 <= i < j < |apps| ensures Less(apps[i].appId, apps[j].appId) {
      LessConnected(apps[i].appId, apps[j].appId);
    }
  }

  lemma EntriesTell(manifests: seq<ManifestAuth>, a: AppProfiles)
    ensures a in FlatMap(manifests, Entry) <==> ToldBy(a, manifests)
  {
    FlatMapHolds(manifests, Entry, a);
    forall i | 0 <= i < |manifests| ensures a in Entry(manifests[i]) <==> Tells(a, manifests[i]) {
      EntryExactly(manifests[i], a);
    }
  }

  /** In a valid catalogue a capability that an APP profile lists begins with the id of that APP and a dot, and has more. */
  lemma OwnNamespace(c: Catalog, i: nat, id: string, x: string)
    requires CatalogValid(c) && i < |c.apps| && Lists(c.apps[i].profiles, id, x)
    ensures exists tail :: tail != [] && x == c.apps[i].appId + "." + tail
  {
    var app := c.apps[i];
    assert AppValid(app);
    var j :| 0 <= j < |app.profiles| && app.profiles[j].id == id && x in app.profiles[j].capabilities;
    assert app.profiles[j] in app.profiles;
    NamespaceTail(app.appId, x);
  }

  lemma NamespaceTail(appId: string, name: string)
    requires InNamespace(appId, name)
    ensures exists tail :: tail != [] && name == appId + "." + tail
  {
    var tail := name[|Namespace(appId)|..];
    assert name == appId + "." + tail;
  }
}
