/** A Core call that is refused although its principal holds every capability it needs. */
module BridgeLimit {
  import opened Common
  import opened Order
  import opened Text
  import opened Operations
  import opened CoreBridge
  import CS = CanonicalSets

  /** Core capabilities "bA", "bB" and so on. */
  function CoreNames(n: nat): (s: seq<string>)
    requires n <= 64
    ensures |s| == n && forall i :: 0 <= i < n ==> s[i] == ['b', (0x41 + i) as char]
  {
    seq(n, i requires 0 <= i < n => ['b', (0x41 + i) as char])
  }

  const EDGE_CAPABILITY: string := "a.x"

  function Digest(): (s: string)
    ensures |s| == 71 && "sha256:" <= s && forall i :: 7 <= i < 71 ==> s[i] == '0'
  {
    "sha256:" + seq(64, i => '0')
  }

  function SignedEdge(digest: string): Edge { Edge("a.o", "core.q", digest, digest, [EDGE_CAPABILITY], Query, false) }

  function OneEdge(digest: string): Manifest { Manifest("a", "1", [EDGE_CAPABILITY], digest, [SignedEdge(digest)], true) }

  function CoreQuery(digest: string, capabilities: seq<string>): Descriptor {
    Descriptor("core.q", Query, digest, digest, capabilities, Either, false, false, true, ReadOnly, 1, 1, 1, 1, 1, false, None, false, "read")
  }

  function CalledBy(p: Principal, digest: string): BridgeCall {
    BridgeCall(1, "a.o", Envelope(1, "core.q", "r", "c", None, 1, None, ["app:a"], 1, digest, p, true))
  }

  const EDGE := SignedEdge(Digest())
  const MANIFEST := OneEdge(Digest())
  const CORE := CoreQuery(Digest(), CoreNames(64))
  const PRINCIPAL := Principal("user", "", "", User, "grant", "profile", [EDGE_CAPABILITY] + CoreNames(64), [], None)
  const CALL := CalledBy(PRINCIPAL, Digest())

  lemma ShortIsBounded(s: string, maximum: nat)
    requires s != [] && !IsWhitespace(s[0]) && 4 * |s| <= maximum
    ensures CS.Bounded(s, maximum) && CS.BoundProblem(s, maximum).None?
  {
    BytesBound(s);
  }

  lemma CoreNamesAscend()
    ensures Ascending(CoreNames(64)) && CS.AllBounded(CoreNames(64), 256)
  {
    var names := CoreNames(64);
    forall i, j | 0 <= i < j < 64 ensures Less(names[i], names[j]) {
      assert names[i][1..][0] < names[j][1..][0];
    }
    forall i | 0 <= i < 64 ensures CS.Bounded(names[i], 256) {
      ShortIsBounded(names[i], 256);
    }
  }

  /** The edge's capability sorts before the Core ones, so all 65 are in ascending order. */
  lemma AllAscend()
    ensures Ascending([EDGE_CAPABILITY] + CoreNames(64)) && CS.AllBounded([EDGE_CAPABILITY] + CoreNames(64), 256)
  {
    CoreNamesAscend();
    ShortIsBounded(EDGE_CAPABILITY, 256);
    var names := CoreNames(64);
    forall j | 0 <= j < 64 ensures Less(EDGE_CAPABILITY, names[j]) {
      assert EDGE_CAPABILITY[0] < names[j][0];
    }
  }

  lemma OneCapability(maximumItems: nat, maximumBytes: nat)
    requires maximumItems >= 1 && maximumBytes >= 12
    ensures CS.CanonicalProblem([EDGE_CAPABILITY], maximumItems, maximumBytes).None?
    ensures CS.Holds([EDGE_CAPABILITY], EDGE_CAPABILITY)
  {
    ShortIsBounded(EDGE_CAPABILITY, maximumBytes);
    CS.CanonicalExactly([EDGE_CAPABILITY], maximumItems, maximumBytes);
    CS.HoldsExactly([EDGE_CAPABILITY], EDGE_CAPABILITY);
  }

  lemma GoodEdge(e: Edge)
    requires CS.BoundProblem(e.appOperation, 256).None? && CS.BoundProblem(e.coreOperation, 256).None?
    requires !("core." <= e.appOperation) && "core." <= e.coreOperation && IsDigest(e.inputDigest) && IsDigest(e.outputDigest)
    requires CapabilitiesFault(e.capabilities).None? && e.kind == Query && !e.streaming
    ensures EdgeFault(e).None?
  {
  }

  lemma OperationNames()
    ensures !("core." <= "a.o") && "core." <= "core.q"
    ensures CS.BoundProblem("a.o", 256).None? && CS.BoundProblem("core.q", 256).None?
  {
    ShortIsBounded("a.o", 256);
    ShortIsBounded("core.q", 256);
    assert "a.o"[0] == 'a' && "core."[0] == 'c';
  }

  lemma EdgeIsValid(digest: string)
    requires IsDigest(digest)
    ensures EdgeFault(SignedEdge(digest)).None?
  {
    OneCapability(64, 256);
    OperationNames();
    GoodEdge(SignedEdge(digest));
  }

  lemma OneEdgeManifest(m: Manifest, e: Edge)
    requires IsAppId(m.appId) && CS.CanonicalProblem(m.capabilities, 1024, 192).None? && IsDigest(m.catalogDigest) && m.restValid
    requires forall i :: 0 <= i < |m.capabilities| ==> InNamespace(m.appId, m.capabilities[i])
    requires m.edges == [e] && EdgeFault(e).None? && InNamespace(m.appId, e.appOperation)
    requires forall i :: 0 <= i < |e.capabilities| ==> Namespace(m.appId) <= e.capabilities[i] && CS.Holds(m.capabilities, e.capabilities[i])
    ensures ManifestFault(m).None?
  {
    assert OwnEdgeFault(m, e).None?;
    assert m.edges[1..] == [];
    assert EdgesFault(m, m.edges[1..]).None?;
  }

  lemma AppIsNamed()
    ensures IsAppId("a") && InNamespace("a", EDGE_CAPABILITY) && InNamespace("a", "a.o")
  {
    ShortIsBounded("a", 64);
    assert Namespace("a") == "a.";
  }

  lemma ManifestIsValid(digest: string)
    requires IsDigest(digest)
    ensures ManifestFault(OneEdge(digest)).None?
  {
    EdgeIsValid(digest);
    OneCapability(1024, 192);
    AppIsNamed();
    OneEdgeManifest(OneEdge(digest), SignedEdge(digest));
  }

  lemma GoodDescriptor(d: Descriptor)
    requires CS.BoundProblem(d.operationId, 256).None? && CapabilitiesFault(d.capabilities).None? && ShapeFault(d).None?
    ensures DescriptorFault(d).None?
  {
  }

  lemma CoreIsValid(digest: string, capabilities: seq<string>)
    requires IsDigest(digest) && CapabilitiesFault(capabilities).None?
    ensures DescriptorFault(CoreQuery(digest, capabilities)).None?
  {
    ShortIsBounded("read", 128);
    ShortIsBounded("core.q", 256);
    GoodDescriptor(CoreQuery(digest, capabilities));
  }

  lemma GoodPrincipal(p: Principal)
    requires CS.Bounded(p.subject, 256) && CS.Bounded(p.grantId, 256) && CS.Bounded(p.profileId, 128)
    requires p.tenantId == [] && p.workspaceId == [] && p.scopes == []
    requires |p.capabilities| <= 128 && CS.AllBounded(p.capabilities, 256) && Ascending(p.capabilities)
    ensures PrincipalFault(p).None?
  {
    CS.CanonicalExactly(p.capabilities, 128, 256);
    CS.CanonicalExactly(p.scopes, 128, 256);
  }

  lemma PrincipalIsValid()
    ensures PrincipalFault(PRINCIPAL).None?
  {
    AllAscend();
    ShortIsBounded(PRINCIPAL.subject, 256);
    ShortIsBounded(PRINCIPAL.grantId, 256);
    ShortIsBounded(PRINCIPAL.profileId, 128);
    GoodPrincipal(PRINCIPAL);
  }

  lemma GoodEnvelope(e: Envelope, authority: string)
    requires e.schemaVersion == 1 && CS.Bounded(e.operationId, 256) && CS.Bounded(e.requestId, 128) && CS.Bounded(e.correlationId, 128)
    requires e.causationId.None? && e.deadline > 0 && e.idempotencyKey.None? && e.maxHops == 1
    requires e.callChain == [authority] && IsAuthority(authority) && IsDigest(e.inputDigest)
    requires PrincipalFault(e.principal).None? && e.executionValid
    ensures EnvelopeFault(e).None?
  {
    CS.RepeatExactly(e.callChain, {});
  }

  lemma AuthorityIsValid()
    ensures IsAuthority("app:a")
  {
    var authority := "app:a";
    ShortIsBounded(authority, 192);
    assert "app:" <= authority && authority[4..][0] == 'a';
  }

  lemma CallIsValid(p: Principal, digest: string)
    requires PrincipalFault(p).None? && IsDigest(digest)
    ensures CallFault(CalledBy(p, digest)).None?
  {
    AuthorityIsValid();
    ShortIsBounded("core.q", 256);
    ShortIsBounded("r", 128);
    ShortIsBounded("c", 128);
    ShortIsBounded("a.o", 256);
    GoodEnvelope(CalledBy(p, digest).invocation, "app:a");
  }

  lemma ApproachIsClear(p: Principal, digest: string, capabilities: seq<string>)
    requires PrincipalFault(p).None? && IsDigest(digest) && CapabilitiesFault(capabilities).None?
    ensures ApproachFault(CalledBy(p, digest), CoreQuery(digest, capabilities), OneEdge(digest)).None?
  {
    CallIsValid(p, digest);
    ManifestIsValid(digest);
    CoreIsValid(digest, capabilities);
    AppIsNamed();
    assert "app:" + "a" == CalledBy(p, digest).invocation.callChain[0];
  }

  lemma MergedCount()
    ensures |Members(CORE.capabilities + EDGE.capabilities)| == 65
  {
    AllAscend();
    var all := [EDGE_CAPABILITY] + CoreNames(64);
    CS.AscendingCount(all);
    assert Members(CORE.capabilities + EDGE.capabilities) == Members(all);
  }

  lemma CoreAloneAllowed(p: Principal, digest: string, capabilities: seq<string>)
    requires PrincipalFault(p).None? && IsDigest(digest) && CapabilitiesFault(capabilities).None? && p.expiresAt.None?
    requires forall c :: c in capabilities ==> c in p.capabilities
    ensures AtFault(CalledBy(p, digest).invocation, 0, CoreQuery(digest, capabilities)).None?
  {
    CallIsValid(p, digest);
    CoreIsValid(digest, capabilities);
    AcceptedByParts(CalledBy(p, digest).invocation, 0, CoreQuery(digest, capabilities));
  }

  lemma CapabilitiesAreValid()
    ensures CapabilitiesFault(CoreNames(64)).None?
  {
    CoreNamesAscend();
    CapabilitiesExactly(CoreNames(64));
  }

  /** The call is well-formed and announced, its edge is signed and matches, the Core operation alone would be allowed,
      and the principal holds every capability of Core and of the edge; and yet it is refused. */
  lemma HolderIsRefused()
    ensures ApproachFault(CALL, CORE, MANIFEST).None?
    ensures IsEdge(MANIFEST, 0, CALL.origin, CALL.invocation.operationId) && Matches(CORE, MANIFEST.edges[0])
    ensures AtFault(CALL.invocation, 0, CORE).None?
    ensures Granted(CALL.invocation, CORE.capabilities) && Granted(CALL.invocation, EDGE.capabilities)
    ensures BridgeFault(CALL, 0, CORE, MANIFEST).Some?
  {
    PrincipalIsValid();
    CapabilitiesAreValid();
    ApproachIsClear(PRINCIPAL, Digest(), CoreNames(64));
    CoreAloneAllowed(PRINCIPAL, Digest(), CoreNames(64));
    MergedCount();
    OverLimitRefused(CALL, 0, CORE, MANIFEST, 0);
  }
}
