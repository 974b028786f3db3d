/** Authorisation of invocations, and of Core calls made by an APP over its signed edges. */
module CoreBridge {
  import opened Common
  import opened Order
  import opened Text
  import opened Operations
  import opened OperationForms
  import CS = CanonicalSets

  datatype Principal = Principal(
    subject: string,
    tenantId: string,
    workspaceId: string,
    delegation: Delegation,
    grantId: string,
    profileId: string,
    capabilities: seq<string>,
    scopes: seq<string>,
    expiresAt: Option<nat>)

  /** An invocation without its payload; `executionValid` is the verdict on its execution context. */
  datatype Envelope = Envelope(
    schemaVersion: nat,
    operationId: string,
    requestId: string,
    correlationId: string,
    causationId: Option<string>,
    deadline: nat,
    idempotencyKey: Option<string>,
    callChain: seq<string>,
    maxHops: nat,
    inputDigest: string,
    principal: Principal,
    executionValid: bool)

  // ---- Well-formed envelopes ----

  function PrincipalFault(p: Principal): Option<Fault> {
    if CS.Bounded(p.subject, 256) && ByteLength(p.tenantId) <= 128 && ByteLength(p.workspaceId) <= 256
       && CS.Bounded(p.grantId, 256) && CS.Bounded(p.profileId, 128)
       && CS.CanonicalProblem(p.capabilities, 128, 256).None? && CS.CanonicalProblem(p.scopes, 128, 256).None?
    then None else Some(BadPrincipal)
  }

  /** `core:`, `app:` or `surface:` followed by an identity. */
  predicate IsAuthority(s: string) {
    CS.Bounded(s, 192)
    && (("core:" <= s && !Blank(s[5..])) || ("app:" <= s && !Blank(s[4..])) || ("surface:" <= s && !Blank(s[8..])))
  }

  predicate OptionBounded(s: Option<string>, maximum: nat) { s.None? || CS.Bounded(s.value, maximum) }

  function EnvelopeFault(e: Envelope): Option<Fault> {
    if e.schemaVersion != 1 then Some(BadSchema)
    else if CS.BoundProblem(e.operationId, 256).Some? then Some(Malformed(CS.BoundProblem(e.operationId, 256).value))
    else if CS.BoundProblem(e.requestId, 128).Some? then Some(Malformed(CS.BoundProblem(e.requestId, 128).value))
    else if CS.BoundProblem(e.correlationId, 128).Some? then Some(Malformed(CS.BoundProblem(e.correlationId, 128).value))
    else if !OptionBounded(e.causationId, 128) then Some(BadSchema)
    else if e.deadline == 0 then Some(BadDeadline)
    else if !OptionBounded(e.idempotencyKey, 256) then Some(BadIdempotencyKey)
    else if e.maxHops == 0 || e.maxHops > 4 || |e.callChain| > e.maxHops then Some(BadHops)
    else if CS.RepeatProblem(e.callChain, {}).Some? then Some(BadChain)
    else if exists i :: 0 <= i < |e.callChain| && !IsAuthority(e.callChain[i]) then Some(BadAuthority)
    else if !IsDigest(e.inputDigest) then Some(BadDigest)
    else if PrincipalFault(e.principal).Some? then PrincipalFault(e.principal)
    else if !e.executionValid then Some(BadSchema)
    else None
  }

  // ---- The form of an envelope ----

  ghost predicate PrincipalForm(p: Principal) {
    && Fitting(p.subject, 256) && Fitting(p.grantId, 256) && Fitting(p.profileId, 128)
    && ByteLength(p.tenantId) <= 128 && ByteLength(p.workspaceId) <= 256
    && Canonical(p.capabilities, 128, 256) && Canonical(p.scopes, 128, 256)
  }

  /** One of the three kinds of authority, a colon, and an identity. */
  ghost predicate AuthorityForm(s: string) {
    ByteLength(s) <= 192
    && exists kind: string, who: string :: kind in {"core", "app", "surface"} && !Blank(who) && s == kind + ":" + who
  }

  ghost predicate EnvelopeForm(e: Envelope) {
    && e.schemaVersion == 1 && e.executionValid && e.deadline > 0
    && Fitting(e.operationId, 256) && Fitting(e.requestId, 128) && Fitting(e.correlationId, 128)
    && (e.causationId.Some? ==> Fitting(e.causationId.value, 128))
    && (e.idempotencyKey.Some? ==> Fitting(e.idempotencyKey.value, 256))
    && 1 <= e.maxHops <= 4 && |e.callChain| <= e.maxHops
    && (forall i, j :: 0 <= i < j < |e.callChain| ==> e.callChain[i] != e.callChain[j])
    && (forall i :: 0 <= i < |e.callChain| ==> AuthorityForm(e.callChain[i]))
    && DigestForm(e.inputDigest) && PrincipalForm(e.principal)
  }

  lemma AuthorityOf(s: string, kind: string)
    requires kind + ":" <= s && !Blank(s[|kind| + 1..])
    ensures exists who: string :: !Blank(who) && s == kind + ":" + who
  {
    assert s == kind + ":" + s[|kind| + 1..];
  }

  lemma AuthorityBegins(s: string, kind: string, who: string)
    requires !Blank(who) && s == kind + ":" + who
    ensures kind + ":" <= s && s[|kind| + 1..] == who && !Blank(s)
  {
    var i :| 0 <= i < |who| && !IsWhitespace(who[i]);
    assert s[|kind| + 1 + i] == who[i];
  }

  lemma AuthorityNames()
    ensures "core" + ":" == "core:" && "app" + ":" == "app:" && "surface" + ":" == "surface:"
  {
  }

  lemma AuthorityExactly(s: string)
    ensures IsAuthority(s) <==> AuthorityForm(s)
  {
    AuthorityNames();
    if IsAuthority(s) {
      if "core:" <= s && !Blank(s[5..]) {
        AuthorityOf(s, "core");
      } else if "app:" <= s && !Blank(s[4..]) {
        AuthorityOf(s, "app");
      } else {
        AuthorityOf(s, "surface");
      }
    }
    if AuthorityForm(s) {
      var kind: string, who: string :| kind in {"core", "app", "surface"} && !Blank(who) && s == kind + ":" + who;
      AuthorityBegins(s, kind, who);
    }
  }

  lemma PrincipalExactly(p: Principal)
    ensures PrincipalFault(p).None? <==> PrincipalForm(p)
  {
    BoundExactly(p.subject, 256);
    BoundExactly(p.grantId, 256);
    BoundExactly(p.profileId, 128);
    CanonicalForm(p.capabilities, 128, 256);
    CanonicalForm(p.scopes, 128, 256);
  }

  lemma OptionExactly(s: Option<string>, maximum: nat)
    ensures OptionBounded(s, maximum) <==> (s.Some? ==> Fitting(s.value, maximum))
  {
    if s.Some? {
      BoundExactly(s.value, maximum);
    }
  }

  lemma ChainExactly(chain: seq<string>)
    ensures CS.RepeatProblem(chain, {}).None? <==> forall i, j :: 0 <= i < j < |chain| ==> chain[i] != chain[j]
    ensures (forall i :: 0 <= i < |chain| ==> IsAuthority(chain[i])) <==> forall i :: 0 <= i < |chain| ==> AuthorityForm(chain[i])
  {
    CS.RepeatExactly(chain, {});
    forall i | 0 <= i < |chain| ensures IsAuthority(chain[i]) <==> AuthorityForm(chain[i]) {
      AuthorityExactly(chain[i]);
    }
  }

  lemma EnvelopeUnfolded(e: Envelope)
    ensures EnvelopeFault(e).None?
            <==> e.schemaVersion == 1 && CS.BoundProblem(e.operationId, 256).None? && CS.BoundProblem(e.requestId, 128).None?
                 && CS.BoundProblem(e.correlationId, 128).None? && OptionBounded(e.causationId, 128) && e.deadline > 0
                 && OptionBounded(e.idempotencyKey, 256) && 1 <= e.maxHops <= 4 && |e.callChain| <= e.maxHops
                 && CS.RepeatProblem(e.callChain, {}).None? && (forall i :: 0 <= i < |e.callChain| ==> IsAuthority(e.callChain[i]))
                 && IsDigest(e.inputDigest) && PrincipalFault(e.principal).None? && e.executionValid
  {
  }

  /** An envelope is accepted by itself if and only if it has the form. */
  lemma EnvelopeExactly(e: Envelope)
    ensures EnvelopeFault(e).None? <==> EnvelopeForm(e)
  {
    EnvelopeUnfolded(e);
    BoundExactly(e.operationId, 256);
    BoundExactly(e.requestId, 128);
    BoundExactly(e.correlationId, 128);
    OptionExactly(e.causationId, 128);
    OptionExactly(e.idempotencyKey, 256);
    ChainExactly(e.callChain);
    DigestExactly(e.inputDigest);
    PrincipalExactly(e.principal);
  }

  // ---- Authorised for an operation ----

  predicate DelegationFits(actual: Delegation, allowed: Delegable) {
    allowed == Either || (actual == User && allowed == UserOnly) || (actual == Service && allowed == ServiceOnly)
  }

  predicate KeyFits(e: Envelope, kind: Kind) {
    (kind == Command ==> e.idempotencyKey.Some?) && (kind == Query ==> e.idempotencyKey.None?)
  }

  function ForFault(e: Envelope, d: Descriptor): Option<Fault> {
    if EnvelopeFault(e).Some? then EnvelopeFault(e)
    else if DescriptorFault(d).Some? then DescriptorFault(d)
    else if e.operationId != d.operationId then Some(WrongOperation)
    else if e.inputDigest != d.inputDigest then Some(WrongDigest)
    else if !DelegationFits(e.principal.delegation, d.delegation) then Some(WrongDelegation)
    else if !AllDeclared(d.capabilities, e.principal.capabilities) then Some(MissingCapability)
    else if d.tenantScoped && Blank(e.principal.tenantId) then Some(MissingTenant)
    else if d.workspaceScoped && Blank(e.principal.workspaceId) then Some(MissingWorkspace)
    else if !KeyFits(e, d.kind) then Some(BadIdempotencyKey)
    else None
  }

  /** The earlier of the deadline and the end of the grant. */
  function EffectiveDeadline(e: Envelope): nat {
    if e.principal.expiresAt.Some? && e.principal.expiresAt.value < e.deadline then e.principal.expiresAt.value else e.deadline
  }

  function AtFault(e: Envelope, now: nat, d: Descriptor): Option<Fault> {
    if ForFault(e, d).Some? then ForFault(e, d)
    else if EffectiveDeadline(e) <= now then Some(Expired)
    else None
  }

  /** The principal has been granted every capability of the list. */
  ghost predicate Granted(e: Envelope, capabilities: seq<string>) {
    forall c :: c in capabilities ==> c in e.principal.capabilities
  }

  /** Neither the deadline nor the grant has passed. */
  ghost predicate Timely(e: Envelope, now: nat) {
    now < e.deadline && (e.principal.expiresAt.Some? ==> now < e.principal.expiresAt.value)
  }

  /** Everything an operation asks of an invocation besides capabilities and well-formedness: a user where only users
      may call and a service where only services may, the tenant and the workspace where it is scoped to one, and an
      idempotency key for a command but none for a query. */
  ghost predicate Fits(e: Envelope, d: Descriptor) {
    && e.operationId == d.operationId && e.inputDigest == d.inputDigest
    && (d.delegation == UserOnly ==> e.principal.delegation == User)
    && (d.delegation == ServiceOnly ==> e.principal.delegation == Service)
    && (d.tenantScoped ==> !Blank(e.principal.tenantId)) && (d.workspaceScoped ==> !Blank(e.principal.workspaceId))
    && (d.kind == Command ==> e.idempotencyKey.Some?) && (d.kind == Query ==> e.idempotencyKey.None?)
  }

  lemma GrantedExactly(e: Envelope, capabilities: seq<string>)
    requires EnvelopeFault(e).None?
    ensures AllDeclared(capabilities, e.principal.capabilities) <==> Granted(e, capabilities)
  {
    var held := e.principal.capabilities;
    CS.CanonicalExactly(held, 128, 256);
    forall i | 0 <= i < |capabilities| ensures CS.Holds(held, capabilities[i]) <==> capabilities[i] in held {
      CS.HoldsExactly(held, capabilities[i]);
    }
  }

  lemma AcceptedByParts(e: Envelope, now: nat, d: Descriptor)
    ensures AtFault(e, now, d).None?
            <==> EnvelopeFault(e).None? && DescriptorFault(d).None? && Fits(e, d) && Granted(e, d.capabilities) && Timely(e, now)
  {
    if EnvelopeFault(e).None? {
      GrantedExactly(e, d.capabilities);
    }
  }

  /** An invocation is accepted exactly when it and the descriptor are valid, it fits the operation, the
      principal holds every capability the operation requires, and neither deadline nor grant has passed. */
  lemma AcceptedExactly(e: Envelope, now: nat, d: Descriptor)
    ensures AtFault(e, now, d).None?
            <==> EnvelopeForm(e) && DescriptorForm(d) && Fits(e, d) && Granted(e, d.capabilities) && Timely(e, now)
  {
    AcceptedByParts(e, now, d);
    EnvelopeExactly(e);
    DescriptorExactly(d);
  }

  // ---- Calls from an APP into Core ----

  datatype BridgeCall = BridgeCall(schemaVersion: nat, origin: string, invocation: Envelope)

  function CallFault(b: BridgeCall): Option<Fault> {
    if b.schemaVersion != 1 then Some(BadSchema)
    else if CS.BoundProblem(b.origin, 256).Some? then Some(Malformed(CS.BoundProblem(b.origin, 256).value))
    else EnvelopeFault(b.invocation)
  }

  /** The Core descriptor with the edge's capabilities added to its own. */
  function Merged(core: Descriptor, e: Edge): Descriptor {
    core.(capabilities := Sorted(Members(core.capabilities + e.capabilities)))
  }

  /** The checks up to the choice of the edge. */
  function ApproachFault(b: BridgeCall, core: Descriptor, m: Manifest): Option<Fault> {
    if CallFault(b).Some? then CallFault(b)
    else if ManifestFault(m).Some? then ManifestFault(m)
    else if DescriptorFault(core).Some? then DescriptorFault(core)
    else if !InNamespace(m.appId, b.origin) then Some(BadNamespace)
    else if ("app:" + m.appId) !in b.invocation.callChain then Some(MissingAuthority)
    else None
  }

  function BridgeFault(b: BridgeCall, now: nat, core: Descriptor, m: Manifest): Option<Fault> {
    if ApproachFault(b, core, m).Some? then ApproachFault(b, core, m)
    else
      var found := FindEdge(m, b.origin, b.invocation.operationId);
      if found.None? then Some(UnsignedEdge)
      else
        var e := m.edges[found.value];
        if !Matches(core, e) then Some(DescriptorMismatch)
        else AtFault(b.invocation, now, Merged(core, e))
  }

  method ValidateAtForManifest(b: BridgeCall, now: nat, core: Descriptor, m: Manifest) returns (fault: Option<Fault>)
    ensures fault == BridgeFault(b, now, core, m)
  {
    fault := ApproachFault(b, core, m);
    if fault.Some? {
      return;
    }
    var found := FindEdge(m, b.origin, b.invocation.operationId);
    if found.None? {
      return Some(UnsignedEdge);
    }
    var edge := m.edges[found.value];
    if !Matches(core, edge) {
      return Some(DescriptorMismatch);
    }
    var capabilities := CS.SortDedup(core.capabilities + edge.capabilities);
    return AtFault(b.invocation, now, core.(capabilities := capabilities));
  }

  // ---- Exactness ----

  lemma MembersBounded(a: seq<string>, b: seq<string>, merged: seq<string>)
    requires CS.AllBounded(a, 256) && CS.AllBounded(b, 256) && forall x :: x in merged <==> x in a + b
    ensures CS.AllBounded(merged, 256)
  {
    forall i | 0 <= i < |merged| ensures CS.Bounded(merged[i], 256) {
      assert merged[i] in a + b;
    }
  }

  lemma MergedCanonical(a: seq<string>, b: seq<string>, merged: seq<string>)
    requires CanonicalCapabilities(a) && CanonicalCapabilities(b)
    requires Ascending(merged) && forall x :: x in merged <==> x in a + b
    ensures CapabilitiesFault(merged).None? <==> |merged| <= 64
  {
    MembersBounded(a, b, merged);
    assert a[0] in a + b;
    CapabilitiesExactly(merged);
  }

  lemma OtherCapabilities(core: Descriptor, capabilities: seq<string>)
    requires DescriptorFault(core).None?
    ensures DescriptorFault(core.(capabilities := capabilities)).None? <==> CapabilitiesFault(capabilities).None?
  {
    assert ShapeFault(core.(capabilities := capabilities)) == ShapeFault(core);
  }

  /** The merged descriptor is well-formed exactly when the two capability lists together name at most 64. */
  lemma MergedExactly(core: Descriptor, e: Edge)
    requires DescriptorFault(core).None? && EdgeFault(e).None?
    ensures DescriptorFault(Merged(core, e)).None? <==> |Members(core.capabilities + e.capabilities)| <= 64
  {
    MergedWithin(core.capabilities, e.capabilities);
    OtherCapabilities(core, Merged(core, e).capabilities);
  }

  lemma MergedWithin(a: seq<string>, b: seq<string>)
    requires CapabilitiesFault(a).None? && CapabilitiesFault(b).None?
    ensures CapabilitiesFault(Sorted(Members(a + b))).None? <==> |Members(a + b)| <= 64
  {
    CapabilitiesExactly(a);
    CapabilitiesExactly(b);
    MergedCanonical(a, b, Sorted(Members(a + b)));
  }

  lemma MergedGranted(e: Envelope, core: Descriptor, edge: Edge)
    ensures Granted(e, Merged(core, edge).capabilities) <==> Granted(e, core.capabilities) && Granted(e, edge.capabilities)
  {
    MembersOfConcat(core.capabilities, edge.capabilities);
    var merged := Merged(core, edge).capabilities;
    assert forall c :: c in merged <==> c in core.capabilities || c in edge.capabilities;
  }

  /** What acceptance over one given edge means. */
  ghost predicate Licensed(b: BridgeCall, now: nat, core: Descriptor, e: Edge) {
    && core.operationId == e.coreOperation && core.inputDigest == e.inputDigest && core.outputDigest == e.outputDigest
    && core.kind == e.kind && core.streaming == e.streaming
    && |Members(core.capabilities + e.capabilities)| <= 64
    && Fits(b.invocation, core) && Timely(b.invocation, now)
    && Granted(b.invocation, core.capabilities) && Granted(b.invocation, e.capabilities)
  }

  lemma LicensedExactly(b: BridgeCall, now: nat, core: Descriptor, e: Edge)
    requires EnvelopeFault(b.invocation).None? && DescriptorFault(core).None? && EdgeFault(e).None?
    ensures (Matches(core, e) && AtFault(b.invocation, now, Merged(core, e)).None?) <==> Licensed(b, now, core, e)
  {
    AcceptedByParts(b.invocation, now, Merged(core, e));
    MergedExactly(core, e);
    MergedGranted(b.invocation, core, e);
    assert Fits(b.invocation, Merged(core, e)) <==> Fits(b.invocation, core);
  }

  lemma ApproachExactly(b: BridgeCall, core: Descriptor, m: Manifest)
    ensures ApproachFault(b, core, m).None? <==> Approaches(b, core, m)
  {
    BoundExactly(b.origin, 256);
    EnvelopeExactly(b.invocation);
    ManifestExactly(m);
    DescriptorExactly(core);
    NamedExactly(m.appId, b.origin);
    AuthorityNames();
    assert "app:" + m.appId == "app" + ":" + m.appId;
  }

  /** The call, its envelope, the manifest and the Core descriptor are valid, the call starts at an operation of the
      APP, and the APP is one of the authorities it passed through. */
  ghost predicate Approaches(b: BridgeCall, core: Descriptor, m: Manifest) {
    && b.schemaVersion == 1 && Fitting(b.origin, 256)
    && EnvelopeForm(b.invocation) && ManifestForm(m) && DescriptorForm(core)
    && (exists tail: string :: tail != [] && b.origin == m.appId + "." + tail)
    && (exists i :: 0 <= i < |b.invocation.callChain| && b.invocation.callChain[i] == "app:" + m.appId)
  }

  lemma AcceptsOverEdge(b: BridgeCall, now: nat, core: Descriptor, m: Manifest)
    requires ApproachFault(b, core, m).None?
    ensures BridgeFault(b, now, core, m).None?
            <==> exists i: nat :: IsEdge(m, i, b.origin, b.invocation.operationId) && Licensed(b, now, core, m.edges[i])
    ensures forall i: nat, j: nat :: IsEdge(m, i, b.origin, b.invocation.operationId) && IsEdge(m, j, b.origin, b.invocation.operationId) ==> i == j
  {
    EdgeFoundExactly(m, b.origin, b.invocation.operationId);
    var found := FindEdge(m, b.origin, b.invocation.operationId);
    if found.Some? {
      var e := m.edges[found.value];
      EdgesValid(m, m.edges, e);
      LicensedExactly(b, now, core, e);
      assert IsEdge(m, found.value, b.origin, b.invocation.operationId);
    }
  }

  /** A Core call is accepted exactly when its parts are valid, it starts in the APP's namespace and lists the
      APP in its call chain, and there is a signed edge for its pair of operations whose contract the descriptor
      meets and over which the principal is licensed; there is never more than one such edge. */
  lemma BridgeAcceptsExactly(b: BridgeCall, now: nat, core: Descriptor, m: Manifest)
    ensures BridgeFault(b, now, core, m).None?
            <==> Approaches(b, core, m)
                 && exists i: nat :: IsEdge(m, i, b.origin, b.invocation.operationId) && Licensed(b, now, core, m.edges[i])
    ensures Approaches(b, core, m) ==>
              forall i: nat, j: nat :: IsEdge(m, i, b.origin, b.invocation.operationId) && IsEdge(m, j, b.origin, b.invocation.operationId) ==> i == j
  {
    ApproachExactly(b, core, m);
    if ApproachFault(b, core, m).None? {
      AcceptsOverEdge(b, now, core, m);
    }
  }

  /** Whoever calls, an edge that together with the Core operation asks for more than 64 capabilities is never crossed. */
  lemma OverLimitRefused(b: BridgeCall, now: nat, core: Descriptor, m: Manifest, i: nat)
    requires IsEdge(m, i, b.origin, b.invocation.operationId) && |Members(core.capabilities + m.edges[i].capabilities)| > 64
    ensures BridgeFault(b, now, core, m).Some?
  {
    BridgeAcceptsExactly(b, now, core, m);
  }

  // ---- With a handshake ----

  /** Passing the originating APP operation already means holding the edge's APP capabilities. */
  lemma OriginCoversEdge(h: Handshake, m: Manifest, origin: Envelope, earlier: nat, d: Descriptor, e: Edge)
    requires HandshakeFault(h, m).None? && e in m.edges
    requires d in h.operations && d.operationId == e.appOperation && AtFault(origin, earlier, d).None?
    ensures Granted(origin, e.capabilities)
  {
    HandshakeBacksEdges(h, m, e);
    AcceptedByParts(origin, earlier, d);
  }

  /** So a principal that passed the originating operation and may use the Core operation by itself is accepted
      over the edge exactly when the merged capabilities stay within their limit. */
  lemma BridgeAfterOrigin(h: Handshake, m: Manifest, origin: Envelope, earlier: nat, d: Descriptor,
                          b: BridgeCall, now: nat, core: Descriptor, i: nat)
    requires HandshakeFault(h, m).None? && d in h.operations && AtFault(origin, earlier, d).None?
    requires b.origin == d.operationId && b.invocation.principal.capabilities == origin.principal.capabilities
    requires ApproachFault(b, core, m).None? && IsEdge(m, i, b.origin, b.invocation.operationId) && Matches(core, m.edges[i])
    requires AtFault(b.invocation, now, core).None?
    ensures BridgeFault(b, now, core, m).None? <==> |Members(core.capabilities + m.edges[i].capabilities)| <= 64
  {
    var e := m.edges[i];
    OriginCoversEdge(h, m, origin, earlier, d, e);
    AcceptedByParts(b.invocation, now, core);
    AcceptsOverEdge(b, now, core, m);
    assert Licensed(b, now, core, e) <==> |Members(core.capabilities + e.capabilities)| <= 64;
  }

  // ---- The call chain ----

  /** The authorities an invocation has passed through, newest last. */
  class CallChain {
    var chain: seq<string>
    const maxHops: nat

    /** What envelope validation demands of a chain. */
    ghost predicate Valid()
      reads this
    {
      |chain| <= maxHops && CS.Distinct(chain) && forall i :: 0 <= i < |chain| ==> IsAuthority(chain[i])
    }

    constructor (hops: nat)
      ensures Valid() && chain == [] && maxHops == hops
    {
      chain, maxHops := [], hops;
    }

    /** Refused, changing nothing, when it is no authority, already passed, or one hop too many. */
    method AppendAuthority(authority: string) returns (ok: bool)
      requires Valid()
      modifies this
      ensures Valid()
      ensures ok <==> IsAuthority(authority) && authority !in old(chain) && |old(chain)| < maxHops
      ensures chain == if ok then old(chain) + [authority] else old(chain)
    {
      if !IsAuthority(authority) {
        return false;
      }
      if authority in chain || |chain| >= maxHops {
        return false;
      }
      chain := chain + [authority];
      return true;
    }
  }
}
