/** Operation descriptors, signed APP-to-Core edges, manifests and handshakes of the APP protocol. */
module Operations {
  import opened Common
  import opened Order
  import opened Text
  import CS = CanonicalSets

  datatype Kind = Query | Command | Subscribe | Export

  datatype Delegation = User | Service

  datatype Delegable = UserOnly | ServiceOnly | Either

  datatype Idempotency = ReadOnly | Required | SubscriptionCursor | ContentAddressed

  datatype Descriptor = Descriptor(
    operationId: string,
    kind: Kind,
    inputDigest: string,
    outputDigest: string,
    capabilities: seq<string>,
    delegation: Delegable,
    tenantScoped: bool,
    workspaceScoped: bool,
    readOnly: bool,
    idempotency: Idempotency,
    defaultDeadline: nat,
    maximumDeadline: nat,
    maximumRequest: nat,
    maximumResponse: nat,
    maximumFrame: nat,
    streaming: bool,
    replayWindow: Option<nat>,
    degradedRead: bool,
    auditClass: string)

  datatype Edge = Edge(
    appOperation: string,
    coreOperation: string,
    inputDigest: string,
    outputDigest: string,
    capabilities: seq<string>,
    kind: Kind,
    streaming: bool)

  /** The part of a manifest that authorises operations; `restValid` is the verdict of its other checks. */
  datatype Manifest = Manifest(
    appId: string,
    version: string,
    capabilities: seq<string>,
    catalogDigest: string,
    edges: seq<Edge>,
    restValid: bool)

  datatype Fault =
    | Malformed(problem: CS.Problem)
    | BadDigest
    | NoCapability
    | BadLimits
    | BadSemantics
    | BadDegradedRead
    | BadNamespace
    | BadStreaming
    | BadEdgeOrder
    | UndeclaredCapability
    | BadManifest
    | BadAppId
    | BadSchema
    | BadDeadline
    | BadHops
    | BadChain
    | BadAuthority
    | BadPrincipal
    | WrongOperation
    | WrongDigest
    | WrongDelegation
    | MissingCapability
    | MissingTenant
    | MissingWorkspace
    | BadIdempotencyKey
    | Expired
    | MissingAuthority
    | UnsignedEdge
    | DescriptorMismatch
    | WrongIdentity
    | UnknownOperation
    | BadCatalog

  // ---- Values ----

  predicate IsHex(c: char) { '0' <= c <= '9' || 'a' <= c <= 'f' || 'A' <= c <= 'F' }

  predicate IsDigest(s: string) {
    "sha256:" <= s && |s| == 71 && forall i :: 7 <= i < 71 ==> IsHex(s[i])
  }

  predicate IsAppId(s: string) {
    CS.Bounded(s, 64)
    && forall i :: 0 <= i < |s| ==> 'a' <= s[i] <= 'z' || '0' <= s[i] <= '9' || (i > 0 && (s[i] == '-' || s[i] == '_'))
  }

  // ---- Descriptors ----

  predicate SemanticsFit(d: Descriptor) {
    match d.kind
    case Query => d.readOnly && d.idempotency == ReadOnly && !d.streaming
    case Command => !d.readOnly && d.idempotency == Required && !d.streaming
    case Subscribe => d.streaming && d.idempotency == SubscriptionCursor && d.replayWindow.Some?
    case Export => d.streaming && d.idempotency == ContentAddressed
  }

  predicate LimitsFit(d: Descriptor) {
    d.defaultDeadline > 0 && d.maximumDeadline >= d.defaultDeadline && d.maximumRequest > 0
    && d.maximumResponse > 0 && d.maximumFrame > 0
  }

  function CapabilitiesFault(capabilities: seq<string>): Option<Fault> {
    var problem := CS.CanonicalProblem(capabilities, 64, 256);
    if problem.Some? then Some(Malformed(problem.value))
    else if capabilities == [] then Some(NoCapability)
    else None
  }

  /** The checks of a descriptor that follow the one on its capabilities. */
  function ShapeFault(d: Descriptor): Option<Fault> {
    if CS.BoundProblem(d.auditClass, 128).Some? then Some(Malformed(CS.BoundProblem(d.auditClass, 128).value))
    else if !IsDigest(d.inputDigest) || !IsDigest(d.outputDigest) then Some(BadDigest)
    else if !LimitsFit(d) then Some(BadLimits)
    else if !SemanticsFit(d) then Some(BadSemantics)
    else if d.degradedRead && !d.readOnly then Some(BadDegradedRead)
    else None
  }

  function DescriptorFault(d: Descriptor): Option<Fault> {
    if CS.BoundProblem(d.operationId, 256).Some? then Some(Malformed(CS.BoundProblem(d.operationId, 256).value))
    else if CapabilitiesFault(d.capabilities).Some? then CapabilitiesFault(d.capabilities)
    else ShapeFault(d)
  }

  predicate CanonicalCapabilities(capabilities: seq<string>) {
    capabilities != [] && |capabilities| <= 64 && CS.AllBounded(capabilities, 256)
  }

  lemma CapabilitiesExactly(capabilities: seq<string>)
    ensures CapabilitiesFault(capabilities).None? <==> CanonicalCapabilities(capabilities) && Ascending(capabilities)
  {
    CS.CanonicalExactly(capabilities, 64, 256);
  }

  // ---- Edges and manifests ----

  function EdgeFault(e: Edge): Option<Fault> {
    if CS.BoundProblem(e.appOperation, 256).Some? then Some(Malformed(CS.BoundProblem(e.appOperation, 256).value))
    else if CS.BoundProblem(e.coreOperation, 256).Some? then Some(Malformed(CS.BoundProblem(e.coreOperation, 256).value))
    else if "core." <= e.appOperation || !("core." <= e.coreOperation) then Some(BadNamespace)
    else if !IsDigest(e.inputDigest) || !IsDigest(e.outputDigest) then Some(BadDigest)
    else if CapabilitiesFault(e.capabilities).Some? then CapabilitiesFault(e.capabilities)
    else if e.streaming != (e.kind == Subscribe || e.kind == Export) then Some(BadStreaming)
    else None
  }

  /** The descriptor is the one that the edge was signed for. */
  predicate Matches(d: Descriptor, e: Edge) {
    d.operationId == e.coreOperation && d.inputDigest == e.inputDigest && d.outputDigest == e.outputDigest
    && d.kind == e.kind && d.streaming == e.streaming
  }

  type Pair = (string, string)

  predicate PairLess(a: Pair, b: Pair) { Less(a.0, b.0) || (a.0 == b.0 && Less(a.1, b.1)) }

  function Names(edges: seq<Edge>): (names: seq<Pair>)
    ensures |names| == |edges| && forall i :: 0 <= i < |edges| ==> names[i] == (edges[i].appOperation, edges[i].coreOperation)
  {
    seq(|edges|, i requires 0 <= i < |edges| => (edges[i].appOperation, edges[i].coreOperation))
  }

  predicate EdgesStep(edges: seq<Edge>) {
    forall i :: 0 <= i < |edges| - 1 ==> PairLess(Names(edges)[i], Names(edges)[i + 1])
  }

  /** What the manifest demands of each of its edges. */
  function OwnEdgeFault(m: Manifest, e: Edge): Option<Fault> {
    if EdgeFault(e).Some? then EdgeFault(e)
    else if !InNamespace(m.appId, e.appOperation) then Some(BadNamespace)
    else if exists i :: 0 <= i < |e.capabilities|
              && (!(Namespace(m.appId) <= e.capabilities[i]) || !CS.Holds(m.capabilities, e.capabilities[i]))
    then Some(UndeclaredCapability)
    else None
  }

  function EdgesFault(m: Manifest, edges: seq<Edge>): Option<Fault> {
    if edges == [] then None
    else if OwnEdgeFault(m, edges[0]).Some? then OwnEdgeFault(m, edges[0])
    else EdgesFault(m, edges[1..])
  }

  function ManifestFault(m: Manifest): Option<Fault> {
    if !IsAppId(m.appId) then Some(BadAppId)
    else if CS.CanonicalProblem(m.capabilities, 1024, 192).Some? then Some(Malformed(CS.CanonicalProblem(m.capabilities, 1024, 192).value))
    else if exists i :: 0 <= i < |m.capabilities| && !InNamespace(m.appId, m.capabilities[i]) then Some(BadNamespace)
    else if !IsDigest(m.catalogDigest) then Some(BadDigest)
    else if |m.edges| > 1024 || !EdgesStep(m.edges) then Some(BadEdgeOrder)
    else if EdgesFault(m, m.edges).Some? then EdgesFault(m, m.edges)
    else if !m.restValid then Some(BadManifest)
    else None
  }

  lemma {:induction false} EdgesValid(m: Manifest, edges: seq<Edge>, e: Edge)
    requires EdgesFault(m, edges).None? && e in edges
    ensures OwnEdgeFault(m, e).None?
  {
    if e != edges[0] {
      EdgesValid(m, edges[1..], e);
    }
  }

  lemma PairLessIsStrict()
    ensures CS.StrictOrder(PairLess)
  {
    LessStrictTotal();
  }

  lemma {:induction false} PairsRise(edges: seq<Edge>, i: nat, j: nat)
    requires EdgesStep(edges) && i < j < |edges|
    ensures PairLess(Names(edges)[i], Names(edges)[j])
    decreases j - i
  {
    if i + 1 < j {
      PairsRise(edges, i + 1, j);
      PairLessIsStrict();
    }
  }

  lemma NamesRise(edges: seq<Edge>)
    requires EdgesStep(edges)
    ensures CS.Rising(Names(edges), PairLess)
  {
    forall i, j | 0 <= i < j < |edges| ensures PairLess(Names(edges)[i], Names(edges)[j]) {
      PairsRise(edges, i, j);
    }
  }

  function FindEdge(m: Manifest, appOperation: string, coreOperation: string): Option<nat> {
    CS.BinarySearch(Names(m.edges), (appOperation, coreOperation), PairLess)
  }

  ghost predicate IsEdge(m: Manifest, i: nat, appOperation: string, coreOperation: string) {
    i < |m.edges| && m.edges[i].appOperation == appOperation && m.edges[i].coreOperation == coreOperation
  }

  /** In a valid manifest a pair of operations has at most one edge, and binary search finds it if there is one. */
  lemma EdgeFoundExactly(m: Manifest, appOperation: string, coreOperation: string)
    requires EdgesStep(m.edges)
    ensures FindEdge(m, appOperation, coreOperation).Some? <==> exists i: nat :: IsEdge(m, i, appOperation, coreOperation)
    ensures forall i: nat :: IsEdge(m, i, appOperation, coreOperation) ==> FindEdge(m, appOperation, coreOperation) == Some(i)
  {
    NamesRise(m.edges);
    PairLessIsStrict();
    var names := Names(m.edges);
    CS.SearchExactly(names, (appOperation, coreOperation), PairLess);
    forall i: nat ensures IsEdge(m, i, appOperation, coreOperation) <==> i < |names| && names[i] == (appOperation, coreOperation) {
    }
    if FindEdge(m, appOperation, coreOperation).Some? {
      assert IsEdge(m, FindEdge(m, appOperation, coreOperation).value, appOperation, coreOperation);
    }
  }

  // ---- Handshakes ----

  function Ids(operations: seq<Descriptor>): (ids: seq<string>)
    ensures |ids| == |operations| && forall i :: 0 <= i < |operations| ==> ids[i] == operations[i].operationId
  {
    seq(|operations|, i requires 0 <= i < |operations| => operations[i].operationId)
  }

  function DescriptorsFault(appId: string, operations: seq<Descriptor>): Option<Fault> {
    if operations == [] then None
    else if DescriptorFault(operations[0]).Some? then DescriptorFault(operations[0])
    else if !InNamespace(appId, operations[0].operationId) then Some(BadNamespace)
    else DescriptorsFault(appId, operations[1..])
  }

  /** What the operation catalogue of an APP must satisfy before it is hashed. */
  function CatalogFault(appId: string, operations: seq<Descriptor>): Option<Fault> {
    if !IsAppId(appId) then Some(BadAppId)
    else if |operations| > 4096 || !CS.Steps(Ids(operations)) then Some(BadCatalog)
    else DescriptorsFault(appId, operations)
  }

  /** A worker's live catalogue; `restValid` stands for its other fields and for the digests that bind them. */
  datatype Handshake = Handshake(appId: string, version: string, catalogDigest: string, operations: seq<Descriptor>, restValid: bool)

  predicate AllDeclared(capabilities: seq<string>, declared: seq<string>) {
    forall i :: 0 <= i < |capabilities| ==> CS.Holds(declared, capabilities[i])
  }

  /** The originating operation of an edge is in the catalogue and demands the edge's capabilities. */
  predicate EdgeBacked(operations: seq<Descriptor>, e: Edge) {
    var found := CS.BinarySearch(Ids(operations), e.appOperation, Less);
    found.Some? && AllDeclared(e.capabilities, operations[found.value].capabilities)
  }

  function HandshakeFault(h: Handshake, m: Manifest): Option<Fault> {
    if !h.restValid then Some(BadCatalog)
    else if CatalogFault(h.appId, h.operations).Some? then CatalogFault(h.appId, h.operations)
    else if ManifestFault(m).Some? then ManifestFault(m)
    else if h.appId != m.appId || h.version != m.version then Some(WrongIdentity)
    else if h.catalogDigest != m.catalogDigest then Some(WrongDigest)
    else if exists i :: 0 <= i < |h.operations| && !AllDeclared(h.operations[i].capabilities, m.capabilities)
    then Some(UndeclaredCapability)
    else if exists i :: 0 <= i < |m.edges| && !EdgeBacked(h.operations, m.edges[i]) then Some(UnknownOperation)
    else None
  }

  lemma {:induction false} DescriptorsValid(appId: string, operations: seq<Descriptor>, d: Descriptor)
    requires DescriptorsFault(appId, operations).None? && d in operations
    ensures DescriptorFault(d).None? && InNamespace(appId, d.operationId)
  {
    if d != operations[0] {
      DescriptorsValid(appId, operations[1..], d);
    }
  }

  lemma BackedBy(appId: string, operations: seq<Descriptor>, e: Edge, j: nat, c: string)
    requires CS.Steps(Ids(operations)) && DescriptorsFault(appId, operations).None? && EdgeBacked(operations, e)
    requires j < |operations| && operations[j].operationId == e.appOperation && c in e.capabilities
    ensures c in operations[j].capabilities
  {
    var ids := Ids(operations);
    CS.StepsExactly(ids);
    CS.LessIsStrict();
    CS.SearchExactly(ids, e.appOperation, Less);
    assert CS.BinarySearch(ids, ids[j], Less) == Some(j);
    DescriptorsValid(appId, operations, operations[j]);
    CapabilitiesExactly(operations[j].capabilities);
    CS.HoldsExactly(operations[j].capabilities, c);
  }

  /** After a handshake every signed edge starts at one operation of the catalogue, which demands every
      capability of the edge. */
  lemma HandshakeBacksEdges(h: Handshake, m: Manifest, e: Edge)
    requires HandshakeFault(h, m).None? && e in m.edges
    ensures exists d :: d in h.operations && d.operationId == e.appOperation
    ensures forall d, c :: d in h.operations && d.operationId == e.appOperation && c in e.capabilities ==> c in d.capabilities
  {
    assert EdgeBacked(h.operations, e);
    var k := CS.BinarySearch(Ids(h.operations), e.appOperation, Less).value;
    assert h.operations[k] in h.operations;
    forall d, c | d in h.operations && d.operationId == e.appOperation && c in e.capabilities ensures c in d.capabilities {
      var j :| 0 <= j < |h.operations| && h.operations[j] == d;
      BackedBy(h.appId, h.operations, e, j, c);
    }
  }
}
