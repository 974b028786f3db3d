/** The forms of valid descriptors, edges, manifests and handshakes, told field by field; the validators accept
    exactly these. */
module OperationForms {
  import opened Order
  import opened Text
  import opened Operations
  import CS = CanonicalSets

  // ---- Texts and lists ----

  /** Something besides white space, within a number of bytes. */
  ghost predicate Fitting(s: string, maximum: nat) {
    (exists i :: 0 <= i < |s| && !IsWhitespace(s[i])) && ByteLength(s) <= maximum
  }

  /** A short list of fitting texts in strictly ascending order. */
  ghost predicate Canonical(values: seq<string>, items: nat, bytes: nat) {
    && |values| <= items
    && (forall i :: 0 <= i < |values| ==> Fitting(values[i], bytes))
    && (forall i, j :: 0 <= i < j < |values| ==> Less(values[i], values[j]))
  }

  /** The APP's id, a dot, and something after it. */
  ghost predicate Named(appId: string, name: string) {
    exists tail: string :: tail != [] && name == appId + "." + tail
  }

  /** 64 hexadecimal digits after the name of the hash. */
  ghost predicate DigestForm(s: string) {
    exists hex: string :: |hex| == 64 && s == "sha256:" + hex && forall i :: 0 <= i < 64 ==> hex[i] in "0123456789abcdefABCDEF"
  }

  lemma BoundExactly(s: string, maximum: nat)
    ensures CS.BoundProblem(s, maximum).None? <==> Fitting(s, maximum)
    ensures CS.Bounded(s, maximum) <==> Fitting(s, maximum)
  {
  }

  lemma CanonicalForm(values: seq<string>, items: nat, bytes: nat)
    ensures CS.CanonicalProblem(values, items, bytes).None? <==> Canonical(values, items, bytes)
  {
    CS.CanonicalExactly(values, items, bytes);
    forall i | 0 <= i < |values| ensures CS.Bounded(values[i], bytes) <==> Fitting(values[i], bytes) {
      BoundExactly(values[i], bytes);
    }
  }

  lemma NamedExactly(appId: string, name: string)
    ensures InNamespace(appId, name) <==> Named(appId, name)
  {
    if InNamespace(appId, name) {
      var tail := name[|Namespace(appId)|..];
      assert name == appId + "." + tail;
    }
  }

  lemma HexExactly(c: char)
    ensures IsHex(c) <==> c in "0123456789abcdefABCDEF"
  {
    var digits := "0123456789abcdefABCDEF";
    if '0' <= c <= '9' {
      assert digits[c as int - '0' as int] == c;
    } else if 'a' <= c <= 'f' {
      assert digits[10 + c as int - 'a' as int] == c;
    } else if 'A' <= c <= 'F' {
      assert digits[16 + c as int - 'A' as int] == c;
    }
  }

  lemma DigestExactly(s: string)
    ensures IsDigest(s) <==> DigestForm(s)
  {
    forall c: char ensures IsHex(c) <==> c in "0123456789abcdefABCDEF" {
      HexExactly(c);
    }
    if IsDigest(s) {
      var hex := s[7..];
      assert s == "sha256:" + hex;
      assert forall i :: 0 <= i < 64 ==> hex[i] == s[i + 7];
    }
    if DigestForm(s) {
      var hex: string :| |hex| == 64 && s == "sha256:" + hex && forall i :: 0 <= i < 64 ==> hex[i] in "0123456789abcdefABCDEF";
      assert forall i :: 7 <= i < 71 ==> s[i] == hex[i - 7];
    }
  }

  // ---- Descriptors ----

  function KeyOf(kind: Kind): Idempotency {
    match kind
    case Query => ReadOnly
    case Command => Required
    case Subscribe => SubscriptionCursor
    case Export => ContentAddressed
  }

  ghost predicate DescriptorForm(d: Descriptor) {
    && Fitting(d.operationId, 256) && Fitting(d.auditClass, 128)
    && d.capabilities != [] && Canonical(d.capabilities, 64, 256)
    && DigestForm(d.inputDigest) && DigestForm(d.outputDigest)
    && 0 < d.defaultDeadline <= d.maximumDeadline && d.maximumRequest > 0 && d.maximumResponse > 0 && d.maximumFrame > 0
    && (d.streaming <==> d.kind == Subscribe || d.kind == Export) && d.idempotency == KeyOf(d.kind)
    && (d.kind == Query ==> d.readOnly) && (d.kind == Command ==> !d.readOnly) && (d.kind == Subscribe ==> d.replayWindow.Some?)
    && (d.degradedRead ==> d.readOnly)
  }

  lemma CapabilitiesForm(capabilities: seq<string>)
    ensures CapabilitiesFault(capabilities).None? <==> capabilities != [] && Canonical(capabilities, 64, 256)
  {
    CanonicalForm(capabilities, 64, 256);
  }

  lemma DescriptorExactly(d: Descriptor)
    ensures DescriptorFault(d).None? <==> DescriptorForm(d)
  {
    BoundExactly(d.operationId, 256);
    BoundExactly(d.auditClass, 128);
    CapabilitiesForm(d.capabilities);
    DigestExactly(d.inputDigest);
    DigestExactly(d.outputDigest);
  }

  // ---- Edges and manifests ----

  ghost predicate EdgeForm(e: Edge) {
    && Fitting(e.appOperation, 256) && Fitting(e.coreOperation, 256)
    && !("core." <= e.appOperation) && "core." <= e.coreOperation
    && DigestForm(e.inputDigest) && DigestForm(e.outputDigest)
    && e.capabilities != [] && Canonical(e.capabilities, 64, 256)
    && (e.streaming <==> e.kind == Subscribe || e.kind == Export)
  }

  lemma EdgeExactly(e: Edge)
    ensures EdgeFault(e).None? <==> EdgeForm(e)
  {
    BoundExactly(e.appOperation, 256);
    BoundExactly(e.coreOperation, 256);
    CapabilitiesForm(e.capabilities);
    DigestExactly(e.inputDigest);
    DigestExactly(e.outputDigest);
  }

  predicate LowerOrDigit(c: char) { 'a' <= c <= 'z' || '0' <= c <= '9' }

  /** Up to 64 lower-case letters, digits, dashes and underscores, the first a letter or a digit. */
  ghost predicate AppIdForm(s: string) {
    1 <= |s| <= 64 && LowerOrDigit(s[0]) && forall i :: 0 <= i < |s| ==> LowerOrDigit(s[i]) || s[i] == '-' || s[i] == '_'
  }

  lemma {:induction false} AsciiLength(s: string)
    requires forall i :: 0 <= i < |s| ==> s[i] as int < 0x80
    ensures ByteLength(s) == |s|
  {
    if s != [] {
      AsciiLength(s[1..]);
    }
  }

  lemma AppIdExactly(s: string)
    ensures IsAppId(s) <==> AppIdForm(s)
  {
    if IsAppId(s) || AppIdForm(s) {
      AsciiLength(s);
    }
    if AppIdForm(s) {
      assert !IsWhitespace(s[0]);
    }
  }

  /** Edge `a` comes before edge `b`: by the APP operation, then by the Core operation. */
  ghost predicate EdgeBefore(a: Edge, b: Edge) {
    Less(a.appOperation, b.appOperation) || (a.appOperation == b.appOperation && Less(a.coreOperation, b.coreOperation))
  }

  /** What the manifest asks of one edge. */
  ghost predicate OwnEdgeForm(m: Manifest, e: Edge) {
    EdgeForm(e) && Named(m.appId, e.appOperation) && forall c :: c in e.capabilities ==> c in m.capabilities
  }

  ghost predicate ManifestForm(m: Manifest) {
    && AppIdForm(m.appId)
    && Canonical(m.capabilities, 1024, 192) && (forall c :: c in m.capabilities ==> Named(m.appId, c))
    && DigestForm(m.catalogDigest)
    && |m.edges| <= 1024 && (forall i, j :: 0 <= i < j < |m.edges| ==> EdgeBefore(m.edges[i], m.edges[j]))
    && (forall i :: 0 <= i < |m.edges| ==> OwnEdgeForm(m, m.edges[i]))
    && m.restValid
  }

  lemma EdgesBefore(edges: seq<Edge>)
    ensures EdgesStep(edges) <==> forall i, j :: 0 <= i < j < |edges| ==> EdgeBefore(edges[i], edges[j])
  {
    if EdgesStep(edges) {
      forall i, j | 0 <= i < j < |edges| ensures EdgeBefore(edges[i], edges[j]) {
        PairsRise(edges, i, j);
      }
    }
  }

  lemma OwnEdgeExactly(m: Manifest, e: Edge)
    requires Ascending(m.capabilities) && forall c :: c in m.capabilities ==> InNamespace(m.appId, c)
    ensures OwnEdgeFault(m, e).None? <==> OwnEdgeForm(m, e)
  {
    EdgeExactly(e);
    NamedExactly(m.appId, e.appOperation);
    forall i | 0 <= i < |e.capabilities|
      ensures e.capabilities[i] in m.capabilities <==> Namespace(m.appId) <= e.capabilities[i] && CS.Holds(m.capabilities, e.capabilities[i]) {
      CS.HoldsExactly(m.capabilities, e.capabilities[i]);
    }
  }

  lemma {:induction false} EdgesExactly(m: Manifest, edges: seq<Edge>)
    ensures EdgesFault(m, edges).None? <==> forall i :: 0 <= i < |edges| ==> OwnEdgeFault(m, edges[i]).None?
  {
    if edges != [] {
      EdgesExactly(m, edges[1..]);
      assert forall i :: 0 < i < |edges| ==> edges[i] == edges[1..][i - 1];
    }
  }

  lemma AllNamed(appId: string, capabilities: seq<string>)
    ensures (forall i :: 0 <= i < |capabilities| ==> InNamespace(appId, capabilities[i])) <==> forall c :: c in capabilities ==> Named(appId, c)
    ensures (forall i :: 0 <= i < |capabilities| ==> InNamespace(appId, capabilities[i])) <==> forall c :: c in capabilities ==> InNamespace(appId, c)
  {
    forall c ensures InNamespace(appId, c) <==> Named(appId, c) {
      NamedExactly(appId, c);
    }
  }

  lemma ManifestUnfolded(m: Manifest)
    ensures ManifestFault(m).None?
            <==> IsAppId(m.appId) && CS.CanonicalProblem(m.capabilities, 1024, 192).None?
                 && (forall i :: 0 <= i < |m.capabilities| ==> InNamespace(m.appId, m.capabilities[i]))
                 && IsDigest(m.catalogDigest) && |m.edges| <= 1024 && EdgesStep(m.edges) && EdgesFault(m, m.edges).None? && m.restValid
  {
  }

  lemma OwnEdgesExactly(m: Manifest)
    requires Ascending(m.capabilities) && forall c :: c in m.capabilities ==> InNamespace(m.appId, c)
    ensures EdgesFault(m, m.edges).None? <==> forall i :: 0 <= i < |m.edges| ==> OwnEdgeForm(m, m.edges[i])
  {
    EdgesExactly(m, m.edges);
    forall i | 0 <= i < |m.edges| ensures OwnEdgeFault(m, m.edges[i]).None? <==> OwnEdgeForm(m, m.edges[i]) {
      OwnEdgeExactly(m, m.edges[i]);
    }
  }

  /** A manifest is accepted if and only if it has the form. */
  lemma ManifestExactly(m: Manifest)
    ensures ManifestFault(m).None? <==> ManifestForm(m)
  {
    ManifestUnfolded(m);
    AppIdExactly(m.appId);
    CanonicalForm(m.capabilities, 1024, 192);
    AllNamed(m.appId, m.capabilities);
    DigestExactly(m.catalogDigest);
    EdgesBefore(m.edges);
    if Canonical(m.capabilities, 1024, 192) && forall c :: c in m.capabilities ==> InNamespace(m.appId, c) {
      assert Ascending(m.capabilities);
      OwnEdgesExactly(m);
    }
  }

  // ---- Handshakes ----

  /** What a handshake asks of one operation. */
  ghost predicate OperationForm(m: Manifest, d: Descriptor) {
    DescriptorForm(d) && Named(m.appId, d.operationId) && forall c :: c in d.capabilities ==> c in m.capabilities
  }

  /** Some operation starts the edge and asks for everything that the edge asks for. */
  ghost predicate Started(operations: seq<Descriptor>, e: Edge) {
    exists j :: 0 <= j < |operations| && operations[j].operationId == e.appOperation
                && forall c :: c in e.capabilities ==> c in operations[j].capabilities
  }

  ghost predicate HandshakeForm(h: Handshake, m: Manifest) {
    && h.restValid && ManifestForm(m)
    && h.appId == m.appId && h.version == m.version && h.catalogDigest == m.catalogDigest
    && |h.operations| <= 4096
    && (forall i, j :: 0 <= i < j < |h.operations| ==> Less(h.operations[i].operationId, h.operations[j].operationId))
    && (forall i :: 0 <= i < |h.operations| ==> OperationForm(m, h.operations[i]))
    && (forall i :: 0 <= i < |m.edges| ==> Started(h.operations, m.edges[i]))
  }

  lemma {:induction false} DescriptorsExactly(appId: string, operations: seq<Descriptor>)
    ensures DescriptorsFault(appId, operations).None?
            <==> forall i :: 0 <= i < |operations| ==> DescriptorFault(operations[i]).None? && InNamespace(appId, operations[i].operationId)
  {
    if operations != [] {
      DescriptorsExactly(appId, operations[1..]);
      assert forall i :: 0 < i < |operations| ==> operations[i] == operations[1..][i - 1];
    }
  }

  lemma DeclaredExactly(capabilities: seq<string>, declared: seq<string>)
    requires Ascending(declared)
    ensures AllDeclared(capabilities, declared) <==> forall c :: c in capabilities ==> c in declared
  {
    forall i | 0 <= i < |capabilities| ensures CS.Holds(declared, capabilities[i]) <==> capabilities[i] in declared {
      CS.HoldsExactly(declared, capabilities[i]);
    }
  }

  lemma IdsAscend(operations: seq<Descriptor>)
    ensures CS.Steps(Ids(operations))
            <==> forall i, j :: 0 <= i < j < |operations| ==> Less(operations[i].operationId, operations[j].operationId)
  {
    CS.StepsExactly(Ids(operations));
    if forall i, j :: 0 <= i < j < |operations| ==> Less(operations[i].operationId, operations[j].operationId) {
      assert Ascending(Ids(operations));
    }
    if Ascending(Ids(operations)) {
      forall i, j | 0 <= i < j < |operations| ensures Less(operations[i].operationId, operations[j].operationId) {
        assert Less(Ids(operations)[i], Ids(operations)[j]);
      }
    }
  }

  lemma StartedExactly(operations: seq<Descriptor>, e: Edge)
    requires CS.Steps(Ids(operations)) && forall i :: 0 <= i < |operations| ==> Ascending(operations[i].capabilities)
    ensures EdgeBacked(operations, e) <==> Started(operations, e)
  {
    var ids := Ids(operations);
    CS.StepsExactly(ids);
    CS.LessIsStrict();
    CS.SearchExactly(ids, e.appOperation, Less);
    var found := CS.BinarySearch(ids, e.appOperation, Less);
    if found.Some? {
      DeclaredExactly(e.capabilities, operations[found.value].capabilities);
      assert ids[found.value] == e.appOperation;
    }
    if Started(operations, e) {
      var j :| 0 <= j < |operations| && operations[j].operationId == e.appOperation
               && forall c :: c in e.capabilities ==> c in operations[j].capabilities;
      assert ids[j] == e.appOperation;
    }
  }

  lemma OperationExactly(m: Manifest, d: Descriptor)
    requires Ascending(m.capabilities)
    ensures DescriptorFault(d).None? && InNamespace(m.appId, d.operationId) && AllDeclared(d.capabilities, m.capabilities)
            <==> OperationForm(m, d)
  {
    DescriptorExactly(d);
    NamedExactly(m.appId, d.operationId);
    DeclaredExactly(d.capabilities, m.capabilities);
  }

  lemma HandshakeUnfolded(h: Handshake, m: Manifest)
    ensures HandshakeFault(h, m).None?
            <==> h.restValid && ManifestFault(m).None? && h.appId == m.appId && h.version == m.version && h.catalogDigest == m.catalogDigest
                 && |h.operations| <= 4096 && CS.Steps(Ids(h.operations)) && DescriptorsFault(m.appId, h.operations).None?
                 && (forall i :: 0 <= i < |h.operations| ==> AllDeclared(h.operations[i].capabilities, m.capabilities))
                 && (forall i :: 0 <= i < |m.edges| ==> EdgeBacked(h.operations, m.edges[i]))
  {
  }

  lemma AllOperations(m: Manifest, operations: seq<Descriptor>)
    requires Ascending(m.capabilities)
    ensures DescriptorsFault(m.appId, operations).None?
            && (forall i :: 0 <= i < |operations| ==> AllDeclared(operations[i].capabilities, m.capabilities))
            <==> forall i :: 0 <= i < |operations| ==> OperationForm(m, operations[i])
  {
    DescriptorsExactly(m.appId, operations);
    forall i | 0 <= i < |operations|
      ensures (DescriptorFault(operations[i]).None? && InNamespace(m.appId, operations[i].operationId)
               && AllDeclared(operations[i].capabilities, m.capabilities)) <==> OperationForm(m, operations[i]) {
      OperationExactly(m, operations[i]);
    }
  }

  lemma AllStarted(m: Manifest, operations: seq<Descriptor>)
    requires CS.Steps(Ids(operations)) && forall i :: 0 <= i < |operations| ==> OperationForm(m, operations[i])
    ensures (forall i :: 0 <= i < |m.edges| ==> EdgeBacked(operations, m.edges[i]))
            <==> forall i :: 0 <= i < |m.edges| ==> Started(operations, m.edges[i])
  {
    forall i | 0 <= i < |m.edges| ensures EdgeBacked(operations, m.edges[i]) <==> Started(operations, m.edges[i]) {
      StartedExactly(operations, m.edges[i]);
    }
  }

  lemma HandshakeUnder(h: Handshake, m: Manifest)
    requires ManifestForm(m) && CS.Steps(Ids(h.operations))
    ensures (DescriptorsFault(m.appId, h.operations).None?
             && (forall i :: 0 <= i < |h.operations| ==> AllDeclared(h.operations[i].capabilities, m.capabilities))
             && (forall i :: 0 <= i < |m.edges| ==> EdgeBacked(h.operations, m.edges[i])))
            <==> ((forall i :: 0 <= i < |h.operations| ==> OperationForm(m, h.operations[i]))
                  && (forall i :: 0 <= i < |m.edges| ==> Started(h.operations, m.edges[i])))
  {
    assert Ascending(m.capabilities);
    AllOperations(m, h.operations);
    if forall i :: 0 <= i < |h.operations| ==> OperationForm(m, h.operations[i]) {
      AllStarted(m, h.operations);
    }
  }

  /** A handshake is accepted under a manifest if and only if it has the form. */
  lemma HandshakeExactly(h: Handshake, m: Manifest)
    ensures HandshakeFault(h, m).None? <==> HandshakeForm(h, m)
  {
    HandshakeUnfolded(h, m);
    ManifestExactly(m);
    IdsAscend(h.operations);
    if ManifestForm(m) && CS.Steps(Ids(h.operations)) {
      HandshakeUnder(h, m);
    }
  }
}
