/** The Core operation catalogue handed to an APP: exactly the Core operations its signed edges name. */
module CoreCatalog {
  import opened Common
  import opened Order
  import opened Operations
  import OF = OperationForms
  import opened Text
  import CS = CanonicalSets

  /** `restValid` stands for schema, protocol, generation format and the digest over the catalogue. */
  datatype Catalog = Catalog(appId: string, generation: string, operations: seq<Descriptor>, restValid: bool)

  datatype Flaw =
    | Invalid(fault: Fault)
    | WrongApp
    | WrongGeneration
    | WrongCount
    | WithoutEdge
    | AppCapability
    | MissingOperation
    | SchemaMismatch
    | KindMismatch

  // ---- Validation ----

  function EachFault(operations: seq<Descriptor>): Option<Fault> {
    if operations == [] then None
    else if DescriptorFault(operations[0]).Some? then DescriptorFault(operations[0])
    else EachFault(operations[1..])
  }

  function BaseFault(c: Catalog): Option<Fault> {
    if !c.restValid || !IsAppId(c.appId) || |c.operations| > 1024 then Some(BadCatalog)
    else if CS.RepeatProblem(Ids(c.operations), {}).Some? then Some(Malformed(CS.RepeatProblem(Ids(c.operations), {}).value))
    else if !CS.Steps(Ids(c.operations)) then Some(BadCatalog)
    else EachFault(c.operations)
  }

  /** The distinct Core operations that edges refer to. */
  function Required(edges: seq<Edge>): set<string> { set i | 0 <= i < |edges| :: edges[i].coreOperation }

  function EdgeFlaw(operations: seq<Descriptor>, e: Edge): Option<Flaw> {
    var found := CS.BinarySearch(Ids(operations), e.coreOperation, Less);
    if found.None? then Some(MissingOperation)
    else
      var d := operations[found.value];
      if d.inputDigest != e.inputDigest || d.outputDigest != e.outputDigest then Some(SchemaMismatch)
      else if d.kind != e.kind || d.streaming != e.streaming then Some(KindMismatch)
      else None
  }

  function EdgesFlaw(operations: seq<Descriptor>, edges: seq<Edge>): Option<Flaw> {
    if edges == [] then None
    else if EdgeFlaw(operations, edges[0]).Some? then EdgeFlaw(operations, edges[0])
    else EdgesFlaw(operations, edges[1..])
  }

  predicate ClaimsAppCapability(d: Descriptor, appId: string) {
    exists i :: 0 <= i < |d.capabilities| && Namespace(appId) <= d.capabilities[i]
  }

  /** The checks before the edges are compared one by one. */
  function ApproachFlaw(c: Catalog, m: Manifest, generation: string): Option<Flaw> {
    if BaseFault(c).Some? then Some(Invalid(BaseFault(c).value))
    else if ManifestFault(m).Some? then Some(Invalid(ManifestFault(m).value))
    else if c.appId != m.appId then Some(WrongApp)
    else if c.generation != generation then Some(WrongGeneration)
    else if |c.operations| != |Required(m.edges)| then Some(WrongCount)
    else if exists i :: 0 <= i < |c.operations| && c.operations[i].operationId !in Required(m.edges) then Some(WithoutEdge)
    else if exists i :: 0 <= i < |c.operations| && ClaimsAppCapability(c.operations[i], m.appId) then Some(AppCapability)
    else None
  }

  function ManifestFlaw(c: Catalog, m: Manifest, generation: string): Option<Flaw> {
    if ApproachFlaw(c, m, generation).Some? then ApproachFlaw(c, m, generation)
    else EdgesFlaw(c.operations, m.edges)
  }

  // ---- Counting ----

  lemma SubsetOfEqualSize(a: set<string>, b: set<string>)
    requires a <= b && |a| == |b|
    ensures a == b
  {
    assert b == a + (b - a);
    assert |b| == |a| + |b - a|;
  }

  /** Equal length and inclusion leave no room for a missing operation. */
  lemma Pigeonhole(ids: seq<string>, required: set<string>)
    requires Ascending(ids) && |ids| == |required| && forall i :: 0 <= i < |ids| ==> ids[i] in required
    ensures Members(ids) == required
  {
    CS.AscendingCount(ids);
    SubsetOfEqualSize(Members(ids), required);
  }

  lemma ApproachCovers(c: Catalog, m: Manifest, generation: string)
    requires ApproachFlaw(c, m, generation).None?
    ensures Ascending(Ids(c.operations)) && Members(Ids(c.operations)) == Required(m.edges)
  {
    CS.StepsExactly(Ids(c.operations));
    Pigeonhole(Ids(c.operations), Required(m.edges));
  }

  lemma FoundAt(operations: seq<Descriptor>, id: string)
    requires Ascending(Ids(operations))
    ensures CS.BinarySearch(Ids(operations), id, Less).Some? <==> id in Members(Ids(operations))
    ensures forall i :: 0 <= i < |operations| && operations[i].operationId == id ==> CS.BinarySearch(Ids(operations), id, Less) == Some(i)
  {
    CS.LessIsStrict();
    CS.SearchExactly(Ids(operations), id, Less);
    assert forall i :: 0 <= i < |operations| ==> Ids(operations)[i] == operations[i].operationId;
  }

  lemma {:induction false} NoEdgeMissing(operations: seq<Descriptor>, edges: seq<Edge>)
    requires Ascending(Ids(operations))
    requires forall i :: 0 <= i < |edges| ==> edges[i].coreOperation in Members(Ids(operations))
    ensures EdgesFlaw(operations, edges) != Some(MissingOperation)
  {
    if edges != [] {
      FoundAt(operations, edges[0].coreOperation);
      NoEdgeMissing(operations, edges[1..]);
    }
  }

  /** No catalogue is ever refused for a missing operation: the count and the inclusion have already settled it. */
  lemma MissingIsUnreachable(c: Catalog, m: Manifest, generation: string)
    ensures ManifestFlaw(c, m, generation) != Some(MissingOperation)
  {
    if ApproachFlaw(c, m, generation).None? {
      ApproachCovers(c, m, generation);
      NoEdgeMissing(c.operations, m.edges);
    }
  }

  // ---- What an accepted catalogue holds ----

  lemma {:induction false} EdgesServed(operations: seq<Descriptor>, edges: seq<Edge>, j: nat)
    requires EdgesFlaw(operations, edges).None? && j < |edges|
    ensures EdgeFlaw(operations, edges[j]).None?
  {
    if j > 0 {
      EdgesServed(operations, edges[1..], j - 1);
    }
  }

  /** An accepted catalogue has exactly one descriptor for each Core operation that an edge names, it has no other,
      and it serves every edge. */
  lemma AcceptedHoldsExactly(c: Catalog, m: Manifest, generation: string)
    requires ManifestFlaw(c, m, generation).None?
    ensures forall id :: id in Required(m.edges) <==> exists i :: 0 <= i < |c.operations| && c.operations[i].operationId == id
    ensures forall i, j :: 0 <= i < j < |c.operations| ==> c.operations[i].operationId != c.operations[j].operationId
    ensures forall i, j :: 0 <= i < |c.operations| && 0 <= j < |m.edges| && c.operations[i].operationId == m.edges[j].coreOperation ==>
              Matches(c.operations[i], m.edges[j])
  {
    ApproachCovers(c, m, generation);
    var ids := Ids(c.operations);
    forall id ensures id in Required(m.edges) <==> exists i :: 0 <= i < |c.operations| && c.operations[i].operationId == id {
      assert id in Members(ids) <==> id in ids;
    }
    CS.AscendingDistinct(ids);
    forall i, j | 0 <= i < |c.operations| && 0 <= j < |m.edges| && c.operations[i].operationId == m.edges[j].coreOperation
      ensures Matches(c.operations[i], m.edges[j]) {
      FoundAt(c.operations, m.edges[j].coreOperation);
      EdgesServed(c.operations, m.edges, j);
    }
  }

  /** The catalogue names exactly the Core operations of the edges, only with Core capabilities, and serves every edge. */
  ghost predicate Covers(c: Catalog, m: Manifest) {
    && Members(Ids(c.operations)) == Required(m.edges)
    && (forall i :: 0 <= i < |c.operations| ==> !ClaimsAppCapability(c.operations[i], m.appId))
    && (forall i, j :: 0 <= i < |c.operations| && 0 <= j < |m.edges| && c.operations[i].operationId == m.edges[j].coreOperation ==>
          Matches(c.operations[i], m.edges[j]))
  }

  lemma CoversApproach(c: Catalog, m: Manifest, generation: string)
    requires BaseFault(c).None? && ManifestFault(m).None? && c.appId == m.appId && c.generation == generation && Covers(c, m)
    ensures ApproachFlaw(c, m, generation).None?
  {
    var ids := Ids(c.operations);
    CS.StepsExactly(ids);
    CS.AscendingCount(ids);
    forall i | 0 <= i < |c.operations| ensures c.operations[i].operationId in Required(m.edges) {
      assert ids[i] in Members(ids);
    }
  }

  lemma {:induction false} ServedHaveNoFlaw(operations: seq<Descriptor>, edges: seq<Edge>)
    requires Ascending(Ids(operations))
    requires forall j :: 0 <= j < |edges| ==> edges[j].coreOperation in Members(Ids(operations))
    requires forall i, j :: 0 <= i < |operations| && 0 <= j < |edges| && operations[i].operationId == edges[j].coreOperation ==>
               Matches(operations[i], edges[j])
    ensures EdgesFlaw(operations, edges).None?
  {
    if edges != [] {
      FoundAt(operations, edges[0].coreOperation);
      var i := CS.BinarySearch(Ids(operations), edges[0].coreOperation, Less).value;
      assert Matches(operations[i], edges[0]);
      ServedHaveNoFlaw(operations, edges[1..]);
    }
  }

  lemma AcceptedByParts(c: Catalog, m: Manifest, generation: string)
    ensures ManifestFlaw(c, m, generation).None?
            <==> BaseFault(c).None? && ManifestFault(m).None? && c.appId == m.appId && c.generation == generation && Covers(c, m)
  {
    if ManifestFlaw(c, m, generation).None? {
      ApproachCovers(c, m, generation);
      AcceptedHoldsExactly(c, m, generation);
    } else if BaseFault(c).None? && ManifestFault(m).None? && c.appId == m.appId && c.generation == generation && Covers(c, m) {
      CoversApproach(c, m, generation);
      CS.StepsExactly(Ids(c.operations));
      ServedHaveNoFlaw(c.operations, m.edges);
    }
  }

  ghost predicate CatalogForm(c: Catalog) {
    && c.restValid && OF.AppIdForm(c.appId) && |c.operations| <= 1024
    && (forall i, j :: 0 <= i < j < |c.operations| ==> Less(c.operations[i].operationId, c.operations[j].operationId))
    && (forall i :: 0 <= i < |c.operations| ==> OF.DescriptorForm(c.operations[i]))
  }

  /** The descriptor carries the contract that the edge was signed for. */
  ghost predicate Carries(d: Descriptor, e: Edge) {
    d.inputDigest == e.inputDigest && d.outputDigest == e.outputDigest && d.kind == e.kind && d.streaming == e.streaming
  }

  /** Some edge leads to the Core operation. */
  ghost predicate LedTo(edges: seq<Edge>, id: string) {
    exists j :: 0 <= j < |edges| && edges[j].coreOperation == id
  }

  ghost predicate Offered(operations: seq<Descriptor>, id: string) {
    exists i :: 0 <= i < |operations| && operations[i].operationId == id
  }

  /** The operations are those that edges name, they ask for no capability of the APP, and they carry the contract of
      every edge that names them. */
  ghost predicate Serves(operations: seq<Descriptor>, m: Manifest) {
    && (forall id :: Offered(operations, id) <==> LedTo(m.edges, id))
    && (forall i :: 0 <= i < |operations| ==> CoreOnly(operations[i], m.appId))
    && (forall i, j :: 0 <= i < |operations| && 0 <= j < |m.edges| && operations[i].operationId == m.edges[j].coreOperation ==>
          Carries(operations[i], m.edges[j]))
  }

  /** No capability that is asked for begins with the APP's id and a dot. */
  ghost predicate CoreOnly(d: Descriptor, appId: string) {
    forall x :: x in d.capabilities ==> !(appId + "." <= x)
  }

  lemma CoreOnlyExactly(d: Descriptor, appId: string)
    ensures !ClaimsAppCapability(d, appId) <==> CoreOnly(d, appId)
  {
    if ClaimsAppCapability(d, appId) {
      var i :| 0 <= i < |d.capabilities| && Namespace(appId) <= d.capabilities[i];
      assert d.capabilities[i] in d.capabilities;
    }
  }

  lemma {:induction false} EachExactly(operations: seq<Descriptor>)
    ensures EachFault(operations).None? <==> forall i :: 0 <= i < |operations| ==> OF.DescriptorForm(operations[i])
  {
    if operations != [] {
      EachExactly(operations[1..]);
      OF.DescriptorExactly(operations[0]);
      assert forall i :: 0 < i < |operations| ==> operations[i] == operations[1..][i - 1];
    }
  }

  lemma BaseExactly(c: Catalog)
    ensures BaseFault(c).None? <==> CatalogForm(c)
  {
    var ids := Ids(c.operations);
    OF.AppIdExactly(c.appId);
    OF.IdsAscend(c.operations);
    CS.RepeatExactly(ids, {});
    CS.StepsExactly(ids);
    if Ascending(ids) {
      CS.AscendingDistinct(ids);
    }
    EachExactly(c.operations);
  }

  lemma NamesExactly(operations: seq<Descriptor>, edges: seq<Edge>)
    ensures Members(Ids(operations)) == Required(edges) <==> forall id :: Offered(operations, id) <==> LedTo(edges, id)
  {
    var ids := Ids(operations);
    forall id ensures id in Members(ids) <==> Offered(operations, id) {
      if id in ids {
        var i :| 0 <= i < |ids| && ids[i] == id;
        assert operations[i].operationId == id;
      }
      if Offered(operations, id) {
        var i :| 0 <= i < |operations| && operations[i].operationId == id;
        assert ids[i] == id;
      }
    }
    forall id ensures id in Required(edges) <==> LedTo(edges, id) {
    }
    if forall id :: Offered(operations, id) <==> LedTo(edges, id) {
      assert forall id :: id in Members(ids) <==> id in Required(edges);
    }
    if Members(ids) == Required(edges) {
      forall id ensures Offered(operations, id) <==> LedTo(edges, id) {
        assert id in Members(ids) <==> id in Required(edges);
      }
    }
  }

  lemma CoversExactly(c: Catalog, m: Manifest)
    ensures Covers(c, m) <==> Serves(c.operations, m)
  {
    NamesExactly(c.operations, m.edges);
    forall i | 0 <= i < |c.operations| ensures !ClaimsAppCapability(c.operations[i], m.appId) <==> CoreOnly(c.operations[i], m.appId) {
      CoreOnlyExactly(c.operations[i], m.appId);
    }
    forall i, j | 0 <= i < |c.operations| && 0 <= j < |m.edges| && c.operations[i].operationId == m.edges[j].coreOperation
      ensures Matches(c.operations[i], m.edges[j]) <==> Carries(c.operations[i], m.edges[j]) {
    }
  }

  /** A catalogue is accepted if and only if it and the manifest are valid, they name one APP and the expected
      generation, and its operations serve the signed edges exactly. */
  lemma AcceptedExactly(c: Catalog, m: Manifest, generation: string)
    ensures ManifestFlaw(c, m, generation).None?
            <==> CatalogForm(c) && OF.ManifestForm(m) && c.appId == m.appId && c.generation == generation && Serves(c.operations, m)
  {
    AcceptedByParts(c, m, generation);
    BaseExactly(c);
    OF.ManifestExactly(m);
    CoversExactly(c, m);
  }

  /** Edges that share a Core operation agree on its digests, kind and streaming. */
  lemma SharedEdgesAgree(c: Catalog, m: Manifest, generation: string, j: nat, k: nat)
    requires ManifestFlaw(c, m, generation).None?
    requires j < |m.edges| && k < |m.edges| && m.edges[j].coreOperation == m.edges[k].coreOperation
    ensures m.edges[j].inputDigest == m.edges[k].inputDigest && m.edges[j].outputDigest == m.edges[k].outputDigest
    ensures m.edges[j].kind == m.edges[k].kind && m.edges[j].streaming == m.edges[k].streaming
  {
    EdgesServed(c.operations, m.edges, j);
    EdgesServed(c.operations, m.edges, k);
  }
}
