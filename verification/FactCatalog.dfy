/** The contract that both fact ledgers implement for directory paging: which facts a grant selects,
    which revision keys fence it, and the simple specification "the answer frozen at page one, or an
    error" that a paging session has to follow. */
module FactCatalog {
  import opened Common
  import opened Order
  import opened Text

  /** A stored fact. `details` stands for the payload fields that selection never looks at. */
  datatype Fact = Fact(id: string, statement: string, scopeKey: Option<string>, boundary: string, details: string)

  /** The authorization half of a directory query. `lower` is the ledger's lower-casing of statements. */
  datatype Grant = Grant(
    factIds: seq<string>,
    scopeKeys: seq<string>,
    boundaries: seq<string>,
    terms: seq<string>,
    lower: string -> string)

  predicate Authorized(g: Grant, id: string, scopeKey: Option<string>, boundary: Option<string>) {
    id in g.factIds
    || (scopeKey.Some? && scopeKey.value in g.scopeKeys && boundary.Some? && boundary.value in g.boundaries)
  }

  predicate TermsMatch(g: Grant, statement: string) {
    g.terms == [] || exists t :: t in g.terms && Contains(g.lower(statement), t)
  }

  function FactKey(id: string): string { "fact:" + id }

  function ScopeKey(scope: string): string { "scope:" + scope }

  /** The revision keys a change of a row with this id and scope concerns. */
  function RowKeys(id: string, scopeKey: Option<string>): set<string> {
    {FactKey(id)} + (if scopeKey.Some? then {ScopeKey(scopeKey.value)} else {})
  }

  /** The revision keys that fence a grant: one per granted id and one per granted scope. */
  function RevisionKeys(g: Grant): set<string> {
    (set id | id in g.factIds :: FactKey(id)) + (set s | s in g.scopeKeys :: ScopeKey(s))
  }

  lemma KeysInjective(id: string, scope: string)
    ensures forall other :: FactKey(id) == FactKey(other) ==> id == other
    ensures forall other :: ScopeKey(scope) == ScopeKey(other) ==> scope == other
    ensures FactKey(id) != ScopeKey(scope)
  {
    forall other | FactKey(id) == FactKey(other) ensures id == other {
      assert id == FactKey(id)[5..] && other == FactKey(other)[5..];
    }
    forall other | ScopeKey(scope) == ScopeKey(other) ensures scope == other {
      assert scope == ScopeKey(scope)[6..] && other == ScopeKey(other)[6..];
    }
    assert FactKey(id)[0] == 'f' && ScopeKey(scope)[0] == 's';
  }

  /** The fence covers the grant: every authorized row has a key in it. */
  lemma AuthorizedIsFenced(g: Grant, id: string, scopeKey: Option<string>, boundary: Option<string>)
    requires Authorized(g, id, scopeKey, boundary)
    ensures exists k :: k in RowKeys(id, scopeKey) && k in RevisionKeys(g)
  {
    if id in g.factIds {
      assert FactKey(id) in RowKeys(id, scopeKey) && FactKey(id) in RevisionKeys(g);
    } else {
      assert ScopeKey(scopeKey.value) in RowKeys(id, scopeKey) && ScopeKey(scopeKey.value) in RevisionKeys(g);
    }
  }

  /** The fence is no wider than the grant: a row with neither a granted id nor a granted scope has no key in it. */
  lemma UngrantedIsUnfenced(g: Grant, id: string, scopeKey: Option<string>)
    requires id !in g.factIds && (scopeKey.Some? ==> scopeKey.value !in g.scopeKeys)
    ensures RowKeys(id, scopeKey) !! RevisionKeys(g)
  {
    forall k | k in RowKeys(id, scopeKey) ensures k !in RevisionKeys(g) {
      forall other | other in g.factIds ensures FactKey(other) != k {
        KeysInjective(other, if scopeKey.Some? then scopeKey.value else "");
      }
      forall other | other in g.scopeKeys ensures ScopeKey(other) != k {
        KeysInjective(id, other);
      }
    }
  }

  // ---- One page of a fixed set of selected facts ----

  type Items = m: map<string, Fact> | forall id :: id in m ==> m[id].id == id witness map[]

  datatype Page = Page(records: seq<Fact>, nextId: Option<string>)

  function Clamp(limit: nat): (r: nat)
    ensures 1 <= r <= 65 && (1 <= limit <= 65 ==> r == limit) && (limit > 65 ==> r == 65)
  {
    if limit < 1 then 1 else if limit > 65 then 65 else limit
  }

  function Pick(items: Items, ids: seq<string>): (r: seq<Fact>)
    requires forall id :: id in ids ==> id in items
    ensures |r| == |ids|
  {
    seq(|ids|, i requires 0 <= i < |ids| => items[ids[i]])
  }

  /** The complete answer: every selected fact once, in ascending id order. */
  function Answer(items: Items): (r: seq<Fact>)
    ensures |r| == |items|
  {
    Pick(items, Sorted(items.Keys))
  }

  /** A listing in strictly ascending id order, so with every id once. */
  ghost predicate IdsAscend(facts: seq<Fact>) {
    forall i, j :: 0 <= i < j < |facts| ==> Less(facts[i].id, facts[j].id)
  }

  lemma PickExactly(items: Items, ids: seq<string>)
    requires Ascending(ids) && forall id :: id in ids <==> id in items
    ensures IdsAscend(Pick(items, ids))
    ensures forall f :: f in Pick(items, ids) <==> f.id in items && items[f.id] == f
  {
    var facts := Pick(items, ids);
    forall f ensures f in facts <==> f.id in items && items[f.id] == f {
      if f.id in items && items[f.id] == f {
        var i :| 0 <= i < |ids| && ids[i] == f.id;
        assert facts[i] == f;
      }
    }
  }

  lemma AnswerExactly(items: Items)
    ensures IdsAscend(Answer(items))
    ensures forall f :: f in Answer(items) <==> f.id in items && items[f.id] == f
  {
    PickExactly(items, Sorted(items.Keys));
  }

  /** What a directory answer shows under a grant: by id, or by scope and boundary together; with one of the terms in the
      lower-cased statement, if there are terms; and only the exact id, if one is asked for. */
  ghost predicate Shown(g: Grant, exactId: Option<string>, id: string, scopeKey: Option<string>, boundary: Option<string>, statement: string) {
    && (id in g.factIds
        || exists s, b :: s in g.scopeKeys && b in g.boundaries && scopeKey == Some(s) && boundary == Some(b))
    && (|g.terms| == 0 || exists i, k :: 0 <= i < |g.terms| && 0 <= k <= |g.lower(statement)| && OccursAt(g.lower(statement), g.terms[i], k))
    && (exactId == None || exactId == Some(id))
  }

  lemma ShownExactly(g: Grant, exactId: Option<string>, id: string, scopeKey: Option<string>, boundary: Option<string>, statement: string)
    ensures Shown(g, exactId, id, scopeKey, boundary, statement)
            <==> Authorized(g, id, scopeKey, boundary) && TermsMatch(g, statement) && (exactId.None? || exactId.value == id)
  {
    var text := g.lower(statement);
    if TermsMatch(g, statement) && g.terms != [] {
      var t :| t in g.terms && Contains(text, t);
      var i :| 0 <= i < |g.terms| && g.terms[i] == t;
      var k :| 0 <= k <= |text| && OccursAt(text, g.terms[i], k);
    }
    if i, k :| 0 <= i < |g.terms| && 0 <= k <= |text| && OccursAt(text, g.terms[i], k) {
      assert g.terms[i] in g.terms && Contains(text, g.terms[i]);
    }
  }

  function IdsFrom(items: Items, after: Option<string>): seq<string> {
    Sorted(if after.None? then items.Keys else KeysAfter(items.Keys, after.value))
  }

  /** The first ids up to the clamped limit, and where to resume when ids are left over. */
  function Cut(items: Items, ids: seq<string>, limit: nat): Page
    requires forall id :: id in ids ==> id in items
  {
    if |ids| > Clamp(limit) then
      Page(Pick(items, ids[..Clamp(limit)]), Some(ids[Clamp(limit) - 1]))
    else
      Page(Pick(items, ids), None)
  }

  /** One page: the ids above `after` in ascending order, cut at the clamped limit. */
  function PageAfter(items: Items, after: Option<string>, limit: nat): Page {
    Cut(items, IdsFrom(items, after), limit)
  }

  // ---- The frozen-answer specification of a paging session ----

  /** What a client has after some pages; `S` is the adapter's snapshot token. */
  datatype Session<S> =
    | Fresh
    | Paging(snapshot: S, collected: seq<Fact>, after: string)
    | Done(collected: seq<Fact>)
    | Failed

  function Receive<S>(snapshot: S, before: seq<Fact>, page: Page): Session<S> {
    if page.nextId.Some? then Paging(snapshot, before + page.records, page.nextId.value)
    else Done(before + page.records)
  }

  /** The session follows the specification: what it holds is a prefix of the frozen answer, it
      resumes right behind that prefix, and it is done only when it holds the whole answer. */
  ghost predicate Frozen<S>(items: Items, s: Session<S>) {
    FrozenListing(items, Sorted(items.Keys), s)
  }

  ghost predicate FrozenListing<S>(items: Items, all: seq<string>, s: Session<S>)
    requires forall id :: id in all ==> id in items
  {
    match s
    case Fresh => true
    case Paging(_, collected, after) =>
      && 0 < |collected| < |all|
      && collected == Pick(items, all)[..|collected|]
      && after == all[|collected| - 1]
    case Done(collected) => collected == Pick(items, all)
    case Failed => true
  }

  /** Where a page that starts behind the first `k` of `n` ids ends. */
  function PageEnd(n: nat, k: nat, limit: nat): (hi: nat)
    requires k <= n
    ensures k <= hi <= n && (hi == n || hi == k + Clamp(limit))
  {
    if k + Clamp(limit) < n then k + Clamp(limit) else n
  }

  lemma CutIsStretch(items: Items, all: seq<string>, k: nat, limit: nat)
    requires forall id :: id in all ==> id in items
    requires k <= |all|
    ensures var hi := PageEnd(|all|, k, limit);
            && Cut(items, all[k..], limit).records == Pick(items, all)[k..hi]
            && Cut(items, all[k..], limit).nextId == (if hi < |all| then Some(all[hi - 1]) else None)
  {
    var hi := PageEnd(|all|, k, limit);
    assert all[k..][..hi - k] == all[k..hi];
    assert Pick(items, all[k..hi]) == Pick(items, all)[k..hi];
    assert hi == |all| ==> all[k..hi] == all[k..];
  }

  lemma IdsFromSuffix(items: Items, k: nat)
    requires k < |items| || k == 0
    ensures IdsFrom(items, if k == 0 then None else Some(Sorted(items.Keys)[k - 1])) == Sorted(items.Keys)[k..]
  {
    if k > 0 {
      SortedAfter(items.Keys, k);
    }
  }

  lemma ResumedPage(items: Items, all: seq<string>, k: nat, limit: nat)
    requires all == Sorted(items.Keys) && (k < |all| || k == 0)
    ensures PageAfter(items, if k == 0 then None else Some(all[k - 1]), limit) == Cut(items, all[k..], limit)
  {
    IdsFromSuffix(items, k);
  }

  lemma ListingStep<S>(items: Items, all: seq<string>, s: Session<S>, snapshot: S, limit: nat)
    requires forall id :: id in all ==> id in items
    requires FrozenListing(items, all, s) && (s.Fresh? || s.Paging?)
    ensures var before := if s.Fresh? then [] else s.collected;
            var s' := Receive(snapshot, before, Cut(items, all[|before|..], limit));
            && FrozenListing(items, all, s')
            && (s'.Done? || (s'.Paging? && |s'.collected| == |before| + Clamp(limit)))
  {
    var k := if s.Fresh? then 0 else |s.collected|;
    var answer := Pick(items, all);
    var hi := PageEnd(|all|, k, limit);
    CutIsStretch(items, all, k, limit);
    assert answer[..k] + answer[k..hi] == answer[..hi];
    assert answer[..|all|] == answer;
  }

  /** The specification is kept by any page taken from the frozen facts, and each such page either
      finishes the session or adds a full page, so a session has at most |items| further pages. */
  lemma FrozenStep<S>(items: Items, s: Session<S>, snapshot: S, limit: nat)
    requires Frozen(items, s) && (s.Fresh? || s.Paging?)
    ensures var before := if s.Fresh? then [] else s.collected;
            var s' := Receive(snapshot, before, PageAfter(items, if s.Fresh? then None else Some(s.after), limit));
            && Frozen(items, s')
            && (s'.Done? || (s'.Paging? && |s'.collected| == |before| + Clamp(limit)))
  {
    var all := Sorted(items.Keys);
    ResumedPage(items, all, if s.Fresh? then 0 else |s.collected|, limit);
    ListingStep(items, all, s, snapshot, limit);
  }

  /** The same for a later page, which keeps the snapshot of the session. */
  lemma LaterStep<S>(items: Items, s: Session<S>, limit: nat, s': Session<S>)
    requires Frozen(items, s) && s.Paging?
    requires s' == Receive(s.snapshot, s.collected, PageAfter(items, Some(s.after), limit))
    ensures Frozen(items, s') && (s'.Done? || (s'.Paging? && s'.snapshot == s.snapshot))
    ensures s'.Done? || |s'.collected| == |s.collected| + Clamp(limit)
  {
    FrozenStep(items, s, s.snapshot, limit);
  }

  /** And for page one, which records the snapshot. */
  lemma FirstStep<S>(items: Items, snapshot: S, limit: nat, s': Session<S>)
    requires s' == Receive(snapshot, [], PageAfter(items, None, limit))
    ensures Frozen(items, s') && (s'.Done? || (s'.Paging? && s'.snapshot == snapshot))
  {
    FrozenStep(items, Fresh, snapshot, limit);
  }
}
