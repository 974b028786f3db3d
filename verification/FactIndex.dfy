/** The inverted index of the fact kernel. Postings are only ever added, so after an id has been indexed
    again with other text the index is complete but may hold stale postings. */
module FactIndex {
  import opened FactRecords

  type Postings = map<string, set<string>>

  datatype Index = Index(facts: map<string, FactRecord>, tokens: Postings, types: Postings)

  const EMPTY: Index := Index(map[], map[], map[])

  function Posted(p: Postings, key: string): set<string> {
    if key in p then p[key] else {}
  }

  function Post(p: Postings, key: string, id: string): Postings {
    p[key := Posted(p, key) + {id}]
  }

  function PostAll(p: Postings, keys: seq<string>, id: string): Postings
    decreases |keys|
  {
    if keys == [] then p else PostAll(Post(p, keys[0], id), keys[1..], id)
  }

  /** What a fact is posted under: the tokens of its statement and of its type. */
  function TokensOf(lx: Lexicon, f: FactRecord): seq<string> {
    lx.tokens(f.statement) + lx.tokens(f.factType)
  }

  function IndexFact(ix: Index, lx: Lexicon, f: FactRecord): Index {
    Index(ix.facts[f.id := f], PostAll(ix.tokens, TokensOf(lx, f), f.id), Post(ix.types, lx.typeKey(f.factType), f.id))
  }

  function IndexAll(ix: Index, lx: Lexicon, facts: seq<FactRecord>): Index
    decreases |facts|
  {
    if facts == [] then ix else IndexAll(IndexFact(ix, lx, facts[0]), lx, facts[1..])
  }

  lemma {:induction false} PostAllExactly(p: Postings, keys: seq<string>, id: string, key: string, other: string)
    ensures other in Posted(PostAll(p, keys, id), key) <==> other in Posted(p, key) || (other == id && key in keys)
    decreases |keys|
  {
    if keys != [] {
      PostAllExactly(Post(p, keys[0], id), keys[1..], id, key, other);
      assert key in keys <==> key == keys[0] || key in keys[1..];
    }
  }

  // ---- Agreement with the facts ----

  ghost predicate Keyed(facts: map<string, FactRecord>) {
    forall id :: id in facts ==> facts[id].id == id
  }

  /** Every fact is posted under each of its tokens and under its type. */
  ghost predicate Complete(ix: Index, lx: Lexicon) {
    && Keyed(ix.facts)
    && (forall id, t :: id in ix.facts && t in TokensOf(lx, ix.facts[id]) ==> id in Posted(ix.tokens, t))
    && (forall id :: id in ix.facts ==> id in Posted(ix.types, lx.typeKey(ix.facts[id].factType)))
  }

  /** Nothing is posted that its fact does not say. */
  ghost predicate Exact(ix: Index, lx: Lexicon) {
    && (forall id, t :: id in Posted(ix.tokens, t) ==> id in ix.facts && t in TokensOf(lx, ix.facts[id]))
    && (forall id, t :: id in Posted(ix.types, t) ==> id in ix.facts && t == lx.typeKey(ix.facts[id].factType))
  }

  /** Indexing keeps completeness, whatever the fact and whether or not its id was indexed before. */
  lemma IndexFactComplete(ix: Index, lx: Lexicon, f: FactRecord)
    requires Complete(ix, lx)
    ensures Complete(IndexFact(ix, lx, f), lx)
  {
    var ix' := IndexFact(ix, lx, f);
    forall id, t | id in ix'.facts && t in TokensOf(lx, ix'.facts[id]) ensures id in Posted(ix'.tokens, t) {
      PostAllExactly(ix.tokens, TokensOf(lx, f), f.id, t, id);
    }
  }

  /** The new version covers everything the old version was posted under. */
  ghost predicate Covers(lx: Lexicon, stored: FactRecord, f: FactRecord) {
    && (forall t :: t in TokensOf(lx, stored) ==> t in TokensOf(lx, f))
    && lx.typeKey(stored.factType) == lx.typeKey(f.factType)
  }

  /** Indexing keeps an exact index exact if and only if the id is new or the new version covers the old. */
  lemma IndexFactExactly(ix: Index, lx: Lexicon, f: FactRecord)
    requires Complete(ix, lx) && Exact(ix, lx)
    ensures Exact(IndexFact(ix, lx, f), lx) <==> (f.id in ix.facts ==> Covers(lx, ix.facts[f.id], f))
  {
    if f.id in ix.facts && !Covers(lx, ix.facts[f.id], f) {
      StaleStays(ix, lx, f);
    } else {
      CoveredStaysExact(ix, lx, f);
    }
  }

  lemma StaleStays(ix: Index, lx: Lexicon, f: FactRecord)
    requires Complete(ix, lx) && f.id in ix.facts && !Covers(lx, ix.facts[f.id], f)
    ensures !Exact(IndexFact(ix, lx, f), lx)
  {
    var ix' := IndexFact(ix, lx, f);
    var stored := ix.facts[f.id];
    if lx.typeKey(stored.factType) != lx.typeKey(f.factType) {
      assert f.id in Posted(ix'.types, lx.typeKey(stored.factType)) && ix'.facts[f.id] == f;
      assert !Exact(ix', lx);
    } else {
      var t :| t in TokensOf(lx, stored) && t !in TokensOf(lx, f);
      PostAllExactly(ix.tokens, TokensOf(lx, f), f.id, t, f.id);
      assert f.id in Posted(ix'.tokens, t) && ix'.facts[f.id] == f;
      assert !Exact(ix', lx);
    }
  }

  lemma CoveredStaysExact(ix: Index, lx: Lexicon, f: FactRecord)
    requires Exact(ix, lx) && (f.id in ix.facts ==> Covers(lx, ix.facts[f.id], f))
    ensures Exact(IndexFact(ix, lx, f), lx)
  {
    var ix' := IndexFact(ix, lx, f);
    forall id, t | id in Posted(ix'.tokens, t) ensures id in ix'.facts && t in TokensOf(lx, ix'.facts[id]) {
      PostAllExactly(ix.tokens, TokensOf(lx, f), f.id, t, id);
    }
    forall id, t | id in Posted(ix'.types, t) ensures id in ix'.facts && t == lx.typeKey(ix'.facts[id].factType) {
      assert id in Posted(ix.types, t) || id == f.id;
    }
  }

  ghost predicate DistinctIds(facts: seq<FactRecord>) {
    forall i, j :: 0 <= i < j < |facts| ==> facts[i].id != facts[j].id
  }

  lemma {:induction false} IndexAllAgrees(ix: Index, lx: Lexicon, facts: seq<FactRecord>)
    requires Complete(ix, lx) && Exact(ix, lx) && DistinctIds(facts)
    requires forall i :: 0 <= i < |facts| ==> facts[i].id !in ix.facts
    ensures Complete(IndexAll(ix, lx, facts), lx) && Exact(IndexAll(ix, lx, facts), lx)
    decreases |facts|
  {
    if facts != [] {
      IndexFactComplete(ix, lx, facts[0]);
      CoveredStaysExact(ix, lx, facts[0]);
      assert forall i :: 0 <= i < |facts[1..]| ==> facts[1..][i] == facts[i + 1];
      IndexAllAgrees(IndexFact(ix, lx, facts[0]), lx, facts[1..]);
    }
  }

  /** Indexing a list leaves alone what it does not name, and holds what it names; later versions win. */
  lemma {:induction false} IndexAllHolds(ix: Index, lx: Lexicon, facts: seq<FactRecord>, id: string)
    ensures var held := IndexAll(ix, lx, facts).facts;
            if exists i :: 0 <= i < |facts| && facts[i].id == id
            then id in held && held[id] == Last(facts, id)
            else (id in held <==> id in ix.facts) && (id in held ==> held[id] == ix.facts[id])
    decreases |facts|
  {
    if facts != [] {
      var rest := facts[1..];
      IndexAllHolds(IndexFact(ix, lx, facts[0]), lx, rest, id);
      assert forall i :: 0 <= i < |rest| ==> rest[i] == facts[i + 1];
      if i :| 0 <= i < |facts| && facts[i].id == id {
        assert i == 0 || rest[i - 1].id == id;
        LastSuffix(facts, id);
      }
    }
  }

  /** The last fact of the list under the id. */
  function Last(facts: seq<FactRecord>, id: string): (f: FactRecord)
    requires exists i :: 0 <= i < |facts| && facts[i].id == id
    ensures f in facts && f.id == id
  {
    var n := |facts| - 1;
    if facts[n].id == id then facts[n]
    else
      assert forall i :: 0 <= i < n ==> facts[..n][i] == facts[i];
      Last(facts[..n], id)
  }

  lemma {:induction false} LastSuffix(facts: seq<FactRecord>, id: string)
    requires exists i :: 0 <= i < |facts| && facts[i].id == id
    ensures if exists i :: 0 <= i < |facts[1..]| && facts[1..][i].id == id
            then Last(facts, id) == Last(facts[1..], id) else Last(facts, id) == facts[0]
    decreases |facts|
  {
    var n := |facts| - 1;
    if facts[n].id == id {
      if n > 0 {
        assert facts[1..][n - 1].id == id;
      }
    } else {
      assert forall i :: 0 <= i < n ==> facts[..n][i] == facts[i];
      LastSuffix(facts[..n], id);
      assert facts[..n][1..] == facts[1..][..n - 1];
    }
  }

  lemma {:induction false} IndexAllConcat(ix: Index, lx: Lexicon, a: seq<FactRecord>, b: seq<FactRecord>)
    ensures IndexAll(ix, lx, a + b) == IndexAll(IndexAll(ix, lx, a), lx, b)
    decreases |a|
  {
    if a == [] {
      assert a + b == b;
    } else {
      assert (a + b)[1..] == a[1..] + b;
      IndexAllConcat(IndexFact(ix, lx, a[0]), lx, a[1..], b);
    }
  }

  /** Each fact in turn is new to the index or covers the version it replaces. */
  ghost predicate CoverStored(ix: Index, lx: Lexicon, facts: seq<FactRecord>)
    decreases |facts|
  {
    facts == []
    || ((facts[0].id in ix.facts ==> Covers(lx, ix.facts[facts[0].id], facts[0])) && CoverStored(IndexFact(ix, lx, facts[0]), lx, facts[1..]))
  }

  /** The index is exact now and after each fact. */
  ghost predicate ExactThroughout(ix: Index, lx: Lexicon, facts: seq<FactRecord>)
    decreases |facts|
  {
    Exact(ix, lx) && (facts == [] || ExactThroughout(IndexFact(ix, lx, facts[0]), lx, facts[1..]))
  }

  /** An exact index stays exact throughout a list if and only if every fact of it is new or covers what it replaces. */
  lemma {:induction false} ThroughoutExactly(ix: Index, lx: Lexicon, facts: seq<FactRecord>)
    requires Complete(ix, lx) && Exact(ix, lx)
    ensures ExactThroughout(ix, lx, facts) <==> CoverStored(ix, lx, facts)
    ensures CoverStored(ix, lx, facts) ==> Exact(IndexAll(ix, lx, facts), lx)
    decreases |facts|
  {
    if facts != [] {
      IndexFactComplete(ix, lx, facts[0]);
      IndexFactExactly(ix, lx, facts[0]);
      var next := IndexFact(ix, lx, facts[0]);
      if Exact(next, lx) {
        ThroughoutExactly(next, lx, facts[1..]);
      } else {
        assert !ExactThroughout(next, lx, facts[1..]);
      }
    }
  }

  function Rebuild(lx: Lexicon, facts: seq<FactRecord>): Index { IndexAll(EMPTY, lx, facts) }

  /** The facts held are those listed, each under its id. */
  ghost predicate Holds(held: map<string, FactRecord>, listed: seq<FactRecord>) {
    && (forall i :: 0 <= i < |listed| ==> listed[i].id in held && held[listed[i].id] == listed[i])
    && (forall id :: id in held ==> exists i :: 0 <= i < |listed| && listed[i].id == id)
  }

  lemma RebuildHolds(lx: Lexicon, facts: seq<FactRecord>, held: map<string, FactRecord>)
    requires DistinctIds(facts) && held == IndexAll(EMPTY, lx, facts).facts
    ensures Holds(held, facts)
  {
    forall id ensures id in held <==> exists i :: 0 <= i < |facts| && facts[i].id == id {
      IndexAllHolds(EMPTY, lx, facts, id);
    }
    forall i | 0 <= i < |facts| ensures held[facts[i].id] == facts[i] {
      IndexAllHolds(EMPTY, lx, facts, facts[i].id);
    }
  }

  /** A rebuilt index holds exactly the listed facts, completely and exactly posted. */
  lemma RebuildAgrees(lx: Lexicon, facts: seq<FactRecord>)
    requires DistinctIds(facts)
    ensures Complete(Rebuild(lx, facts), lx) && Exact(Rebuild(lx, facts), lx)
    ensures Holds(Rebuild(lx, facts).facts, facts)
  {
    IndexAllAgrees(EMPTY, lx, facts);
    RebuildHolds(lx, facts, Rebuild(lx, facts).facts);
  }
}
