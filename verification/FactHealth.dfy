/** Health of the stored facts: weak confidence, missing evidence, and matrix facts that contradict one another. */
module FactHealth {
  import opened Common
  import opened FactRecords
  import opened Text
  import opened Sorting

  datatype Issue = UnknownConfidence(id: string) | LowConfidence(id: string)
                 | MissingEvidence(id: string, evidence: string) | ContraryValue(id: string)

  const OPERATIONAL_FLOOR: nat := 5000

  // ---- Grouping ----

  /** The items with the given key, in their order. */
  function Where<T, K(==)>(items: seq<T>, key: T -> Option<K>, k: K): seq<T> {
    if items == [] then [] else (if key(items[0]) == Some(k) then [items[0]] else []) + Where(items[1..], key, k)
  }

  lemma {:induction false} WhereNext<T, K>(items: seq<T>, key: T -> Option<K>, k: K, i: nat)
    requires i < |items|
    ensures Where(items[..i + 1], key, k) == Where(items[..i], key, k) + if key(items[i]) == Some(k) then [items[i]] else []
    decreases i
  {
    if i == 0 {
      assert items[..1][1..] == [];
    } else {
      assert items[..i + 1][1..] == items[1..][..i] && items[..i][1..] == items[1..][..i - 1];
      WhereNext(items[1..], key, k, i - 1);
    }
  }

  /** Grouping keeps every item of the group as often as it was listed, and no other item. */
  lemma {:induction false} WhereCounts<T, K>(items: seq<T>, key: T -> Option<K>, k: K, x: T)
    ensures multiset(Where(items, key, k))[x] == if key(x) == Some(k) then multiset(items)[x] else 0
  {
    if items != [] {
      WhereCounts(items[1..], key, k, x);
      assert items == [items[0]] + items[1..];
    }
  }

  ghost predicate Groups<T, K(!new)>(g: map<K, seq<T>>, items: seq<T>, key: T -> Option<K>) {
    forall k :: (k in g <==> Where(items, key, k) != []) && (k in g ==> g[k] == Where(items, key, k))
  }

  lemma GroupsNext<T, K(!new)>(g: map<K, seq<T>>, h: map<K, seq<T>>, items: seq<T>, key: T -> Option<K>, i: nat)
    requires i < |items| && Groups(g, items[..i], key)
    requires h == match key(items[i])
                  case None => g
                  case Some(k) => g[k := (if k in g then g[k] else []) + [items[i]]]
    ensures Groups(h, items[..i + 1], key)
  {
    forall k ensures (k in h <==> Where(items[..i + 1], key, k) != []) && (k in h ==> h[k] == Where(items[..i + 1], key, k)) {
      WhereNext(items, key, k, i);
    }
  }

  method GroupBy<T, K(==,!new)>(items: seq<T>, key: T -> Option<K>) returns (g: map<K, seq<T>>)
    ensures Groups(g, items, key)
  {
    g := map[];
    for i := 0 to |items|
      invariant Groups(g, items[..i], key)
    {
      ghost var before := g;
      match key(items[i]) {
        case None =>
        case Some(k) => g := g[k := (if k in g then g[k] else []) + [items[i]]];
      }
      GroupsNext(before, g, items, key, i);
    }
    assert items[..|items|] == items;
  }

  lemma GroupOf<T, K(!new)>(g: map<K, seq<T>>, items: seq<T>, key: T -> Option<K>, x: T)
    requires Groups(g, items, key) && x in items && key(x).Some?
    ensures key(x).value in g
  {
    WhereCounts(items, key, key(x).value, x);
  }

  // ---- Contradicting matrix facts ----

  datatype Claim = Claim(entity: string, attribute: string, value: string)

  /** The text before the first space and the text after it. */
  function SplitOnce(s: string): Option<(string, string)> {
    if s == [] then None
    else if s[0] == ' ' then Some(([], s[1..]))
    else
      match SplitOnce(s[1..])
      case None => None
      case Some((head, tail)) => Some(([s[0]] + head, tail))
  }

  function ParseClaim(statement: string): Option<Claim> {
    match SplitOnce(statement)
    case None => None
    case Some((first, others)) =>
      match SplitOnce(others)
      case None => None
      case Some((second, third)) =>
        var c := Claim(Trim(first), Trim(second), Trim(third));
        if c.entity == [] || c.attribute == [] || c.value == [] then None else Some(c)
  }

  function ClaimOf(f: FactRecord): Option<Claim> {
    if "matrix." <= f.factType then ParseClaim(f.statement) else None
  }

  /** The first space of the text at or after a place. */
  ghost predicate FirstSpace(s: string, start: int, i: int) {
    0 <= start <= i < |s| && s[i] == ' ' && forall k :: start <= k < i ==> s[k] != ' '
  }

  lemma {:induction false} SplitOnceExactly(s: string)
    ensures SplitOnce(s).Some? <==> exists i :: FirstSpace(s, 0, i)
    ensures forall i :: FirstSpace(s, 0, i) ==> SplitOnce(s) == Some((s[..i], s[i + 1..]))
  {
    if s != [] && s[0] != ' ' {
      SplitOnceExactly(s[1..]);
      forall i ensures FirstSpace(s, 0, i) <==> i > 0 && FirstSpace(s[1..], 0, i - 1) {
        NextSpace(s, i);
      }
      forall i | FirstSpace(s, 0, i) ensures SplitOnce(s) == Some((s[..i], s[i + 1..])) {
        assert SplitOnce(s[1..]) == Some((s[1..][..i - 1], s[1..][i..]));
        assert [s[0]] + s[1..][..i - 1] == s[..i] && s[1..][i..] == s[i + 1..];
      }
      if SplitOnce(s).Some? {
        var i :| FirstSpace(s[1..], 0, i);
        assert FirstSpace(s, 0, i + 1);
      }
    } else if s != [] {
      assert FirstSpace(s, 0, 0);
    }
  }

  lemma NextSpace(s: string, i: int)
    requires s != [] && s[0] != ' '
    ensures FirstSpace(s, 0, i) <==> i > 0 && FirstSpace(s[1..], 0, i - 1)
  {
    if i > 0 && FirstSpace(s[1..], 0, i - 1) {
      assert forall k :: 0 < k <= i ==> s[k] == s[1..][k - 1];
    }
    if FirstSpace(s, 0, i) {
      assert forall k :: 0 <= k < i ==> s[1..][k] == s[k + 1];
    }
  }

  /** The statement is split at its first and second space; trimmed, the three parts are entity, attribute and value,
      and none of them is empty. */
  ghost predicate Says(s: string, i: int, j: int, c: Claim) {
    && FirstSpace(s, 0, i) && FirstSpace(s, i + 1, j)
    && c.entity == Trim(s[..i]) && c.attribute == Trim(s[i + 1..j]) && c.value == Trim(s[j + 1..])
    && c.entity != [] && c.attribute != [] && c.value != []
  }

  lemma SecondSpace(s: string, i: int, j: int)
    requires FirstSpace(s, 0, i)
    ensures FirstSpace(s, i + 1, j) <==> FirstSpace(s[i + 1..], 0, j - i - 1)
    ensures FirstSpace(s, i + 1, j) ==> s[i + 1..][..j - i - 1] == s[i + 1..j] && s[i + 1..][j - i..] == s[j + 1..]
  {
    var t := s[i + 1..];
    assert forall k :: 0 <= k < |t| ==> t[k] == s[i + 1 + k];
    if FirstSpace(t, 0, j - i - 1) {
      forall k | i + 1 <= k < j ensures s[k] != ' ' {
        assert t[k - i - 1] == s[k];
      }
    }
  }

  /** A fact makes a claim exactly when it is a matrix fact whose statement says so. */
  ghost predicate Asserts(f: FactRecord, c: Claim) {
    "matrix." <= f.factType && exists i, j :: Says(f.statement, i, j, c)
  }

  lemma SaidIsParsed(s: string, i: int, j: int, c: Claim)
    requires Says(s, i, j, c)
    ensures ParseClaim(s) == Some(c)
  {
    SplitOnceExactly(s);
    assert SplitOnce(s) == Some((s[..i], s[i + 1..]));
    SecondSpace(s, i, j);
    SplitOnceExactly(s[i + 1..]);
    assert SplitOnce(s[i + 1..]) == Some((s[i + 1..j], s[j + 1..]));
  }

  lemma ParsedIsSaid(s: string, c: Claim) returns (i: int, j: int)
    requires ParseClaim(s) == Some(c)
    ensures Says(s, i, j, c)
  {
    SplitOnceExactly(s);
    i :| FirstSpace(s, 0, i);
    var others := s[i + 1..];
    assert SplitOnce(s) == Some((s[..i], others));
    SplitOnceExactly(others);
    var k :| FirstSpace(others, 0, k);
    j := k + i + 1;
    SecondSpace(s, i, j);
    assert SplitOnce(others) == Some((s[i + 1..j], s[j + 1..]));
  }

  lemma ClaimExactly(f: FactRecord, c: Claim)
    ensures ClaimOf(f) == Some(c) <==> Asserts(f, c)
  {
    if Asserts(f, c) {
      var i, j :| Says(f.statement, i, j, c);
      SaidIsParsed(f.statement, i, j, c);
    }
    if ClaimOf(f) == Some(c) {
      var i, j := ParsedIsSaid(f.statement, c);
    }
  }

  function Subject(claim: FactRecord -> Option<Claim>): FactRecord -> Option<(string, string)> {
    f => match claim(f) case None => None case Some(c) => Some((c.entity, c.attribute))
  }

  function Value(claim: FactRecord -> Option<Claim>): FactRecord -> Option<string> {
    f => match claim(f) case None => None case Some(c) => Some(c.value)
  }

  /** Another listed fact claims another value for the same entity and attribute. */
  ghost predicate Contradicted(facts: seq<FactRecord>, claim: FactRecord -> Option<Claim>, f: FactRecord) {
    && claim(f).Some?
    && (exists g :: g in facts && Subject(claim)(g) == Subject(claim)(f) && Value(claim)(g) != Value(claim)(f))
  }

  lemma FewValues(values: map<string, seq<FactRecord>>, group: seq<FactRecord>, value: FactRecord -> Option<string>)
    requires Groups(values, group, value) && forall f :: f in group ==> value(f).Some?
    ensures |values| <= 1 <==> Agree(group, value)
  {
    forall f | f in group ensures value(f).value in values {
      GroupOf(values, group, value, f);
    }
    if |values| <= 1 {
      forall f, g | f in group && g in group ensures value(f) == value(g) {
        AtMostOne(values.Keys, value(f).value, value(g).value);
      }
    } else {
      TwoKeys(values.Keys);
      var a, b :| a in values && b in values && a != b;
      WhereHolds(group, value, a);
      WhereHolds(group, value, b);
      assert values[a][0] in group && values[b][0] in group;
    }
  }

  lemma AtMostOne(s: set<string>, a: string, b: string)
    requires |s| <= 1 && a in s && b in s
    ensures a == b
  {
    assert |s - {a}| == |s| - 1;
    assert s - {a} == {};
  }

  lemma TwoKeys(s: set<string>)
    requires |s| > 1
    ensures exists a, b :: a in s && b in s && a != b
  {
    var a :| a in s;
    assert |s - {a}| > 0;
    var b :| b in s - {a};
  }

  lemma {:induction false} WhereHolds<T, K>(items: seq<T>, key: T -> Option<K>, k: K)
    ensures forall x :: x in Where(items, key, k) <==> x in items && key(x) == Some(k)
  {
    if items != [] {
      WhereHolds(items[1..], key, k);
      assert forall x :: x in items <==> x == items[0] || x in items[1..];
    }
  }

  /** All groups, one after another: every keyed item, as often as it was listed. */
  method Flatten(g: map<string, seq<FactRecord>>, ghost items: seq<FactRecord>, ghost key: FactRecord -> Option<string>)
    returns (r: seq<FactRecord>)
    requires Groups(g, items, key)
    ensures forall x :: multiset(r)[x] == if key(x).Some? then multiset(items)[x] else 0
  {
    r := [];
    var todo := g.Keys;
    forall x | x in items && key(x).Some? ensures key(x).value in todo {
      GroupOf(g, items, key, x);
    }
    while todo != {}
      invariant todo <= g.Keys
      invariant forall x :: multiset(r)[x] == if key(x).Some? && key(x).value !in todo then multiset(items)[x] else 0
      decreases |todo|
    {
      var k :| k in todo;
      forall x ensures multiset(g[k])[x] == if key(x) == Some(k) then multiset(items)[x] else 0 {
        WhereCounts(items, key, k, x);
      }
      todo := todo - {k};
      r := r + g[k];
    }
  }

  ghost predicate Agree(group: seq<FactRecord>, value: FactRecord -> Option<string>) {
    forall f, g :: f in group && g in group ==> value(f) == value(g)
  }

  lemma AgreedUncontradicted(subject: (string, string), group: seq<FactRecord>, claim: FactRecord -> Option<Claim>, facts: seq<FactRecord>)
    requires forall x :: x in group <==> x in facts && Subject(claim)(x) == Some(subject)
    requires Agree(group, Value(claim))
    ensures forall f :: f in facts && Subject(claim)(f) == Some(subject) ==> !Contradicted(facts, claim, f)
  {
  }

  lemma DisagreedContradicted(subject: (string, string), group: seq<FactRecord>, claim: FactRecord -> Option<Claim>, facts: seq<FactRecord>, f: FactRecord)
    requires group == Where(facts, Subject(claim), subject) && !Agree(group, Value(claim))
    requires Subject(claim)(f) == Some(subject)
    ensures Contradicted(facts, claim, f)
  {
    var a, b :| a in group && b in group && Value(claim)(a) != Value(claim)(b);
    WhereHolds(facts, Subject(claim), subject);
    var g := if Value(claim)(a) != Value(claim)(f) then a else b;
    assert g in facts && Subject(claim)(g) == Subject(claim)(f) && Value(claim)(g) != Value(claim)(f);
  }

  /** The contradicted facts about the given subjects, each as often as it is listed. */
  ghost predicate Flagged(r: seq<FactRecord>, facts: seq<FactRecord>, claim: FactRecord -> Option<Claim>, subjects: set<(string, string)>) {
    forall f :: multiset(r)[f] ==
      if Contradicted(facts, claim, f) && Subject(claim)(f).value in subjects then multiset(facts)[f] else 0
  }

  lemma FlagAll(r: seq<FactRecord>, subject: (string, string), group: seq<FactRecord>, claim: FactRecord -> Option<Claim>, facts: seq<FactRecord>)
    requires group == Where(facts, Subject(claim), subject) && !Agree(group, Value(claim))
    requires forall x :: multiset(r)[x] == if Value(claim)(x).Some? then multiset(group)[x] else 0
    ensures Flagged(r, facts, claim, {subject})
  {
    forall f ensures multiset(r)[f] ==
        if Contradicted(facts, claim, f) && Subject(claim)(f).value in {subject} then multiset(facts)[f] else 0 {
      WhereCounts(facts, Subject(claim), subject, f);
      if Subject(claim)(f) == Some(subject) {
        DisagreedContradicted(subject, group, claim, facts, f);
      }
    }
  }

  lemma FlagNone(subject: (string, string), group: seq<FactRecord>, claim: FactRecord -> Option<Claim>, facts: seq<FactRecord>)
    requires group == Where(facts, Subject(claim), subject) && Agree(group, Value(claim))
    ensures Flagged([], facts, claim, {subject})
  {
    WhereHolds(facts, Subject(claim), subject);
    AgreedUncontradicted(subject, group, claim, facts);
    forall f ensures multiset([])[f] ==
        if Contradicted(facts, claim, f) && Subject(claim)(f).value in {subject} then multiset(facts)[f] else 0 {
      assert f in facts || multiset(facts)[f] == 0;
    }
  }

  lemma GroupClaims(subject: (string, string), group: seq<FactRecord>, claim: FactRecord -> Option<Claim>, facts: seq<FactRecord>)
    requires group == Where(facts, Subject(claim), subject)
    ensures forall f :: f in group ==> Value(claim)(f).Some?
  {
    WhereHolds(facts, Subject(claim), subject);
  }

  /** The facts of one subject, unless they all claim one value. */
  method ContrariesAbout(subject: (string, string), group: seq<FactRecord>, claim: FactRecord -> Option<Claim>,
                         ghost facts: seq<FactRecord>)
    returns (r: seq<FactRecord>)
    requires group == Where(facts, Subject(claim), subject)
    ensures Flagged(r, facts, claim, {subject})
  {
    var values := GroupBy(group, Value(claim));
    GroupClaims(subject, group, claim, facts);
    FewValues(values, group, Value(claim));
    if |values| <= 1 {
      r := [];
      FlagNone(subject, group, claim, facts);
    } else {
      r := Flatten(values, group, Value(claim));
      FlagAll(r, subject, group, claim, facts);
    }
  }

  lemma FlaggedMore(r: seq<FactRecord>, more: seq<FactRecord>, facts: seq<FactRecord>, claim: FactRecord -> Option<Claim>,
                    done: set<(string, string)>, k: (string, string))
    requires Flagged(r, facts, claim, done) && Flagged(more, facts, claim, {k}) && k !in done
    ensures Flagged(r + more, facts, claim, done + {k})
  {
  }

  lemma FlaggedEverywhere(r: seq<FactRecord>, facts: seq<FactRecord>, claim: FactRecord -> Option<Claim>,
                          grouped: map<(string, string), seq<FactRecord>>)
    requires Groups(grouped, facts, Subject(claim)) && Flagged(r, facts, claim, grouped.Keys)
    ensures forall f :: multiset(r)[f] == if Contradicted(facts, claim, f) then multiset(facts)[f] else 0
  {
    forall f ensures multiset(r)[f] == if Contradicted(facts, claim, f) then multiset(facts)[f] else 0 {
      if f in facts && Subject(claim)(f).Some? {
        GroupOf(grouped, facts, Subject(claim), f);
      }
    }
  }

  /** A matrix fact is flagged exactly as often as it is listed if it is contradicted, and otherwise never. */
  method DetectContraries(facts: seq<FactRecord>, claim: FactRecord -> Option<Claim>) returns (flagged: seq<FactRecord>)
    ensures forall f :: multiset(flagged)[f] == if Contradicted(facts, claim, f) then multiset(facts)[f] else 0
  {
    var grouped := GroupBy(facts, Subject(claim));
    flagged := [];
    var todo := grouped.Keys;
    ghost var done := {};
    while todo != {}
      invariant done !! todo && done + todo == grouped.Keys
      invariant Flagged(flagged, facts, claim, done)
      decreases |todo|
    {
      var k :| k in todo;
      var more := ContrariesAbout(k, grouped[k], claim, facts);
      FlaggedMore(flagged, more, facts, claim, done, k);
      todo, done := todo - {k}, done + {k};
      flagged := flagged + more;
    }
    assert done == grouped.Keys;
    FlaggedEverywhere(flagged, facts, claim, grouped);
  }

  // ---- The whole report ----

  function EvidenceIssues(id: string, wanted: seq<string>, evidence: set<string>): seq<Issue> {
    if wanted == [] then []
    else (if wanted[0] in evidence then [] else [MissingEvidence(id, wanted[0])]) + EvidenceIssues(id, wanted[1..], evidence)
  }

  function ConfidenceIssues(f: FactRecord): seq<Issue> {
    if f.confidence.None? then [UnknownConfidence(f.id)]
    else if f.confidence.value < OPERATIONAL_FLOOR then [LowConfidence(f.id)] else []
  }

  function IssuesOf(facts: seq<FactRecord>, evidence: set<string>): seq<Issue> {
    if facts == [] then []
    else ConfidenceIssues(facts[0]) + EvidenceIssues(facts[0].id, facts[0].evidence, evidence) + IssuesOf(facts[1..], evidence)
  }

  /** What an issue other than a contradiction says of a fact. */
  ghost predicate Applies(issue: Issue, f: FactRecord, evidence: set<string>) {
    && issue.id == f.id
    && match issue
       case UnknownConfidence(_) => f.confidence.None?
       case LowConfidence(_) => f.confidence.Some? && f.confidence.value < 5000
       case MissingEvidence(_, e) => e in f.evidence && e !in evidence
       case ContraryValue(_) => false
  }

  lemma {:induction false} EvidenceIssuesExactly(id: string, wanted: seq<string>, evidence: set<string>, issue: Issue)
    ensures issue in EvidenceIssues(id, wanted, evidence)
            <==> issue.MissingEvidence? && issue.id == id && issue.evidence in wanted && issue.evidence !in evidence
  {
    if wanted != [] {
      EvidenceIssuesExactly(id, wanted[1..], evidence, issue);
      assert wanted == [wanted[0]] + wanted[1..];
    }
  }

  /** The report lists an issue exactly when it applies to some fact. */
  lemma {:induction false} IssuesExactly(facts: seq<FactRecord>, evidence: set<string>, issue: Issue)
    ensures issue in IssuesOf(facts, evidence) <==> exists f :: f in facts && Applies(issue, f, evidence)
  {
    if facts != [] {
      IssuesExactly(facts[1..], evidence, issue);
      EvidenceIssuesExactly(facts[0].id, facts[0].evidence, evidence, issue);
      assert issue in ConfidenceIssues(facts[0]) + EvidenceIssues(facts[0].id, facts[0].evidence, evidence)
             <==> Applies(issue, facts[0], evidence);
      assert facts == [facts[0]] + facts[1..];
    }
  }

  lemma {:induction false} IssuesNext(facts: seq<FactRecord>, evidence: set<string>, i: nat)
    requires i < |facts|
    ensures IssuesOf(facts[..i + 1], evidence)
            == IssuesOf(facts[..i], evidence) + (ConfidenceIssues(facts[i]) + EvidenceIssues(facts[i].id, facts[i].evidence, evidence))
    decreases i
  {
    if i == 0 {
      assert facts[..1][1..] == [];
    } else {
      assert facts[..i + 1][1..] == facts[1..][..i] && facts[..i][1..] == facts[1..][..i - 1];
      IssuesNext(facts[1..], evidence, i - 1);
    }
  }

  method CheckEvidence(id: string, wanted: seq<string>, evidence: set<string>) returns (issues: seq<Issue>)
    ensures issues == EvidenceIssues(id, wanted, evidence)
  {
    issues := [];
    for i := 0 to |wanted|
      invariant issues + EvidenceIssues(id, wanted[i..], evidence) == EvidenceIssues(id, wanted, evidence)
    {
      assert wanted[i..][1..] == wanted[i + 1..];
      if wanted[i] !in evidence {
        issues := issues + [MissingEvidence(id, wanted[i])];
      }
    }
  }

  /** The contradicted facts among those given, in their order. */
  ghost function ContradictedOf(some: seq<FactRecord>, facts: seq<FactRecord>, claim: FactRecord -> Option<Claim>): seq<FactRecord> {
    if some == [] then []
    else (if Contradicted(facts, claim, some[0]) then [some[0]] else []) + ContradictedOf(some[1..], facts, claim)
  }

  lemma {:induction false} ContradictedCounts(some: seq<FactRecord>, facts: seq<FactRecord>, claim: FactRecord -> Option<Claim>, f: FactRecord)
    ensures multiset(ContradictedOf(some, facts, claim))[f] == if Contradicted(facts, claim, f) then multiset(some)[f] else 0
  {
    if some != [] {
      ContradictedCounts(some[1..], facts, claim, f);
      assert some == [some[0]] + some[1..];
    }
  }

  function Flag(f: FactRecord): seq<Issue> { [ContraryValue(f.id)] }

  lemma FlaggedReorders(flagged: seq<FactRecord>, facts: seq<FactRecord>, claim: FactRecord -> Option<Claim>)
    requires forall f :: multiset(flagged)[f] == if Contradicted(facts, claim, f) then multiset(facts)[f] else 0
    ensures multiset(FlatMap(flagged, Flag)) == multiset(FlatMap(ContradictedOf(facts, facts, claim), Flag))
  {
    forall f ensures multiset(flagged)[f] == multiset(ContradictedOf(facts, facts, claim))[f] {
      ContradictedCounts(facts, facts, claim, f);
    }
    FlatMapForgetsOrder(flagged, ContradictedOf(facts, facts, claim), Flag);
  }

  /** What each fact lacks, in listing order, and then one entry for every contradicted matrix fact. */
  ghost predicate IsReport(issues: seq<Issue>, facts: seq<FactRecord>, evidence: set<string>) {
    var own := IssuesOf(facts, evidence);
    own <= issues && multiset(issues[|own|..]) == multiset(FlatMap(ContradictedOf(facts, facts, ClaimOf), Flag))
  }

  lemma ReportOf(facts: seq<FactRecord>, evidence: set<string>, flags: seq<Issue>)
    requires multiset(flags) == multiset(FlatMap(ContradictedOf(facts, facts, ClaimOf), Flag))
    ensures IsReport(IssuesOf(facts, evidence) + flags, facts, evidence)
  {
    var own := IssuesOf(facts, evidence);
    assert (own + flags)[|own|..] == flags;
  }

  /** Some other fact of the list claims another value for an entity and attribute that the fact makes a claim about. */
  ghost predicate Disputed(facts: seq<FactRecord>, f: FactRecord) {
    exists g, c, d :: g in facts && Asserts(f, c) && Asserts(g, d)
                      && c.entity == d.entity && c.attribute == d.attribute && c.value != d.value
  }

  lemma ContradictedOver(facts: seq<FactRecord>, f: FactRecord, g: FactRecord, c: Claim, d: Claim)
    requires g in facts && ClaimOf(f) == Some(c) && ClaimOf(g) == Some(d)
    requires c.entity == d.entity && c.attribute == d.attribute && c.value != d.value
    ensures Contradicted(facts, ClaimOf, f)
  {
    assert Subject(ClaimOf)(g) == Subject(ClaimOf)(f) && Value(ClaimOf)(g) != Value(ClaimOf)(f);
  }

  lemma ContradictedBy(facts: seq<FactRecord>, f: FactRecord) returns (g: FactRecord, c: Claim, d: Claim)
    requires Contradicted(facts, ClaimOf, f)
    ensures g in facts && ClaimOf(f) == Some(c) && ClaimOf(g) == Some(d)
    ensures c.entity == d.entity && c.attribute == d.attribute && c.value != d.value
  {
    g :| g in facts && Subject(ClaimOf)(g) == Subject(ClaimOf)(f) && Value(ClaimOf)(g) != Value(ClaimOf)(f);
    c, d := ClaimOf(f).value, ClaimOf(g).value;
  }

  lemma DisputedExactly(facts: seq<FactRecord>, f: FactRecord)
    ensures Contradicted(facts, ClaimOf, f) <==> Disputed(facts, f)
  {
    if Contradicted(facts, ClaimOf, f) {
      var g, c, d := ContradictedBy(facts, f);
      ClaimExactly(f, c);
      ClaimExactly(g, d);
    }
    if Disputed(facts, f) {
      var g, c, d :| g in facts && Asserts(f, c) && Asserts(g, d) && c.entity == d.entity && c.attribute == d.attribute && c.value != d.value;
      ClaimExactly(f, c);
      ClaimExactly(g, d);
      ContradictedOver(facts, f, g, c, d);
    }
  }

  lemma {:induction false} FlagsExactly(facts: seq<FactRecord>, issue: Issue)
    ensures issue in FlatMap(facts, Flag) <==> issue.ContraryValue? && exists f :: f in facts && f.id == issue.id
  {
    if facts != [] {
      FlagsExactly(facts[1..], issue);
      assert facts == [facts[0]] + facts[1..];
    }
  }

  lemma ReportFlags(issues: seq<Issue>, facts: seq<FactRecord>, evidence: set<string>, issue: Issue)
    requires IsReport(issues, facts, evidence)
    ensures issue in issues <==> issue in IssuesOf(facts, evidence) || issue in FlatMap(ContradictedOf(facts, facts, ClaimOf), Flag)
  {
    var own := IssuesOf(facts, evidence);
    assert issues == own + issues[|own|..];
    MembersSame(issues[|own|..], FlatMap(ContradictedOf(facts, facts, ClaimOf), Flag));
  }

  /** A report says of an id that its confidence is unknown, that it is below 5000, that a piece of its evidence is
      missing, or that it is disputed, exactly when a listed fact with that id is so. */
  lemma ReportExactly(issues: seq<Issue>, facts: seq<FactRecord>, evidence: set<string>, issue: Issue)
    requires IsReport(issues, facts, evidence)
    ensures issue in issues
            <==> exists f :: f in facts && f.id == issue.id
                   && match issue
                      case UnknownConfidence(_) => f.confidence.None?
                      case LowConfidence(_) => f.confidence.Some? && f.confidence.value < 5000
                      case MissingEvidence(_, e) => e in f.evidence && e !in evidence
                      case ContraryValue(_) => Disputed(facts, f)
  {
    ReportFlags(issues, facts, evidence, issue);
    IssuesExactly(facts, evidence, issue);
    var flagged := ContradictedOf(facts, facts, ClaimOf);
    FlagsExactly(flagged, issue);
    forall f ensures f in flagged <==> f in facts && Disputed(facts, f) {
      ContradictedCounts(facts, facts, ClaimOf, f);
      DisputedExactly(facts, f);
      assert f in flagged <==> multiset(flagged)[f] > 0;
      assert f in facts <==> multiset(facts)[f] > 0;
    }
  }

  method Evaluate(facts: seq<FactRecord>, evidence: set<string>) returns (issues: seq<Issue>)
    ensures IsReport(issues, facts, evidence)
  {
    issues := [];
    for i := 0 to |facts|
      invariant issues == IssuesOf(facts[..i], evidence)
    {
      IssuesNext(facts, evidence, i);
      var missing := CheckEvidence(facts[i].id, facts[i].evidence, evidence);
      issues := issues + (ConfidenceIssues(facts[i]) + missing);
    }
    assert facts[..|facts|] == facts;
    var contraries := DetectContraries(facts, ClaimOf);
    FlaggedReorders(contraries, facts, ClaimOf);
    ReportOf(facts, evidence, FlatMap(contraries, Flag));
    issues := issues + FlatMap(contraries, Flag);
  }
}
