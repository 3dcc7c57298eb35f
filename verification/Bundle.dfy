/** The evidence part of an assembled bundle: sources, and the source ids of statements. */
module Bundle {
  import opened Utf8
  import opened Wrappers
  import opened Corroboration
  import opened Store
  import opened World
  import opened Order

  datatype BundleStatement = BundleStatement(id: Id, sourceIds: seq<Id>)

  /** `excerpt` is what the bundle calls raw text. */
  datatype BundleSource = BundleSource(id: Id, url: string, status: Status, excerpt: Bytes, start: int, end: int)

  // ------------------------------------------------------------------
  // The query
  // ------------------------------------------------------------------

  /** An evidence row joined with its source. */
  datatype Row = Row(statement: Id, source: BundleSource)

  function JoinRow(t: Tables, e: Evidence): Row
    requires e.source in t.sources
  {
    Row(e.statement, BundleSource(e.source, t.sources[e.source].url, t.sources[e.source].status, e.excerpt, e.start, e.end))
  }

  /** The rows of the given statements; the query returns them in some order. */
  function Select(t: Tables, evidence: seq<Evidence>, ids: set<Id>): seq<Row> {
    if evidence == [] then []
    else
      var e := evidence[|evidence| - 1];
      Select(t, evidence[..|evidence| - 1], ids) +
        if e.statement in ids && e.source in t.sources then [JoinRow(t, e)] else []
  }

  ghost predicate Answers(t: Tables, ids: set<Id>, rows: seq<Row>) {
    multiset(rows) == multiset(Select(t, t.evidence, ids))
  }

  // ------------------------------------------------------------------
  // The row loop
  // ------------------------------------------------------------------

  function SourceIds(sources: seq<BundleSource>): set<Id> {
    set s | s in sources :: s.id
  }

  /** The first row of each source. */
  function FirstSources(rows: seq<Row>): seq<BundleSource> {
    if rows == [] then []
    else
      var before := FirstSources(rows[..|rows| - 1]);
      var s := rows[|rows| - 1].source;
      if s.id in SourceIds(before) then before else before + [s]
  }

  /** Source ids of one statement, in row order. */
  function SourceIdsOf(rows: seq<Row>, statement: Id): seq<Id> {
    if rows == [] then []
    else
      var r := rows[|rows| - 1];
      SourceIdsOf(rows[..|rows| - 1], statement) + if r.statement == statement then [r.source.id] else []
  }

  ghost predicate Lists(rows: seq<Row>, byStatement: map<Id, seq<Id>>) {
    forall id :: (if id in byStatement then byStatement[id] else []) == SourceIdsOf(rows, id)
  }

  lemma ListsStep(rows: seq<Row>, byStatement: map<Id, seq<Id>>, r: Row)
    requires Lists(rows, byStatement)
    ensures Lists(rows + [r], byStatement[r.statement := (if r.statement in byStatement then byStatement[r.statement] else []) + [r.source.id]])
  {
    assert (rows + [r])[..|rows|] == rows;
  }

  method LoadBundleSources(rows: seq<Row>) returns (sources: seq<BundleSource>, byStatement: map<Id, seq<Id>>)
    ensures sources == FirstSources(rows)
    ensures Lists(rows, byStatement)
  {
    sources, byStatement := [], map[];
    var seen: set<Id> := {};
    for i := 0 to |rows|
      invariant sources == FirstSources(rows[..i]) && seen == SourceIds(sources)
      invariant Lists(rows[..i], byStatement)
    {
      assert rows[..i + 1][..i] == rows[..i];
      var r := rows[i];
      ListsStep(rows[..i], byStatement, r);
      assert rows[..i + 1] == rows[..i] + [r];
      byStatement := byStatement[r.statement := (if r.statement in byStatement then byStatement[r.statement] else []) + [r.source.id]];
      if r.source.id !in seen {
        seen := seen + {r.source.id};
        sources := sources + [r.source];
      }
    }
    assert rows[..|rows|] == rows;
  }

  function Attached(ids: seq<Id>, rows: seq<Row>): (statements: seq<BundleStatement>)
    ensures |statements| == |ids| && forall i | 0 <= i < |ids| :: statements[i].id == ids[i]
  {
    if ids == [] then []
    else
      var id := ids[|ids| - 1];
      Attached(ids[..|ids| - 1], rows) + [BundleStatement(id, SourceIdsOf(rows, id))]
  }

  lemma {:induction false} AttachedIds(ids: seq<Id>, rows: seq<Row>, i: nat)
    requires i < |ids|
    ensures Attached(ids, rows)[i] == BundleStatement(ids[i], SourceIdsOf(rows, ids[i]))
  {
    if i < |ids| - 1 {
      AttachedIds(ids[..|ids| - 1], rows, i);
    }
  }

  /** Sources, and the statements with their source ids. */
  method AssembleEvidence(ids: seq<Id>, rows: seq<Row>) returns (statements: seq<BundleStatement>, sources: seq<BundleSource>)
    ensures sources == FirstSources(rows) && statements == Attached(ids, rows)
  {
    var byStatement;
    sources, byStatement := LoadBundleSources(rows);
    statements := [];
    for i := 0 to |ids|
      invariant statements == Attached(ids[..i], rows)
    {
      assert ids[..i + 1][..i] == ids[..i];
      var id := ids[i];
      statements := statements + [BundleStatement(id, if id in byStatement then byStatement[id] else [])];
    }
    assert ids[..|ids|] == ids;
  }

  // ------------------------------------------------------------------
  // Closure
  // ------------------------------------------------------------------

  lemma {:induction false} FirstSourcesAll(rows: seq<Row>)
    ensures forall i, j | 0 <= i < j < |FirstSources(rows)| :: FirstSources(rows)[i].id != FirstSources(rows)[j].id
    ensures forall s | s in FirstSources(rows) :: exists r | r in rows :: r.source == s
    ensures forall r | r in rows :: r.source.id in SourceIds(FirstSources(rows))
  {
    if rows != [] {
      var n := |rows| - 1;
      FirstSourcesAll(rows[..n]);
      var before := FirstSources(rows[..n]);
      assert rows == rows[..n] + [rows[n]];
      forall i | 0 <= i < |before| ensures before[i].id in SourceIds(before) {
        assert before[i] in before;
      }
      forall s | s in before ensures exists r | r in rows :: r.source == s {
        var r :| r in rows[..n] && r.source == s;
        assert r in rows;
      }
      assert SourceIds(before + [rows[n].source]) == SourceIds(before) + {rows[n].source.id};
    }
  }

  lemma {:induction false} InSourceIdsOf(rows: seq<Row>, statement: Id, id: Id)
    ensures id in SourceIdsOf(rows, statement) <==> exists r | r in rows :: r.statement == statement && r.source.id == id
  {
    if rows != [] {
      var n := |rows| - 1;
      InSourceIdsOf(rows[..n], statement, id);
      assert rows == rows[..n] + [rows[n]];
      if r :| r in rows && r.statement == statement && r.source.id == id {
        assert r in rows[..n] || r == rows[n];
      }
    }
  }

  /** References and sources match both ways: a source id of a statement names exactly one
      source of the bundle, and every source is named by a statement with a row. */
  lemma ReferencesClosed(rows: seq<Row>, statement: Id, id: Id)
    ensures id in SourceIdsOf(rows, statement) ==> exists s | s in FirstSources(rows) :: s.id == id
    ensures forall s, s' | s in FirstSources(rows) && s' in FirstSources(rows) && s.id == s'.id :: s == s'
    ensures id in SourceIds(FirstSources(rows)) ==> exists r | r in rows :: id in SourceIdsOf(rows, r.statement)
  {
    FirstSourcesAll(rows);
    InSourceIdsOf(rows, statement, id);
    if s :| s in FirstSources(rows) && s.id == id {
      var r :| r in rows && r.source == s;
      InSourceIdsOf(rows, r.statement, id);
    }
  }

  // ------------------------------------------------------------------
  // Bundles of reachable states
  // ------------------------------------------------------------------

  lemma {:induction false} Selected(t: Tables, evidence: seq<Evidence>, ids: set<Id>)
    ensures forall r :: r in Select(t, evidence, ids) <==>
              exists e | e in evidence :: e.statement in ids && e.source in t.sources && r == JoinRow(t, e)
  {
    if evidence != [] {
      var n := |evidence| - 1;
      Selected(t, evidence[..n], ids);
      assert evidence == evidence[..n] + [evidence[n]];
      forall r ensures r in Select(t, evidence, ids) <==>
                  exists e | e in evidence :: e.statement in ids && e.source in t.sources && r == JoinRow(t, e)
      {
        if e :| e in evidence && e.statement in ids && e.source in t.sources && r == JoinRow(t, e) {
          assert e in evidence[..n] || e == evidence[n];
        }
      }
    }
  }

  ghost predicate OneRowPerStatement(rows: seq<Row>) {
    forall i, j | 0 <= i < j < |rows| :: rows[i].statement != rows[j].statement
  }

  lemma {:induction false} SelectOnce(t: Tables, evidence: seq<Evidence>, ids: set<Id>)
    requires forall i, j | 0 <= i < j < |evidence| :: evidence[i].statement != evidence[j].statement
    ensures OneRowPerStatement(Select(t, evidence, ids))
  {
    if evidence != [] {
      var n := |evidence| - 1;
      SelectOnce(t, evidence[..n], ids);
      Selected(t, evidence[..n], ids);
      var before := Select(t, evidence[..n], ids);
      forall i | 0 <= i < |before| ensures before[i].statement != evidence[n].statement {
        assert before[i] in before;
        var e :| e in evidence[..n] && e.source in t.sources && before[i] == JoinRow(t, e);
        var j :| 0 <= j < n && evidence[j] == e;
      }
    }
  }

  lemma PermutedOnce(a: seq<Row>, b: seq<Row>)
    requires multiset(a) == multiset(b) && OneRowPerStatement(a)
    ensures OneRowPerStatement(b)
    ensures forall r :: r in a <==> r in b
  {
    SameMembers(a, b);
    forall i, j | 0 <= i < j < |b| ensures b[i].statement != b[j].statement {
      OnceInList(a, b[i]);
      if b[i] == b[j] { CountedTwice(b, i, j); }
      assert b[i] in a && b[j] in a;
      var x :| 0 <= x < |a| && a[x] == b[i];
      var y :| 0 <= y < |a| && a[y] == b[j];
    }
  }

  lemma {:induction false} OneSourceId(rows: seq<Row>, r: Row)
    requires OneRowPerStatement(rows) && r in rows
    ensures SourceIdsOf(rows, r.statement) == [r.source.id]
  {
    var n := |rows| - 1;
    if rows[n] == r {
      NoSourceId(rows[..n], r.statement);
    } else {
      assert rows == rows[..n] + [rows[n]];
      OneSourceId(rows[..n], r);
      var i :| 0 <= i < n && rows[i] == r;
      assert rows[i].statement != rows[n].statement;
    }
  }

  lemma {:induction false} NoSourceId(rows: seq<Row>, statement: Id)
    requires forall i | 0 <= i < |rows| :: rows[i].statement != statement
    ensures SourceIdsOf(rows, statement) == []
  {
    if rows != [] {
      NoSourceId(rows[..|rows| - 1], statement);
    }
  }

  /** The source says what the bundle's excerpt says, at the bundle's offsets. */
  ghost predicate Quotes(t: Tables, s: BundleSource) {
    && s.id in t.sources && t.sources[s.id].rawText.Some?
    && var text := Decode(t.sources[s.id].rawText.value);
       0 <= s.start < s.end <= |text| && Encode(text[s.start..s.end]) == s.excerpt
  }

  /** In every reachable state a bundle quotes its sources exactly, whatever order the rows
      come in. */
  lemma BundleQuotes(env: Env, names: Names, globalProperties: map<string, Id>, steps: seq<Step>, ids: set<Id>, rows: seq<Row>, s: BundleSource)
    requires Answers(Run(env, names, Initial(globalProperties), steps).db, ids, rows) && s in FirstSources(rows)
    ensures Quotes(Run(env, names, Initial(globalProperties), steps).db, s)
  {
    var t := Run(env, names, Initial(globalProperties), steps).db;
    var i := QuotedRow(t, ids, rows, s);
    EvidenceInvariant(env, names, globalProperties, steps, i);
  }

  /** A source of a bundle shows the URL and the present status of its source row, and the
      excerpt and offsets of an evidence row of the statements. */
  lemma BundleShows(t: Tables, ids: set<Id>, rows: seq<Row>, s: BundleSource) returns (e: Evidence)
    requires Answers(t, ids, rows) && s in FirstSources(rows)
    ensures e in t.evidence && e.statement in ids && e.source == s.id && s.id in t.sources
    ensures s.url == t.sources[s.id].url && s.status == t.sources[s.id].status
    ensures s.excerpt == e.excerpt && s.start == e.start && s.end == e.end
  {
    FirstSourcesAll(rows);
    var r :| r in rows && r.source == s;
    AnswerRows(t, ids, rows);
    e :| Chosen(t, ids, e) && r == JoinRow(t, e);
  }

  lemma QuotedRow(t: Tables, ids: set<Id>, rows: seq<Row>, s: BundleSource) returns (i: nat)
    requires Answers(t, ids, rows) && s in FirstSources(rows)
    ensures i < |t.evidence| && s.id == t.evidence[i].source && s.excerpt == t.evidence[i].excerpt
    ensures s.start == t.evidence[i].start && s.end == t.evidence[i].end
  {
    FirstSourcesAll(rows);
    var r :| r in rows && r.source == s;
    assert r in multiset(rows) && r in multiset(Select(t, t.evidence, ids));
    Selected(t, t.evidence, ids);
    assert r in Select(t, t.evidence, ids);
    var e :| e in t.evidence && e.source in t.sources && r == JoinRow(t, e);
    var joined := JoinRow(t, e);
    assert s == joined.source;
    var j :| 0 <= j < |t.evidence| && t.evidence[j] == e;
    i := j;
  }

  /** In every reachable state every statement of a bundle has exactly one source id, so a
      brief over it reports no evidence gap. */
  lemma BundleHasNoGaps(env: Env, names: Names, globalProperties: map<string, Id>, steps: seq<Step>, ids: set<Id>, rows: seq<Row>, k: StatementKey)
    requires var t := Run(env, names, Initial(globalProperties), steps).db;
             Answers(t, ids, rows) && k in t.statements && t.statements[k].id in ids
    ensures var t := Run(env, names, Initial(globalProperties), steps).db;
            |SourceIdsOf(rows, t.statements[k].id)| == 1
  {
    var t := Run(env, names, Initial(globalProperties), steps).db;
    InitialGood(env, globalProperties);
    RunKeeps(env, names, Initial(globalProperties), steps);
    OneRowEach(t.statements, t.evidence, t.nextId, k);
    var i :| 0 <= i < |t.evidence| && t.evidence[i].statement == t.statements[k].id;
    assert Backed(t, t.evidence[i]);
    RowOfStatement(t, ids, rows, i);
  }

  lemma RowOfStatement(t: Tables, ids: set<Id>, rows: seq<Row>, i: nat)
    requires forall a, b | 0 <= a < b < |t.evidence| :: t.evidence[a].statement != t.evidence[b].statement
    requires i < |t.evidence| && t.evidence[i].statement in ids && t.evidence[i].source in t.sources
    requires Answers(t, ids, rows)
    ensures |SourceIdsOf(rows, t.evidence[i].statement)| == 1
  {
    var r := JoinRow(t, t.evidence[i]);
    Selected(t, t.evidence, ids);
    assert r in Select(t, t.evidence, ids);
    SelectOnce(t, t.evidence, ids);
    PermutedOnce(Select(t, t.evidence, ids), rows);
    OneSourceId(rows, r);
  }

  lemma {:induction false} IdsCarried(rows: seq<Row>, id: Id)
    ensures id in SourceIds(FirstSources(rows)) <==> exists j | 0 <= j < |rows| :: rows[j].source.id == id
  {
    FirstSourcesAll(rows);
    if s :| s in FirstSources(rows) && s.id == id {
      var r :| r in rows && r.source == s;
      var j :| 0 <= j < |rows| && rows[j] == r;
    }
    if j :| 0 <= j < |rows| && rows[j].source.id == id {
      assert rows[j] in rows;
    }
  }

  /** No earlier row is of the same source. */
  ghost predicate FirstOfSource(rows: seq<Row>, j: nat)
    requires j < |rows|
  {
    forall k | 0 <= k < j :: rows[k].source.id != rows[j].source.id
  }

  ghost predicate SaidFirst(rows: seq<Row>, s: BundleSource) {
    exists j | 0 <= j < |rows| :: rows[j].source == s && FirstOfSource(rows, j)
  }

  lemma FirstOfSourceBefore(rows: seq<Row>, n: nat, j: nat)
    requires j < n <= |rows|
    ensures FirstOfSource(rows[..n], j) <==> FirstOfSource(rows, j)
  {
    assert forall k | 0 <= k <= j :: rows[..n][k] == rows[k];
  }

  lemma SaidFirstStep(rows: seq<Row>, s: BundleSource)
    requires rows != []
    ensures var n := |rows| - 1;
            SaidFirst(rows, s) <==> SaidFirst(rows[..n], s) || (rows[n].source == s && FirstOfSource(rows, n))
  {
    var n := |rows| - 1;
    if j :| 0 <= j < n && rows[j].source == s && FirstOfSource(rows, j) {
      FirstOfSourceBefore(rows, n, j);
      assert rows[..n][j].source == s;
    }
    if j :| 0 <= j < n && rows[..n][j].source == s && FirstOfSource(rows[..n], j) {
      FirstOfSourceBefore(rows, n, j);
      assert rows[j].source == s;
    }
  }

  lemma FirstIfNotCarried(rows: seq<Row>, n: nat)
    requires n < |rows|
    ensures FirstOfSource(rows, n) <==> rows[n].source.id !in SourceIds(FirstSources(rows[..n]))
  {
    IdsCarried(rows[..n], rows[n].source.id);
    assert forall k | 0 <= k < n :: rows[..n][k] == rows[k];
  }

  lemma {:induction false} CarriedIffFirst(rows: seq<Row>, s: BundleSource)
    ensures s in FirstSources(rows) <==> SaidFirst(rows, s)
  {
    if rows != [] {
      var n := |rows| - 1;
      CarriedIffFirst(rows[..n], s);
      SaidFirstStep(rows, s);
      FirstIfNotCarried(rows, n);
    }
  }

  ghost predicate FirstRows(rows: seq<Row>, ps: seq<nat>) {
    Ascends(ps) && forall p: nat :: p in ps <==> p < |rows| && FirstOfSource(rows, p)
  }

  /** The sources of these rows, in this order. */
  ghost predicate SourcesOf(rows: seq<Row>, ps: seq<nat>, sources: seq<BundleSource>) {
    |sources| == |ps| && forall j | 0 <= j < |ps| :: ps[j] < |rows| && sources[j] == rows[ps[j]].source
  }

  lemma FirstRowsStep(rows: seq<Row>, ps: seq<nat>)
    requires rows != [] && FirstRows(rows[..|rows| - 1], ps)
    ensures FirstRows(rows, if FirstOfSource(rows, |rows| - 1) then ps + [|rows| - 1] else ps)
  {
    var n := |rows| - 1;
    forall p: nat | p < n ensures FirstOfSource(rows[..n], p) <==> FirstOfSource(rows, p) { FirstOfSourceBefore(rows, n, p); }
    assert forall j | 0 <= j < |ps| :: ps[j] in ps;
  }

  lemma SourcesOfStep(rows: seq<Row>, ps: seq<nat>, sources: seq<BundleSource>)
    requires rows != [] && SourcesOf(rows[..|rows| - 1], ps, sources)
    ensures SourcesOf(rows, ps, sources) && SourcesOf(rows, ps + [|rows| - 1], sources + [rows[|rows| - 1].source])
  {
  }

  /** The sources stand in the order of their first rows. */
  lemma {:induction false} SourcesInOrder(rows: seq<Row>) returns (ps: seq<nat>)
    ensures FirstRows(rows, ps) && SourcesOf(rows, ps, FirstSources(rows))
  {
    if rows == [] {
      ps := [];
    } else {
      var n := |rows| - 1;
      ps := SourcesInOrder(rows[..n]);
      FirstIfNotCarried(rows, n);
      FirstRowsStep(rows, ps);
      SourcesOfStep(rows, ps, FirstSources(rows[..n]));
      if FirstOfSource(rows, n) { ps := ps + [n]; }
    }
  }

  ghost predicate RowsOf(rows: seq<Row>, statement: Id, ps: seq<nat>) {
    Ascends(ps) && forall p: nat :: p in ps <==> p < |rows| && rows[p].statement == statement
  }

  ghost predicate IdsAt(rows: seq<Row>, ps: seq<nat>, ids: seq<Id>) {
    |ids| == |ps| && forall j | 0 <= j < |ps| :: ps[j] < |rows| && ids[j] == rows[ps[j]].source.id
  }

  lemma RowsOfStep(rows: seq<Row>, statement: Id, ps: seq<nat>)
    requires rows != [] && RowsOf(rows[..|rows| - 1], statement, ps)
    ensures RowsOf(rows, statement, if rows[|rows| - 1].statement == statement then ps + [|rows| - 1] else ps)
  {
    var n := |rows| - 1;
    assert forall p | 0 <= p < n :: rows[..n][p] == rows[p];
    assert forall j | 0 <= j < |ps| :: ps[j] in ps;
  }

  lemma IdsAtStep(rows: seq<Row>, ps: seq<nat>, ids: seq<Id>)
    requires rows != [] && IdsAt(rows[..|rows| - 1], ps, ids)
    ensures IdsAt(rows, ps, ids) && IdsAt(rows, ps + [|rows| - 1], ids + [rows[|rows| - 1].source.id])
  {
  }

  /** The source ids of a statement stand in the order of its rows. */
  lemma {:induction false} IdsInOrder(rows: seq<Row>, statement: Id) returns (ps: seq<nat>)
    ensures RowsOf(rows, statement, ps) && IdsAt(rows, ps, SourceIdsOf(rows, statement))
  {
    if rows == [] {
      ps := [];
    } else {
      var n := |rows| - 1;
      ps := IdsInOrder(rows[..n], statement);
      RowsOfStep(rows, statement, ps);
      IdsAtStep(rows, ps, SourceIdsOf(rows[..n], statement));
      if rows[n].statement == statement { ps := ps + [n]; }
    }
  }

  /** A row's excerpt and offsets are carried exactly when the first row of its source has
      the same. */
  lemma ExcerptCarriedIffFirst(rows: seq<Row>, i: nat)
    requires i < |rows|
    ensures rows[i].source in FirstSources(rows) <==>
            exists j | 0 <= j <= i :: rows[j].source == rows[i].source && FirstOfSource(rows, j)
  {
    CarriedIffFirst(rows, rows[i].source);
    if j :| 0 <= j < |rows| && rows[j].source == rows[i].source && FirstOfSource(rows, j) {
      assert j <= i;
    }
  }

  /** A bundle carries the excerpts of all its rows exactly when no two rows quote one source
      differently. */
  lemma AllExcerptsCarriedIff(rows: seq<Row>)
    ensures (forall i | 0 <= i < |rows| :: rows[i].source in FirstSources(rows)) <==>
            forall a, b | 0 <= a < b < |rows| && rows[a].source.id == rows[b].source.id :: rows[a].source == rows[b].source
  {
    if forall i | 0 <= i < |rows| :: rows[i].source in FirstSources(rows) {
      forall a, b | 0 <= a < b < |rows| && rows[a].source.id == rows[b].source.id ensures rows[a].source == rows[b].source {
        OneSourcePerId(rows, rows[a].source, rows[b].source);
      }
    }
    if forall a, b | 0 <= a < b < |rows| && rows[a].source.id == rows[b].source.id :: rows[a].source == rows[b].source {
      forall i | 0 <= i < |rows| ensures rows[i].source in FirstSources(rows) {
        FirstRowCarried(rows, i);
      }
    }
  }

  ghost predicate Carried(rows: seq<Row>, r: Row) {
    r.source in FirstSources(rows)
  }

  ghost predicate Chosen(t: Tables, ids: set<Id>, e: Evidence) {
    e in t.evidence && e.statement in ids && e.source in t.sources
  }

  ghost predicate SameQuote(e: Evidence, e': Evidence) {
    e.excerpt == e'.excerpt && e.start == e'.start && e.end == e'.end
  }

  /** Whatever order the query answers in, the bundle carries every excerpt of its statements
      exactly when no two of their evidence rows quote one source differently. */
  lemma BundleCarriesAllIff(t: Tables, ids: set<Id>, rows: seq<Row>)
    requires Answers(t, ids, rows)
    ensures (forall r | r in rows :: Carried(rows, r)) <==>
            forall e, e' | Chosen(t, ids, e) && Chosen(t, ids, e') && e.source == e'.source :: SameQuote(e, e')
  {
    AnswerRows(t, ids, rows);
    AllExcerptsCarriedIff(rows);
    if forall r | r in rows :: Carried(rows, r) {
      forall e, e' | Chosen(t, ids, e) && Chosen(t, ids, e') && e.source == e'.source ensures SameQuote(e, e') {
        assert JoinRow(t, e) in rows && JoinRow(t, e') in rows;
        assert Carried(rows, JoinRow(t, e)) && Carried(rows, JoinRow(t, e'));
        OneSourcePerId(rows, JoinRow(t, e).source, JoinRow(t, e').source);
      }
    }
    if forall e, e' | Chosen(t, ids, e) && Chosen(t, ids, e') && e.source == e'.source :: SameQuote(e, e') {
      SameQuotesSameSource(t, ids, rows);
    }
  }

  lemma SameQuotesSameSource(t: Tables, ids: set<Id>, rows: seq<Row>)
    requires forall r | r in rows :: exists e | Chosen(t, ids, e) :: r == JoinRow(t, e)
    requires forall e, e' | Chosen(t, ids, e) && Chosen(t, ids, e') && e.source == e'.source :: SameQuote(e, e')
    ensures forall a, b | 0 <= a < b < |rows| && rows[a].source.id == rows[b].source.id :: rows[a].source == rows[b].source
  {
    forall a, b | 0 <= a < b < |rows| && rows[a].source.id == rows[b].source.id ensures rows[a].source == rows[b].source {
      assert rows[a] in rows && rows[b] in rows;
      var e :| Chosen(t, ids, e) && rows[a] == JoinRow(t, e);
      var e' :| Chosen(t, ids, e') && rows[b] == JoinRow(t, e');
      assert SameQuote(e, e');
    }
  }

  lemma AnswerRows(t: Tables, ids: set<Id>, rows: seq<Row>)
    requires Answers(t, ids, rows)
    ensures forall e | Chosen(t, ids, e) :: JoinRow(t, e) in rows
    ensures forall r | r in rows :: exists e | Chosen(t, ids, e) :: r == JoinRow(t, e)
  {
    SameMembers(Select(t, t.evidence, ids), rows);
    Selected(t, t.evidence, ids);
    forall e | Chosen(t, ids, e) ensures JoinRow(t, e) in rows {
      assert JoinRow(t, e) in Select(t, t.evidence, ids);
    }
    forall r | r in rows ensures exists e | Chosen(t, ids, e) :: r == JoinRow(t, e) {
      var e :| e in t.evidence && e.statement in ids && e.source in t.sources && r == JoinRow(t, e);
      assert Chosen(t, ids, e);
    }
  }

  lemma OneSourcePerId(rows: seq<Row>, s: BundleSource, s': BundleSource)
    requires s in FirstSources(rows) && s' in FirstSources(rows) && s.id == s'.id
    ensures s == s'
  {
    ReferencesClosed(rows, 0, s.id);
  }

  lemma CarriedIfFirst(rows: seq<Row>, j: nat)
    requires j < |rows| && FirstOfSource(rows, j)
    ensures rows[j].source in FirstSources(rows)
  {
    CarriedIffFirst(rows, rows[j].source);
  }

  lemma FirstRowCarried(rows: seq<Row>, i: nat)
    requires i < |rows|
    requires forall j | 0 <= j < i && rows[j].source.id == rows[i].source.id :: rows[j].source == rows[i].source
    ensures rows[i].source in FirstSources(rows)
  {
    var j := FirstRow(rows, i);
    CarriedIfFirst(rows, j);
  }

  lemma {:induction false} FirstRow(rows: seq<Row>, i: nat) returns (j: nat)
    requires i < |rows|
    ensures j <= i && rows[j].source.id == rows[i].source.id && FirstOfSource(rows, j)
  {
    if k :| 0 <= k < i && rows[k].source.id == rows[i].source.id {
      j := FirstRow(rows, k);
    } else {
      j := i;
    }
  }
}
