/** The corroboration pass: read evidence, group it by statement, rewrite confidences. */
module CorroborateWorker {
  import opened Utf8
  import opened Wrappers
  import opened Store
  import opened Corroboration

  const MAX_CHARS := 32768

  function Left(s: string, n: nat): string {
    if |s| > n then s[..n] else s
  }

  /** An evidence row joined with its source. */
  function Joined(t: Tables, e: Evidence): SourceEvidence
    requires e.source in t.sources
  {
    var s := t.sources[e.source];
    var text := if s.rawText.Some? then Decode(s.rawText.value) else "";
    SourceEvidence(e.source, s.url, s.publisher, Left(text, MAX_CHARS), e.confidence)
  }

  ghost predicate HasSources(t: Tables, rows: seq<Evidence>) {
    forall e | e in rows :: e.source in t.sources
  }

  /** The rows of one statement, joined, in order. */
  function EvidenceOf(t: Tables, rows: seq<Evidence>, statement: Id): seq<SourceEvidence>
    requires HasSources(t, rows)
  {
    if rows == [] then []
    else
      var e := rows[|rows| - 1];
      EvidenceOf(t, rows[..|rows| - 1], statement) + if e.statement == statement then [Joined(t, e)] else []
  }

  function Recomputed(names: Names, t: Tables, rows: seq<Evidence>, s: Statement): Statement
    requires HasSources(t, rows)
  {
    var evidence := EvidenceOf(t, rows, s.id);
    if evidence == [] then s else s.(confidence := Corroborated(names, evidence))
  }

  function CorroborateAll(names: Names, t: Tables, rows: seq<Evidence>): Tables
    requires HasSources(t, rows)
  {
    t.(statements := map k | k in t.statements :: Recomputed(names, t, rows, t.statements[k]))
  }

  /** `byStatement`, as the row loop builds it. */
  ghost predicate Groups(t: Tables, rows: seq<Evidence>, byStatement: map<Id, seq<SourceEvidence>>)
    requires HasSources(t, rows)
  {
    && (forall id :: id in byStatement ==> byStatement[id] != [] && byStatement[id] == EvidenceOf(t, rows, id))
    && (forall id :: id !in byStatement ==> EvidenceOf(t, rows, id) == [])
  }

  method GroupByStatement(t: Tables, rows: seq<Evidence>) returns (byStatement: map<Id, seq<SourceEvidence>>)
    requires HasSources(t, rows)
    ensures Groups(t, rows, byStatement)
  {
    byStatement := map[];
    for i := 0 to |rows|
      invariant Groups(t, rows[..i], byStatement)
    {
      var e := rows[i];
      assert rows[..i + 1][..i] == rows[..i] && rows[..i + 1][i] == e;
      var so_far := if e.statement in byStatement then byStatement[e.statement] else [];
      byStatement := byStatement[e.statement := so_far + [Joined(t, e)]];
    }
    assert rows[..|rows|] == rows;
  }

  method ConfidencesOf(evidence: seq<SourceEvidence>) returns (confidences: seq<real>)
    ensures confidences == Confidences(evidence)
  {
    confidences := [];
    for i := 0 to |evidence|
      invariant confidences == Confidences(evidence)[..i]
    {
      confidences := confidences + [evidence[i].confidence];
    }
  }

  method ConfidenceOf(names: Names, evidence: seq<SourceEvidence>) returns (confidence: real)
    ensures confidence == Corroborated(names, evidence)
  {
    var independent := CountIndependentSources(names, evidence);
    var confidences := ConfidencesOf(evidence);
    confidence := ComputeConfidence(independent, confidences);
  }

  /** The statements when all groups but those of `todo` are done. */
  function Partly(before: map<StatementKey, Statement>, after: map<StatementKey, Statement>, todo: set<Id>): map<StatementKey, Statement>
    requires before.Keys == after.Keys
  {
    map k | k in before :: if before[k].id in todo then before[k] else after[k]
  }

  /** UPDATE statements SET confidence = ... WHERE id = ... */
  function UpdateConfidence(statements: map<StatementKey, Statement>, id: Id, confidence: real): map<StatementKey, Statement> {
    map k | k in statements :: if statements[k].id == id then statements[k].(confidence := confidence) else statements[k]
  }

  lemma PartlyStep(before: map<StatementKey, Statement>, after: map<StatementKey, Statement>, todo: set<Id>, id: Id, confidence: real)
    requires before.Keys == after.Keys && id in todo
    requires forall k | k in before :: after[k].id == before[k].id
    requires forall k | k in before && before[k].id == id :: after[k] == before[k].(confidence := confidence)
    ensures UpdateConfidence(Partly(before, after, todo), id, confidence) == Partly(before, after, todo - {id})
  {
  }

  lemma GroupsRecomputed(names: Names, t: Tables, rows: seq<Evidence>, byStatement: map<Id, seq<SourceEvidence>>)
    requires HasSources(t, rows) && Groups(t, rows, byStatement)
    ensures var after := CorroborateAll(names, t, rows).statements;
            && after.Keys == t.statements.Keys
            && (forall k | k in after :: after[k].id == t.statements[k].id)
            && (forall k | k in after && after[k].id in byStatement ::
                  after[k] == t.statements[k].(confidence := Corroborated(names, byStatement[after[k].id])))
            && (forall k | k in after && after[k].id !in byStatement :: after[k] == t.statements[k])
  {
  }

  /** The pass over the groups, whose order is the map's. */
  method CorroborateOnce(names: Names, db: Database, rows: seq<Evidence>)
    requires HasSources(db.tables, rows)
    modifies db
    ensures db.tables == CorroborateAll(names, old(db.tables), rows)
  {
    var t := db.tables;
    var byStatement := GroupByStatement(t, rows);
    var todo := byStatement.Keys;
    var statements := t.statements;
    ghost var after := CorroborateAll(names, t, rows).statements;
    GroupsRecomputed(names, t, rows, byStatement);
    while todo != {}
      invariant todo <= byStatement.Keys
      invariant statements == Partly(t.statements, after, todo)
      decreases todo
    {
      var id :| id in todo;
      var confidence := ConfidenceOf(names, byStatement[id]);
      PartlyStep(t.statements, after, todo, id, confidence);
      statements := UpdateConfidence(statements, id, confidence);
      todo := todo - {id};
    }
    db.tables := t.(statements := statements);
  }

  /** Confidences are computed from the evidence alone: a second pass over the same rows
      changes nothing. */
  lemma SecondPassChangesNothing(names: Names, t: Tables, rows: seq<Evidence>)
    requires HasSources(t, rows)
    ensures CorroborateAll(names, CorroborateAll(names, t, rows), rows) == CorroborateAll(names, t, rows)
  {
    var t1 := CorroborateAll(names, t, rows);
    forall id: Id ensures EvidenceOf(t1, rows, id) == EvidenceOf(t, rows, id) {
      SameSourcesSameEvidence(t, t1, rows, id);
    }
    forall k | k in t.statements ensures Recomputed(names, t1, rows, t1.statements[k]) == t1.statements[k] {
      RecomputedTwice(names, t, t1, rows, t.statements[k]);
    }
    assert CorroborateAll(names, t1, rows).statements == t1.statements;
  }

  lemma RecomputedTwice(names: Names, t: Tables, t': Tables, rows: seq<Evidence>, s: Statement)
    requires HasSources(t, rows) && HasSources(t', rows)
    requires EvidenceOf(t', rows, s.id) == EvidenceOf(t, rows, s.id)
    ensures Recomputed(names, t', rows, Recomputed(names, t, rows, s)) == Recomputed(names, t, rows, s)
  {
  }

  lemma {:induction false} SameSourcesSameEvidence(t: Tables, t': Tables, rows: seq<Evidence>, statement: Id)
    requires HasSources(t, rows) && t'.sources == t.sources
    ensures EvidenceOf(t', rows, statement) == EvidenceOf(t, rows, statement)
  {
    if rows != [] {
      SameSourcesSameEvidence(t, t', rows[..|rows| - 1], statement);
    }
  }

  /** A statement with a single evidence row is left at half confidence at most. */
  lemma {:induction false} LoneEvidence(t: Tables, rows: seq<Evidence>, statement: Id)
    requires HasSources(t, rows)
    requires forall i, j | 0 <= i < j < |rows| :: rows[i].statement != rows[j].statement
    ensures |EvidenceOf(t, rows, statement)| <= 1
    ensures EvidenceOf(t, rows, statement) != [] ==> exists e | e in rows :: e.statement == statement
  {
    if rows != [] {
      var n := |rows| - 1;
      LoneEvidence(t, rows[..n], statement);
      assert rows == rows[..n] + [rows[n]];
      assert forall e | e in rows[..n] :: e.statement != rows[n].statement;
    }
  }

  lemma LoneEvidenceAtMostHalf(names: Names, t: Tables, rows: seq<Evidence>, k: StatementKey)
    requires HasSources(t, rows) && k in t.statements
    requires forall i, j | 0 <= i < j < |rows| :: rows[i].statement != rows[j].statement
    requires exists e | e in rows :: e.statement == t.statements[k].id
    ensures CorroborateAll(names, t, rows).statements[k].confidence <= 0.5
  {
    var id := t.statements[k].id;
    var evidence := EvidenceOf(t, rows, id);
    LoneEvidence(t, rows, id);
    RowIsEvidence(t, rows, id);
    assert evidence == [evidence[0]];
    SingleEvidenceAtMostHalf(names, evidence[0]);
  }

  lemma {:induction false} RowIsEvidence(t: Tables, rows: seq<Evidence>, statement: Id)
    requires HasSources(t, rows) && exists e | e in rows :: e.statement == statement
    ensures EvidenceOf(t, rows, statement) != []
  {
    var n := |rows| - 1;
    if rows[n].statement != statement {
      assert rows == rows[..n] + [rows[n]];
      RowIsEvidence(t, rows[..n], statement);
    }
  }
}
