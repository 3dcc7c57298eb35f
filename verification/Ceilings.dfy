/**
 What a corroboration pass writes, said over the evidence rows of a statement, and what makes
 two rows one origin, said over publishers, URLs and words.
 */
module Ceilings {
  import opened Utf8
  import opened Wrappers
  import opened Store
  import opened Clustering
  import opened Corroboration
  import opened CorroborateWorker
  import opened World
  import Order
  import Text

  // ------------------------------------------------------------------
  // Rows of a statement
  // ------------------------------------------------------------------

  /** The numbers of the rows of one statement, ascending. */
  ghost predicate RowsOf(rows: seq<Evidence>, statement: Id, ps: seq<nat>) {
    && Order.Ascends(ps)
    && (forall p: nat :: p in ps <==> p < |rows| && rows[p].statement == statement)
  }

  /** The pass sees the row's own confidence, and of its source the URL, the publisher and the
      first 32768 runes of the text. */
  ghost predicate Joins(t: Tables, e: Evidence, ev: SourceEvidence) {
    && e.source in t.sources
    && ev.source == e.source && ev.confidence == e.confidence
    && ev.url == t.sources[e.source].url && ev.publisher == t.sources[e.source].publisher
    && (t.sources[e.source].rawText == None ==> ev.rawText == "")
    && (t.sources[e.source].rawText.Some? ==> FirstRunes(Decode(t.sources[e.source].rawText.value), ev.rawText))
  }

  ghost predicate FirstRunes(text: string, cut: string) {
    cut <= text && |cut| == if |text| < 32768 then |text| else 32768
  }

  lemma JoinedJoins(t: Tables, e: Evidence)
    requires e.source in t.sources
    ensures Joins(t, e, Joined(t, e))
  {
  }

  ghost predicate JoinsAll(t: Tables, rows: seq<Evidence>, ps: seq<nat>, evidence: seq<SourceEvidence>) {
    |evidence| == |ps| && (forall j | 0 <= j < |ps| :: ps[j] < |rows|) && forall j | 0 <= j < |ps| :: Joins(t, rows[ps[j]], evidence[j])
  }

  lemma {:induction false} EvidenceOfRows(t: Tables, rows: seq<Evidence>, statement: Id) returns (ps: seq<nat>)
    requires HasSources(t, rows)
    ensures RowsOf(rows, statement, ps) && JoinsAll(t, rows, ps, EvidenceOf(t, rows, statement))
  {
    if rows == [] {
      ps := [];
    } else {
      var n := |rows| - 1;
      ps := EvidenceOfRows(t, rows[..n], statement);
      RowsOfStep(rows, statement, ps);
      JoinsStep(t, rows, ps, EvidenceOf(t, rows[..n], statement));
      if rows[n].statement == statement {
        ps := ps + [n];
      }
    }
  }

  lemma JoinsStep(t: Tables, rows: seq<Evidence>, ps: seq<nat>, evidence: seq<SourceEvidence>)
    requires rows != [] && JoinsAll(t, rows[..|rows| - 1], ps, evidence) && rows[|rows| - 1].source in t.sources
    ensures JoinsAll(t, rows, ps, evidence)
    ensures JoinsAll(t, rows, ps + [|rows| - 1], evidence + [Joined(t, rows[|rows| - 1])])
  {
    var n := |rows| - 1;
    JoinedJoins(t, rows[n]);
    assert forall j | 0 <= j < |ps| :: rows[..n][ps[j]] == rows[ps[j]];
  }

  lemma RowsOfStep(rows: seq<Evidence>, statement: Id, ps: seq<nat>)
    requires rows != [] && RowsOf(rows[..|rows| - 1], statement, ps)
    ensures RowsOf(rows, statement, if rows[|rows| - 1].statement == statement then ps + [|rows| - 1] else ps)
  {
    var n := |rows| - 1;
    assert forall p | 0 <= p < n :: rows[..n][p] == rows[p];
    assert forall i | 0 <= i < |ps| :: ps[i] in ps;
  }

  // ------------------------------------------------------------------
  // The confidence that is written
  // ------------------------------------------------------------------

  /** The ceiling for one, two, and more independent sources. */
  ghost predicate IsCeiling(independent: nat, ceiling: real) {
    && (independent <= 1 ==> ceiling == 0.5)
    && (independent == 2 ==> ceiling == 0.85)
    && (independent >= 3 ==> ceiling == 0.95)
  }

  /** The largest confidence of the statement's own rows, or the ceiling where that is less. */
  ghost predicate Capped(rows: seq<Evidence>, ps: seq<nat>, ceiling: real, confidence: real)
    requires forall p | p in ps :: p < |rows|
  {
    && (forall p | p in ps :: rows[p].confidence <= confidence || confidence == ceiling)
    && confidence <= ceiling
    && (confidence < ceiling ==> exists p | p in ps :: rows[p].confidence == confidence)
    && (confidence == ceiling ==> exists p | p in ps :: rows[p].confidence >= ceiling)
  }

  lemma CappedConfidence(count: nat, confidences: seq<real>) returns (ceiling: real)
    requires confidences != []
    ensures IsCeiling(count, ceiling) && Corroboration.Confidence(count, confidences) <= ceiling
    ensures var c := Corroboration.Confidence(count, confidences);
            && (forall x | x in confidences :: x <= c || c == ceiling)
            && (c < ceiling ==> c in confidences) && (c == ceiling ==> exists x | x in confidences :: x >= ceiling)
  {
    ceiling := Ceiling(count);
    MaxIsMax(confidences);
  }

  /** A statement with evidence gets the largest confidence of its own rows, capped by the
      number of independent sources among them. */
  lemma ConfidenceOfRows(names: Names, t: Tables, rows: seq<Evidence>, k: StatementKey) returns (ps: seq<nat>, evidence: seq<SourceEvidence>, ceiling: real)
    requires HasSources(t, rows) && k in t.statements && exists e | e in rows :: e.statement == t.statements[k].id
    ensures RowsOf(rows, t.statements[k].id, ps) && ps != [] && JoinsAll(t, rows, ps, evidence)
    ensures IsCeiling(Count(names, evidence), ceiling)
    ensures k in CorroborateAll(names, t, rows).statements
    ensures CorroborateAll(names, t, rows).statements[k].id == t.statements[k].id
    ensures Capped(rows, ps, ceiling, CorroborateAll(names, t, rows).statements[k].confidence)
  {
    var id := t.statements[k].id;
    ps := EvidenceOfRows(t, rows, id);
    evidence := EvidenceOf(t, rows, id);
    RowIsEvidence(t, rows, id);
    ceiling := CappedConfidence(Count(names, evidence), Corroboration.Confidences(evidence));
    CappedRows(t, rows, ps, evidence, ceiling, Corroborated(names, evidence));
  }

  lemma CappedRows(t: Tables, rows: seq<Evidence>, ps: seq<nat>, evidence: seq<SourceEvidence>, ceiling: real, c: real)
    requires JoinsAll(t, rows, ps, evidence) && c <= ceiling
    requires var cs := Corroboration.Confidences(evidence);
             && (forall x | x in cs :: x <= c || c == ceiling)
             && (c < ceiling ==> c in cs) && (c == ceiling ==> exists x | x in cs :: x >= ceiling)
    ensures Capped(rows, ps, ceiling, c)
  {
    var cs := Corroboration.Confidences(evidence);
    forall p | p in ps ensures rows[p].confidence in cs {
      var j :| 0 <= j < |ps| && ps[j] == p;
      assert cs[j] == rows[p].confidence;
    }
    forall x | x in cs ensures exists p | p in ps :: rows[p].confidence == x {
      var j :| 0 <= j < |cs| && cs[j] == x;
      assert ps[j] in ps && rows[ps[j]].confidence == x;
    }
  }

  /** A statement without evidence keeps its confidence. */
  lemma NoRowsNoChange(names: Names, t: Tables, rows: seq<Evidence>, k: StatementKey)
    requires HasSources(t, rows) && k in t.statements && forall e | e in rows :: e.statement != t.statements[k].id
    ensures CorroborateAll(names, t, rows) == t.(statements := CorroborateAll(names, t, rows).statements)
    ensures k in CorroborateAll(names, t, rows).statements && CorroborateAll(names, t, rows).statements[k] == t.statements[k]
  {
    NoEvidence(t, rows, t.statements[k].id);
  }

  lemma {:induction false} NoEvidence(t: Tables, rows: seq<Evidence>, statement: Id)
    requires HasSources(t, rows) && forall e | e in rows :: e.statement != statement
    ensures EvidenceOf(t, rows, statement) == []
  {
    if rows != [] {
      NoEvidence(t, rows[..|rows| - 1], statement);
    }
  }

  /** A single row: its own confidence, or a half where that is less. */
  lemma OneRowConfidence(names: Names, t: Tables, rows: seq<Evidence>, k: StatementKey, e: Evidence)
    requires HasSources(t, rows) && k in t.statements && e in rows && e.statement == t.statements[k].id
    requires forall i, j | 0 <= i < j < |rows| && rows[i].statement == rows[j].statement :: rows[i].statement != e.statement
    ensures k in CorroborateAll(names, t, rows).statements
    ensures CorroborateAll(names, t, rows).statements[k].confidence == if e.confidence < 0.5 then e.confidence else 0.5
  {
    var id := t.statements[k].id;
    OneRowJoined(t, rows, e);
    SingleEvidenceAtMostHalf(names, Joined(t, e));
  }

  lemma {:induction false} OneRowJoined(t: Tables, rows: seq<Evidence>, e: Evidence)
    requires HasSources(t, rows) && e in rows
    requires forall i, j | 0 <= i < j < |rows| && rows[i].statement == rows[j].statement :: rows[i].statement != e.statement
    ensures EvidenceOf(t, rows, e.statement) == [Joined(t, e)]
  {
    var n := |rows| - 1;
    if rows[n].statement == e.statement {
      forall r | r in rows[..n] ensures r.statement != e.statement {
        var i :| 0 <= i < n && rows[i] == r;
      }
      NoEvidence(t, rows[..n], e.statement);
    } else {
      OneRowJoined(t, rows[..n], e);
    }
  }

  ghost predicate HasConfidence(t: Tables, k: StatementKey, confidence: real) {
    k in t.statements && t.statements[k].confidence == confidence
  }

  lemma GoodRowConfidence(env: Env, names: Names, w: World, rows: seq<Evidence>, k: StatementKey, e: Evidence)
    requires GoodTables(env, w.db) && multiset(rows) <= multiset(w.db.evidence)
    requires e in rows && k in w.db.statements && w.db.statements[k].id == e.statement
    ensures HasConfidence(CorroborateNext(names, w, rows).db, k, if e.confidence < 0.5 then e.confidence else 0.5)
  {
    RowsHaveSources(w.db, rows);
    forall i, j | 0 <= i < j < |rows| ensures rows[i].statement != rows[j].statement {
      RowsStayDistinct(w.db.evidence, rows, i, j);
    }
    OneRowConfidence(names, w.db, rows, k, e);
  }

  lemma CorroborateLast(env: Env, names: Names, w: World, steps: seq<Step>, rows: seq<Evidence>)
    ensures Run(env, names, w, steps + [Corroborate(rows)]) == CorroborateNext(names, Run(env, names, w, steps), rows)
  {
    assert (steps + [Corroborate(rows)])[..|steps|] == steps;
  }

  /** In every reachable state a pass leaves each statement it has evidence for with exactly
      that row's confidence, capped at a half. */
  lemma ReachableConfidence(env: Env, names: Names, globalProperties: map<string, Id>, steps: seq<Step>, rows: seq<Evidence>, k: StatementKey, e: Evidence)
    requires var t := Run(env, names, Initial(globalProperties), steps).db;
             multiset(rows) <= multiset(t.evidence) && e in rows && k in t.statements && t.statements[k].id == e.statement
    ensures HasConfidence(Run(env, names, Initial(globalProperties), steps + [Corroborate(rows)]).db, k,
                          if e.confidence < 0.5 then e.confidence else 0.5)
  {
    InitialGood(env, globalProperties);
    RunKeeps(env, names, Initial(globalProperties), steps);
    GoodRowConfidence(env, names, Run(env, names, Initial(globalProperties), steps), rows, k, e);
    CorroborateLast(env, names, Initial(globalProperties), steps, rows);
  }

  // ------------------------------------------------------------------
  // What counts as one origin
  // ------------------------------------------------------------------

  /** The domain of a row: its publisher, trimmed and in lower case, whatever its URL; without
      a publisher the URL's host without `www.`; without either the source itself. */
  ghost predicate HasDomain(names: Names, ev: SourceEvidence, domain: string) {
    && (ev.publisher != "" && names.lower(Text.TrimSpace(ev.publisher)) != "" ==> domain == names.lower(Text.TrimSpace(ev.publisher)))
    && (ev.publisher != "" && names.lower(Text.TrimSpace(ev.publisher)) == "" ==> domain == names.idText(ev.source))
    && (ev.publisher == "" && names.hostname(ev.url) == None ==> domain == names.idText(ev.source))
    && (forall host: string | ev.publisher == "" && names.hostname(ev.url) == Some("www." + host) && names.lower(host) != "" ::
          domain == names.lower(host))
    && (forall host: string | ev.publisher == "" && names.hostname(ev.url) == Some(host) && !("www." <= host) && names.lower(host) != "" ::
          domain == names.lower(host))
  }

  /** The words of the lowered text, the first 200 of them, single blanks in between. */
  ghost predicate HasWords(names: Names, ev: SourceEvidence, text: string) {
    && Text.Normalized(text)
    && (var words := Text.Fields(names.lower(ev.rawText)); Text.Fields(text) == if |words| <= 200 then words else words[..200])
  }

  lemma DomainOfRow(names: Names, ev: SourceEvidence)
    ensures HasDomain(names, ev, NodeOf(names, ev).domain)
  {
    if ev.publisher == "" && names.hostname(ev.url).Some? {
      var whole := names.hostname(ev.url).value;
      forall host: string | whole == "www." + host ensures TrimPrefix(whole, "www.") == host {
      }
    }
  }

  lemma WordsOfRow(names: Names, ev: SourceEvidence)
    ensures HasWords(names, ev, NodeOf(names, ev).text)
  {
    var words := Text.Fields(names.lower(ev.rawText));
    var first := if |words| > 200 then words[..200] else words;
    assert forall w | w in first :: w in words;
    Text.FieldsJoin(first);
    Text.JoinNormalized(first);
  }

  /** Three runes in a row of the text with two blanks on either side. */
  ghost predicate TripleAt(text: string, i: nat, x: string) {
    i <= |text| + 1 && x == ("  " + text + "  ")[i..i + 3]
  }

  ghost predicate TriplesOf(text: string, triples: set<string>) {
    forall x :: x in triples <==> exists i :: TripleAt(text, i, x)
  }

  lemma TrigramTriples(text: string)
    ensures TriplesOf(text, Trigrams(text))
  {
    forall x ensures x in Trigrams(text) <==> exists i :: TripleAt(text, i, x) {
      if x in Trigrams(text) {
        var i: nat :| i <= |Padded(text)| - 3 && x == TrigramAt(Padded(text), i);
        assert TripleAt(text, i, x);
      }
      if i :| TripleAt(text, i, x) {
        assert x == TrigramAt(Padded(text), i);
      }
    }
  }

  /** What the count looks at in a row: its domain, its words and their triples. */
  ghost predicate LooksLike(names: Names, ev: SourceEvidence, domain: string, text: string, triples: set<string>) {
    HasDomain(names, ev, domain) && HasWords(names, ev, text) && TriplesOf(text, triples)
  }

  lemma RowLooksLike(names: Names, ev: SourceEvidence)
    ensures LooksLike(names, ev, NodeOf(names, ev).domain, NodeOf(names, ev).text, Trigrams(NodeOf(names, ev).text))
  {
    DomainOfRow(names, ev);
    WordsOfRow(names, ev);
    TrigramTriples(NodeOf(names, ev).text);
  }

  lemma CountOfTwo(names: Names, a: SourceEvidence, b: SourceEvidence, x: set<string>, y: set<string>)
    requires x == Trigrams(NodeOf(names, a).text) && y == Trigrams(NodeOf(names, b).text)
    ensures Count(names, [a, b]) == if NodeOf(names, a).domain == NodeOf(names, b).domain && 200 * |x * y| >= 85 * (|x| + |y|) then 1 else 2
  {
    WireCopyCountsTwice(names, a, b);
    SimilarIff(NodeOf(names, a).text, NodeOf(names, b).text, x, y);
  }

  lemma SimilarIff(s: string, t: string, x: set<string>, y: set<string>)
    requires x == Trigrams(s) && y == Trigrams(t)
    ensures Similarity(s, t) >= SAME_TEXT <==> 200 * |x * y| >= 85 * (|x| + |y|)
  {
    SimilarityLaws(s, t);
    RatioIff(|x * y|, |x| + |y|);
  }

  /** Two rows count as one source exactly when they have one domain and at least 85 in 100 of
      the triples of their words in common, each triple counted for each text that has it. */
  lemma OneOriginIff(names: Names, a: SourceEvidence, b: SourceEvidence) returns (d: string, e: string, s: string, t: string, x: set<string>, y: set<string>)
    ensures LooksLike(names, a, d, s, x) && LooksLike(names, b, e, t, y)
    ensures Count(names, [a, b]) == if d == e && 200 * |x * y| >= 85 * (|x| + |y|) then 1 else 2
  {
    d, e, s, t := NodeOf(names, a).domain, NodeOf(names, b).domain, NodeOf(names, a).text, NodeOf(names, b).text;
    x, y := Trigrams(s), Trigrams(t);
    RowLooksLike(names, a);
    RowLooksLike(names, b);
    CountOfTwo(names, a, b, x, y);
  }

  lemma Scaled(a: real, b: real, d: real)
    requires d > 0.0
    ensures a >= b <==> a * d >= b * d
  {
  }

  lemma RatioIff(shared: nat, all: nat)
    requires all > 0
    ensures (2 * shared) as real / all as real >= 0.85 <==> 200 * shared >= 85 * all
  {
    var n, d := (2 * shared) as real, all as real;
    assert n / d * d == n;
    Scaled(n / d, 0.85, d);
    assert (200 * shared) as real == 100.0 * n && (85 * all) as real == 85.0 * d;
  }
}
