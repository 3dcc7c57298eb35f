/**
 The pipeline as a step machine.  Every pass reads in one step and writes in
 another, any number of workers run at once, and nothing protects a snapshot from
 going stale.  What holds anyway, in every reachable state: each stored excerpt is
 the text of its source between its offsets, and it stays so for ever.
 */
module World {
  import opened Utf8
  import opened Wrappers
  import opened Excerpt
  import opened StripHtml
  import opened Store
  import opened Extraction
  import opened Corroboration
  import opened CorroborateWorker
  import Order

  type Worker = nat

  datatype Snapshot = Snapshot(source: Id, rawText: Bytes)

  /** The tables, what each running pass has read, and (for the record) which sources
      were ever marked extracted. */
  datatype World = World(
    db: Tables,
    archiving: map<Worker, seq<PendingArchive>>,
    extracting: map<Worker, seq<Snapshot>>,
    verifying: map<Worker, seq<PendingVerification>>,
    everExtracted: set<Id>)

  /** A read step names the rows its query returned; items, facts and outcomes are
      whatever collectors, extractors and the network deliver.  `Abandon` is a pass that
      ends early: an error, a failed fetch, a crash. */
  datatype Step =
    | Collect(items: seq<Item>)
    | ArchiveRead(worker: Worker, ids: seq<Id>)
    | ArchiveWrite(worker: Worker)
    | ExtractRead(worker: Worker, ids: seq<Id>)
    | ExtractWrite(worker: Worker, facts: seq<Fact>)
    | VerifyRead(worker: Worker, ids: seq<Id>)
    | VerifyWrite(worker: Worker, outcomes: seq<Outcome>)
    | Corroborate(rows: seq<Evidence>)
    | Abandon(worker: Worker)

  predicate HasStatus(t: Tables, id: Id, allowed: set<Status>) {
    id in t.sources && t.sources[id].status in allowed
  }

  function ReadPending(t: Tables, ids: seq<Id>): seq<PendingArchive> {
    if ids == [] then []
    else
      var id := ids[|ids| - 1];
      ReadPending(t, ids[..|ids| - 1]) +
        if HasStatus(t, id, {Collected}) then [PendingArchive(id, t.sources[id].rawHtml)] else []
  }

  function ReadSnapshots(t: Tables, ids: seq<Id>): seq<Snapshot> {
    if ids == [] then []
    else
      var id := ids[|ids| - 1];
      ReadSnapshots(t, ids[..|ids| - 1]) +
        if HasStatus(t, id, {Archived}) && t.sources[id].rawText.Some?
        then [Snapshot(id, t.sources[id].rawText.value)] else []
  }

  function ReadVerifiable(t: Tables, ids: seq<Id>): seq<PendingVerification> {
    if ids == [] then []
    else
      var id := ids[|ids| - 1];
      ReadVerifiable(t, ids[..|ids| - 1]) +
        if HasStatus(t, id, {Archived, Extracted, Verified, ContentChanged})
        then [PendingVerification(id, t.sources[id].status)] else []
  }

  ghost predicate Distinct(ids: seq<Id>) {
    forall i, j | 0 <= i < j < |ids| :: ids[i] != ids[j]
  }

  /** Whether the write transaction marks the source extracted. */
  predicate Marks(env: Env, t: Tables, source: Id, rawText: Bytes, facts: seq<Fact>) {
    var r := WriteFacts(env, t, source, rawText, facts);
    r.Written? && r.accepted > 0
  }

  /** The write transaction for the next source of a running extraction. */
  function ExtractNext(env: Env, w: World, worker: Worker, facts: seq<Fact>): World
    requires worker in w.extracting && w.extracting[worker] != []
  {
    var s := w.extracting[worker][0];
    var rest := w.extracting[worker := w.extracting[worker][1..]];
    if s.rawText == [] then w.(extracting := rest)
    else
      match WriteExtracted(env, w.db, s.source, s.rawText, facts)
      case None => w.(extracting := w.extracting - {worker})
      case Some(t) =>
        w.(db := t,
           extracting := rest,
           everExtracted := if Marks(env, w.db, s.source, s.rawText, facts) then w.everExtracted + {s.source} else w.everExtracted)
  }

  /** The write transaction of a running archive pass. */
  function ArchiveNext(env: Env, w: World, worker: Worker): World {
    if worker !in w.archiving then w
    else
      var done := w.(archiving := w.archiving - {worker});
      match ArchiveAll(env, w.db, w.archiving[worker])
      case None => done
      case Some(t) => done.(db := t)
  }

  function VerifyNext(w: World, worker: Worker, outcomes: seq<Outcome>): World {
    if worker in w.verifying && |outcomes| == |w.verifying[worker]|
    then w.(db := VerifyAll(w.db, w.verifying[worker], outcomes), verifying := w.verifying - {worker})
    else w
  }

  ghost function CorroborateNext(names: Names, w: World, rows: seq<Evidence>): World {
    if multiset(rows) <= multiset(w.db.evidence) && HasSources(w.db, rows)
    then w.(db := CorroborateAll(names, w.db, rows))
    else w
  }

  /** One step; a step that is not enabled changes nothing. */
  ghost function Apply(env: Env, names: Names, w: World, step: Step): World {
    match step
    case Collect(items) => w.(db := CollectAll(env, w.db, items))
    case ArchiveRead(worker, ids) =>
      if Distinct(ids) then w.(archiving := w.archiving[worker := ReadPending(w.db, ids)]) else w
    case ArchiveWrite(worker) => ArchiveNext(env, w, worker)
    case ExtractRead(worker, ids) =>
      if Distinct(ids) then w.(extracting := w.extracting[worker := ReadSnapshots(w.db, ids)]) else w
    case ExtractWrite(worker, facts) =>
      if worker in w.extracting && w.extracting[worker] != [] then ExtractNext(env, w, worker, facts) else w
    case VerifyRead(worker, ids) =>
      if Distinct(ids) then w.(verifying := w.verifying[worker := ReadVerifiable(w.db, ids)]) else w
    case VerifyWrite(worker, outcomes) => VerifyNext(w, worker, outcomes)
    case Corroborate(rows) => CorroborateNext(names, w, rows)
    case Abandon(worker) =>
      w.(archiving := w.archiving - {worker}, extracting := w.extracting - {worker}, verifying := w.verifying - {worker})
  }

  ghost function Initial(globalProperties: map<string, Id>): World {
    World(Empty(globalProperties), map[], map[], map[], {})
  }

  /** Every interleaving of passes is one such sequence. */
  ghost function Run(env: Env, names: Names, w: World, steps: seq<Step>): World {
    if steps == [] then w
    else Apply(env, names, Run(env, names, w, steps[..|steps| - 1]), steps[|steps| - 1])
  }

  // ------------------------------------------------------------------
  // The invariant
  // ------------------------------------------------------------------

  /** A source has text exactly once it has left `collected`, and the text is always
      the stripped page. */
  ghost predicate GoodSource(env: Env, s: Source) {
    && (s.rawText.None? <==> s.status == Collected)
    && (s.rawText.Some? ==>
          env.decompress(s.rawHtml).Some? && s.rawText.value == StripHTML(env.decompress(s.rawHtml).value))
  }

  /** The row's excerpt is its source's current text between the stored rune offsets. */
  ghost predicate Backed(t: Tables, e: Evidence) {
    && e.source in t.sources
    && t.sources[e.source].rawText.Some?
    && WorkerVerify(t.sources[e.source].rawText.value, e.excerpt, e.start, e.end)
  }

  ghost predicate GoodSources(env: Env, t: Tables) {
    forall id :: id in t.sources ==> id < t.nextId && GoodSource(env, t.sources[id])
  }

  ghost predicate AllBacked(t: Tables) {
    forall i | 0 <= i < |t.evidence| :: Backed(t, t.evidence[i])
  }

  ghost function StatementIds(statements: map<StatementKey, Statement>): set<Id> {
    set k | k in statements :: statements[k].id
  }

  ghost function EvidenceIds(evidence: seq<Evidence>): set<Id> {
    set e | e in evidence :: e.statement
  }

  /** Ids are drawn once, and statements and evidence rows correspond one to one. */
  ghost predicate OneToOne(statements: map<StatementKey, Statement>, evidence: seq<Evidence>, nextId: Id) {
    && (forall k :: k in statements ==> statements[k].id < nextId)
    && (forall k, l | k in statements && l in statements && statements[k].id == statements[l].id :: k == l)
    && (forall i, j | 0 <= i < j < |evidence| :: evidence[i].statement != evidence[j].statement)
    && StatementIds(statements) == EvidenceIds(evidence)
  }

  ghost predicate GoodTables(env: Env, t: Tables) {
    GoodSources(env, t) && AllBacked(t) && OneToOne(t.statements, t.evidence, t.nextId)
  }

  /** Snapshots may be stale in status, never in content. */
  ghost predicate GoodArchiving(t: Tables, pending: seq<PendingArchive>) {
    forall i | 0 <= i < |pending| ::
      pending[i].id in t.sources && t.sources[pending[i].id].rawHtml == pending[i].rawHtml
  }

  ghost predicate GoodSnapshots(t: Tables, snapshots: seq<Snapshot>) {
    forall i | 0 <= i < |snapshots| ::
      snapshots[i].source in t.sources && t.sources[snapshots[i].source].rawText == Some(snapshots[i].rawText)
  }

  ghost predicate GoodVerifying(t: Tables, pending: seq<PendingVerification>) {
    forall i | 0 <= i < |pending| :: pending[i].id in t.sources && t.sources[pending[i].id].rawText.Some?
  }

  ghost predicate Inv(env: Env, w: World) {
    && GoodTables(env, w.db)
    && (forall k :: k in w.archiving ==> GoodArchiving(w.db, w.archiving[k]))
    && (forall k :: k in w.extracting ==> GoodSnapshots(w.db, w.extracting[k]))
    && (forall k :: k in w.verifying ==> GoodVerifying(w.db, w.verifying[k]))
  }

  /** What no step ever takes back. */
  ghost predicate Keeps(t: Tables, t': Tables) {
    && (forall id :: id in t.sources ==> id in t'.sources && KeepsSource(t.sources[id], t'.sources[id]))
    && Extends(t, t')
    && t.log <= t'.log
  }

  ghost predicate KeepsSource(s: Source, s': Source) {
    && s'.url == s.url && s'.contentHash == s.contentHash && s'.rawHtml == s.rawHtml && s'.publisher == s.publisher
    && (s.rawText.Some? ==> s'.rawText == s.rawText)
  }

  lemma KeepsTransitive(a: Tables, b: Tables, c: Tables)
    requires Keeps(a, b) && Keeps(b, c)
    ensures Keeps(a, c)
  {
    ExtendsTransitive(a, b, c);
    forall id | id in a.sources ensures id in c.sources && KeepsSource(a.sources[id], c.sources[id]) {
      assert KeepsSource(a.sources[id], b.sources[id]) && KeepsSource(b.sources[id], c.sources[id]);
    }
  }

  lemma SnapshotsStayGood(env: Env, w: World, t: Tables)
    requires Inv(env, w) && GoodTables(env, t) && Keeps(w.db, t)
    ensures Inv(env, w.(db := t))
  {
    forall k | k in w.archiving ensures GoodArchiving(t, w.archiving[k]) {
      assert GoodArchiving(w.db, w.archiving[k]);
    }
    forall k | k in w.extracting ensures GoodSnapshots(t, w.extracting[k]) {
      assert GoodSnapshots(w.db, w.extracting[k]);
    }
    forall k | k in w.verifying ensures GoodVerifying(t, w.verifying[k]) {
      assert GoodVerifying(w.db, w.verifying[k]);
    }
  }

  lemma BackedPersists(t: Tables, t': Tables, e: Evidence)
    requires Backed(t, e) && Keeps(t, t')
    ensures Backed(t', e)
  {
    assert KeepsSource(t.sources[e.source], t'.sources[e.source]);
  }

  // ------------------------------------------------------------------
  // collect
  // ------------------------------------------------------------------

  /** Changing sources, the log or the id supply leaves evidence backed. */
  lemma SameEvidenceGood(env: Env, t: Tables, t': Tables)
    requires GoodTables(env, t) && Keeps(t, t') && GoodSources(env, t')
    requires t'.statements == t.statements && t'.evidence == t.evidence
    ensures GoodTables(env, t')
  {
    forall i | 0 <= i < |t'.evidence| ensures Backed(t', t'.evidence[i]) {
      BackedPersists(t, t', t.evidence[i]);
    }
  }

  lemma CollectItemGood(env: Env, t: Tables, item: Item)
    requires GoodTables(env, t)
    ensures GoodTables(env, CollectItem(env, t, item)) && Keeps(t, CollectItem(env, t, item))
  {
    if CollectItem(env, t, item) != t {
      NewSourceGood(env, t, Source(item.url, env.sha256(item.html), env.compress(item.html), None, item.publisher, Collected));
    }
  }

  lemma NewSourceGood(env: Env, t: Tables, row: Source)
    requires GoodTables(env, t) && row.rawText.None? && row.status == Collected
    ensures var t' := t.(sources := t.sources[t.nextId := row], nextId := t.nextId + 1);
            GoodTables(env, t') && Keeps(t, t')
  {
    SameEvidenceGood(env, t, t.(sources := t.sources[t.nextId := row], nextId := t.nextId + 1));
  }

  lemma {:induction false} CollectGood(env: Env, t: Tables, items: seq<Item>)
    requires GoodTables(env, t)
    ensures GoodTables(env, CollectAll(env, t, items)) && Keeps(t, CollectAll(env, t, items))
  {
    if items != [] {
      var n := |items| - 1;
      CollectGood(env, t, items[..n]);
      CollectItemGood(env, CollectAll(env, t, items[..n]), items[n]);
      KeepsTransitive(t, CollectAll(env, t, items[..n]), CollectAll(env, t, items));
    }
  }

  // ------------------------------------------------------------------
  // archive
  // ------------------------------------------------------------------

  /** One source row replaced by one that keeps what must be kept. */
  lemma SourceUpdateGood(env: Env, t: Tables, t': Tables, id: Id)
    requires GoodTables(env, t) && id in t.sources
    requires t' == t.(sources := t'.sources, log := t'.log) && t.log <= t'.log
    requires t'.sources.Keys == t.sources.Keys
    requires forall i | i in t.sources && i != id :: t'.sources[i] == t.sources[i]
    requires GoodSource(env, t'.sources[id]) && KeepsSource(t.sources[id], t'.sources[id])
    ensures GoodTables(env, t') && Keeps(t, t')
  {
    assert Extends(t, t');
    assert GoodSources(env, t');
    SameEvidenceGood(env, t, t');
  }

  lemma ArchiveItemGood(env: Env, t: Tables, p: PendingArchive)
    requires GoodTables(env, t) && p.id in t.sources && t.sources[p.id].rawHtml == p.rawHtml
    requires ArchiveItem(env, t, p).Some?
    ensures GoodTables(env, ArchiveItem(env, t, p).value) && Keeps(t, ArchiveItem(env, t, p).value)
  {
    assert GoodSource(env, t.sources[p.id]);
    SourceUpdateGood(env, t, ArchiveItem(env, t, p).value, p.id);
  }

  lemma {:induction false} ArchiveGood(env: Env, t: Tables, pending: seq<PendingArchive>)
    requires GoodTables(env, t) && GoodArchiving(t, pending) && ArchiveAll(env, t, pending).Some?
    ensures GoodTables(env, ArchiveAll(env, t, pending).value) && Keeps(t, ArchiveAll(env, t, pending).value)
  {
    if pending != [] {
      var n := |pending| - 1;
      ArchiveGood(env, t, pending[..n]);
      var t' := ArchiveAll(env, t, pending[..n]).value;
      assert KeepsSource(t.sources[pending[n].id], t'.sources[pending[n].id]);
      ArchiveItemGood(env, t', pending[n]);
      KeepsTransitive(t, t', ArchiveAll(env, t, pending).value);
    }
  }

  // ------------------------------------------------------------------
  // verify
  // ------------------------------------------------------------------

  lemma VerifyItemGood(env: Env, t: Tables, p: PendingVerification, outcome: Outcome)
    requires GoodTables(env, t) && p.id in t.sources && t.sources[p.id].rawText.Some?
    ensures GoodTables(env, VerifyItem(t, p, outcome)) && Keeps(t, VerifyItem(t, p, outcome))
  {
    assert GoodSource(env, t.sources[p.id]);
    SourceUpdateGood(env, t, VerifyItem(t, p, outcome), p.id);
  }

  lemma {:induction false} VerifyGood(env: Env, t: Tables, pending: seq<PendingVerification>, outcomes: seq<Outcome>)
    requires GoodTables(env, t) && GoodVerifying(t, pending) && |pending| == |outcomes|
    ensures GoodTables(env, VerifyAll(t, pending, outcomes)) && Keeps(t, VerifyAll(t, pending, outcomes))
  {
    if pending != [] {
      var n := |pending| - 1;
      VerifyGood(env, t, pending[..n], outcomes[..n]);
      var t' := VerifyAll(t, pending[..n], outcomes[..n]);
      assert KeepsSource(t.sources[pending[n].id], t'.sources[pending[n].id]);
      VerifyItemGood(env, t', pending[n], outcomes[n]);
      KeepsTransitive(t, t', VerifyAll(t, pending, outcomes));
    }
  }

  // ------------------------------------------------------------------
  // extract
  // ------------------------------------------------------------------

  ghost predicate Holds(t: Tables, source: Id, rawText: Bytes) {
    source in t.sources && t.sources[source].rawText == Some(rawText)
  }

  lemma NewRowBacked(t: Tables, source: Id, rawText: Bytes, f: Fact, e: Evidence)
    requires Holds(t, source, rawText) && Accepted(rawText, f)
    requires e.source == source && e.excerpt == f.excerpt && e.start == f.start && e.end == f.end
    ensures Backed(t, e)
  {
  }

  lemma NewStatementOneToOne(statements: map<StatementKey, Statement>, evidence: seq<Evidence>, nextId: Id,
                             key: StatementKey, confidence: real, e: Evidence)
    requires OneToOne(statements, evidence, nextId) && key !in statements && e.statement == nextId
    ensures OneToOne(statements[key := Statement(nextId, confidence)], evidence + [e], nextId + 1)
  {
    var statements' := statements[key := Statement(nextId, confidence)];
    assert nextId !in StatementIds(statements);
    forall i | 0 <= i < |evidence| ensures evidence[i].statement != nextId {
      assert evidence[i] in evidence && evidence[i].statement in EvidenceIds(evidence);
    }
    forall id | id in StatementIds(statements) ensures id in StatementIds(statements') {
      var k :| k in statements && statements[k].id == id;
      assert k in statements' && statements'[k].id == id;
    }
    assert statements'[key].id == nextId;
    assert StatementIds(statements') == StatementIds(statements) + {nextId};
    assert EvidenceIds(evidence + [e]) == EvidenceIds(evidence) + {nextId};
  }

  lemma NewStatementGood(env: Env, t: Tables, source: Id, rawText: Bytes, subject: Id, property: Id, f: Fact)
    requires GoodTables(env, t) && Holds(t, source, rawText) && Accepted(rawText, f)
    requires InsertStatement(env, t, source, subject, property, f).Done?
    requires InsertStatement(env, t, source, subject, property, f).inserted
    ensures GoodTables(env, InsertStatement(env, t, source, subject, property, f).tables)
  {
    var t' := InsertStatement(env, t, source, subject, property, f).tables;
    var n := |t.evidence|;
    var key := StatementKey(subject, property, env.cast(Resolve(env, f).valueType, f.value).value);
    var e := t'.evidence[n];
    assert t'.evidence == t.evidence + [e];
    NewStatementOneToOne(t.statements, t.evidence, t.nextId, key, Store.Confidence(f), e);
    NewRowBacked(t', source, rawText, f, e);
    forall i | 0 <= i < |t'.evidence| ensures Backed(t', t'.evidence[i]) {
      if i < n {
        assert Backed(t, t.evidence[i]);
      }
    }
  }

  lemma AddsKeeps(t: Tables, t': Tables)
    requires Adds(t, t')
    ensures Keeps(t, t')
  {
  }

  lemma EnsureEntityGood(env: Env, t: Tables, extId: string)
    requires GoodTables(env, t)
    ensures GoodTables(env, EnsureEntity(t, extId))
  {
    EnsureEntityAdds(t, extId);
    AddsKeeps(t, EnsureEntity(t, extId));
    SameEvidenceGood(env, t, EnsureEntity(t, extId));
  }

  lemma EnsurePropertyGood(env: Env, t: Tables, f: Fact)
    requires GoodTables(env, t)
    ensures GoodTables(env, EnsureProperty(env, t, f)) && EnsureProperty(env, t, f).sources == t.sources
  {
    EnsurePropertyAdds(env, t, f);
    AddsKeeps(t, EnsureProperty(env, t, f));
    SameEvidenceGood(env, t, EnsureProperty(env, t, f));
  }

  lemma InsertStatementGood(env: Env, t: Tables, source: Id, rawText: Bytes, subject: Id, property: Id, f: Fact)
    requires GoodTables(env, t) && Holds(t, source, rawText) && Accepted(rawText, f)
    requires InsertStatement(env, t, source, subject, property, f).Done?
    ensures GoodTables(env, InsertStatement(env, t, source, subject, property, f).tables)
  {
    if InsertStatement(env, t, source, subject, property, f).inserted {
      NewStatementGood(env, t, source, rawText, subject, property, f);
    }
  }

  lemma InsertFactGood(env: Env, t: Tables, source: Id, rawText: Bytes, f: Fact)
    requires GoodTables(env, t) && Holds(t, source, rawText) && Accepted(rawText, f)
    requires InsertFact(env, t, source, f).Done?
    ensures GoodTables(env, InsertFact(env, t, source, f).tables)
  {
    var extId := SubjectExtId(env, f);
    var t1 := EnsureEntity(t, extId);
    var t2 := EnsureProperty(env, t1, f);
    EnsureEntityGood(env, t, extId);
    EnsurePropertyGood(env, t1, f);
    var property := LookupProperty(t2, Resolve(env, f).slug);
    if property.Some? {
      assert extId in t2.entities;
      InsertStatementGood(env, t2, source, rawText, t2.entities[extId], property.value, f);
    }
  }

  lemma {:induction false} WriteFactsGood(env: Env, t: Tables, source: Id, rawText: Bytes, facts: seq<Fact>)
    requires GoodTables(env, t) && Holds(t, source, rawText)
    requires WriteFacts(env, t, source, rawText, facts).Written?
    ensures var t' := WriteFacts(env, t, source, rawText, facts).tables;
            GoodTables(env, t') && Keeps(t, t') && Holds(t', source, rawText)
  {
    WriteFactsAdds(env, t, source, rawText, facts);
    if facts != [] {
      var n := |facts| - 1;
      WriteFactsGood(env, t, source, rawText, facts[..n]);
      if Accepted(rawText, facts[n]) {
        InsertFactGood(env, WriteFacts(env, t, source, rawText, facts[..n]).tables, source, rawText, facts[n]);
      }
    }
  }

  lemma MarkExtractedGood(env: Env, t: Tables, source: Id)
    requires GoodTables(env, t) && source in t.sources && t.sources[source].rawText.Some?
    ensures GoodTables(env, MarkExtracted(t, source)) && Keeps(t, MarkExtracted(t, source))
  {
    assert GoodSource(env, t.sources[source]);
    SourceUpdateGood(env, t, MarkExtracted(t, source), source);
  }

  // ------------------------------------------------------------------
  // corroborate
  // ------------------------------------------------------------------

  lemma SameIdsOneToOne(statements: map<StatementKey, Statement>, statements': map<StatementKey, Statement>, evidence: seq<Evidence>, nextId: Id)
    requires OneToOne(statements, evidence, nextId) && statements'.Keys == statements.Keys
    requires forall k | k in statements :: statements'[k].id == statements[k].id
    ensures OneToOne(statements', evidence, nextId)
  {
    forall id ensures id in StatementIds(statements) <==> id in StatementIds(statements') {
      if id in StatementIds(statements) {
        var k :| k in statements && statements[k].id == id;
        assert k in statements' && statements'[k].id == id;
      }
      if id in StatementIds(statements') {
        var k :| k in statements' && statements'[k].id == id;
        assert k in statements && statements[k].id == id;
      }
    }
    assert StatementIds(statements) == StatementIds(statements');
  }

  lemma CorroborateGood(env: Env, names: Names, t: Tables, rows: seq<Evidence>)
    requires GoodTables(env, t) && HasSources(t, rows)
    ensures GoodTables(env, CorroborateAll(names, t, rows)) && Keeps(t, CorroborateAll(names, t, rows))
  {
    var t' := CorroborateAll(names, t, rows);
    NewConfidencesGood(env, t, t'.statements);
  }

  lemma NewConfidencesGood(env: Env, t: Tables, statements: map<StatementKey, Statement>)
    requires GoodTables(env, t) && statements.Keys == t.statements.Keys
    requires forall k | k in statements :: statements[k].id == t.statements[k].id
    ensures GoodTables(env, t.(statements := statements)) && Keeps(t, t.(statements := statements))
  {
    var t' := t.(statements := statements);
    SameIdsOneToOne(t.statements, statements, t.evidence, t.nextId);
    SameEvidenceBacked(t, t');
    NewConfidencesKeep(t, statements);
  }

  lemma SameEvidenceBacked(t: Tables, t': Tables)
    requires AllBacked(t) && t'.sources == t.sources && t'.evidence == t.evidence
    ensures AllBacked(t')
  {
    forall i | 0 <= i < |t'.evidence| ensures Backed(t', t'.evidence[i]) {
      assert Backed(t, t.evidence[i]);
    }
  }

  lemma NewConfidencesKeep(t: Tables, statements: map<StatementKey, Statement>)
    requires statements.Keys == t.statements.Keys && forall k | k in statements :: statements[k].id == t.statements[k].id
    ensures Keeps(t, t.(statements := statements))
  {
  }

  // ------------------------------------------------------------------
  // Reads
  // ------------------------------------------------------------------

  lemma {:induction false} ReadPendingGood(t: Tables, ids: seq<Id>)
    ensures GoodArchiving(t, ReadPending(t, ids))
  {
    if ids != [] {
      ReadPendingGood(t, ids[..|ids| - 1]);
    }
  }

  lemma {:induction false} ReadSnapshotsGood(t: Tables, ids: seq<Id>)
    ensures GoodSnapshots(t, ReadSnapshots(t, ids))
  {
    if ids != [] {
      ReadSnapshotsGood(t, ids[..|ids| - 1]);
    }
  }

  lemma {:induction false} ReadVerifiableGood(env: Env, t: Tables, ids: seq<Id>)
    requires GoodSources(env, t)
    ensures GoodVerifying(t, ReadVerifiable(t, ids))
  {
    if ids != [] {
      ReadVerifiableGood(env, t, ids[..|ids| - 1]);
    }
  }

  // ------------------------------------------------------------------
  // Every step, every run
  // ------------------------------------------------------------------

  lemma WriteExtractedGood(env: Env, t: Tables, source: Id, rawText: Bytes, facts: seq<Fact>)
    requires GoodTables(env, t) && Holds(t, source, rawText)
    requires WriteExtracted(env, t, source, rawText, facts).Some?
    ensures var t' := WriteExtracted(env, t, source, rawText, facts).value;
            GoodTables(env, t') && Keeps(t, t')
  {
    var t' := WriteFacts(env, t, source, rawText, facts).tables;
    WriteFactsGood(env, t, source, rawText, facts);
    MarkExtractedGood(env, t', source);
    KeepsTransitive(t, t', MarkExtracted(t', source));
  }

  lemma ExtractNextTables(env: Env, w: World, worker: Worker, facts: seq<Fact>)
    requires worker in w.extracting && w.extracting[worker] != []
    ensures var s := w.extracting[worker][0];
            var r := WriteExtracted(env, w.db, s.source, s.rawText, facts);
            ExtractNext(env, w, worker, facts).db == if s.rawText == [] || r.None? then w.db else r.value
  {
  }

  ghost predicate Progress(env: Env, t: Tables, t': Tables) {
    GoodTables(env, t') && Keeps(t, t')
  }

  lemma NoProgress(env: Env, t: Tables)
    requires GoodTables(env, t)
    ensures Progress(env, t, t)
  {
  }

  lemma ExtractNextKeeps(env: Env, w: World, worker: Worker, facts: seq<Fact>)
    requires GoodTables(env, w.db) && worker in w.extracting && w.extracting[worker] != []
    requires GoodSnapshots(w.db, w.extracting[worker])
    ensures Progress(env, w.db, ExtractNext(env, w, worker, facts).db)
  {
    var s := w.extracting[worker][0];
    assert Holds(w.db, s.source, s.rawText);
    ExtractNextTables(env, w, worker, facts);
    NoProgress(env, w.db);
    if WriteExtracted(env, w.db, s.source, s.rawText, facts).Some? {
      WriteExtractedGood(env, w.db, s.source, s.rawText, facts);
    }
  }

  lemma ArchiveNextKeeps(env: Env, w: World, worker: Worker)
    requires GoodTables(env, w.db) && (worker in w.archiving ==> GoodArchiving(w.db, w.archiving[worker]))
    ensures Progress(env, w.db, ArchiveNext(env, w, worker).db)
  {
    NoProgress(env, w.db);
    if worker in w.archiving && ArchiveAll(env, w.db, w.archiving[worker]).Some? {
      ArchiveGood(env, w.db, w.archiving[worker]);
    }
  }

  lemma VerifyNextKeeps(env: Env, w: World, worker: Worker, outcomes: seq<Outcome>)
    requires GoodTables(env, w.db) && (worker in w.verifying ==> GoodVerifying(w.db, w.verifying[worker]))
    ensures Progress(env, w.db, VerifyNext(w, worker, outcomes).db)
  {
    NoProgress(env, w.db);
    if worker in w.verifying && |outcomes| == |w.verifying[worker]| {
      VerifyGood(env, w.db, w.verifying[worker], outcomes);
    }
  }

  lemma CorroborateNextKeeps(env: Env, names: Names, w: World, rows: seq<Evidence>)
    requires GoodTables(env, w.db)
    ensures Progress(env, w.db, CorroborateNext(names, w, rows).db)
  {
    NoProgress(env, w.db);
    if HasSources(w.db, rows) {
      CorroborateGood(env, names, w.db, rows);
    }
  }

  lemma TablesStep(env: Env, names: Names, w: World, step: Step)
    requires Inv(env, w)
    ensures Progress(env, w.db, Apply(env, names, w, step).db)
  {
    match step {
      case Collect(items) => CollectGood(env, w.db, items);
      case ArchiveWrite(worker) => ArchiveNextKeeps(env, w, worker);
      case ExtractWrite(worker, facts) =>
        if worker in w.extracting && w.extracting[worker] != [] {
          ExtractNextKeeps(env, w, worker, facts);
        } else {
          NoProgress(env, w.db);
        }
      case VerifyWrite(worker, outcomes) => VerifyNextKeeps(env, w, worker, outcomes);
      case Corroborate(rows) => CorroborateNextKeeps(env, names, w, rows);
      case _ => NoProgress(env, w.db);
    }
  }

  lemma ShorterSnapshotsGood(t: Tables, extracting: map<Worker, seq<Snapshot>>, worker: Worker)
    requires forall k :: k in extracting ==> GoodSnapshots(t, extracting[k])
    requires worker in extracting && extracting[worker] != []
    ensures var rest := extracting[worker := extracting[worker][1..]];
            forall k :: k in rest ==> GoodSnapshots(t, rest[k])
  {
    var rest := extracting[worker := extracting[worker][1..]];
    forall k | k in rest ensures GoodSnapshots(t, rest[k]) {
      assert GoodSnapshots(t, extracting[k]);
    }
  }

  lemma ExtractNextGood(env: Env, w: World, worker: Worker, facts: seq<Fact>)
    requires Inv(env, w) && worker in w.extracting && w.extracting[worker] != []
    ensures Inv(env, ExtractNext(env, w, worker, facts))
  {
    var w' := ExtractNext(env, w, worker, facts);
    assert GoodSnapshots(w.db, w.extracting[worker]);
    ExtractNextKeeps(env, w, worker, facts);
    SnapshotsStayGood(env, w, w'.db);
    ExtractNextShape(env, w, worker, facts);
    OneSnapshotDone(env, w.(db := w'.db), worker, w'.everExtracted);
    ExtractionDropped(env, w, worker);
  }

  /** Either the next snapshot is done or, after a rollback, the pass is over. */
  lemma ExtractNextShape(env: Env, w: World, worker: Worker, facts: seq<Fact>)
    requires worker in w.extracting && w.extracting[worker] != []
    ensures var w' := ExtractNext(env, w, worker, facts);
            || w' == w.(db := w'.db, extracting := w.extracting[worker := w.extracting[worker][1..]], everExtracted := w'.everExtracted)
            || w' == w.(extracting := w.extracting - {worker})
  {
  }

  lemma ExtractionDropped(env: Env, w: World, worker: Worker)
    requires Inv(env, w)
    ensures Inv(env, w.(extracting := w.extracting - {worker}))
  {
  }

  lemma OneSnapshotDone(env: Env, w: World, worker: Worker, everExtracted: set<Id>)
    requires Inv(env, w) && worker in w.extracting && w.extracting[worker] != []
    ensures Inv(env, w.(extracting := w.extracting[worker := w.extracting[worker][1..]], everExtracted := everExtracted))
  {
    ShorterSnapshotsGood(w.db, w.extracting, worker);
  }

  lemma SnapshotsStep(env: Env, names: Names, w: World, step: Step)
    requires Inv(env, w)
    ensures Inv(env, Apply(env, names, w, step))
  {
    match step {
      case ArchiveRead(worker, ids) => ReadPendingGood(w.db, ids);
      case ExtractRead(worker, ids) => ReadSnapshotsGood(w.db, ids);
      case VerifyRead(worker, ids) => ReadVerifiableGood(env, w.db, ids);
      case ExtractWrite(worker, facts) =>
        if worker in w.extracting && w.extracting[worker] != [] {
          ExtractNextGood(env, w, worker, facts);
        }
      case Collect(items) => TablesOnly(env, names, w, step);
      case Corroborate(rows) => TablesOnly(env, names, w, step);
      case ArchiveWrite(worker) =>
        TablesOnly(env, names, w, step);
        FewerPassesGood(env, w.(db := Apply(env, names, w, step).db), worker);
      case VerifyWrite(worker, outcomes) =>
        TablesOnly(env, names, w, step);
        FewerPassesGood(env, w.(db := Apply(env, names, w, step).db), worker);
      case Abandon(worker) => FewerPassesGood(env, w, worker);
    }
  }

  lemma TablesOnly(env: Env, names: Names, w: World, step: Step)
    requires Inv(env, w)
    ensures Inv(env, w.(db := Apply(env, names, w, step).db))
  {
    TablesStep(env, names, w, step);
    SnapshotsStayGood(env, w, Apply(env, names, w, step).db);
  }

  /** A pass that ends takes its snapshots with it. */
  lemma FewerPassesGood(env: Env, w: World, worker: Worker)
    requires Inv(env, w)
    ensures Inv(env, w.(archiving := w.archiving - {worker}))
    ensures Inv(env, w.(verifying := w.verifying - {worker}))
    ensures Inv(env, w.(archiving := w.archiving - {worker}, extracting := w.extracting - {worker}, verifying := w.verifying - {worker}))
  {
  }

  lemma InitialGood(env: Env, globalProperties: map<string, Id>)
    ensures Inv(env, Initial(globalProperties))
  {
  }

  lemma {:induction false} RunKeeps(env: Env, names: Names, w: World, steps: seq<Step>)
    requires Inv(env, w)
    ensures Inv(env, Run(env, names, w, steps)) && Keeps(w.db, Run(env, names, w, steps).db)
  {
    if steps != [] {
      var n := |steps| - 1;
      var before := Run(env, names, w, steps[..n]);
      RunKeeps(env, names, w, steps[..n]);
      SnapshotsStep(env, names, before, steps[n]);
      TablesStep(env, names, before, steps[n]);
      KeepsTransitive(w.db, before.db, Run(env, names, w, steps).db);
    }
  }

  lemma {:induction false} RunAppend(env: Env, names: Names, w: World, steps: seq<Step>, more: seq<Step>)
    ensures Run(env, names, w, steps + more) == Run(env, names, Run(env, names, w, steps), more)
  {
    if more == [] {
      assert steps + more == steps;
    } else {
      assert (steps + more)[..|steps + more| - 1] == steps + more[..|more| - 1];
      RunAppend(env, names, w, steps, more[..|more| - 1]);
    }
  }

  /** In every state any interleaving can reach, every stored excerpt is, rune for rune,
      its source's text between the stored offsets, and is not empty. */
  lemma EvidenceInvariant(env: Env, names: Names, globalProperties: map<string, Id>, steps: seq<Step>, i: nat)
    requires i < |Run(env, names, Initial(globalProperties), steps).db.evidence|
    ensures var t := Run(env, names, Initial(globalProperties), steps).db;
            var e := t.evidence[i];
            && e.source in t.sources && t.sources[e.source].rawText.Some?
            && var text := Decode(t.sources[e.source].rawText.value);
            && 0 <= e.start < e.end <= |text|
            && Decode(e.excerpt) == text[e.start..e.end]
            && Valid(e.excerpt) && Encode(text[e.start..e.end]) == e.excerpt
  {
    var t := Run(env, names, Initial(globalProperties), steps).db;
    var e := t.evidence[i];
    InitialGood(env, globalProperties);
    RunKeeps(env, names, Initial(globalProperties), steps);
    assert Backed(t, e) && GoodSource(env, t.sources[e.source]);
    var raw := t.sources[e.source].rawText.value;
    StrippedShape(env.decompress(t.sources[e.source].rawHtml).value);
    WorkerVerifyIsSubstring(raw, e.excerpt, e.start, e.end);
    EncodeDecode(e.excerpt);
  }

  /** For ever: an evidence row, once stored, is stored unchanged in every later state,
      and the text it was checked against is still its source's text. */
  lemma EvidenceForEver(env: Env, names: Names, globalProperties: map<string, Id>, steps: seq<Step>, more: seq<Step>, i: nat)
    requires i < |Run(env, names, Initial(globalProperties), steps).db.evidence|
    ensures var t := Run(env, names, Initial(globalProperties), steps).db;
            var t' := Run(env, names, Initial(globalProperties), steps + more).db;
            && t.evidence <= t'.evidence && t.log <= t'.log
            && t'.evidence[i] == t.evidence[i]
            && var id := t.evidence[i].source;
            && id in t.sources && id in t'.sources
            && t'.sources[id].rawText == t.sources[id].rawText && t'.sources[id].rawHtml == t.sources[id].rawHtml
            && Backed(t', t.evidence[i])
  {
    var w := Run(env, names, Initial(globalProperties), steps);
    InitialGood(env, globalProperties);
    RunKeeps(env, names, Initial(globalProperties), steps);
    RunKeeps(env, names, w, more);
    RunAppend(env, names, Initial(globalProperties), steps, more);
    var t' := Run(env, names, w, more).db;
    assert Backed(w.db, w.db.evidence[i]);
    BackedPersists(w.db, t', w.db.evidence[i]);
    assert KeepsSource(w.db.sources[w.db.evidence[i].source], t'.sources[w.db.evidence[i].source]);
  }

  ghost predicate ExactlyOneRow(evidence: seq<Evidence>, statement: Id) {
    exists i | 0 <= i < |evidence| :: evidence[i].statement == statement &&
      forall j | 0 <= j < |evidence| && evidence[j].statement == statement :: j == i
  }

  lemma OneRowEach(statements: map<StatementKey, Statement>, evidence: seq<Evidence>, nextId: Id, k: StatementKey)
    requires OneToOne(statements, evidence, nextId) && k in statements
    ensures ExactlyOneRow(evidence, statements[k].id)
  {
    assert statements[k].id in StatementIds(statements);
    var e :| e in evidence && e.statement == statements[k].id;
    var i :| 0 <= i < |evidence| && evidence[i] == e;
  }

  /** In every reachable state each statement has exactly one evidence row. */
  lemma EvidenceOneToOne(env: Env, names: Names, globalProperties: map<string, Id>, steps: seq<Step>, k: StatementKey)
    requires k in Run(env, names, Initial(globalProperties), steps).db.statements
    ensures var t := Run(env, names, Initial(globalProperties), steps).db;
            ExactlyOneRow(t.evidence, t.statements[k].id)
  {
    var t := Run(env, names, Initial(globalProperties), steps).db;
    InitialGood(env, globalProperties);
    RunKeeps(env, names, Initial(globalProperties), steps);
    OneRowEach(t.statements, t.evidence, t.nextId, k);
  }

  lemma RowsAreEvidence(evidence: seq<Evidence>, rows: seq<Evidence>)
    requires multiset(rows) <= multiset(evidence)
    ensures forall e | e in rows :: e in evidence
  {
    forall e | e in rows ensures e in evidence {
      assert e in multiset(rows) && e in multiset(evidence);
    }
  }

  lemma RowsStayDistinct(evidence: seq<Evidence>, rows: seq<Evidence>, i: nat, j: nat)
    requires multiset(rows) <= multiset(evidence) && i < j < |rows|
    requires forall i, j | 0 <= i < j < |evidence| :: evidence[i].statement != evidence[j].statement
    ensures rows[i].statement != rows[j].statement
  {
    RowsAreEvidence(evidence, rows);
    if rows[i] == rows[j] {
      Order.CountedTwice(rows, i, j);
      Order.OnceInList(evidence, rows[i]);
    } else {
      assert rows[i] in evidence && rows[j] in evidence;
    }
  }

  lemma RowsHaveSources(t: Tables, rows: seq<Evidence>)
    requires AllBacked(t) && multiset(rows) <= multiset(t.evidence)
    ensures HasSources(t, rows)
  {
    RowsAreEvidence(t.evidence, rows);
    forall e | e in rows ensures e.source in t.sources {
      assert e in t.evidence;
      var i :| 0 <= i < |t.evidence| && t.evidence[i] == e;
      assert Backed(t, t.evidence[i]);
    }
  }

  /** So a corroboration pass, in whatever reachable state and over whichever rows its
      query returns, leaves no confidence it computes above one half: the ceilings for
      two and more sources are out of the pipeline's reach. */
  lemma CorroborationNeverExceedsHalf(env: Env, names: Names, globalProperties: map<string, Id>, steps: seq<Step>,
                                      rows: seq<Evidence>, k: StatementKey)
    requires var t := Run(env, names, Initial(globalProperties), steps).db;
             && multiset(rows) <= multiset(t.evidence)
             && k in t.statements && exists e | e in rows :: e.statement == t.statements[k].id
    ensures var t := Run(env, names, Initial(globalProperties), steps).db;
            HasSources(t, rows) && CorroborateAll(names, t, rows).statements[k].confidence <= 0.5
  {
    InitialGood(env, globalProperties);
    RunKeeps(env, names, Initial(globalProperties), steps);
    var t := Run(env, names, Initial(globalProperties), steps).db;
    RowsHaveSources(t, rows);
    forall i, j | 0 <= i < j < |rows| ensures rows[i].statement != rows[j].statement {
      RowsStayDistinct(t.evidence, rows, i, j);
    }
    LoneEvidenceAtMostHalf(names, t, rows, k);
  }

  /** A fact list written at any time, the source marked as the write marks it, and written
      again at any later time of the same run adds nothing, unless it holds a label that could
      not create its property. */
  lemma RewriteLaterInRun(env: Env, names: Names, w: World, steps: seq<Step>, source: Id, rawText: Bytes, facts: seq<Fact>)
    requires Inv(env, w)
    requires WriteExtracted(env, w.db, source, rawText, facts).Some?
    requires Holds(w.db, source, rawText)
    requires forall f :: f in facts ==> !MayOnlyPropose(env, f)
    ensures var w1 := w.(db := WriteExtracted(env, w.db, source, rawText, facts).value);
            var t := Run(env, names, w1, steps).db;
            WriteExtracted(env, t, source, rawText, facts) == Some(t)
  {
    var t1 := WriteExtracted(env, w.db, source, rawText, facts).value;
    WriteExtractedGood(env, w.db, source, rawText, facts);
    SnapshotsStayGood(env, w, t1);
    RunKeeps(env, names, w.(db := t1), steps);
    var t := Run(env, names, w.(db := t1), steps).db;
    MarkedExtends(WriteFacts(env, w.db, source, rawText, facts).tables, source, t1, t);
    KnownLabelsRewriteNothing(env, w.db, t, source, rawText, facts);
  }

  /** What extends the marked tables extends them unmarked. */
  lemma MarkedExtends(t: Tables, source: Id, t1: Tables, later: Tables)
    requires (t1 == t || t1 == MarkExtracted(t, source)) && Extends(t1, later)
    ensures Extends(t, later)
  {
  }
}
