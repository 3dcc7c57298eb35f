/**
 The tables of one tenant and what each worker's write transaction does to them.

 A row id is a UUID drawn by the worker; `nextId` stands for "never drawn before".
 A table whose inserts say ON CONFLICT DO NOTHING is a map from the columns of that
 constraint.  Calls into foreign code (zlib, SHA-256, SQL casts, the vocabulary)
 are the fields of `Env`, arbitrary functions.
 */
module Store {
  import opened Utf8
  import opened Wrappers
  import opened Excerpt
  import opened StripHtml
  import Text

  type Id = nat

  datatype Status = Collected | Archived | Extracted | Verified | LinkRot | ContentChanged

  datatype Source = Source(
    url: string,
    contentHash: string,
    rawHtml: Bytes,
    rawText: Option<Bytes>,
    publisher: string,
    status: Status)

  /** The one populated val_* column of a statement. */
  datatype Cell = TextCell(text: string) | NumberCell(number: real) | DateCell(instant: int) | EntityCell(entity: Id)

  /** uq_statements_content_hash */
  datatype StatementKey = StatementKey(subject: Id, property: Id, cell: Cell)

  datatype Statement = Statement(id: Id, confidence: real)

  /** A row of statement_sources. */
  datatype Evidence = Evidence(
    statement: Id,
    source: Id,
    excerpt: Bytes,
    start: int,
    end: int,
    extractionMethod: string,
    confidence: real)

  datatype Outcome = Live | Changed | Rot

  /** A row of source_verifications. */
  datatype Verification = Verification(source: Id, outcome: Outcome)

  datatype Tables = Tables(
    sources: map<Id, Source>,
    entities: map<string, Id>,
    properties: map<string, Id>,
    globalProperties: map<string, Id>,
    proposed: set<string>,
    statements: map<StatementKey, Statement>,
    evidence: seq<Evidence>,
    log: seq<Verification>,
    nextId: Id)

  /** What the vocabulary says about a label; the value type is already normalized. */
  datatype Resolved = Resolved(slug: string, valueType: string, known: bool)

  datatype Env = Env(
    compress: Bytes -> Bytes,
    decompress: Bytes -> Option<Bytes>,
    sha256: Bytes -> string,
    entityExtId: string -> string,
    resolve: (string, string) -> Resolved,
    strict: bool,
    cast: (string, string) -> Option<Cell>)

  function Empty(globalProperties: map<string, Id>): Tables {
    Tables(map[], map[], map[], globalProperties, {}, map[], [], [], 0)
  }

  // ------------------------------------------------------------------
  // collect
  // ------------------------------------------------------------------

  /** `refused` marks a row the database will not take; its savepoint is rolled back. */
  datatype Item = Item(url: string, html: Bytes, publisher: string, refused: bool)

  predicate KnownUrl(t: Tables, url: string) {
    exists id :: id in t.sources && t.sources[id].url == url
  }

  function CollectItem(env: Env, t: Tables, item: Item): Tables {
    if Text.TrimSpace(item.url) == "" || item.html == [] || item.refused || KnownUrl(t, item.url) then t
    else
      var row := Source(item.url, env.sha256(item.html), env.compress(item.html), None, item.publisher, Collected);
      t.(sources := t.sources[t.nextId := row], nextId := t.nextId + 1)
  }

  function CollectAll(env: Env, t: Tables, items: seq<Item>): Tables {
    if items == [] then t
    else CollectItem(env, CollectAll(env, t, items[..|items| - 1]), items[|items| - 1])
  }

  // ------------------------------------------------------------------
  // archive
  // ------------------------------------------------------------------

  datatype PendingArchive = PendingArchive(id: Id, rawHtml: Bytes)

  function ArchiveItem(env: Env, t: Tables, p: PendingArchive): Option<Tables> {
    match env.decompress(p.rawHtml)
    case None => None
    case Some(html) =>
      Some(if p.id !in t.sources then t
           else t.(sources := t.sources[p.id := t.sources[p.id].(rawText := Some(StripHTML(html)), status := Archived)]))
  }

  function ArchiveAll(env: Env, t: Tables, pending: seq<PendingArchive>): Option<Tables> {
    if pending == [] then Some(t)
    else
      match ArchiveAll(env, t, pending[..|pending| - 1])
      case None => None
      case Some(t') => ArchiveItem(env, t', pending[|pending| - 1])
  }

  // ------------------------------------------------------------------
  // verify
  // ------------------------------------------------------------------

  datatype PendingVerification = PendingVerification(id: Id, oldStatus: Status)

  function MapSourceStatus(outcome: Outcome, current: Status): Status {
    match outcome
    case Live => if current == Extracted then Extracted else Verified
    case Changed => ContentChanged
    case Rot => LinkRot
  }

  function VerifyItem(t: Tables, p: PendingVerification, outcome: Outcome): Tables {
    var t' := t.(log := t.log + [Verification(p.id, outcome)]);
    if p.id !in t.sources then t'
    else t'.(sources := t.sources[p.id := t.sources[p.id].(status := MapSourceStatus(outcome, p.oldStatus))])
  }

  function VerifyAll(t: Tables, pending: seq<PendingVerification>, outcomes: seq<Outcome>): Tables
    requires |pending| == |outcomes|
  {
    if pending == [] then t
    else
      var n := |pending| - 1;
      VerifyItem(VerifyAll(t, pending[..n], outcomes[..n]), pending[n], outcomes[n])
  }

  // ------------------------------------------------------------------
  // extract
  // ------------------------------------------------------------------

  function SubjectExtId(env: Env, f: Fact): string {
    env.entityExtId(if f.subject == "" then "unknown subject" else f.subject)
  }

  function EnsureEntity(t: Tables, extId: string): Tables {
    if extId in t.entities then t
    else t.(entities := t.entities[extId := t.nextId], nextId := t.nextId + 1)
  }

  /** The tenant's own property wins over the global one. */
  function LookupProperty(t: Tables, slug: string): Option<Id> {
    if slug in t.properties then Some(t.properties[slug])
    else if slug in t.globalProperties then Some(t.globalProperties[slug])
    else None
  }

  function Resolve(env: Env, f: Fact): Resolved {
    env.resolve(f.slug, f.valueType)
  }

  /** An unknown label in strict mode may use a property but never create one. */
  predicate MayOnlyPropose(env: Env, f: Fact) {
    !Resolve(env, f).known && env.strict
  }

  function EnsureProperty(env: Env, t: Tables, f: Fact): Tables {
    var slug := Resolve(env, f).slug;
    if LookupProperty(t, slug).Some? then t
    else if MayOnlyPropose(env, f) then t.(proposed := t.proposed + {slug})
    else t.(properties := t.properties[slug := t.nextId], nextId := t.nextId + 1)
  }

  function Confidence(f: Fact): real {
    if f.confidence.Some? then f.confidence.value else 0.5
  }

  datatype Insertion = Failed | Done(tables: Tables, inserted: bool)

  /** INSERT INTO statements ... ON CONFLICT DO NOTHING, then its evidence row.  A value
      the column cannot hold, a confidence outside [0, 1] or a dangling entity
      reference fails the transaction. */
  function InsertStatement(env: Env, t: Tables, source: Id, subject: Id, property: Id, f: Fact): Insertion {
    match env.cast(Resolve(env, f).valueType, f.value)
    case None => Failed
    case Some(cell) =>
      var key := StatementKey(subject, property, cell);
      if !(0.0 <= Confidence(f) <= 1.0) then Failed
      else if key in t.statements then Done(t, false)
      else if cell.EntityCell? && cell.entity !in t.entities.Values then Failed
      else
        var row := Evidence(t.nextId, source, f.excerpt, f.start, f.end, f.extractionMethod, Confidence(f));
        Done(t.(statements := t.statements[key := Statement(t.nextId, Confidence(f))],
                evidence := t.evidence + [row],
                nextId := t.nextId + 1),
             true)
  }

  function InsertFact(env: Env, t: Tables, source: Id, f: Fact): Insertion {
    var extId := SubjectExtId(env, f);
    var t1 := EnsureEntity(t, extId);
    var t2 := EnsureProperty(env, t1, f);
    match LookupProperty(t2, Resolve(env, f).slug)
    case None => Done(t2, false)
    case Some(property) => InsertStatement(env, t2, source, t2.entities[extId], property, f)
  }

  predicate Accepted(rawText: Bytes, f: Fact) {
    WorkerVerify(rawText, f.excerpt, f.start, f.end)
  }

  datatype Write = Aborted | Written(tables: Tables, accepted: nat)

  /** The fact loop of the write transaction. */
  function WriteFacts(env: Env, t: Tables, source: Id, rawText: Bytes, facts: seq<Fact>): Write {
    if facts == [] then Written(t, 0)
    else
      var f := facts[|facts| - 1];
      match WriteFacts(env, t, source, rawText, facts[..|facts| - 1])
      case Aborted => Aborted
      case Written(t', n) =>
        if !Accepted(rawText, f) then Written(t', n)
        else
          match InsertFact(env, t', source, f)
          case Failed => Aborted
          case Done(t'', inserted) => Written(t'', if inserted then n + 1 else n)
  }

  function MarkExtracted(t: Tables, source: Id): Tables {
    if source !in t.sources then t
    else t.(sources := t.sources[source := t.sources[source].(status := Extracted)])
  }

  /** `writeExtractedFacts`; None is a rolled-back transaction. */
  function WriteExtracted(env: Env, t: Tables, source: Id, rawText: Bytes, facts: seq<Fact>): Option<Tables> {
    match WriteFacts(env, t, source, rawText, facts)
    case Aborted => None
    case Written(t', n) => Some(if n > 0 then MarkExtracted(t', source) else t')
  }

  // ------------------------------------------------------------------
  // The database the workers write to
  // ------------------------------------------------------------------

  /** Each method is one write transaction: it works on a copy and commits it, or
      leaves the tables alone. */
  class Database {
    var tables: Tables

    constructor (globalProperties: map<string, Id>)
      ensures tables == Empty(globalProperties)
    {
      tables := Empty(globalProperties);
    }

    method Collect(env: Env, items: seq<Item>)
      modifies this
      ensures tables == CollectAll(env, old(tables), items)
    {
      var tx := tables;
      for i := 0 to |items|
        invariant tx == CollectAll(env, old(tables), items[..i])
        invariant tables == old(tables)
      {
        assert items[..i + 1][..i] == items[..i];
        tx := CollectItem(env, tx, items[i]);
      }
      assert items[..|items|] == items;
      tables := tx;
    }

    method ArchiveWrite(env: Env, pending: seq<PendingArchive>) returns (ok: bool)
      modifies this
      ensures ok <==> ArchiveAll(env, old(tables), pending).Some?
      ensures tables == if ok then ArchiveAll(env, old(tables), pending).value else old(tables)
    {
      var tx := tables;
      for i := 0 to |pending|
        invariant ArchiveAll(env, old(tables), pending[..i]) == Some(tx)
        invariant tables == old(tables)
      {
        assert pending[..i + 1][..i] == pending[..i];
        var next := ArchiveItem(env, tx, pending[i]);
        if next.None? {
          ArchiveAborts(env, tables, pending, i + 1);
          return false;
        }
        tx := next.value;
      }
      assert pending[..|pending|] == pending;
      tables := tx;
      return true;
    }

    method WriteExtractedFacts(env: Env, source: Id, rawText: Bytes, facts: seq<Fact>) returns (ok: bool)
      modifies this
      ensures ok <==> WriteExtracted(env, old(tables), source, rawText, facts).Some?
      ensures tables == if ok then WriteExtracted(env, old(tables), source, rawText, facts).value else old(tables)
    {
      if |facts| == 0 {
        return true;
      }
      var tx := tables;
      var acceptedFacts: nat := 0;
      for i := 0 to |facts|
        invariant WriteFacts(env, old(tables), source, rawText, facts[..i]) == Written(tx, acceptedFacts)
        invariant tables == old(tables)
      {
        assert facts[..i + 1][..i] == facts[..i];
        var f := facts[i];
        var verified := VerifyExcerptOffset(rawText, f.excerpt, f.start, f.end);
        if !verified {
          continue;
        }
        var r := InsertFact(env, tx, source, f);
        if r.Failed? {
          WriteAborts(env, tables, source, rawText, facts, i + 1);
          return false;
        }
        tx := r.tables;
        if r.inserted {
          acceptedFacts := acceptedFacts + 1;
        }
      }
      assert facts[..|facts|] == facts;
      if acceptedFacts > 0 {
        tx := MarkExtracted(tx, source);
      }
      tables := tx;
      return true;
    }

    method VerifyWrite(pending: seq<PendingVerification>, outcomes: seq<Outcome>)
      requires |pending| == |outcomes|
      modifies this
      ensures tables == VerifyAll(old(tables), pending, outcomes)
    {
      var tx := tables;
      for i := 0 to |pending|
        invariant tx == VerifyAll(old(tables), pending[..i], outcomes[..i])
        invariant tables == old(tables)
      {
        assert pending[..i + 1][..i] == pending[..i] && outcomes[..i + 1][..i] == outcomes[..i];
        tx := VerifyItem(tx, pending[i], outcomes[i]);
      }
      assert pending[..|pending|] == pending && outcomes[..|pending|] == outcomes;
      tables := tx;
    }
  }

  lemma {:induction false} ArchiveAborts(env: Env, t: Tables, pending: seq<PendingArchive>, i: nat)
    requires i <= |pending| && ArchiveAll(env, t, pending[..i]).None?
    ensures ArchiveAll(env, t, pending).None?
  {
    if i == |pending| {
      assert pending[..i] == pending;
    } else {
      assert pending[..|pending| - 1][..i] == pending[..i];
      ArchiveAborts(env, t, pending[..|pending| - 1], i);
    }
  }

  lemma {:induction false} WriteAborts(env: Env, t: Tables, source: Id, rawText: Bytes, facts: seq<Fact>, i: nat)
    requires i <= |facts| && WriteFacts(env, t, source, rawText, facts[..i]).Aborted?
    ensures WriteFacts(env, t, source, rawText, facts).Aborted?
  {
    if i == |facts| {
      assert facts[..i] == facts;
    } else {
      assert facts[..|facts| - 1][..i] == facts[..i];
      WriteAborts(env, t, source, rawText, facts[..|facts| - 1], i);
    }
  }
}
