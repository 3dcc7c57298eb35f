/** Runs from the empty store on which a promise fails: one page, two facts of one property. */
module Example {
  import opened Utf8
  import opened Wrappers
  import opened Excerpt
  import opened StripHtml
  import opened Store
  import opened Extraction
  import opened Corroboration
  import opened World
  import opened Replay
  import opened Bundle
  import Text

  /** A page that is its own text, and two facts of it: other spans, other values, one
      subject, one property that either label may create. */
  ghost predicate Scene(env: Env, page: Bytes, f: Fact, g: Fact) {
    && page != [] && env.decompress(env.compress(page)) == Some(page) && StripHTML(page) == page
    && Accepted(page, f) && Accepted(page, g) && f.excerpt != g.excerpt
    && f.subject == g.subject && Resolve(env, f).slug == Resolve(env, g).slug
    && !MayOnlyPropose(env, f) && !MayOnlyPropose(env, g) && Storable(env, f) && Storable(env, g)
    && env.cast(Resolve(env, f).valueType, f.value) != env.cast(Resolve(env, g).valueType, g.value)
  }

  // ------------------------------------------------------------------
  // The page is archived
  // ------------------------------------------------------------------

  function ItemOf(page: Bytes): Item {
    Item("u", page, "", false)
  }

  /** The source of the page, number 0. */
  function SourceOf(env: Env, page: Bytes): Source {
    Source("u", env.sha256(page), env.compress(page), None, "", Collected)
  }

  function CollectedTables(env: Env, page: Bytes): Tables {
    Empty(map[]).(sources := map[0 := SourceOf(env, page)], nextId := 1)
  }

  function ArchivedTables(env: Env, page: Bytes): Tables {
    Empty(map[]).(sources := map[0 := SourceOf(env, page).(rawText := Some(page), status := Archived)], nextId := 1)
  }

  function Start(page: Bytes): seq<Pass> {
    [CollectPass([ItemOf(page)]), ArchivePass([0])]
  }

  lemma StartSteps(page: Bytes)
    ensures AllSteps(Start(page)) == [Collect([ItemOf(page)])] + [ArchiveRead(0, [0]), ArchiveWrite(0)]
  {
    var collect := [CollectPass([ItemOf(page)])];
    assert Start(page)[..1] == collect && collect[..0] == [];
    assert AllSteps(collect) == [Collect([ItemOf(page)])];
  }

  lemma CollectsPage(env: Env, page: Bytes)
    requires page != []
    ensures CollectAll(env, Empty(map[]), [ItemOf(page)]) == CollectedTables(env, page)
  {
    assert [ItemOf(page)][..0] == [];
    assert Text.TrimSpace("u") == "u";
  }

  lemma ReadsPage(t: Tables)
    requires HasStatus(t, 0, {Collected})
    ensures ReadPending(t, [0]) == [PendingArchive(0, t.sources[0].rawHtml)]
  {
    assert [0 as Id][..0] == [] && ReadPending(t, []) == [];
  }

  lemma ArchivesOne(env: Env, t: Tables, p: PendingArchive)
    ensures ArchiveAll(env, t, [p]) == ArchiveItem(env, t, p)
  {
    assert [p][..0] == [] && ArchiveAll(env, t, []) == Some(t);
  }

  lemma ArchivesSource(env: Env, t: Tables, p: PendingArchive, html: Bytes, text: Bytes)
    requires p.id in t.sources && env.decompress(p.rawHtml) == Some(html) && StripHTML(html) == text
    ensures ArchiveItem(env, t, p) == Some(t.(sources := t.sources[p.id := t.sources[p.id].(rawText := Some(text), status := Archived)]))
  {
  }

  lemma ArchivesPage(env: Env, page: Bytes)
    requires env.decompress(env.compress(page)) == Some(page) && StripHTML(page) == page
    ensures ArchiveItem(env, CollectedTables(env, page), PendingArchive(0, env.compress(page))) == Some(ArchivedTables(env, page))
  {
    var s := SourceOf(env, page);
    var s' := s.(rawText := Some(page), status := Archived);
    ArchivesSource(env, CollectedTables(env, page), PendingArchive(0, env.compress(page)), page, page);
    assert map[0 as Id := s][0 := s'] == map[0 as Id := s'];
  }

  /** No pass is under way. */
  ghost function Idle(t: Tables): World {
    World(t, map[], map[], map[], {})
  }

  lemma ArchivePassOf(env: Env, names: Names, page: Bytes)
    requires env.decompress(env.compress(page)) == Some(page) && StripHTML(page) == page
    ensures Run(env, names, Idle(CollectedTables(env, page)), [ArchiveRead(0, [0]), ArchiveWrite(0)]) == Idle(ArchivedTables(env, page))
  {
    var t := CollectedTables(env, page);
    ReadsPage(t);
    ArchivesOne(env, t, PendingArchive(0, env.compress(page)));
    ArchivesPage(env, page);
    RunTwo(env, names, Idle(t), ArchiveRead(0, [0]), ArchiveWrite(0));
  }

  lemma AfterStart(env: Env, names: Names, page: Bytes)
    requires page != [] && env.decompress(env.compress(page)) == Some(page) && StripHTML(page) == page
    ensures Run(env, names, Initial(map[]), AllSteps(Start(page))) == Idle(ArchivedTables(env, page))
  {
    var collect := [Collect([ItemOf(page)])];
    StartSteps(page);
    CollectsPage(env, page);
    assert collect[..0] == [];
    assert Run(env, names, Initial(map[]), collect) == Idle(CollectedTables(env, page));
    ArchivePassOf(env, names, page);
    RunAppend(env, names, Initial(map[]), collect, [ArchiveRead(0, [0]), ArchiveWrite(0)]);
  }

  // ------------------------------------------------------------------
  // Its facts are written
  // ------------------------------------------------------------------

  function RowOf(statement: Id, f: Fact): Evidence {
    Evidence(statement, 0, f.excerpt, f.start, f.end, f.extractionMethod, Store.Confidence(f))
  }

  /** The first fact of a store: an entity, a property, a statement, an evidence row. */
  lemma InsertsFirst(env: Env, t: Tables, f: Fact)
    requires t.entities == map[] && t.properties == map[] && t.globalProperties == map[] && t.statements == map[]
    requires !MayOnlyPropose(env, f) && Storable(env, f)
    ensures var slug, cell := Resolve(env, f).slug, env.cast(Resolve(env, f).valueType, f.value).value;
            InsertFact(env, t, 0, f) ==
              Done(t.(entities := map[SubjectExtId(env, f) := t.nextId], properties := map[slug := t.nextId + 1],
                      statements := map[StatementKey(t.nextId, t.nextId + 1, cell) := Statement(t.nextId + 2, Store.Confidence(f))],
                      evidence := t.evidence + [RowOf(t.nextId + 2, f)], nextId := t.nextId + 3), true)
  {
    var t1 := EnsureEntity(t, SubjectExtId(env, f));
    assert t1.entities == map[SubjectExtId(env, f) := t.nextId];
    assert EnsureProperty(env, t1, f).properties == map[Resolve(env, f).slug := t.nextId + 1];
  }

  /** A fact whose subject and property are there and whose statement is not. */
  lemma InsertsNext(env: Env, t: Tables, g: Fact)
    requires SubjectExtId(env, g) in t.entities && LookupProperty(t, Resolve(env, g).slug).Some? && Storable(env, g)
    requires var cell := env.cast(Resolve(env, g).valueType, g.value).value; forall k | k in t.statements :: k.cell != cell
    ensures var r := InsertFact(env, t, 0, g);
            r.Done? && r.inserted && r.tables.evidence == t.evidence + [RowOf(t.nextId, g)] && r.tables.sources == t.sources
  {
  }

  lemma FactsWritten(env: Env, page: Bytes, f: Fact, g: Fact)
    requires Scene(env, page, f, g)
    ensures var t := ArchivedTables(env, page);
            var r := WriteFacts(env, t, 0, page, [f, g]);
            r.Written? && r.accepted == 2 && r.tables.evidence == [RowOf(3, f), RowOf(4, g)] && r.tables.sources == t.sources
  {
    var t := ArchivedTables(env, page);
    BothWritten(env, t, page, f, g);
    assert [] + [RowOf(3, f)] + [RowOf(4, g)] == [RowOf(3, f), RowOf(4, g)];
  }

  lemma BothWritten(env: Env, t: Tables, page: Bytes, f: Fact, g: Fact)
    requires Scene(env, page, f, g)
    requires t.entities == map[] && t.properties == map[] && t.globalProperties == map[] && t.statements == map[]
    ensures var r := WriteFacts(env, t, 0, page, [f, g]);
            && r.Written? && r.accepted == 2 && r.tables.sources == t.sources
            && r.tables.evidence == t.evidence + [RowOf(t.nextId + 2, f)] + [RowOf(t.nextId + 3, g)]
  {
    InsertsFirst(env, t, f);
    InsertsNext(env, InsertFact(env, t, 0, f).tables, g);
    WriteTwo(env, t, 0, page, f, g);
  }

  lemma WrittenEvidence(env: Env, t: Tables, page: Bytes, facts: seq<Fact>)
    requires WriteFacts(env, t, 0, page, facts).Written? && 0 in WriteFacts(env, t, 0, page, facts).tables.sources
    ensures var r := WriteExtracted(env, t, 0, page, facts);
            r.Some? && r.value.evidence == WriteFacts(env, t, 0, page, facts).tables.evidence && 0 in r.value.sources
  {
  }

  lemma ExtractSteps(env: Env, names: Names, t: Tables, page: Bytes, facts: seq<Fact>)
    requires page != [] && ReadSnapshots(t, [0]) == [Snapshot(0, page)] && WriteExtracted(env, t, 0, page, facts).Some?
    ensures Run(env, names, Idle(t), [ExtractRead(0, [0]), ExtractWrite(0, facts)]).db == WriteExtracted(env, t, 0, page, facts).value
  {
    var read := Apply(env, names, Idle(t), ExtractRead(0, [0]));
    assert read.db == t && 0 in read.extracting && read.extracting[0] == [Snapshot(0, page)];
    ExtractNextTables(env, read, 0, facts);
    RunTwo(env, names, Idle(t), ExtractRead(0, [0]), ExtractWrite(0, facts));
  }

  lemma ExtractsPage(env: Env, names: Names, page: Bytes, f: Fact, g: Fact)
    requires Scene(env, page, f, g)
    ensures var t := Run(env, names, Idle(ArchivedTables(env, page)), [ExtractRead(0, [0]), ExtractWrite(0, [f, g])]).db;
            t.evidence == [RowOf(3, f), RowOf(4, g)] && 0 in t.sources
  {
    var t := ArchivedTables(env, page);
    ReadOne(t, 0);
    FactsWritten(env, page, f, g);
    WrittenEvidence(env, t, page, [f, g]);
    ExtractSteps(env, names, t, page, [f, g]);
  }

  lemma SelectBoth(t: Tables, f: Fact, g: Fact)
    requires t.evidence == [RowOf(3, f), RowOf(4, g)] && 0 in t.sources
    ensures Select(t, t.evidence, {3, 4}) == [JoinRow(t, RowOf(3, f)), JoinRow(t, RowOf(4, g))]
  {
    var one := [RowOf(3, f)];
    assert t.evidence[..1] == one && one[..0] == [];
    assert Select(t, one, {3, 4}) == [JoinRow(t, RowOf(3, f))];
  }

  lemma TwoRowsOneSource(a: Row, b: Row)
    requires a.source.id == b.source.id && a.statement != b.statement
    ensures FirstSources([a, b]) == [a.source] && SourceIdsOf([a, b], b.statement) == [b.source.id]
  {
    assert [a, b][..1] == [a] && [a][..0] == [];
    assert FirstSources([a]) == [a.source];
    assert SourceIdsOf([a], b.statement) == [];
  }

  /** Two statements quote different spans of one source.  The second's only source is the
      first's, with the first's excerpt; whatever order the rows come in, an excerpt is lost. */
  lemma SecondExcerptLost(env: Env, names: Names, page: Bytes, f: Fact, g: Fact)
    requires Scene(env, page, f, g)
    ensures var t := Run(env, names, Initial(map[]), AllSteps(Start(page)) + [ExtractRead(0, [0]), ExtractWrite(0, [f, g])]).db;
            var rows := Select(t, t.evidence, {3, 4});
            && |rows| == 2 && rows[0].source.excerpt == f.excerpt && rows[1].source.excerpt == g.excerpt
            && FirstSources(rows) == [rows[0].source] && SourceIdsOf(rows, 4) == [0]
            && forall answer | Answers(t, {3, 4}, answer) :: exists r: Row | r in answer :: !Carried(answer, r)
  {
    AfterStart(env, names, page);
    RunAppend(env, names, Initial(map[]), AllSteps(Start(page)), [ExtractRead(0, [0]), ExtractWrite(0, [f, g])]);
    ExtractsPage(env, names, page, f, g);
    LostInAnswer(Run(env, names, Initial(map[]), AllSteps(Start(page)) + [ExtractRead(0, [0]), ExtractWrite(0, [f, g])]).db, f, g);
  }

  lemma LostInAnswer(t: Tables, f: Fact, g: Fact)
    requires t.evidence == [RowOf(3, f), RowOf(4, g)] && 0 in t.sources && f.excerpt != g.excerpt
    ensures var rows := Select(t, t.evidence, {3, 4});
            && |rows| == 2 && rows[0].source.excerpt == f.excerpt && rows[1].source.excerpt == g.excerpt
            && FirstSources(rows) == [rows[0].source] && SourceIdsOf(rows, 4) == [0]
            && forall answer | Answers(t, {3, 4}, answer) :: exists r: Row | r in answer :: !Carried(answer, r)
  {
    SelectBoth(t, f, g);
    TwoRowsOneSource(JoinRow(t, RowOf(3, f)), JoinRow(t, RowOf(4, g)));
    forall answer | Answers(t, {3, 4}, answer) ensures exists r: Row | r in answer :: !Carried(answer, r) {
      BundleCarriesAllIff(t, {3, 4}, answer);
      assert t.evidence[0] == RowOf(3, f) && t.evidence[1] == RowOf(4, g);
      assert Chosen(t, {3, 4}, RowOf(3, f)) && Chosen(t, {3, 4}, RowOf(4, g)) && !SameQuote(RowOf(3, f), RowOf(4, g));
    }
  }

  // ------------------------------------------------------------------
  // Its status is lost
  // ------------------------------------------------------------------

  /** The page is collected and archived, a verification and an extraction read it, the
      extraction writes and then the verification. */
  lemma OverlapRun(env: Env, names: Names, page: Bytes, f: Fact, g: Fact)
    requires Scene(env, page, f, g)
    ensures LosesExtraction(Run(env, names, Initial(map[]), AllSteps(Start(page)) +
              [VerifyRead(1, [0]), ExtractRead(0, [0]), ExtractWrite(0, [f, g]), VerifyWrite(1, [Live])]), 0)
  {
    var overlap := [VerifyRead(1, [0]), ExtractRead(0, [0]), ExtractWrite(0, [f, g]), VerifyWrite(1, [Live])];
    StartConsistent(env, names, page);
    AfterStart(env, names, page);
    FactsWritten(env, page, f, g);
    OverlapBreaksReplay(env, names, Idle(ArchivedTables(env, page)), 0, page, [f, g]);
    RunAppend(env, names, Initial(map[]), AllSteps(Start(page)), overlap);
  }

  lemma StartConsistent(env: Env, names: Names, page: Bytes)
    ensures Consistent(env, Run(env, names, Initial(map[]), AllSteps(Start(page))))
  {
    InitialConsistent(env, map[]);
    SerialRunsConsistent(env, names, Initial(map[]), Start(page));
  }

  // ------------------------------------------------------------------
  // A scene
  // ------------------------------------------------------------------

  /** "ab" */
  const PAGE: Bytes := [0x61, 0x62]

  /** Its letters, two values of one property. */
  const A: Fact := Fact("s", "p", "x", "string", [0x61], 0, 1, "m", None)
  const B: Fact := Fact("s", "p", "y", "string", [0x62], 1, 2, "m", None)

  /** Nothing is compressed, every label is known, every value is text. */
  function PlainEnv(): Env {
    Env((b: Bytes) => b, (b: Bytes) => Some(b), (b: Bytes) => "", (s: string) => s,
        (name: string, valueType: string) => Resolved(name, "string", true), true,
        (valueType: string, value: string) => Some(TextCell(value)))
  }

  lemma DecodesAscii(a: byte, b: byte)
    requires a < 0x80 && b < 0x80
    ensures Decode([a, b]) == [a as char, b as char] && Valid([a, b])
    ensures Decode([a]) == [a as char] && Valid([a])
  {
    assert [a, b][1..] == [b] && [b][1..] == [] && [a][1..] == [];
    assert Decode([b]) == [b as char];
  }

  lemma LettersStay(page: Bytes, text: string)
    requires Valid(page) && Decode(page) == text && |text| > 0
    requires forall c | c in text :: !Text.IsSpace(c) && c != '<' && c != '>'
    ensures StripHTML(page) == page
  {
    assert text[0] in text && text[|text| - 1] in text;
    forall i | 0 <= i < |text| ensures !Text.IsSpace(text[i]) { assert text[i] in text; }
    assert Text.Normalized(text);
    StripFixedPoint(page);
  }

  lemma LetterAccepted(page: Bytes, f: Fact, i: nat)
    requires Valid(page) && Decode(page) == "ab" && i < 2 && f.start == i && f.end == i + 1
    requires Valid(f.excerpt) && Decode(f.excerpt) == ["ab"[i]]
    ensures Accepted(page, f)
  {
    WorkerVerifyIsSubstring(page, f.excerpt, f.start, f.end);
  }

  lemma LettersAccepted(page: Bytes, f: Fact, g: Fact)
    requires page == [0x61, 0x62] && f.excerpt == [0x61] && g.excerpt == [0x62]
    requires f.start == 0 && f.end == g.start == 1 && g.end == 2
    ensures Accepted(page, f) && Accepted(page, g) && StripHTML(page) == page
  {
    DecodesAscii(0x61, 0x62);
    DecodesAscii(0x62, 0x62);
    assert forall c | c in "ab" :: c == 'a' || c == 'b';
    LettersStay(page, "ab");
    LetterAccepted(page, f, 0);
    LetterAccepted(page, g, 1);
  }

  lemma PlainFacts(env: Env, f: Fact)
    requires env == PlainEnv() && f.confidence == None
    ensures !MayOnlyPropose(env, f) && Storable(env, f) && Resolve(env, f).slug == f.slug
    ensures env.cast(Resolve(env, f).valueType, f.value) == Some(TextCell(f.value))
  {
  }

  lemma SceneExists()
    ensures Scene(PlainEnv(), PAGE, A, B)
  {
    PlainFacts(PlainEnv(), A);
    PlainFacts(PlainEnv(), B);
    LettersAccepted(PAGE, A, B);
  }
}
