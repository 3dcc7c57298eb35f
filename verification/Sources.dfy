/**
 Rows of sources and entities over whole runs: what a collect pass stores for its items,
 one source for each URL, one entity for each label.
 */
module Sources {
  import opened Utf8
  import opened Wrappers
  import opened Excerpt
  import opened Store
  import opened Extraction
  import opened Corroboration
  import opened CorroborateWorker
  import opened World
  import opened Stored
  import opened StripHtml
  import Text

  // ------------------------------------------------------------------
  // What a collect pass stores
  // ------------------------------------------------------------------

  /** An item with a URL that is not blank and a page, which the database takes. */
  ghost predicate Takeable(item: Item) {
    !Text.AllSpace(item.url) && item.html != [] && !item.refused
  }

  ghost predicate HasUrl(t: Tables, url: string) {
    exists id :: id in t.sources && t.sources[id].url == url
  }

  ghost predicate Offers(items: seq<Item>, url: string) {
    exists i | 0 <= i < |items| :: Takeable(items[i]) && items[i].url == url
  }

  /** Item `i` is the first takeable one with its URL, and no source had that URL before. */
  ghost predicate Takes(t: Tables, items: seq<Item>, i: nat) {
    && i < |items| && Takeable(items[i])
    && !HasUrl(t, items[i].url)
    && (forall j | 0 <= j < i && Takeable(items[j]) :: items[j].url != items[i].url)
  }

  /** The row has the item's URL, publisher and page, the hash of the page, no text yet. */
  ghost predicate RowFor(env: Env, s: Source, item: Item) {
    && s.url == item.url && s.publisher == item.publisher
    && s.contentHash == env.sha256(item.html) && s.rawHtml == env.compress(item.html)
    && s.rawText == None && s.status == Collected
  }

  ghost predicate FreshIds(t: Tables) {
    forall id | id in t.sources :: id < t.nextId
  }

  ghost predicate KeepsSources(t: Tables, t': Tables) {
    forall id | id in t.sources :: id in t'.sources && t'.sources[id] == t.sources[id]
  }

  lemma CollectOne(env: Env, t: Tables, item: Item)
    requires FreshIds(t)
    ensures var t' := CollectItem(env, t, item);
            && FreshIds(t') && KeepsSources(t, t')
            && if Takeable(item) && !HasUrl(t, item.url)
               then t'.sources.Keys == t.sources.Keys + {t.nextId} && RowFor(env, t'.sources[t.nextId], item)
               else t' == t
  {
    var front, behind := Text.TrimSpaceMeans(item.url);
  }

  /** Each new row is that of an item that takes one. */
  ghost predicate RowsFromItems(env: Env, t: Tables, items: seq<Item>, t': Tables) {
    forall id | id in t'.sources && id !in t.sources :: IsItemsRow(env, t, items, t'.sources[id])
  }

  ghost predicate IsItemsRow(env: Env, t: Tables, items: seq<Item>, s: Source) {
    exists i: nat :: Takes(t, items, i) && RowFor(env, s, items[i])
  }

  /** Each item that takes a row has one. */
  ghost predicate ItemsHaveRows(env: Env, t: Tables, items: seq<Item>, t': Tables) {
    forall i: nat | Takes(t, items, i) :: HasNewRow(env, t, t', items[i])
  }

  ghost predicate HasNewRow(env: Env, t: Tables, t': Tables, item: Item) {
    exists id :: id in t'.sources && id !in t.sources && RowFor(env, t'.sources[id], item)
  }

  ghost predicate Collects(env: Env, t: Tables, items: seq<Item>, t': Tables) {
    KeepsSources(t, t') && FreshIds(t') && RowsFromItems(env, t, items, t') && ItemsHaveRows(env, t, items, t')
  }

  lemma TakesBefore(t: Tables, items: seq<Item>, i: nat)
    requires items != []
    ensures i < |items| - 1 ==> (Takes(t, items, i) <==> Takes(t, items[..|items| - 1], i))
  {
    var less := items[..|items| - 1];
    assert forall j | 0 <= j < |less| :: less[j] == items[j];
  }

  lemma UrlFrom(env: Env, t: Tables, items: seq<Item>, t': Tables, id: Id)
    requires Collects(env, t, items, t') && id in t'.sources
    ensures HasUrl(t, t'.sources[id].url) || Offers(items, t'.sources[id].url)
  {
    if id !in t.sources {
      assert IsItemsRow(env, t, items, t'.sources[id]);
      var i: nat :| Takes(t, items, i) && RowFor(env, t'.sources[id], items[i]);
    }
  }

  lemma OfferedUrl(env: Env, t: Tables, items: seq<Item>, t': Tables, url: string)
    requires Collects(env, t, items, t') && Offers(items, url) && !HasUrl(t, url)
    ensures HasUrl(t', url)
  {
    var i :| 0 <= i < |items| && Takeable(items[i]) && items[i].url == url;
    var j := FirstTaken(t, items, i);
    assert HasNewRow(env, t, t', items[j]);
    var id :| id in t'.sources && id !in t.sources && RowFor(env, t'.sources[id], items[j]);
  }

  lemma UrlTaken(env: Env, t: Tables, items: seq<Item>, t': Tables, url: string)
    requires Collects(env, t, items, t')
    ensures HasUrl(t', url) <==> HasUrl(t, url) || Offers(items, url)
  {
    if id :| id in t'.sources && t'.sources[id].url == url {
      UrlFrom(env, t, items, t', id);
    }
    if id :| id in t.sources && t.sources[id].url == url {
      assert t'.sources[id].url == url;
    }
    if Offers(items, url) && !HasUrl(t, url) {
      OfferedUrl(env, t, items, t', url);
    }
  }

  lemma {:induction false} FirstTaken(t: Tables, items: seq<Item>, i: nat) returns (j: nat)
    requires i < |items| && Takeable(items[i]) && !HasUrl(t, items[i].url)
    ensures j <= i && Takes(t, items, j) && items[j].url == items[i].url
  {
    if k :| 0 <= k < i && Takeable(items[k]) && items[k].url == items[i].url {
      j := FirstTaken(t, items, k);
    } else {
      j := i;
    }
  }

  /** A collect pass stores exactly one row for each URL that is new, from the first
      takeable item with that URL. */
  lemma {:induction false} CollectStores(env: Env, t: Tables, items: seq<Item>)
    requires FreshIds(t)
    ensures Collects(env, t, items, CollectAll(env, t, items))
  {
    if items != [] {
      var n := |items| - 1;
      var before := CollectAll(env, t, items[..n]);
      CollectStores(env, t, items[..n]);
      CollectOne(env, before, items[n]);
      CollectsOneMore(env, t, items, before, CollectAll(env, t, items));
    }
  }

  /** What one more item does. */
  ghost predicate OneMore(env: Env, before: Tables, item: Item, after: Tables) {
    && FreshIds(before) && FreshIds(after) && KeepsSources(before, after)
    && if Takeable(item) && !HasUrl(before, item.url)
       then after.sources.Keys == before.sources.Keys + {before.nextId} && RowFor(env, after.sources[before.nextId], item)
       else after == before
  }

  lemma CollectsOneMore(env: Env, t: Tables, items: seq<Item>, before: Tables, after: Tables)
    requires items != [] && Collects(env, t, items[..|items| - 1], before) && OneMore(env, before, items[|items| - 1], after)
    ensures Collects(env, t, items, after)
  {
    LastTakes(env, t, items, before);
    forall id | id in after.sources && id !in t.sources ensures IsItemsRow(env, t, items, after.sources[id]) {
      RowOneMore(env, t, items, before, after, id);
    }
    forall i: nat | Takes(t, items, i) ensures HasNewRow(env, t, after, items[i]) {
      ItemOneMore(env, t, items, before, after, i);
    }
  }

  lemma RowOneMore(env: Env, t: Tables, items: seq<Item>, before: Tables, after: Tables, id: Id)
    requires items != [] && Collects(env, t, items[..|items| - 1], before) && OneMore(env, before, items[|items| - 1], after)
    requires id in after.sources && id !in t.sources
    ensures IsItemsRow(env, t, items, after.sources[id])
  {
    var n := |items| - 1;
    LastTakes(env, t, items, before);
    if id in before.sources {
      assert IsItemsRow(env, t, items[..n], before.sources[id]);
      var i: nat :| Takes(t, items[..n], i) && RowFor(env, before.sources[id], items[..n][i]);
      TakesBefore(t, items, i);
      assert RowFor(env, after.sources[id], items[i]);
    } else {
      assert Takes(t, items, n) && RowFor(env, after.sources[id], items[n]);
    }
  }

  lemma ItemOneMore(env: Env, t: Tables, items: seq<Item>, before: Tables, after: Tables, i: nat)
    requires items != [] && Collects(env, t, items[..|items| - 1], before) && OneMore(env, before, items[|items| - 1], after)
    requires Takes(t, items, i)
    ensures HasNewRow(env, t, after, items[i])
  {
    var n := |items| - 1;
    LastTakes(env, t, items, before);
    if i < n {
      TakesBefore(t, items, i);
      assert HasNewRow(env, t, before, items[..n][i]);
      var id :| id in before.sources && id !in t.sources && RowFor(env, before.sources[id], items[..n][i]);
      assert RowFor(env, after.sources[id], items[i]);
    } else {
      assert before.nextId in after.sources && before.nextId !in t.sources && RowFor(env, after.sources[before.nextId], items[i]);
    }
  }

  lemma LastTakes(env: Env, t: Tables, items: seq<Item>, before: Tables)
    requires items != [] && Collects(env, t, items[..|items| - 1], before)
    ensures var n := |items| - 1;
            Takes(t, items, n) <==> Takeable(items[n]) && !HasUrl(before, items[n].url)
  {
    var n := |items| - 1;
    UrlTaken(env, t, items[..n], before, items[n].url);
    assert forall j | 0 <= j < n :: items[..n][j] == items[j];
  }

  // ------------------------------------------------------------------
  // What the other passes read, and what archiving writes
  // ------------------------------------------------------------------

  /** Archiving reads the named sources that are only collected, with their pages. */
  lemma {:induction false} ArchivingReads(t: Tables, ids: seq<Id>)
    ensures forall p :: p in ReadPending(t, ids) <==>
              p.id in ids && p.id in t.sources && t.sources[p.id].status == Collected && p.rawHtml == t.sources[p.id].rawHtml
  {
    if ids != [] {
      ArchivingReads(t, ids[..|ids| - 1]);
      assert ids == ids[..|ids| - 1] + [ids[|ids| - 1]];
    }
  }

  /** Extraction reads the archived ones, with their texts. */
  lemma {:induction false} ExtractionReads(t: Tables, ids: seq<Id>)
    ensures forall s :: s in ReadSnapshots(t, ids) <==>
              s.source in ids && s.source in t.sources && t.sources[s.source].status == Archived && t.sources[s.source].rawText == Some(s.rawText)
  {
    if ids != [] {
      ExtractionReads(t, ids[..|ids| - 1]);
      assert ids == ids[..|ids| - 1] + [ids[|ids| - 1]];
    }
  }

  /** Verification reads all but the collected and the dead ones, with their statuses. */
  lemma {:induction false} VerificationReads(t: Tables, ids: seq<Id>)
    ensures forall p :: p in ReadVerifiable(t, ids) <==>
              p.id in ids && p.id in t.sources && t.sources[p.id].status == p.oldStatus && p.oldStatus != Collected && p.oldStatus != LinkRot
  {
    if ids != [] {
      VerificationReads(t, ids[..|ids| - 1]);
      assert ids == ids[..|ids| - 1] + [ids[|ids| - 1]];
    }
  }

  ghost predicate OncePending(pending: seq<PendingArchive>) {
    forall i, j | 0 <= i < j < |pending| :: pending[i].id != pending[j].id
  }

  /** An archive write fails exactly when a page does not decompress. */
  lemma {:induction false} ArchiveFailsIff(env: Env, t: Tables, pending: seq<PendingArchive>)
    ensures ArchiveAll(env, t, pending) == None <==> exists p | p in pending :: env.decompress(p.rawHtml) == None
  {
    if pending != [] {
      var n := |pending| - 1;
      ArchiveFailsIff(env, t, pending[..n]);
      assert pending == pending[..n] + [pending[n]];
    }
  }

  /** The row has got the text of the page and the status `archived`. */
  ghost predicate ArchivedAs(env: Env, s: Source, p: PendingArchive, s': Source) {
    env.decompress(p.rawHtml).Some? && s' == s.(rawText := Some(StripHTML(env.decompress(p.rawHtml).value)), status := Archived)
  }

  /** Sources outside the batch and all other tables stay as they are. */
  lemma {:induction false} ArchiveLeaves(env: Env, t: Tables, pending: seq<PendingArchive>)
    requires ArchiveAll(env, t, pending).Some?
    ensures var t' := ArchiveAll(env, t, pending).value; t' == t.(sources := t'.sources) && t'.sources.Keys == t.sources.Keys
    ensures forall id | id in t.sources && (forall i | 0 <= i < |pending| :: pending[i].id != id) ::
              ArchiveAll(env, t, pending).value.sources[id] == t.sources[id]
  {
    if pending != [] {
      ArchiveLeaves(env, t, pending[..|pending| - 1]);
    }
  }

  /** Otherwise each source of the batch is archived. */
  lemma {:induction false} ArchiveWrites(env: Env, t: Tables, pending: seq<PendingArchive>, i: nat)
    requires OncePending(pending) && i < |pending| && pending[i].id in t.sources && ArchiveAll(env, t, pending).Some?
    ensures var t' := ArchiveAll(env, t, pending).value;
            pending[i].id in t'.sources && ArchivedAs(env, t.sources[pending[i].id], pending[i], t'.sources[pending[i].id])
  {
    var n := |pending| - 1;
    var before := ArchiveAll(env, t, pending[..n]).value;
    ArchiveLeaves(env, t, pending[..n]);
    if i == n {
      assert forall j | 0 <= j < n :: pending[..n][j].id != pending[n].id;
    } else {
      ArchiveWrites(env, t, pending[..n], i);
      assert pending[..n][i] == pending[i] && pending[i].id != pending[n].id;
    }
    ArchiveItemRow(env, before, pending[n]);
  }

  lemma ArchiveItemRow(env: Env, t: Tables, p: PendingArchive)
    requires ArchiveItem(env, t, p).Some?
    ensures var t' := ArchiveItem(env, t, p).value;
            && (p.id in t.sources ==> p.id in t'.sources && ArchivedAs(env, t.sources[p.id], p, t'.sources[p.id]))
            && (forall id | id in t.sources && id != p.id :: id in t'.sources && t'.sources[id] == t.sources[id])
  {
  }

  // ------------------------------------------------------------------
  // Every run
  // ------------------------------------------------------------------

  /** One source for each URL, one entity for each label, and every id drawn once. */
  ghost predicate Orderly(t: Tables) {
    && (forall a, b | a in t.sources && b in t.sources && t.sources[a].url == t.sources[b].url :: a == b)
    && FreshIds(t)
    && Injective(t.entities) && (forall name | name in t.entities :: t.entities[name] < t.nextId)
  }

  ghost predicate SameUrls(t: Tables, t': Tables) {
    t'.sources.Keys == t.sources.Keys && forall id | id in t.sources :: t'.sources[id].url == t.sources[id].url
  }

  ghost predicate SameRows(t: Tables, t': Tables) {
    SameUrls(t, t') && t'.entities == t.entities && t'.nextId == t.nextId
  }

  lemma SameRowsOrderly(t: Tables, t': Tables)
    requires Orderly(t) && SameRows(t, t')
    ensures Orderly(t')
  {
  }

  lemma CollectItemOrderly(env: Env, t: Tables, item: Item)
    requires Orderly(t)
    ensures Orderly(CollectItem(env, t, item))
  {
    CollectOne(env, t, item);
  }

  lemma {:induction false} CollectOrderly(env: Env, t: Tables, items: seq<Item>)
    requires Orderly(t)
    ensures Orderly(CollectAll(env, t, items))
  {
    if items != [] {
      CollectOrderly(env, t, items[..|items| - 1]);
      CollectItemOrderly(env, CollectAll(env, t, items[..|items| - 1]), items[|items| - 1]);
    }
  }

  lemma {:induction false} ArchiveSame(env: Env, t: Tables, pending: seq<PendingArchive>)
    requires ArchiveAll(env, t, pending).Some?
    ensures SameRows(t, ArchiveAll(env, t, pending).value)
  {
    if pending != [] {
      ArchiveSame(env, t, pending[..|pending| - 1]);
    }
  }

  lemma {:induction false} VerifySame(t: Tables, pending: seq<PendingVerification>, outcomes: seq<Outcome>)
    requires |pending| == |outcomes|
    ensures SameRows(t, VerifyAll(t, pending, outcomes))
  {
    if pending != [] {
      var n := |pending| - 1;
      VerifySame(t, pending[..n], outcomes[..n]);
    }
  }

  lemma EntityOrderly(t: Tables, extId: string)
    requires Orderly(t)
    ensures Orderly(EnsureEntity(t, extId))
  {
  }

  lemma PropertyOrderly(env: Env, t: Tables, f: Fact)
    requires Orderly(t)
    ensures Orderly(EnsureProperty(env, t, f))
  {
  }

  lemma StatementOrderly(env: Env, t: Tables, source: Id, subject: Id, property: Id, f: Fact)
    requires Orderly(t) && InsertStatement(env, t, source, subject, property, f).Done?
    ensures Orderly(InsertStatement(env, t, source, subject, property, f).tables)
  {
  }

  lemma InsertFactOrderly(env: Env, t: Tables, source: Id, f: Fact)
    requires Orderly(t) && InsertFact(env, t, source, f).Done?
    ensures Orderly(InsertFact(env, t, source, f).tables)
  {
    var t1 := EnsureEntity(t, SubjectExtId(env, f));
    var t2 := EnsureProperty(env, t1, f);
    EntityOrderly(t, SubjectExtId(env, f));
    PropertyOrderly(env, t1, f);
    SubjectThere(env, t, f);
    match LookupProperty(t2, Resolve(env, f).slug) {
      case None =>
      case Some(property) => StatementOrderly(env, t2, source, t2.entities[SubjectExtId(env, f)], property, f);
    }
  }

  lemma {:induction false} WriteOrderly(env: Env, t: Tables, source: Id, rawText: Bytes, facts: seq<Fact>)
    requires Orderly(t) && WriteFacts(env, t, source, rawText, facts).Written?
    ensures Orderly(WriteFacts(env, t, source, rawText, facts).tables)
  {
    if facts != [] {
      var n := |facts| - 1;
      WriteOrderly(env, t, source, rawText, facts[..n]);
      if Accepted(rawText, facts[n]) {
        InsertFactOrderly(env, WriteFacts(env, t, source, rawText, facts[..n]).tables, source, facts[n]);
      }
    }
  }

  lemma MarkSame(t: Tables, source: Id)
    ensures SameRows(t, MarkExtracted(t, source))
  {
  }

  lemma ExtractedOrderly(env: Env, t: Tables, source: Id, rawText: Bytes, facts: seq<Fact>)
    requires Orderly(t) && WriteExtracted(env, t, source, rawText, facts).Some?
    ensures Orderly(WriteExtracted(env, t, source, rawText, facts).value)
  {
    var t' := WriteFacts(env, t, source, rawText, facts).tables;
    WriteOrderly(env, t, source, rawText, facts);
    MarkSame(t', source);
    SameRowsOrderly(t', MarkExtracted(t', source));
  }

  lemma ExtractNextOrderly(env: Env, w: World, worker: Worker, facts: seq<Fact>)
    requires Orderly(w.db) && worker in w.extracting && w.extracting[worker] != []
    ensures Orderly(ExtractNext(env, w, worker, facts).db)
  {
    var s := w.extracting[worker][0];
    ExtractNextTables(env, w, worker, facts);
    if WriteExtracted(env, w.db, s.source, s.rawText, facts).Some? {
      ExtractedOrderly(env, w.db, s.source, s.rawText, facts);
    }
  }

  lemma ArchiveNextOrderly(env: Env, w: World, worker: Worker)
    requires Orderly(w.db)
    ensures Orderly(ArchiveNext(env, w, worker).db)
  {
    if worker in w.archiving && ArchiveAll(env, w.db, w.archiving[worker]).Some? {
      ArchiveSame(env, w.db, w.archiving[worker]);
      SameRowsOrderly(w.db, ArchiveAll(env, w.db, w.archiving[worker]).value);
    }
  }

  lemma VerifyNextOrderly(w: World, worker: Worker, outcomes: seq<Outcome>)
    requires Orderly(w.db)
    ensures Orderly(VerifyNext(w, worker, outcomes).db)
  {
    if worker in w.verifying && |outcomes| == |w.verifying[worker]| {
      VerifySame(w.db, w.verifying[worker], outcomes);
      SameRowsOrderly(w.db, VerifyAll(w.db, w.verifying[worker], outcomes));
    }
  }

  lemma CorroborateNextOrderly(names: Names, w: World, rows: seq<Evidence>)
    requires Orderly(w.db)
    ensures Orderly(CorroborateNext(names, w, rows).db)
  {
    SameRowsOrderly(w.db, CorroborateNext(names, w, rows).db);
  }

  lemma StepOrderly(env: Env, names: Names, w: World, step: Step)
    requires Orderly(w.db)
    ensures Orderly(Apply(env, names, w, step).db)
  {
    match step {
      case Collect(items) => CollectOrderly(env, w.db, items);
      case ArchiveWrite(worker) => ArchiveNextOrderly(env, w, worker);
      case ExtractWrite(worker, facts) =>
        if worker in w.extracting && w.extracting[worker] != [] {
          ExtractNextOrderly(env, w, worker, facts);
        }
      case VerifyWrite(worker, outcomes) => VerifyNextOrderly(w, worker, outcomes);
      case Corroborate(rows) => CorroborateNextOrderly(names, w, rows);
      case _ =>
    }
  }

  lemma {:induction false} RunOrderly(env: Env, names: Names, w: World, steps: seq<Step>)
    requires Orderly(w.db)
    ensures Orderly(Run(env, names, w, steps).db)
  {
    if steps != [] {
      RunOrderly(env, names, w, steps[..|steps| - 1]);
      StepOrderly(env, names, Run(env, names, w, steps[..|steps| - 1]), steps[|steps| - 1]);
    }
  }

  /** In every reachable state no two sources have one URL, and no two labels one entity. */
  lemma OneSourcePerUrl(env: Env, names: Names, globalProperties: map<string, Id>, steps: seq<Step>, a: Id, b: Id)
    ensures var t := Run(env, names, Initial(globalProperties), steps).db;
            && (a in t.sources && b in t.sources && t.sources[a].url == t.sources[b].url ==> a == b)
            && Injective(t.entities)
  {
    RunOrderly(env, names, Initial(globalProperties), steps);
  }

  /** Where labels have keys of their own: in every reachable state, whatever fact lists are
      written then, facts about different subjects get different statements. */
  lemma SubjectsStayApart(env: Env, names: Names, globalProperties: map<string, Id>, steps: seq<Step>,
                          source: Id, rawText: Bytes, facts: seq<Fact>, f: Fact, g: Fact, k: StatementKey, l: StatementKey)
    requires forall a, b | env.entityExtId(a) == env.entityExtId(b) :: a == b
    requires f.subject != "" && g.subject != "" && f.subject != g.subject
    requires WriteFacts(env, Run(env, names, Initial(globalProperties), steps).db, source, rawText, facts).Written?
    requires var t' := WriteFacts(env, Run(env, names, Initial(globalProperties), steps).db, source, rawText, facts).tables;
             KeyFor(env, t', f, k) && KeyFor(env, t', g, l)
    ensures k != l
  {
    var t := Run(env, names, Initial(globalProperties), steps).db;
    RunOrderly(env, names, Initial(globalProperties), steps);
    WriteOrderly(env, t, source, rawText, facts);
    SubjectsApart(env, WriteFacts(env, t, source, rawText, facts).tables, f, g, k, l);
  }
}
