/**
 The status of a source against its verification log.  When passes do not overlap the
 status is a replay of the log; when they do, each write keeps or breaks that exactly
 as its snapshot says.
 */
module Replay {
  import opened Utf8
  import opened Wrappers
  import opened Excerpt
  import opened Store
  import opened World
  import opened Corroboration
  import Sources

  /** The outcomes logged for one source, oldest first. */
  function LogOf(log: seq<Verification>, id: Id): seq<Outcome> {
    if log == [] then []
    else LogOf(log[..|log| - 1], id) + if log[|log| - 1].source == id then [log[|log| - 1].outcome] else []
  }

  function Fold(start: Status, outcomes: seq<Outcome>): Status {
    if outcomes == [] then start
    else MapSourceStatus(outcomes[|outcomes| - 1], Fold(start, outcomes[..|outcomes| - 1]))
  }

  function Start(everExtracted: bool): Status {
    if everExtracted then Extracted else Archived
  }

  ghost predicate AllLive(outcomes: seq<Outcome>) {
    forall i | 0 <= i < |outcomes| :: outcomes[i] == Live
  }

  /** A source that has text shows the replay of its log; one without has no history. */
  ghost predicate ReplayedRow(s: Source, everExtracted: bool, outcomes: seq<Outcome>) {
    if s.rawText.Some? then s.status == Fold(Start(everExtracted), outcomes)
    else s.status == Collected && outcomes == [] && !everExtracted
  }

  ghost predicate Replayed(w: World, id: Id) {
    if id in w.db.sources then ReplayedRow(w.db.sources[id], id in w.everExtracted, LogOf(w.db.log, id))
    else LogOf(w.db.log, id) == [] && id !in w.everExtracted
  }

  ghost predicate AllReplayed(w: World) {
    forall id: Id :: Replayed(w, id)
  }

  /** A link-rot entry is the last one. */
  ghost predicate RotLast(outcomes: seq<Outcome>) {
    forall i | 0 <= i < |outcomes| - 1 :: outcomes[i] != Rot
  }

  ghost predicate AllRotLast(w: World) {
    forall id: Id :: RotLast(LogOf(w.db.log, id))
  }

  // ------------------------------------------------------------------
  // Replaying
  // ------------------------------------------------------------------

  lemma FoldAppend(start: Status, outcomes: seq<Outcome>, o: Outcome)
    ensures Fold(start, outcomes + [o]) == MapSourceStatus(o, Fold(start, outcomes))
  {
    assert (outcomes + [o])[..|outcomes|] == outcomes;
  }

  /** After any entry the status is never again `archived` or `collected`, and it is
      `extracted` only by an unbroken run of live outcomes from `extracted`. */
  lemma {:induction false} FoldShape(start: Status, outcomes: seq<Outcome>)
    requires start == Archived || start == Extracted
    ensures Fold(start, outcomes) != Collected
    ensures Fold(start, outcomes) == Archived <==> start == Archived && outcomes == []
    ensures Fold(start, outcomes) == Extracted <==> start == Extracted && AllLive(outcomes)
    ensures Fold(start, outcomes) == LinkRot <==> outcomes != [] && outcomes[|outcomes| - 1] == Rot
    ensures Fold(start, outcomes) == ContentChanged <==> outcomes != [] && outcomes[|outcomes| - 1] == Changed
    ensures Fold(start, outcomes) == Verified <==>
              outcomes != [] && outcomes[|outcomes| - 1] == Live && !(start == Extracted && AllLive(outcomes))
  {
    if outcomes != [] {
      var n := |outcomes| - 1;
      FoldShape(start, outcomes[..n]);
      AllLiveBut(outcomes);
    }
  }

  lemma AllLiveBut(outcomes: seq<Outcome>)
    requires outcomes != []
    ensures var n := |outcomes| - 1; AllLive(outcomes) <==> AllLive(outcomes[..n]) && outcomes[n] == Live
  {
    var n := |outcomes| - 1;
    assert forall i | 0 <= i < n :: outcomes[..n][i] == outcomes[i];
  }

  /** Writing a verification computed from a possibly stale status keeps the replay
      exactly when the outcome is not `live` or the stale and the current status agree
      on being `extracted`. */
  lemma VerifyRowIff(s: Source, ever: bool, outcomes: seq<Outcome>, stale: Status, o: Outcome)
    requires s.rawText.Some? && ReplayedRow(s, ever, outcomes)
    ensures ReplayedRow(s.(status := MapSourceStatus(o, stale)), ever, outcomes + [o]) <==>
            (o == Live ==> (stale == Extracted <==> s.status == Extracted))
  {
    FoldAppend(Start(ever), outcomes, o);
    FoldShape(Start(ever), outcomes);
  }

  /** Archiving again keeps the replay exactly when the source is still `collected` or
      still `archived`. */
  lemma ArchiveRowIff(s: Source, ever: bool, outcomes: seq<Outcome>, text: Bytes)
    requires ReplayedRow(s, ever, outcomes)
    ensures ReplayedRow(s.(rawText := Some(text), status := Archived), ever, outcomes) <==>
            s.status == Collected || s.status == Archived
  {
    FoldShape(Start(ever), outcomes);
  }

  /** Marking a source extracted keeps the replay exactly when every logged outcome was `live`. */
  lemma ExtractRowIff(s: Source, ever: bool, outcomes: seq<Outcome>)
    requires s.rawText.Some? && ReplayedRow(s, ever, outcomes)
    ensures ReplayedRow(s.(status := Extracted), true, outcomes) <==> AllLive(outcomes)
  {
    FoldShape(Extracted, outcomes);
  }

  // ------------------------------------------------------------------
  // What a write step does to one source
  // ------------------------------------------------------------------

  ghost predicate DistinctArchive(pending: seq<PendingArchive>) {
    forall i, j | 0 <= i < j < |pending| :: pending[i].id != pending[j].id
  }

  ghost predicate DistinctVerify(pending: seq<PendingVerification>) {
    forall i, j | 0 <= i < j < |pending| :: pending[i].id != pending[j].id
  }

  lemma {:induction false} VerifyOthers(t: Tables, pending: seq<PendingVerification>, outcomes: seq<Outcome>, id: Id)
    requires |pending| == |outcomes| && forall i | 0 <= i < |pending| :: pending[i].id != id
    ensures var t' := VerifyAll(t, pending, outcomes);
            && (id in t'.sources <==> id in t.sources)
            && (id in t.sources ==> t'.sources[id] == t.sources[id])
            && LogOf(t'.log, id) == LogOf(t.log, id)
  {
    if pending != [] {
      var n := |pending| - 1;
      VerifyOthers(t, pending[..n], outcomes[..n], id);
      var before := VerifyAll(t, pending[..n], outcomes[..n]);
      var after := VerifyItem(before, pending[n], outcomes[n]);
      assert after.log[..|after.log| - 1] == before.log;
    }
  }

  lemma {:induction false} VerifyOne(t: Tables, pending: seq<PendingVerification>, outcomes: seq<Outcome>, i: nat)
    requires |pending| == |outcomes| && i < |pending| && DistinctVerify(pending) && pending[i].id in t.sources
    ensures var t' := VerifyAll(t, pending, outcomes);
            var p := pending[i];
            && p.id in t'.sources
            && t'.sources[p.id] == t.sources[p.id].(status := MapSourceStatus(outcomes[i], p.oldStatus))
            && LogOf(t'.log, p.id) == LogOf(t.log, p.id) + [outcomes[i]]
  {
    var n := |pending| - 1;
    var before := VerifyAll(t, pending[..n], outcomes[..n]);
    var after := VerifyItem(before, pending[n], outcomes[n]);
    assert after.log[..|after.log| - 1] == before.log;
    if i == n {
      VerifyOthers(t, pending[..n], outcomes[..n], pending[n].id);
    } else {
      VerifyOne(t, pending[..n], outcomes[..n], i);
      assert pending[i].id != pending[n].id;
    }
  }

  /** A verification write, row by row: the status is that of the outcome, `extracted` staying
      so when the page is live. */
  lemma VerifyWrites(t: Tables, pending: seq<PendingVerification>, outcomes: seq<Outcome>, i: nat)
    requires |pending| == |outcomes| && i < |pending| && DistinctVerify(pending) && pending[i].id in t.sources
    ensures var t', p := VerifyAll(t, pending, outcomes), pending[i];
            && p.id in t'.sources
            && (outcomes[i] == Changed ==> t'.sources[p.id] == t.sources[p.id].(status := ContentChanged))
            && (outcomes[i] == Rot ==> t'.sources[p.id] == t.sources[p.id].(status := LinkRot))
            && (outcomes[i] == Live && p.oldStatus == Extracted ==> t'.sources[p.id] == t.sources[p.id].(status := Extracted))
            && (outcomes[i] == Live && p.oldStatus != Extracted ==> t'.sources[p.id] == t.sources[p.id].(status := Verified))
  {
    VerifyOne(t, pending, outcomes, i);
  }

  /** The outcomes are logged in the order of the batch. */
  lemma {:induction false} VerifyLogs(t: Tables, pending: seq<PendingVerification>, outcomes: seq<Outcome>)
    requires |pending| == |outcomes|
    ensures VerifyAll(t, pending, outcomes).log ==
            t.log + seq(|pending|, i requires 0 <= i < |pending| => Verification(pending[i].id, outcomes[i]))
  {
    if pending != [] {
      var n := |pending| - 1;
      VerifyLogs(t, pending[..n], outcomes[..n]);
    }
  }

  /** Sources outside the batch and all other tables stay as they are. */
  lemma {:induction false} VerifyLeaves(t: Tables, pending: seq<PendingVerification>, outcomes: seq<Outcome>)
    requires |pending| == |outcomes|
    ensures var t' := VerifyAll(t, pending, outcomes);
            t' == t.(sources := t'.sources, log := t'.log) && t'.sources.Keys == t.sources.Keys
    ensures forall id | id in t.sources && (forall i | 0 <= i < |pending| :: pending[i].id != id) ::
              VerifyAll(t, pending, outcomes).sources[id] == t.sources[id]
  {
    if pending != [] {
      VerifyLeaves(t, pending[..|pending| - 1], outcomes[..|pending| - 1]);
    }
  }

  lemma ArchiveOthers(env: Env, t: Tables, pending: seq<PendingArchive>, id: Id)
    requires ArchiveAll(env, t, pending).Some? && forall i | 0 <= i < |pending| :: pending[i].id != id
    ensures var t' := ArchiveAll(env, t, pending).value;
            && t'.log == t.log
            && (id in t'.sources <==> id in t.sources)
            && (id in t.sources ==> t'.sources[id] == t.sources[id])
  {
    Sources.ArchiveLeaves(env, t, pending);
  }

  ghost predicate ArchivedRow(t: Tables, t': Tables, id: Id) {
    && id in t.sources && id in t'.sources && t'.sources[id].rawText.Some?
    && t'.sources[id] == t.sources[id].(rawText := t'.sources[id].rawText, status := Archived)
  }

  lemma ArchiveOne(env: Env, t: Tables, pending: seq<PendingArchive>, i: nat)
    requires ArchiveAll(env, t, pending).Some? && i < |pending| && DistinctArchive(pending) && pending[i].id in t.sources
    ensures ArchiveAll(env, t, pending).value.log == t.log
    ensures ArchivedRow(t, ArchiveAll(env, t, pending).value, pending[i].id)
  {
    Sources.ArchiveLeaves(env, t, pending);
    Sources.ArchiveWrites(env, t, pending, i);
  }

  // ------------------------------------------------------------------
  // Exactly when a step keeps the replay
  // ------------------------------------------------------------------

  /** What a worker could check in its write transaction, row by row. */
  ghost predicate Safe(env: Env, w: World, step: Step) {
    match step
    case ArchiveWrite(worker) =>
      worker in w.archiving && ArchiveAll(env, w.db, w.archiving[worker]).Some? ==>
        SafeArchiving(w.db, w.archiving[worker])
    case ExtractWrite(worker, facts) =>
      worker in w.extracting && w.extracting[worker] != [] &&
      w.extracting[worker][0].rawText != [] &&
      Marks(env, w.db, w.extracting[worker][0].source, w.extracting[worker][0].rawText, facts) ==>
        AllLive(LogOf(w.db.log, w.extracting[worker][0].source))
    case VerifyWrite(worker, outcomes) =>
      worker in w.verifying && |outcomes| == |w.verifying[worker]| ==>
        SafeVerifications(w.db, w.verifying[worker], outcomes)
    case _ => true
  }

  ghost predicate SafeArchiving(t: Tables, pending: seq<PendingArchive>) {
    forall i | 0 <= i < |pending| :: HasStatus(t, pending[i].id, {Collected, Archived})
  }

  ghost predicate SafeVerifications(t: Tables, pending: seq<PendingVerification>, outcomes: seq<Outcome>)
    requires |pending| == |outcomes|
  {
    forall i | 0 <= i < |pending| :: SafeVerification(t, pending[i], outcomes[i])
  }

  ghost predicate SafeVerification(t: Tables, p: PendingVerification, o: Outcome) {
    o == Live ==> (p.oldStatus == Extracted <==> HasStatus(t, p.id, {Extracted}))
  }

  /** Batches hold every source once. */
  ghost predicate DistinctBatches(w: World) {
    && (forall k :: k in w.archiving ==> DistinctArchive(w.archiving[k]))
    && (forall k :: k in w.verifying ==> DistinctVerify(w.verifying[k]))
  }

  lemma VerifyStepIff(w: World, pending: seq<PendingVerification>, outcomes: seq<Outcome>, w': World)
    requires AllReplayed(w) && GoodVerifying(w.db, pending) && DistinctVerify(pending) && |outcomes| == |pending|
    requires w'.db == VerifyAll(w.db, pending, outcomes) && w'.everExtracted == w.everExtracted
    ensures AllReplayed(w') <==> SafeVerifications(w.db, pending, outcomes)
  {
    forall i | 0 <= i < |pending|
      ensures Replayed(w', pending[i].id) <==> SafeVerification(w.db, pending[i], outcomes[i])
    {
      var id := pending[i].id;
      assert Replayed(w, id);
      VerifyOne(w.db, pending, outcomes, i);
      VerifyRowIff(w.db.sources[id], id in w.everExtracted, LogOf(w.db.log, id), pending[i].oldStatus, outcomes[i]);
    }
    forall id: Id | forall i | 0 <= i < |pending| :: pending[i].id != id
      ensures Replayed(w', id)
    {
      assert Replayed(w, id);
      VerifyOthers(w.db, pending, outcomes, id);
    }
  }

  lemma ArchiveStepIff(env: Env, w: World, pending: seq<PendingArchive>, w': World)
    requires AllReplayed(w) && GoodArchiving(w.db, pending) && DistinctArchive(pending)
    requires ArchiveAll(env, w.db, pending).Some?
    requires w'.db == ArchiveAll(env, w.db, pending).value && w'.everExtracted == w.everExtracted
    ensures AllReplayed(w') <==> SafeArchiving(w.db, pending)
  {
    forall i | 0 <= i < |pending|
      ensures Replayed(w', pending[i].id) <==> HasStatus(w.db, pending[i].id, {Collected, Archived})
    {
      var id := pending[i].id;
      assert Replayed(w, id);
      ArchiveOne(env, w.db, pending, i);
      ArchiveRowIff(w.db.sources[id], id in w.everExtracted, LogOf(w.db.log, id), w'.db.sources[id].rawText.value);
    }
    forall id: Id | forall i | 0 <= i < |pending| :: pending[i].id != id
      ensures Replayed(w', id)
    {
      assert Replayed(w, id);
      ArchiveOthers(env, w.db, pending, id);
    }
  }

  lemma ExtractNextRows(env: Env, w: World, worker: Worker, facts: seq<Fact>)
    requires worker in w.extracting && w.extracting[worker] != [] && GoodSnapshots(w.db, w.extracting[worker])
    ensures var s := w.extracting[worker][0];
            var w' := ExtractNext(env, w, worker, facts);
            && s.source in w.db.sources
            && w'.db.log == w.db.log
            && if s.rawText != [] && Marks(env, w.db, s.source, s.rawText, facts)
               then w'.everExtracted == w.everExtracted + {s.source} &&
                    w'.db.sources == w.db.sources[s.source := w.db.sources[s.source].(status := Extracted)]
               else w'.everExtracted == w.everExtracted && w'.db.sources == w.db.sources
  {
    var s := w.extracting[worker][0];
    if WriteFacts(env, w.db, s.source, s.rawText, facts).Written? {
      Extraction.WriteFactsAdds(env, w.db, s.source, s.rawText, facts);
    }
  }

  lemma ExtractStepIff(env: Env, w: World, worker: Worker, facts: seq<Fact>)
    requires AllReplayed(w) && worker in w.extracting && w.extracting[worker] != []
    requires GoodSnapshots(w.db, w.extracting[worker])
    ensures AllReplayed(ExtractNext(env, w, worker, facts)) <==> Safe(env, w, ExtractWrite(worker, facts))
  {
    var s := w.extracting[worker][0];
    var w' := ExtractNext(env, w, worker, facts);
    ExtractNextRows(env, w, worker, facts);
    assert Replayed(w, s.source);
    assert w.db.sources[s.source].rawText.Some?;
    if s.rawText != [] && Marks(env, w.db, s.source, s.rawText, facts) {
      ExtractRowIff(w.db.sources[s.source], s.source in w.everExtracted, LogOf(w.db.log, s.source));
      assert Replayed(w', s.source) <==> AllLive(LogOf(w.db.log, s.source));
      forall id: Id | id != s.source ensures Replayed(w', id) {
        assert Replayed(w, id);
      }
    } else {
      SameRowsReplayed(w, w');
    }
  }

  lemma {:induction false} CollectOthers(env: Env, t: Tables, items: seq<Item>, id: Id)
    requires GoodTables(env, t)
    ensures var t' := CollectAll(env, t, items);
            && t'.log == t.log
            && (id in t.sources ==> id in t'.sources && t'.sources[id] == t.sources[id])
            && (id in t'.sources && id !in t.sources ==> t'.sources[id].rawText.None? && t'.sources[id].status == Collected)
  {
    if items != [] {
      var n := |items| - 1;
      CollectOthers(env, t, items[..n], id);
      CollectGood(env, t, items[..n]);
      CollectOneOther(env, CollectAll(env, t, items[..n]), items[n], id);
    }
  }

  lemma CollectOneOther(env: Env, t: Tables, item: Item, id: Id)
    requires t.nextId !in t.sources
    ensures var t' := CollectItem(env, t, item);
            && t'.log == t.log
            && (id in t.sources ==> id in t'.sources && t'.sources[id] == t.sources[id])
            && (id in t'.sources && id !in t.sources ==> t'.sources[id].rawText.None? && t'.sources[id].status == Collected)
  {
  }

  lemma CollectStepReplayed(env: Env, w: World, items: seq<Item>)
    requires GoodTables(env, w.db) && AllReplayed(w)
    ensures AllReplayed(w.(db := CollectAll(env, w.db, items)))
  {
    forall id: Id ensures Replayed(w.(db := CollectAll(env, w.db, items)), id) {
      assert Replayed(w, id);
      CollectOthers(env, w.db, items, id);
    }
  }

  lemma SameRowsReplayed(w: World, w': World)
    requires w'.db.sources == w.db.sources && w'.db.log == w.db.log && w'.everExtracted == w.everExtracted
    ensures AllReplayed(w) <==> AllReplayed(w')
  {
    forall id: Id ensures Replayed(w, id) <==> Replayed(w', id) {
    }
  }

  lemma ArchiveNextIff(env: Env, w: World, worker: Worker)
    requires AllReplayed(w)
    requires worker in w.archiving ==> GoodArchiving(w.db, w.archiving[worker]) && DistinctArchive(w.archiving[worker])
    ensures AllReplayed(ArchiveNext(env, w, worker)) <==> Safe(env, w, ArchiveWrite(worker))
  {
    var w' := ArchiveNext(env, w, worker);
    if worker in w.archiving && ArchiveAll(env, w.db, w.archiving[worker]).Some? {
      ArchiveStepIff(env, w, w.archiving[worker], w');
    } else {
      SameRowsReplayed(w, w');
    }
  }

  lemma VerifyNextIff(env: Env, w: World, worker: Worker, outcomes: seq<Outcome>)
    requires AllReplayed(w)
    requires worker in w.verifying ==> GoodVerifying(w.db, w.verifying[worker]) && DistinctVerify(w.verifying[worker])
    ensures AllReplayed(VerifyNext(w, worker, outcomes)) <==> Safe(env, w, VerifyWrite(worker, outcomes))
  {
    if worker in w.verifying && |outcomes| == |w.verifying[worker]| {
      VerifyStepIff(w, w.verifying[worker], outcomes, VerifyNext(w, worker, outcomes));
    }
  }

  /** Under any interleaving, a step keeps every status a replay of its log exactly when
      the rows it writes still allow it. */
  lemma StepKeepsReplayIff(env: Env, names: Names, w: World, step: Step)
    requires Inv(env, w) && DistinctBatches(w) && AllReplayed(w)
    ensures AllReplayed(Apply(env, names, w, step)) <==> Safe(env, w, step)
  {
    match step {
      case Collect(items) => CollectStepReplayed(env, w, items);
      case ArchiveWrite(worker) => ArchiveNextIff(env, w, worker);
      case ExtractWrite(worker, facts) =>
        if worker in w.extracting && w.extracting[worker] != [] {
          ExtractStepIff(env, w, worker, facts);
        }
      case VerifyWrite(worker, outcomes) => VerifyNextIff(env, w, worker, outcomes);
      case _ =>
        LeavesSources(env, names, w, step);
        SameRowsReplayed(w, Apply(env, names, w, step));
    }
  }

  lemma LeavesSources(env: Env, names: Names, w: World, step: Step)
    requires !step.Collect? && !step.ArchiveWrite? && !step.ExtractWrite? && !step.VerifyWrite?
    ensures var w' := Apply(env, names, w, step);
            w'.db.sources == w.db.sources && w'.db.log == w.db.log && w'.everExtracted == w.everExtracted
  {
  }

  lemma {:induction false} ReadPendingIds(t: Tables, ids: seq<Id>)
    requires Distinct(ids)
    ensures DistinctArchive(ReadPending(t, ids))
    ensures forall p | p in ReadPending(t, ids) :: p.id in ids && HasStatus(t, p.id, {Collected})
  {
    if ids != [] {
      ReadPendingIds(t, ids[..|ids| - 1]);
    }
  }

  lemma {:induction false} ReadVerifiableIds(t: Tables, ids: seq<Id>)
    requires Distinct(ids)
    ensures DistinctVerify(ReadVerifiable(t, ids))
    ensures forall p | p in ReadVerifiable(t, ids) :: p.id in ids && HasStatus(t, p.id, {p.oldStatus}) && p.oldStatus != LinkRot
  {
    if ids != [] {
      ReadVerifiableIds(t, ids[..|ids| - 1]);
    }
  }

  lemma {:induction false} ReadSnapshotsIds(t: Tables, ids: seq<Id>)
    requires Distinct(ids)
    ensures var snapshots := ReadSnapshots(t, ids);
            && (forall i, j | 0 <= i < j < |snapshots| :: snapshots[i].source != snapshots[j].source)
            && (forall s | s in snapshots :: s.source in ids && HasStatus(t, s.source, {Archived}))
  {
    if ids != [] {
      ReadSnapshotsIds(t, ids[..|ids| - 1]);
    }
  }

  lemma StepKeepsDistinct(env: Env, names: Names, w: World, step: Step)
    requires DistinctBatches(w)
    ensures DistinctBatches(Apply(env, names, w, step))
  {
    match step {
      case ArchiveRead(worker, ids) =>
        if Distinct(ids) { ReadPendingIds(w.db, ids); }
      case VerifyRead(worker, ids) =>
        if Distinct(ids) { ReadVerifiableIds(w.db, ids); }
      case _ => FewerBatches(env, names, w, step);
    }
  }

  ghost predicate EndsAtMost(w: World, w': World) {
    && (forall k | k in w'.archiving :: k in w.archiving && w'.archiving[k] == w.archiving[k])
    && (forall k | k in w'.verifying :: k in w.verifying && w'.verifying[k] == w.verifying[k])
  }

  lemma NextEnds(env: Env, w: World, worker: Worker, outcomes: seq<Outcome>)
    ensures EndsAtMost(w, ArchiveNext(env, w, worker)) && EndsAtMost(w, VerifyNext(w, worker, outcomes))
  {
  }

  /** The other steps end batches at most. */
  lemma FewerBatches(env: Env, names: Names, w: World, step: Step)
    requires !step.ArchiveRead? && !step.VerifyRead?
    ensures EndsAtMost(w, Apply(env, names, w, step))
  {
    match step {
      case ArchiveWrite(worker) => NextEnds(env, w, worker, []);
      case VerifyWrite(worker, outcomes) => NextEnds(env, w, worker, outcomes);
      case ExtractWrite(worker, facts) =>
        if worker in w.extracting && w.extracting[worker] != [] {
          ExtractNextShape(env, w, worker, facts);
        }
      case _ =>
    }
  }

  // ------------------------------------------------------------------
  // Link rot
  // ------------------------------------------------------------------

  /** The batch this step writes holds no source that has rotted since it was read. */
  ghost predicate NoRotted(w: World, step: Step) {
    match step
    case VerifyWrite(worker, outcomes) =>
      worker in w.verifying && |outcomes| == |w.verifying[worker]| ==>
        forall p | p in w.verifying[worker] :: !HasStatus(w.db, p.id, {LinkRot})
    case _ => true
  }

  lemma RotAppend(s: Source, ever: bool, outcomes: seq<Outcome>, o: Outcome)
    requires s.rawText.Some? && ReplayedRow(s, ever, outcomes) && RotLast(outcomes) && s.status != LinkRot
    ensures RotLast(outcomes + [o])
  {
    FoldShape(Start(ever), outcomes);
  }

  lemma VerifyStepRotLast(w: World, pending: seq<PendingVerification>, outcomes: seq<Outcome>, id: Id)
    requires AllReplayed(w) && AllRotLast(w) && GoodVerifying(w.db, pending) && DistinctVerify(pending)
    requires |outcomes| == |pending| && forall p | p in pending :: !HasStatus(w.db, p.id, {LinkRot})
    ensures RotLast(LogOf(VerifyAll(w.db, pending, outcomes).log, id))
  {
    assert Replayed(w, id) && RotLast(LogOf(w.db.log, id));
    if i :| 0 <= i < |pending| && pending[i].id == id {
      assert pending[i] in pending;
      VerifyOne(w.db, pending, outcomes, i);
      RotAppend(w.db.sources[id], id in w.everExtracted, LogOf(w.db.log, id), outcomes[i]);
    } else {
      VerifyOthers(w.db, pending, outcomes, id);
    }
  }

  /** Only a verification appends to the log. */
  lemma ArchiveKeepsLog(env: Env, w: World, worker: Worker)
    ensures ArchiveNext(env, w, worker).db.log == w.db.log
  {
    if worker in w.archiving && ArchiveAll(env, w.db, w.archiving[worker]).Some? {
      Sources.ArchiveLeaves(env, w.db, w.archiving[worker]);
    }
  }

  lemma ExtractKeepsLog(env: Env, w: World, worker: Worker, facts: seq<Fact>)
    requires Inv(env, w) && worker in w.extracting && w.extracting[worker] != []
    ensures ExtractNext(env, w, worker, facts).db.log == w.db.log
  {
    assert GoodSnapshots(w.db, w.extracting[worker]);
    ExtractNextRows(env, w, worker, facts);
  }

  lemma LogUnchanged(env: Env, names: Names, w: World, step: Step)
    requires Inv(env, w) && !step.VerifyWrite?
    ensures Apply(env, names, w, step).db.log == w.db.log
  {
    match step {
      case Collect(items) => CollectOthers(env, w.db, items, 0);
      case ArchiveWrite(worker) => ArchiveKeepsLog(env, w, worker);
      case ExtractWrite(worker, facts) =>
        if worker in w.extracting && w.extracting[worker] != [] {
          ExtractKeepsLog(env, w, worker, facts);
        }
      case _ => LeavesSources(env, names, w, step);
    }
  }

  /** A rotted source that is verified once more has a link-rot entry that is not the last. */
  lemma RottedTwice(w: World, pending: seq<PendingVerification>, outcomes: seq<Outcome>, p: PendingVerification)
    requires AllReplayed(w) && GoodVerifying(w.db, pending) && DistinctVerify(pending)
    requires |outcomes| == |pending| && p in pending && HasStatus(w.db, p.id, {LinkRot})
    ensures !RotLast(LogOf(VerifyAll(w.db, pending, outcomes).log, p.id))
  {
    var i :| 0 <= i < |pending| && pending[i] == p;
    var before := LogOf(w.db.log, p.id);
    assert Replayed(w, p.id);
    FoldShape(Start(p.id in w.everExtracted), before);
    VerifyOne(w.db, pending, outcomes, i);
    assert (before + [outcomes[i]])[|before| - 1] == Rot;
  }

  lemma VerifyStepRotLastIff(w: World, pending: seq<PendingVerification>, outcomes: seq<Outcome>, w': World)
    requires AllReplayed(w) && AllRotLast(w) && GoodVerifying(w.db, pending) && DistinctVerify(pending)
    requires |outcomes| == |pending| && w'.db.log == VerifyAll(w.db, pending, outcomes).log
    ensures AllRotLast(w') <==> forall p | p in pending :: !HasStatus(w.db, p.id, {LinkRot})
  {
    if p :| p in pending && HasStatus(w.db, p.id, {LinkRot}) {
      RottedTwice(w, pending, outcomes, p);
    } else {
      forall id: Id ensures RotLast(LogOf(w'.db.log, id)) {
        VerifyStepRotLast(w, pending, outcomes, id);
      }
    }
  }

  /** A step keeps link rot last exactly when no source of the batch it writes has rotted. */
  lemma StepKeepsRotLast(env: Env, names: Names, w: World, step: Step)
    requires Inv(env, w) && DistinctBatches(w) && AllReplayed(w) && AllRotLast(w)
    ensures AllRotLast(Apply(env, names, w, step)) <==> NoRotted(w, step)
  {
    match step {
      case VerifyWrite(worker, outcomes) =>
        if worker in w.verifying && |outcomes| == |w.verifying[worker]| {
          VerifyStepRotLastIff(w, w.verifying[worker], outcomes, Apply(env, names, w, step));
        }
      case _ => LogUnchanged(env, names, w, step);
    }
  }

  // ------------------------------------------------------------------
  // Passes that do not overlap
  // ------------------------------------------------------------------

  /** One complete pass of one worker. */
  datatype Pass =
    | CollectPass(items: seq<Item>)
    | ArchivePass(ids: seq<Id>)
    | ExtractPass(ids: seq<Id>, facts: seq<seq<Fact>>)
    | VerifyPass(ids: seq<Id>, outcomes: seq<Outcome>)
    | CorroboratePass(rows: seq<Evidence>)

  function Writes(facts: seq<seq<Fact>>): seq<Step> {
    if facts == [] then [] else Writes(facts[..|facts| - 1]) + [ExtractWrite(0, facts[|facts| - 1])]
  }

  function StepsOf(pass: Pass): seq<Step> {
    match pass
    case CollectPass(items) => [Collect(items)]
    case ArchivePass(ids) => [ArchiveRead(0, ids), ArchiveWrite(0)]
    case ExtractPass(ids, facts) => [ExtractRead(0, ids)] + Writes(facts)
    case VerifyPass(ids, outcomes) => [VerifyRead(0, ids), VerifyWrite(0, outcomes)]
    case CorroboratePass(rows) => [Corroborate(rows)]
  }

  function AllSteps(passes: seq<Pass>): seq<Step> {
    if passes == [] then [] else AllSteps(passes[..|passes| - 1]) + StepsOf(passes[|passes| - 1])
  }

  ghost predicate PassesRead(pass: Pass) {
    match pass
    case ArchivePass(ids) => Distinct(ids)
    case ExtractPass(ids, _) => Distinct(ids)
    case VerifyPass(ids, _) => Distinct(ids)
    case _ => true
  }

  ghost predicate Consistent(env: Env, w: World) {
    Inv(env, w) && DistinctBatches(w) && AllReplayed(w) && AllRotLast(w)
  }

  lemma SafeStep(env: Env, names: Names, w: World, step: Step)
    requires Consistent(env, w) && Safe(env, w, step) && NoRotted(w, step)
    ensures Consistent(env, Apply(env, names, w, step))
  {
    SnapshotsStep(env, names, w, step);
    StepKeepsDistinct(env, names, w, step);
    StepKeepsReplayIff(env, names, w, step);
    StepKeepsRotLast(env, names, w, step);
  }

  /** Snapshots still to be written, each of a different source that is still `archived`. */
  ghost predicate FreshSnapshots(t: Tables, snapshots: seq<Snapshot>) {
    && (forall i, j | 0 <= i < j < |snapshots| :: snapshots[i].source != snapshots[j].source)
    && (forall i | 0 <= i < |snapshots| :: HasStatus(t, snapshots[i].source, {Archived}))
  }

  ghost predicate FreshJob(w: World) {
    0 in w.extracting ==> FreshSnapshots(w.db, w.extracting[0])
  }

  lemma ArchivedHasNoLog(w: World, id: Id)
    requires AllReplayed(w) && HasStatus(w.db, id, {Archived})
    ensures LogOf(w.db.log, id) == []
  {
    assert Replayed(w, id);
    FoldShape(Start(id in w.everExtracted), LogOf(w.db.log, id));
  }

  lemma FreshIsSafe(env: Env, w: World, facts: seq<Fact>)
    requires AllReplayed(w) && FreshJob(w)
    ensures Safe(env, w, ExtractWrite(0, facts))
  {
    if 0 in w.extracting && w.extracting[0] != [] {
      assert HasStatus(w.db, w.extracting[0][0].source, {Archived});
      ArchivedHasNoLog(w, w.extracting[0][0].source);
    }
  }

  lemma FreshStays(env: Env, w: World, facts: seq<Fact>)
    requires FreshJob(w) && 0 in w.extracting && w.extracting[0] != [] && GoodSnapshots(w.db, w.extracting[0])
    ensures FreshJob(ExtractNext(env, w, 0, facts))
  {
    var s := w.extracting[0][0];
    var w' := ExtractNext(env, w, 0, facts);
    ExtractNextRows(env, w, 0, facts);
    if 0 in w'.extracting {
      assert w'.extracting[0] == w.extracting[0][1..];
      forall i | 0 <= i < |w'.extracting[0]| ensures HasStatus(w'.db, w'.extracting[0][i].source, {Archived}) {
        assert HasStatus(w.db, w.extracting[0][i + 1].source, {Archived});
        assert w.extracting[0][i + 1].source != s.source;
      }
    }
  }

  lemma FreshWriteStep(env: Env, names: Names, w: World, facts: seq<Fact>)
    requires Consistent(env, w) && FreshJob(w)
    ensures var w' := Apply(env, names, w, ExtractWrite(0, facts));
            Consistent(env, w') && FreshJob(w')
  {
    if 0 in w.extracting && w.extracting[0] != [] {
      assert GoodSnapshots(w.db, w.extracting[0]);
      FreshStays(env, w, facts);
    }
    FreshIsSafe(env, w, facts);
    SafeStep(env, names, w, ExtractWrite(0, facts));
  }

  lemma {:induction false} FreshWrites(env: Env, names: Names, w: World, facts: seq<seq<Fact>>)
    requires Consistent(env, w) && FreshJob(w)
    ensures var w' := Run(env, names, w, Writes(facts));
            Consistent(env, w') && FreshJob(w')
  {
    if facts != [] {
      var n := |facts| - 1;
      var steps := Writes(facts);
      FreshWrites(env, names, w, facts[..n]);
      assert steps[..|steps| - 1] == Writes(facts[..n]);
      FreshWriteStep(env, names, Run(env, names, w, Writes(facts[..n])), facts[n]);
    }
  }

  lemma RunTwo(env: Env, names: Names, w: World, a: Step, b: Step)
    ensures Run(env, names, w, [a, b]) == Apply(env, names, Apply(env, names, w, a), b)
  {
    assert [a, b][..1] == [a] && [a][..0] == [];
    assert Run(env, names, w, [a]) == Apply(env, names, w, a);
  }

  lemma ArchivePassSafe(env: Env, names: Names, w: World, ids: seq<Id>)
    requires Consistent(env, w) && Distinct(ids)
    ensures Consistent(env, Run(env, names, w, StepsOf(ArchivePass(ids))))
  {
    SafeStep(env, names, w, ArchiveRead(0, ids));
    var w1 := Apply(env, names, w, ArchiveRead(0, ids));
    ReadPendingIds(w.db, ids);
    forall i | 0 <= i < |w1.archiving[0]| ensures HasStatus(w1.db, w1.archiving[0][i].id, {Collected, Archived}) {
      assert w1.archiving[0][i] in ReadPending(w.db, ids);
    }
    SafeStep(env, names, w1, ArchiveWrite(0));
    RunTwo(env, names, w, ArchiveRead(0, ids), ArchiveWrite(0));
  }

  lemma JustReadIsSafe(env: Env, w: World, w1: World, ids: seq<Id>, outcomes: seq<Outcome>)
    requires Distinct(ids) && w1.db == w.db && 0 in w1.verifying && w1.verifying[0] == ReadVerifiable(w.db, ids)
    ensures Safe(env, w1, VerifyWrite(0, outcomes)) && NoRotted(w1, VerifyWrite(0, outcomes))
  {
    ReadVerifiableIds(w.db, ids);
    if |outcomes| == |w1.verifying[0]| {
      forall i | 0 <= i < |outcomes| ensures SafeVerification(w1.db, w1.verifying[0][i], outcomes[i]) {
        assert w1.verifying[0][i] in ReadVerifiable(w.db, ids);
      }
    }
  }

  lemma VerifyPassSafe(env: Env, names: Names, w: World, ids: seq<Id>, outcomes: seq<Outcome>)
    requires Consistent(env, w) && Distinct(ids)
    ensures Consistent(env, Run(env, names, w, StepsOf(VerifyPass(ids, outcomes))))
  {
    VerifyReadSafe(env, names, w, ids, outcomes);
    SafeStep(env, names, Apply(env, names, w, VerifyRead(0, ids)), VerifyWrite(0, outcomes));
    RunTwo(env, names, w, VerifyRead(0, ids), VerifyWrite(0, outcomes));
  }

  lemma VerifyReadSafe(env: Env, names: Names, w: World, ids: seq<Id>, outcomes: seq<Outcome>)
    requires Consistent(env, w) && Distinct(ids)
    ensures var w1 := Apply(env, names, w, VerifyRead(0, ids));
            Consistent(env, w1) && Safe(env, w1, VerifyWrite(0, outcomes)) && NoRotted(w1, VerifyWrite(0, outcomes))
  {
    SafeStep(env, names, w, VerifyRead(0, ids));
    JustReadIsSafe(env, w, Apply(env, names, w, VerifyRead(0, ids)), ids, outcomes);
  }

  lemma ExtractPassSafe(env: Env, names: Names, w: World, ids: seq<Id>, facts: seq<seq<Fact>>)
    requires Consistent(env, w) && Distinct(ids)
    ensures Consistent(env, Run(env, names, w, StepsOf(ExtractPass(ids, facts))))
  {
    var read := [ExtractRead(0, ids)];
    var w1 := Apply(env, names, w, ExtractRead(0, ids));
    assert read[..0] == [] && Run(env, names, w, read) == w1;
    FreshRead(env, names, w, ids);
    FreshWrites(env, names, w1, facts);
    RunAppend(env, names, w, read, Writes(facts));
  }

  lemma FreshRead(env: Env, names: Names, w: World, ids: seq<Id>)
    requires Consistent(env, w) && Distinct(ids)
    ensures var w1 := Apply(env, names, w, ExtractRead(0, ids));
            Consistent(env, w1) && FreshJob(w1)
  {
    SafeStep(env, names, w, ExtractRead(0, ids));
    var w1 := Apply(env, names, w, ExtractRead(0, ids));
    ReadSnapshotsIds(w.db, ids);
    forall i | 0 <= i < |w1.extracting[0]| ensures HasStatus(w1.db, w1.extracting[0][i].source, {Archived}) {
      assert w1.extracting[0][i] in ReadSnapshots(w.db, ids);
    }
  }

  lemma PassSafe(env: Env, names: Names, w: World, pass: Pass)
    requires Consistent(env, w) && PassesRead(pass)
    ensures Consistent(env, Run(env, names, w, StepsOf(pass)))
  {
    match pass {
      case CollectPass(items) =>
        SafeStep(env, names, w, Collect(items));
        assert [Collect(items)][..0] == [];
      case ArchivePass(ids) => ArchivePassSafe(env, names, w, ids);
      case ExtractPass(ids, facts) => ExtractPassSafe(env, names, w, ids, facts);
      case VerifyPass(ids, outcomes) => VerifyPassSafe(env, names, w, ids, outcomes);
      case CorroboratePass(rows) =>
        SafeStep(env, names, w, Corroborate(rows));
        assert [Corroborate(rows)][..0] == [];
    }
  }

  lemma {:induction false} SerialRunsConsistent(env: Env, names: Names, w: World, passes: seq<Pass>)
    requires Consistent(env, w) && forall p | p in passes :: PassesRead(p)
    ensures Consistent(env, Run(env, names, w, AllSteps(passes)))
  {
    if passes != [] {
      var n := |passes| - 1;
      SerialRunsConsistent(env, names, w, passes[..n]);
      PassSafe(env, names, Run(env, names, w, AllSteps(passes[..n])), passes[n]);
      RunAppend(env, names, w, AllSteps(passes[..n]), StepsOf(passes[n]));
    }
  }

  lemma InitialConsistent(env: Env, globalProperties: map<string, Id>)
    ensures Consistent(env, Initial(globalProperties))
  {
    InitialGood(env, globalProperties);
  }

  /** After any sequence of complete passes: an archived source's status is the replay of
      its log, from `extracted` if it was ever extracted, else from `archived`; a source
      with a log is not selected for extraction; a link-rot entry is the last of its source. */
  lemma StatusReplaysLog(env: Env, names: Names, globalProperties: map<string, Id>, passes: seq<Pass>, id: Id, ids: seq<Id>)
    requires forall p | p in passes :: PassesRead(p)
    ensures var w := Run(env, names, Initial(globalProperties), AllSteps(passes));
            var outcomes := LogOf(w.db.log, id);
            && (id in w.db.sources && w.db.sources[id].rawText.Some? ==>
                  w.db.sources[id].status == Fold(if id in w.everExtracted then Extracted else Archived, outcomes))
            && (outcomes != [] ==> forall s | s in ReadSnapshots(w.db, ids) :: s.source != id)
            && RotLast(outcomes)
  {
    InitialConsistent(env, globalProperties);
    SerialRunsConsistent(env, names, Initial(globalProperties), passes);
    var w := Run(env, names, Initial(globalProperties), AllSteps(passes));
    assert Replayed(w, id) && RotLast(LogOf(w.db.log, id));
    ReplayedReads(w, id, ids);
  }

  /** So the status tells the log: link rot or a changed page is the last thing logged;
      `extracted` and `archived` are without a dead or changed page since; `verified` is a live
      page behind anything else. */
  lemma StatusTellsLog(env: Env, names: Names, globalProperties: map<string, Id>, passes: seq<Pass>, id: Id)
    requires forall p | p in passes :: PassesRead(p)
    requires var w := Run(env, names, Initial(globalProperties), AllSteps(passes));
             id in w.db.sources && w.db.sources[id].rawText.Some?
    ensures var w := Run(env, names, Initial(globalProperties), AllSteps(passes));
            var outcomes := LogOf(w.db.log, id);
            StatusTells(w.db.sources[id].status, id in w.everExtracted, outcomes)
  {
    StatusReplaysLog(env, names, globalProperties, passes, id, []);
    var w := Run(env, names, Initial(globalProperties), AllSteps(passes));
    FoldShape(Start(id in w.everExtracted), LogOf(w.db.log, id));
  }

  ghost predicate StatusTells(status: Status, everExtracted: bool, outcomes: seq<Outcome>) {
    && (status == LinkRot <==> outcomes != [] && outcomes[|outcomes| - 1] == Rot)
    && (status == ContentChanged <==> outcomes != [] && outcomes[|outcomes| - 1] == Changed)
    && (status == Extracted <==> everExtracted && AllLive(outcomes))
    && (status == Archived <==> !everExtracted && outcomes == [])
    && (status == Verified <==> outcomes != [] && outcomes[|outcomes| - 1] == Live && !(everExtracted && AllLive(outcomes)))
  }

  lemma ReplayedReads(w: World, id: Id, ids: seq<Id>)
    requires Replayed(w, id)
    ensures id in w.db.sources && w.db.sources[id].rawText.Some? ==>
              w.db.sources[id].status == Fold(if id in w.everExtracted then Extracted else Archived, LogOf(w.db.log, id))
    ensures LogOf(w.db.log, id) != [] ==> forall s | s in ReadSnapshots(w.db, ids) :: s.source != id
  {
    FoldShape(Start(id in w.everExtracted), LogOf(w.db.log, id));
    NotReadUnlessArchived(w.db, ids, id);
  }

  lemma {:induction false} NotReadUnlessArchived(t: Tables, ids: seq<Id>, id: Id)
    ensures !HasStatus(t, id, {Archived}) ==> forall s | s in ReadSnapshots(t, ids) :: s.source != id
  {
    if ids != [] {
      NotReadUnlessArchived(t, ids[..|ids| - 1], id);
    }
  }

  lemma StaleStatus(t: Tables, pending: seq<PendingVerification>, id: Id)
    requires pending == [PendingVerification(id, Archived)] && id in t.sources
    ensures id in VerifyAll(t, pending, [Live]).sources
    ensures VerifyAll(t, pending, [Live]).sources[id].status == Verified
  {
    assert pending[0].id == id;
    VerifyOne(t, pending, [Live], 0);
  }

  /** Overlap breaks it: a verification that read `archived` before an extraction marked
      the source writes `verified` over `extracted`. */
  lemma StaleVerificationLosesExtraction(env: Env, names: Names, w: World, worker: Worker, id: Id)
    requires Inv(env, w) && DistinctBatches(w) && AllReplayed(w)
    requires worker in w.verifying && w.verifying[worker] == [PendingVerification(id, Archived)]
    requires HasStatus(w.db, id, {Extracted})
    ensures LosesExtraction(Apply(env, names, w, VerifyWrite(worker, [Live])), id)
  {
    VerifyApplied(env, names, w, worker, [Live]);
    StaleNext(env, w, worker, id);
  }

  lemma VerifyApplied(env: Env, names: Names, w: World, worker: Worker, outcomes: seq<Outcome>)
    ensures Apply(env, names, w, VerifyWrite(worker, outcomes)) == VerifyNext(w, worker, outcomes)
  {
  }

  /** The source's status is lost, and with it the replay. */
  ghost predicate LosesExtraction(w: World, id: Id) {
    HasStatus(w.db, id, {Verified}) && id in w.everExtracted && !AllReplayed(w)
  }

  lemma StaleNext(env: Env, w: World, worker: Worker, id: Id)
    requires Inv(env, w) && DistinctBatches(w) && AllReplayed(w)
    requires worker in w.verifying && w.verifying[worker] == [PendingVerification(id, Archived)]
    requires HasStatus(w.db, id, {Extracted})
    ensures LosesExtraction(VerifyNext(w, worker, [Live]), id)
  {
    StaleWritten(w, worker, id);
    StaleIsUnsafe(env, w, worker, id);
    VerifyNextIff(env, w, worker, [Live]);
  }

  lemma StaleWritten(w: World, worker: Worker, id: Id)
    requires AllReplayed(w) && HasStatus(w.db, id, {Extracted})
    requires worker in w.verifying && w.verifying[worker] == [PendingVerification(id, Archived)]
    ensures var w' := VerifyNext(w, worker, [Live]);
            HasStatus(w'.db, id, {Verified}) && id in w'.everExtracted
  {
    StaleStatus(w.db, w.verifying[worker], id);
    ExtractedWasExtracted(w, id);
  }

  lemma StaleIsUnsafe(env: Env, w: World, worker: Worker, id: Id)
    requires worker in w.verifying && w.verifying[worker] == [PendingVerification(id, Archived)]
    requires HasStatus(w.db, id, {Extracted})
    ensures !Safe(env, w, VerifyWrite(worker, [Live]))
  {
    assert w.verifying[worker][0] == PendingVerification(id, Archived);
    assert !SafeVerification(w.db, w.verifying[worker][0], [Live][0]);
  }

  lemma ExtractedWasExtracted(w: World, id: Id)
    requires AllReplayed(w) && HasStatus(w.db, id, {Extracted})
    ensures id in w.everExtracted
  {
    assert Replayed(w, id);
    FoldShape(Start(id in w.everExtracted), LogOf(w.db.log, id));
  }

  lemma ReadOne(t: Tables, id: Id)
    requires HasStatus(t, id, {Archived})
    ensures ReadVerifiable(t, [id]) == [PendingVerification(id, Archived)]
    ensures t.sources[id].rawText.Some? ==> ReadSnapshots(t, [id]) == [Snapshot(id, t.sources[id].rawText.value)]
  {
    assert [id][..0] == [];
    assert ReadVerifiable(t, []) == [] && ReadSnapshots(t, []) == [];
  }

  /** The world when both passes have read the same archived source. */
  ghost function BothHave(w: World, id: Id, rawText: Bytes): World {
    w.(verifying := w.verifying[1 := [PendingVerification(id, Archived)]], extracting := w.extracting[0 := [Snapshot(id, rawText)]])
  }

  lemma BothReads(env: Env, names: Names, w: World, id: Id, rawText: Bytes)
    requires HasStatus(w.db, id, {Archived}) && w.db.sources[id].rawText == Some(rawText)
    ensures Apply(env, names, Apply(env, names, w, VerifyRead(1, [id])), ExtractRead(0, [id])) == BothHave(w, id, rawText)
  {
    ReadOne(w.db, id);
  }

  lemma BothReadsConsistent(env: Env, names: Names, w: World, id: Id)
    requires Consistent(env, w)
    ensures Consistent(env, Apply(env, names, Apply(env, names, w, VerifyRead(1, [id])), ExtractRead(0, [id])))
  {
    VerifierReads(env, names, w, id);
    ExtractorReads(env, names, Apply(env, names, w, VerifyRead(1, [id])), id);
  }

  lemma VerifierReads(env: Env, names: Names, w: World, id: Id)
    requires Consistent(env, w)
    ensures Consistent(env, Apply(env, names, w, VerifyRead(1, [id])))
  {
    SafeStep(env, names, w, VerifyRead(1, [id]));
  }

  lemma ExtractorReads(env: Env, names: Names, w: World, id: Id)
    requires Consistent(env, w)
    ensures Consistent(env, Apply(env, names, w, ExtractRead(0, [id])))
  {
    SafeStep(env, names, w, ExtractRead(0, [id]));
  }

  lemma BothRead(env: Env, names: Names, w: World, id: Id, rawText: Bytes)
    requires Consistent(env, w) && HasStatus(w.db, id, {Archived}) && w.db.sources[id].rawText == Some(rawText)
    ensures var w2 := Apply(env, names, Apply(env, names, w, VerifyRead(1, [id])), ExtractRead(0, [id]));
            Consistent(env, w2) && w2 == BothHave(w, id, rawText)
  {
    BothReads(env, names, w, id, rawText);
    BothReadsConsistent(env, names, w, id);
  }

  ghost predicate HoldsSnapshot(w: World, id: Id, rawText: Bytes) {
    0 in w.extracting && w.extracting[0] == [Snapshot(id, rawText)]
  }

  lemma MarkedRows(env: Env, w: World, id: Id, rawText: Bytes, facts: seq<Fact>)
    requires GoodSnapshots(w.db, [Snapshot(id, rawText)]) && HoldsSnapshot(w, id, rawText)
    requires rawText != [] && Marks(env, w.db, id, rawText, facts)
    ensures var w' := ExtractNext(env, w, 0, facts);
            HasStatus(w'.db, id, {Extracted}) && w'.verifying == w.verifying
  {
    assert w.extracting[0][0] == Snapshot(id, rawText);
    ExtractNextRows(env, w, 0, facts);
  }

  lemma MarkedIsSafe(env: Env, w: World, id: Id, rawText: Bytes, facts: seq<Fact>)
    requires AllReplayed(w) && HasStatus(w.db, id, {Archived}) && HoldsSnapshot(w, id, rawText)
    ensures Safe(env, w, ExtractWrite(0, facts))
  {
    assert w.extracting[0][0] == Snapshot(id, rawText);
    ArchivedHasNoLog(w, id);
  }

  lemma MarkedInBetween(env: Env, names: Names, w: World, id: Id, rawText: Bytes, facts: seq<Fact>)
    requires Consistent(env, w) && HasStatus(w.db, id, {Archived}) && HoldsSnapshot(w, id, rawText)
    requires rawText != [] && Marks(env, w.db, id, rawText, facts)
    ensures var w' := Apply(env, names, w, ExtractWrite(0, facts));
            Consistent(env, w') && HasStatus(w'.db, id, {Extracted}) && w'.verifying == w.verifying
  {
    assert GoodSnapshots(w.db, w.extracting[0]);
    MarkedRows(env, w, id, rawText, facts);
    MarkedIsSafe(env, w, id, rawText, facts);
    SafeStep(env, names, w, ExtractWrite(0, facts));
  }

  lemma RunFour(env: Env, names: Names, w: World, a: Step, b: Step, c: Step, d: Step)
    ensures Run(env, names, w, [a, b, c, d]) ==
            Apply(env, names, Apply(env, names, Apply(env, names, Apply(env, names, w, a), b), c), d)
  {
    assert [a, b, c, d] == [a, b] + [c, d];
    RunTwo(env, names, w, a, b);
    RunAppend(env, names, w, [a, b], [c, d]);
    RunTwo(env, names, Run(env, names, w, [a, b]), c, d);
  }

  /** The four steps that do it, from any state in which an extraction would mark a source. */
  lemma OverlapBreaksReplay(env: Env, names: Names, w: World, id: Id, rawText: Bytes, facts: seq<Fact>)
    requires Consistent(env, w) && HasStatus(w.db, id, {Archived}) && w.db.sources[id].rawText == Some(rawText)
    requires rawText != [] && Marks(env, w.db, id, rawText, facts)
    ensures LosesExtraction(Run(env, names, w, [VerifyRead(1, [id]), ExtractRead(0, [id]), ExtractWrite(0, facts), VerifyWrite(1, [Live])]), id)
  {
    var w2 := Apply(env, names, Apply(env, names, w, VerifyRead(1, [id])), ExtractRead(0, [id]));
    BothRead(env, names, w, id, rawText);
    MarkedInBetween(env, names, w2, id, rawText, facts);
    StaleVerificationLosesExtraction(env, names, Apply(env, names, w2, ExtractWrite(0, facts)), 1, id);
    RunFour(env, names, w, VerifyRead(1, [id]), ExtractRead(0, [id]), ExtractWrite(0, facts), VerifyWrite(1, [Live]));
  }
}
