# factvault evidence path

A Dafny 4.11 model of how factvault turns a fetched page into a stored, corroborated and
assembled fact, with proofs of what that path promises: an excerpt in the store is really in
its source, and stays so.

| module | what it holds |
|---|---|
| `Utf8`, `Text` | byte strings as Go reads them (RFC 3629, one U+FFFD per invalid byte), white space and words |
| `Excerpt` | rune and byte offsets, the two excerpt checks, facts cut out of a text |
| `StripHtml`, `Page` | the text of a page; which runes of a page are left, which tags keep words apart |
| `Store` | the tables and one write transaction per worker, as a class over its specification |
| `World` | the step machine: every pass reads in one step and writes in another, any number of workers |
| `Replay` | statuses as replays of the verification log |
| `Sources` | what each pass reads and writes row by row; one source for each URL, one entity for each label |
| `Extraction`, `Stored` | what writing a fact list again adds; which statement and evidence a fact becomes |
| `Clustering`, `Corroboration`, `Insertion`, `CorroborateWorker` | independent sources, similarity, confidence, rows inserted between others, the corroboration pass |
| `Ceilings` | the confidence a pass writes, read off the evidence rows; what makes two rows one origin |
| `Graph`, `Order` | the recursive query and bounded reachability; byte order and sorting |
| `Scheduler` | the RSS polling loop |
| `Spans`, `Gazetteer`, `Drift` | selection of non-overlapping facts; dates, identifiers, dictionary phrases; texts whose runes change width in lower case |
| `WholeWords` | the gazetteer over the decoded text: a stored name stands alone, a name that stands alone is stored |
| `Conflicts` | conflict detection in briefs |
| `Bundle` | sources and source ids of an assembled bundle |
| `Vocabulary`, `Labels`, `LateProperty` | slugs and labels; the words of a slug and what each label finds; the extractor under that vocabulary |
| `Example` | runs from the empty store on which a promise fails |

Loops and updates of the original are methods with loop invariants, proved equal to a
specification function or against an independent definition; everything about whole runs is
proved about those specifications. What a specification function says is stated a second time
without it, over rows, runes and positions. `dafny verify dfyconfig.toml` checks all of it.

## What the code does not do

Each of these is a proved statement; the table names the member.

- Writing the same fact list twice is not always idempotent. In strict vocabulary mode an
  unknown label that comes before a known label with the same slug is stored on the second
  write (`Extraction.LatePropertyIsPickedUp`; `date_` before `date` with the default catalog,
  `LateProperty.DateIsPickedUpLate`). The exact condition is `Extraction.RewriteIsNoOpIff`, and
  the third write never adds anything.
- A status is not always the replay of its log: a verification that read `archived` before an
  extraction marked the source writes `verified` over `extracted`
  (`Replay.OverlapBreaksReplay`; from the empty store, `Example.OverlapRun`). The exact condition
  for each write is `Replay.StepKeepsReplayIff`.
- The cluster count depends on the order of the rows unless the same-origin relation is
  transitive on them (`Clustering.ExactForEveryOrderIff`). Rows come ordered by source id, so
  new evidence can land between old rows and lower a confidence; it never does exactly when the
  rows linked to it are pairwise linked (`Insertion.ConfidenceNeverLoweredIff`), which
  `Insertion.ChainLowers` violates. This is about the counting function on any rows the schema
  allows; no reachable state has two rows for one statement (`World.EvidenceOneToOne`), so the
  workers as they are never get there.
- The statement key does not hold the source, so a second source for the same value adds no
  evidence row, and corroboration never gets past the one-source ceiling
  (`World.CorroborationNeverExceedsHalf`).
- The repository's README.md:27 says wire copy under another masthead does not count twice. It does: texts are
  compared within one domain only (`Corroboration.WireCopyCountsTwice`). This, too, is about rows
  the schema allows, which the workers do not write.
- The repository's README.md:186 says offsets are re-verified daily. Verification compares page hashes only
  (internal/workers/source_pipeline.go:274-278); the offsets stay right because page and text
  are never rewritten (`World.EvidenceForEver`).
- The gazetteer applies a position found in the lowercased text to the text itself. The span is
  the matched one exactly when lowercasing keeps the byte length of the text in front and of the
  match (`Gazetteer.SpanIsOccurrenceIff`). A longer lower case can make it panic
  (`Drift.AppleEntryPanics`; exactly when one find does: `Gazetteer.SpanLeavesTextIff`), a shorter
  one makes it store another excerpt that the write check accepts (`Drift.WxyzAppleIsStored`).
- The default polling interval is not checked. With one interval of zero or less the loop ticks
  by the second, and feeds whose interval is not whole seconds drift
  (`Scheduler.ExactIffRegular`).
- The sort key of conflicts is not total: three statements of one entity and property with three
  different values leave the order of the output open (`Conflicts.ThreeValuesTie`, exactly when:
  `Conflicts.OutputSettledIff`). This is the contract of `sort.Slice`; its present implementation
  keeps ties in place in lists of at most twelve entries, so there more conflicts are needed.
- A bundle keeps one excerpt per source, not one per statement: of a source quoted differently by
  two statements one quotation is lost, and the statement it belonged to points at the other
  (`Example.SecondExcerptLost`, a run from the empty store). All excerpts are carried exactly when
  no two evidence rows of the statements quote one source differently
  (`Bundle.BundleCarriesAllIff`; row by row, `Bundle.ExcerptCarriedIffFirst`).

## Model

| member | source | states |
|---|---|---|
| `World.EvidenceInvariant` | internal/workers/extract.go:83-100 | In every state reached by any interleaving of collect, archive, extract, verify and corroborate steps, with any number of workers and arbitrarily stale snapshots, each evidence row's excerpt is non-empty and is the UTF-8 encoding of its source's current text between the stored rune offsets |
| `World.EvidenceForEver` | internal/workers/source_pipeline.go:152-163 | Evidence and log only grow, and a row once stored keeps its source, that source's page and text, and its backing, however the run goes on; it holds although the archive UPDATE carries no status guard |
| `World.RunKeeps` | internal/workers/source_pipeline.go:84-88 | The inductive invariant over tables and all in-flight snapshots holds after every step sequence, and no step takes back a source, its page, its text, a statement, an evidence row or a log entry |
| `World.EvidenceOneToOne` | migrations/00006_statements_unique.sql:17-19 | In every reachable state each statement has exactly one evidence row |
| `World.CorroborationNeverExceedsHalf` | internal/workers/corroborate.go:80-90 | In every reachable state a corroboration pass over any rows of the table leaves each confidence it computes at 0.5 or below |
| `World.RewriteLaterInRun` | internal/workers/extract.go:227-264 | A fact list whose labels may create their property, written once with the source marked as the write marks it, adds nothing when written again after any further steps of the run |
| `Store.Database.Collect` | internal/workers/source_pipeline.go:62-100 | The new tables are those of the specification: blank URLs, empty pages, refused rows and known URLs are skipped, everything else becomes one `collected` row |
| `Store.Database.ArchiveWrite` | internal/workers/source_pipeline.go:152-168 | All pending sources get the stripped text of their page and status `archived`, or, when one page does not decompress, none does |
| `Store.Database.WriteExtractedFacts` | internal/workers/extract.go:159-193 | The transaction inserts the facts that pass the excerpt check, in order, marks the source extracted when at least one was inserted, or leaves the tables alone when an insert fails |
| `Stored.FactIsStored` | internal/workers/extract.go:227-250 | After a write each accepted fact that found its property has its statement: about the entity of its own subject label, or of `unknown subject` when it has none, under the tenant's property of its resolved slug or else the global one, with its value cast to the resolved type |
| `Stored.NewStatementIsFact` | internal/workers/extract.go:239-264 | Conversely each new statement is that of an accepted fact of the list, with its confidence or 0.5, and has an evidence row with the fact's source, excerpt, offsets, method and that confidence |
| `Stored.NewReferencesExist` | internal/workers/extract.go:371-384 | A new statement whose value is an entity refers to one that is there |
| `Stored.NotFoundIsProposed` | internal/workers/extract.go:326-336 | In strict mode a fact whose unknown label finds no property adds no statement, no evidence and no property, only its slug to the proposals |
| `Stored.AbortedBy` | internal/workers/extract.go:174-187 | A write is undone only for an accepted fact that finds its property and has a value the column cannot hold, a confidence outside [0, 1] or a reference to a missing entity |
| `Stored.BadFactAborts` | internal/workers/extract.go:174-187 | The first two of these always undo it |
| `Stored.MarkedIffNew` | internal/workers/extract.go:188-192 | The write sets the status `extracted` exactly when it brought a statement, and changes no other source |
| `Sources.SubjectsStayApart` | internal/workers/extract.go:266-301 | In every reachable state, where different labels have different keys, facts with different subjects never share a statement |
| `Sources.CollectStores` | internal/workers/source_pipeline.go:62-100 | A pass stores exactly one row for each new URL, from the first item with that URL that is not blank, not empty and not refused: its URL, publisher, compressed page and hash; all other sources stay |
| `Sources.OneSourcePerUrl` | internal/workers/source_pipeline.go:84-88 | In every reachable state no two sources have one URL and no two labels one entity |
| `Sources.ArchivingReads` | internal/workers/source_pipeline.go:123-150 | The archive pass reads the collected sources among those its query names, with their pages |
| `Sources.ExtractionReads` | internal/workers/extract.go:117-146 | The extraction pass reads the archived ones, with their texts |
| `Sources.VerificationReads` | internal/workers/source_pipeline.go:194-224 | The verification pass reads all but the collected and the dead ones, with their statuses |
| `Sources.ArchiveFailsIff` | internal/workers/source_pipeline.go:152-156 | An archive write fails exactly when a page does not decompress |
| `Sources.ArchiveWrites` | internal/workers/source_pipeline.go:152-168 | Otherwise each source of the batch keeps its columns and gets the stripped page as text and the status `archived` |
| `Sources.ArchiveLeaves` | internal/workers/source_pipeline.go:152-168 | Sources outside the batch and all other tables stay as they are |
| `Replay.VerifyWrites` | internal/workers/source_pipeline.go:281-294 | A changed page makes its source `content-changed`, a dead one `link-rot`, a live one `extracted` if it was read as extracted and `verified` otherwise; its other columns stay |
| `Replay.VerifyLogs` | internal/workers/source_pipeline.go:226-243 | The outcomes of the batch are logged in order |
| `Replay.VerifyLeaves` | internal/workers/source_pipeline.go:226-243 | Sources outside the batch and all other tables stay as they are |
| `Replay.StatusTellsLog` | internal/workers/source_pipeline.go:281-294 | After complete, non-overlapping passes the status tells the log: link rot or a changed page is the last entry, `extracted` means extracted and live ever since, `archived` never extracted and never verified, `verified` a live page behind anything else |
| `Store.Database.VerifyWrite` | internal/workers/source_pipeline.go:226-244 | One log entry and one status, mapped from the status that was read, for each pending source |
| `Replay.StatusReplaysLog` | internal/workers/source_pipeline.go:226-243 | After any sequence of complete, non-overlapping passes the status of a source with text is the fold of the status mapping over its log from `extracted` if it was ever extracted, else from `archived`; a source with a log is never read for extraction again; a link-rot entry is the last of its source |
| `Replay.StepKeepsReplayIff` | internal/workers/source_pipeline.go:235-239 | From a state where every status is the replay of its log, one step of any worker keeps that exactly when its write meets a condition on the rows it writes that the transaction could check: archived sources still collected or archived, extracted sources with nothing but live entries, live outcomes read and written on the same side of `extracted` |
| `Replay.StepKeepsRotLast` | internal/workers/source_pipeline.go:194-201 | From a consistent state a step keeps link rot the last entry of every log exactly when the verification batch it writes holds no source that has rotted since it was read |
| `Replay.FoldShape` | internal/workers/source_pipeline.go:281-294 | The replay is `archived` only of an empty log, `extracted` only of all-live entries from `extracted`, link rot or `content-changed` exactly when the last entry says so, `verified` exactly for a last live entry behind anything else, never `collected` |
| `Replay.StaleVerificationLosesExtraction` | internal/workers/source_pipeline.go:281-288 | A live verification that read `archived` writes `verified` over `extracted` |
| `Replay.OverlapBreaksReplay` | internal/workers/source_pipeline.go:235-239 | Four steps of two overlapping passes do that from every consistent state in which an extraction would mark a source |
| `Example.OverlapRun` | internal/workers/source_pipeline.go:235-239 | A run of seven steps from the empty store that does it: collect, archive, overlapping verification and extraction |
| `Example.SceneExists` | internal/workers/extract.go:26-39 | A page and two facts for which the runs of this module are made |
| `Extraction.RewriteIsNoOpIff` | internal/workers/extract.go:227-255 | Writing a list again, at once or later, adds nothing exactly when each accepted fact whose label may only be proposed still lacks its property or already has its statement |
| `Extraction.KnownLabelsRewriteNothing` | internal/workers/extract.go:303-335 | Without labels that may only be proposed, a rewrite leaves all tables as they are |
| `Extraction.TwoWritesSettle` | internal/workers/extract.go:174-193 | Whatever the list and the mode, the third write of a list is a no-op |
| `Extraction.LatePropertyIsPickedUp` | internal/workers/extract.go:326-336 | Idempotence fails in strict mode: an unknown label in front of a known one with the same slug is stored by the second write only, one statement and one evidence row more |
| `Extraction.NoOpIffSettled` | internal/workers/extract.go:174-187 | A write changes nothing exactly when every accepted fact already has its statement, or is proposed already and lacks its property |
| `Extraction.WriteFactsAdds` | internal/workers/extract.go:174-187 | A write takes back no row of any table and changes no existing statement, source or log entry |
| `Extraction.AcceptedAreNew` | internal/workers/extract.go:174-187 | The number of accepted facts is the number of new statements and of new evidence rows |
| `Excerpt.RuneOffsetToByteOffset` | internal/workers/extract.go:447-465 | The loop finds the byte position of every rune number from 0 to the rune count and fails on all others |
| `Excerpt.RuneByteRune` | internal/extractors/deterministic/identifiers.go:88-96 | From runes to bytes and back is the identity on 0..runeCount of every byte string, invalid ones included |
| `Excerpt.ByteRuneByte` | internal/extractors/llm.go:222-240 | From bytes to runes and back is the identity exactly on the rune boundaries |
| `Excerpt.ByteToRuneMonotone` | internal/extractors/deterministic/identifiers.go:88-96 | On boundaries the rune offset grows strictly with the byte offset, both ways |
| `Excerpt.MisalignedOffsetOvershoots` | internal/extractors/deterministic/identifiers.go:95 | Inside a rune it does not: three bytes of U+10000 count as three runes, all four as one |
| `Excerpt.WorkerVerifyMeans` | internal/workers/extract.go:26-39 | The check accepts exactly when the excerpt is a non-empty range of whole runes of the text and the offsets count the runes in front of its two ends |
| `Excerpt.AcceptedExcerptReads` | internal/workers/extract.go:26-39 | For any text an accepted excerpt is non-empty and reads as exactly the runes between its offsets |
| `Excerpt.WorkerVerifyIsSubstring` | internal/workers/extract.go:26-39 | On valid text it accepts exactly when the excerpt is valid and its runes are those of the text between the offsets |
| `Excerpt.WorkerIsExtractorAndNonempty` | internal/extractors/llm.go:192-209 | The worker's check is the extractors' check and start < end; they differ exactly on empty ranges with an empty excerpt |
| `Excerpt.VerifyExcerptOffset` | internal/workers/extract.go:26-39 | The code decides that check |
| `Excerpt.VerifyProposalOffset` | internal/extractors/llm.go:192-209 | The code decides the extractors' check |
| `Excerpt.FilterVerifiedStatementProposals` | internal/extractors/llm.go:212-220 | Keeps, in order, exactly the proposals that pass |
| `Excerpt.KeptInOrder` | internal/extractors/llm.go:212-220 | They are those at the passing positions, from left to right |
| `Excerpt.AlignedSpanAccepted` | internal/extractors/deterministic/money.go:25-52 | A fact cut out of a non-empty span of whole runes passes the write check, invalid text included |
| `Excerpt.SpanAcceptedIffAligned` | internal/extractors/deterministic/identifiers.go:51-75 | On valid text a cut-out span passes exactly when it is non-empty and starts and ends on rune boundaries |
| `Utf8.DecodeEncode` | internal/workers/source_pipeline.go:349-360 | Decoding undoes encoding, and encodings are valid |
| `Utf8.EncodeDecode` | internal/workers/extract.go:455-460 | Encoding undoes decoding exactly on valid strings, with RFC 3629 sequences and width-1 errors as Go ranges over them |
| `Utf8.InvalidByteReads` | internal/workers/extract.go:455-460 | A byte that starts no valid sequence reads as one U+FFFD |
| `Utf8.SliceDecodes` | internal/workers/extract.go:38 | The runes between two rune positions are those of the bytes between them |
| `StripHtml.Strip` | internal/workers/source_pipeline.go:341-362 | The replacement loop, the `inTag` loop and the re-spacing compute the specified text |
| `Page.StripKeepsWords` | internal/workers/source_pipeline.go:347-361 | The stripped text is the words of exactly those runes of the page, breaks replaced, that are no brackets and stand where the last bracket in front is `>` or there is none |
| `Page.StripKeepsRunes` | internal/workers/source_pipeline.go:347-361 | Rune for rune and in order: its runes that are no white space are those of the page at these positions |
| `Page.TagBecomesBreak` | internal/workers/source_pipeline.go:343-346 | Each of the tags `<br>`, `<br/>`, `<br />`, `</p>` and `</div>`, wherever it stands, is replaced by a line break |
| `Page.NoTagNoBreak` | internal/workers/source_pipeline.go:343-346 | A page without any of them is not changed by the replacements |
| `Page.BreakKeepsWordsApart` | internal/workers/source_pipeline.go:341-362 | Where no tag is open, the words of a page around one of the five tags are the words of what stands in front and of what stands behind |
| `StripHtml.StrippedShape` | internal/workers/source_pipeline.go:341-362 | For every page the text is valid UTF-8 without angle brackets, without space at the ends and with single blanks between words |
| `StripHtml.StripFixedPoint` | internal/workers/source_pipeline.go:341-362 | A byte string is left alone exactly when it has that shape |
| `StripHtml.StripIdempotent` | internal/workers/source_pipeline.go:341-362 | Stripping is idempotent |
| `Text.IsWhiteSpace` | internal/workers/source_pipeline.go:361 | White space is the 25 runes with the Unicode property of that name |
| `Text.TrimSpaceMeans` | internal/workers/source_pipeline.go:63 | Trimming cuts white space off both ends and nothing else; blank strings, and no others, are cut to nothing |
| `Text.FieldsJoin` | internal/workers/source_pipeline.go:361 | Splitting at white space undoes joining with blanks |
| `Text.FieldsKeepNonSpace` | internal/workers/source_pipeline.go:361 | Re-spacing loses, adds and reorders no other character |
| `Spans.ExtractDates` | internal/extractors/deterministic/dates.go:25-35 | The four passes in their order compute the greedy selection over all candidates in priority order; kept facts are pairwise disjoint in runes |
| `Spans.AppendDateFacts` | internal/extractors/deterministic/dates.go:37-71 | One pass: matches that normalise and overlap no fact kept before are appended |
| `Spans.DatesDisjointAndMaximal` | internal/extractors/deterministic/dates.go:78-87 | All date facts of aligned matches pass the write check, no two share a byte, and every match that normalises overlaps a kept fact |
| `Spans.GreedyIsByPriority` | internal/extractors/deterministic/dates.go:29-33 | Whatever choice takes a candidate exactly when it normalises and overlaps no earlier chosen one, its facts are those of the selection |
| `Spans.ChoiceExists` | internal/extractors/deterministic/dates.go:29-33 | Every candidate list has such a choice |
| `Spans.GreedyMaximal` | internal/extractors/deterministic/dates.go:62-64 | Each candidate that normalises is appended or overlaps a fact kept before it |
| `Spans.ApartInBytes` | internal/extractors/deterministic/dates.go:78-87 | For facts that pass the check, disjoint in stored rune offsets is disjoint in bytes |
| `Spans.DateFactIsMatch` | internal/extractors/deterministic/dates.go:37-71 | Every date fact is that of a match: the subject, slug and type `date`, method `regex:dates-v1`, the bytes of the match, the runes in front of its ends, the value its pattern's normaliser gives |
| `Spans.EarlierDateWins` | internal/extractors/deterministic/dates.go:25-35 | A match that normalises has its fact, or overlaps the fact of a match of an earlier pattern or of an earlier match of its own pattern, the patterns being RFC 3339, month-day-year, day-month-year, ISO |
| `Spans.CollectIdentifierFacts` | internal/extractors/deterministic/identifiers.go:42-76 | A fact for every match, in order, with the columns of its extractor, the bytes of the match and the normalised value group; facts of aligned matches all pass the write check |
| `Gazetteer.ExtractGazetteer` | internal/extractors/deterministic/gazetteer.go:52-61 | The extractor panics exactly when a span of some entry leaves the text; otherwise its facts are the greedy selection over the entries' spans, entry behind entry |
| `Gazetteer.GazetteerSoundAndMaximal` | internal/extractors/deterministic/gazetteer.go:52-61 | On a text searchable for all phrases (lowercasing keeps every rune's width, phrases lower to ASCII of equal length) no entry panics, all facts pass the write check, no two share a byte, and every find with word boundaries overlaps a fact |
| `WholeWords.FactsStandAlone` | internal/extractors/deterministic/gazetteer.go:74-90 | On a valid text searchable for the dictionary each fact has the slug, type and canonical name of an entry, its excerpt reads as a phrase of that entry in lower case, and no letter or digit of the decoded text stands next to it |
| `WholeWords.WholeWordIsStored` | internal/extractors/deterministic/gazetteer.go:52-96 | Conversely a phrase of an entry with no letter or digit next to it, not beginning inside another occurrence of itself, is stored, or shares a rune with a fact of that or an earlier entry |
| `Gazetteer.AppendGazetteerFacts` | internal/extractors/deterministic/gazetteer.go:63-96 | The loops over the phrases of one entry compute the greedy selection over the spans their searches visit, and panic exactly when a span leaves the text |
| `Gazetteer.AppendPhraseFacts` | internal/extractors/deterministic/gazetteer.go:71-93 | The same for the search loop of one phrase |
| `Gazetteer.ScanFindsPhrase` | internal/extractors/deterministic/gazetteer.go:71-93 | On a searchable text every visited span is whole runes that lower to the lowered phrase, and every occurrence of the lowered phrase starts inside a visited span |
| `Gazetteer.SpanIsOccurrenceIff` | internal/extractors/deterministic/gazetteer.go:74-79 | Any text, any find: the runes that were matched lower to the phrase, and the span takes exactly their bytes if and only if lowering keeps the byte length of the searched text in front of them and their own |
| `Gazetteer.SpanLeavesTextIff` | internal/extractors/deterministic/gazetteer.go:74-80 | Any text, any find: the span leaves the text, a panic, exactly when the text in front and the matched runes grow in lower case by more bytes than lie behind them |
| `Drift.PanicNeedsGrowth` | internal/extractors/deterministic/gazetteer.go:74-80 | Conversely a search panics only on a text some rest of which grows in lower case |
| `Gazetteer.KeepsWidthsIff` | internal/extractors/deterministic/gazetteer.go:74-79 | Lowercasing keeps every rune's width exactly when all runes of text and lowered text start at the same bytes |
| `Gazetteer.LowerOfRunes` | internal/extractors/deterministic/gazetteer.go:74 | Lowering any range of runes gives that range of runes of the lowered text, invalid bytes included |
| `Drift.AsciiPhrase` | internal/extractors/deterministic/gazetteer.go:24-49 | ASCII phrases, which all of the dictionary are, lower to ASCII of the same length |
| `Drift.LongerLowerCasePanics` | internal/extractors/deterministic/gazetteer.go:74-80 | A text whose front part grows in lower case, with the phrase at its end: the search makes the extractor panic |
| `Drift.AppleEntryPanics` | internal/extractors/deterministic/gazetteer.go:26-30 | The entry with the alias Apple panics on U+023A followed by Apple |
| `Drift.ShorterLowerCaseMisquotes` | internal/extractors/deterministic/gazetteer.go:76-90 | Behind n runes U+0130 and ASCII text a phrase is found n bytes too early: with word boundaries there, a fact for the phrase is stored whose excerpt is not the phrase and passes the write check |
| `Drift.WxyzAppleIsStored` | internal/extractors/deterministic/gazetteer.go:76-90 | At a concrete text the value Apple Inc. is stored with the excerpt wxyz Apple |
| `Corroboration.CountIndependentSources` | internal/workers/corroborate.go:104-133 | The cluster loop computes first-match single-linkage clustering by domain and text similarity |
| `Corroboration.CountBetweenOriginsAndRows` | internal/workers/corroborate.go:104-133 | The count is at least the number of connected components of the same-origin relation and at most the number of rows |
| `Corroboration.CountIsOriginsWhenTransitive` | internal/workers/corroborate.go:104-133 | When same origin is transitive on the rows, the count is the number of components in every order of them |
| `Clustering.ExactForEveryOrderIff` | internal/workers/corroborate.go:104-133 | For any symmetric, reflexive relation the count is the number of components in every order exactly when the relation is transitive on the rows |
| `Clustering.CountBounds` | internal/workers/corroborate.go:104-133 | Components <= clusters <= rows for every symmetric relation and order |
| `Corroboration.AppendedEvidenceNeverLowers` | internal/workers/corroborate.go:80-90 | Evidence ordered last raises the count by 0 or 1 and never lowers the confidence, which is at most 0.95 |
| `Corroboration.InsertedEvidenceLowers` | internal/workers/corroborate.go:62 | Evidence ordered between two rows that are not of one origin, and of the origin of both, turns 0.85 into 0.5 |
| `Insertion.ClustersAreLeaders` | internal/workers/corroborate.go:104-133 | The number of clusters is the number of rows with no earlier linked row |
| `Insertion.InsertionNeverLowersIff` | internal/workers/corroborate.go:104-133 | For any reflexive, symmetric relation: no insertion of a row, at any place in any order of the rows, lowers the count exactly when the rows linked to it are pairwise linked |
| `Insertion.CountNeverLoweredIff` | internal/workers/corroborate.go:57-64 | The same for evidence rows and the count of independent sources |
| `Insertion.ConfidenceLoweredIff` | internal/workers/corroborate.go:80-90 | One insertion lowers the confidence exactly when it lowers the ceiling, to below the confidence of some row |
| `Insertion.ConfidenceNeverLoweredIff` | internal/workers/corroborate.go:80-90 | No list of rows of the given origins, with whatever confidences, loses confidence to the new row at any place exactly when the rows linked to it are pairwise linked |
| `Insertion.ChainLowers` | internal/workers/corroborate.go:104-133 | Three rows of one publisher whose canonical texts do it |
| `Corroboration.ChainOfTexts` | internal/workers/corroborate.go:154-167 | Three concrete texts with the similarities that makes this happen |
| `Corroboration.WireCopyCountsTwice` | internal/workers/corroborate.go:114-118 | Two rows count once exactly when they share the domain and nearly the text; a copy under another domain counts twice and lifts the ceiling |
| `Corroboration.SimilarityLaws` | internal/workers/corroborate.go:154-179 | Similarity is symmetric, within [0, 1], 1 exactly for equal trigram sets, and never divides by zero |
| `Corroboration.TrigramSimilarity` | internal/workers/corroborate.go:154-167 | The loops compute the Dice quotient of the trigram sets |
| `Corroboration.ComputeTrigrams` | internal/workers/corroborate.go:169-179 | The loop collects exactly the rune triples of the padded text |
| `Corroboration.ComputeConfidence` | internal/assembler/confidence.go:10-36 | The smaller of the ceiling for the count and the largest source confidence, 0.95 standing in when there is none |
| `Corroboration.SingleEvidenceAtMostHalf` | internal/assembler/confidence.go:27-30 | One row: its confidence, capped at 0.5 |
| `CorroborateWorker.CorroborateOnce` | internal/workers/corroborate.go:69-90 | Whatever the order of the groups, every statement with rows gets the confidence of its rows and every other statement keeps its own |
| `Ceilings.ConfidenceOfRows` | internal/workers/corroborate.go:57-90 | A statement with rows gets the largest confidence of its own rows, or 0.5, 0.85 or 0.95 for one, two or more independent sources where that is less; the count sees the rows in order, each with its source's URL, publisher and first 32768 runes |
| `Ceilings.OneRowConfidence` | internal/workers/corroborate.go:80-90 | A statement with one row gets that row's confidence, or 0.5 where that is less |
| `Ceilings.NoRowsNoChange` | internal/workers/corroborate.go:76-90 | A statement without rows keeps its confidence, and no other table changes |
| `Ceilings.ReachableConfidence` | internal/workers/corroborate.go:80-90 | In every reachable state a pass gives each statement it has a row for exactly that row's confidence, or 0.5 where that is less |
| `Ceilings.OneOriginIff` | internal/workers/corroborate.go:104-179 | Two rows count once exactly when they have one domain (trimmed publisher in lower case, else the URL's host without `www.`, else the source) and share at least 85 in 100 of the rune triples of their first 200 words |
| `CorroborateWorker.SecondPassChangesNothing` | internal/workers/corroborate.go:80-90 | A second pass over the same rows changes nothing |
| `Graph.ExpandGraph` | internal/assembler/graph.go:12-74 | Error cases in their order; otherwise the answer lists, each once, exactly the entities joined to a non-blank seed by a path of at most `depth` usable relations in either direction, ascending above depth 0, in seed order at depth 0 |
| `Graph.EvaluateUnion` | internal/assembler/graph.go:44-57 | The working-table loop with UNION ends on every graph and yields exactly the walk levels up to the depth |
| `Graph.EvaluateUnionAll` | internal/assembler/graph.go:35-43 | The same loop with UNION ALL yields the same distinct rows |
| `Graph.ExpandIsReachability` | internal/assembler/graph.go:44-62 | The distinct entities are those on a path of at most `depth` relations from a seed, cyclic graphs included, each relation in the tenant and with confidence at least 0.4, a missing one counting as 0 |
| `Graph.OneRound` | internal/assembler/graph.go:44-57 | At depth 1 the result is the seeds and what one relation of the tenant, its confidence there and at least 0.4, joins to a seed in either direction |
| `Graph.ExpandComposes` | internal/assembler/graph.go:44-62 | Expanding by a and then by b is expanding by a + b |
| `Graph.ExpandSymmetric` | internal/assembler/graph.go:48-56 | Between single seeds membership is symmetric |
| `Graph.RowsLinear` | internal/assembler/graph.go:37-39 | With UNION the result has at most (depth + 1) * vertices rows, the vertices being the seeds and endpoints |
| `Graph.LevelSize` | internal/assembler/graph.go:37-39 | With UNION each working table has at most one row per vertex |
| `Graph.UnionAllDoubles` | internal/assembler/graph.go:37-39 | With UNION ALL one relation from an entity to itself doubles the working table every round |
| `Graph.UniqueStrings` | internal/assembler/bundle.go:435-446 | First occurrences in order, without blanks |
| `Graph.UniqueInOrder` | internal/assembler/bundle.go:435-446 | They are the values at the positions of first occurrence, from left to right |
| `Scheduler.PollLoop` | cmd/factvault/worker.go:235-256 | The loop produces a run of the timing relation the theorems are about; it goes on past a wake exactly when nothing is due or the polls of its due list succeed, and a failed poll ends it before anything is marked |
| `Scheduler.BuildRSSSchedules` | cmd/factvault/worker.go:505-514 | Exactly the feeds with a tenant, ascending, each once; all intervals positive when the default is |
| `Scheduler.DueRSSFeedIndexes` | cmd/factvault/worker.go:524-533 | Exactly the feeds never polled or polled at least an interval ago, in schedule order, ascending |
| `Scheduler.NextRSSPollWait` | cmd/factvault/worker.go:535-551 | One second without schedules, 0 with an unpolled feed, else the smallest remaining time |
| `Scheduler.PollInterval` | internal/collectors/feeds.go:42-51 | The feed's own interval when it parses and is positive, else the default as it is |
| `Scheduler.ExactIffRegular` | cmd/factvault/worker.go:235-256 | Ideal clock, every run past the feed's first interval: a feed with a positive interval is polled at exactly t0 + k * interval, no skip, extra poll or drift, if and only if all intervals are positive or its own is a whole number of seconds |
| `Scheduler.PolledIffOnGrid` | cmd/factvault/worker.go:524-533 | Under that condition a wake polls the feed exactly when its clock is on the feed's grid |
| `Scheduler.GridTimeIsWake` | cmd/factvault/worker.go:535-551 | Under that condition every grid time the run reaches is a wake |
| `Scheduler.EveryWakePolls` | cmd/factvault/worker.go:247-250 | With positive intervals every wake polls at least one feed |
| `Scheduler.Lateness` | cmd/factvault/worker.go:235-256 | Arbitrary late wakes: two polls of a feed with none between are at least its interval apart, and with positive intervals the second is late by at most the delay of the single wait before it |
| `Scheduler.NoPollSkipped` | cmd/factvault/worker.go:524-533 | Every feed is polled at the first wake, and no wake at or past its deadline goes by without a poll |
| `Conflicts.DetectConflicts` | internal/briefs/briefs.go:198-238 | For distinct ids: each unordered pair of statements with equal entity and property and different values is reported exactly once, value of the smaller id first, entities ascending, under one entity slugs, under one slug first values, groups visited in any order |
| `Order.LessMeans` | internal/briefs/briefs.go:228-236 | One string is smaller exactly when it is a proper prefix or has the smaller rune where they first differ |
| `Conflicts.PairUp` | internal/briefs/briefs.go:212-227 | The nested loops over one group sorted by id report each of its clashing pairs once |
| `Conflicts.OrderFree` | internal/briefs/briefs.go:198-205 | The entries do not depend on the order of the statements or of the map |
| `Conflicts.OrderSettledIffNoTies` | internal/briefs/briefs.go:228-236 | The entries settle the order of the output exactly when no two differ only in the second value: the sort key is not total |
| `Conflicts.TiesIffSharedFirst` | internal/briefs/briefs.go:228-236 | Two entries tie exactly when the statements hold two clashing pairs with the same key and first value and different second values |
| `Conflicts.OutputSettledIff` | internal/briefs/briefs.go:198-238 | The statements settle the output exactly when they hold no two such pairs |
| `Conflicts.ThreeValuesTie` | internal/briefs/briefs.go:228-236 | Three statements of one entity and slug with three different values: the two entries of the smallest id tie, and another output is possible |
| `Conflicts.ThreeStatements` | internal/briefs/briefs.go:198-238 | The smallest such list |
| `Vocabulary.ComputeSlug` | internal/vocabulary/resolver.go:130-147 | The flag loop and the trim compute the specified slug |
| `Vocabulary.SlugHasShape` | internal/vocabulary/resolver.go:130-147 | Every slug is lower-case letters and digits with single underscores between them, none at the ends |
| `Vocabulary.SlugFixedPoint` | internal/vocabulary/resolver.go:130-147 | Exactly these strings are left alone, so normalising is idempotent |
| `Labels.SlugIsWords` | internal/vocabulary/resolver.go:130-147 | The words of a slug are the maximal runs of letters and digits of the label, in lower case and in order |
| `Labels.UnknownLabel` | internal/vocabulary/resolver.go:63-101 | A label without an entry keeps its text and value type, is known in permissive mode and proposed in strict mode, under its words or, without any, the trimmed label in lower case |
| `Labels.DefaultFinds` | internal/vocabulary/resolver.go:104-124 | Every slug and label of the default catalog, in any letter case and with white space around it, finds its entry in both modes |
| `Labels.DefaultLabels` | internal/vocabulary/resolver.go:104-116 | What each of the ten labels finds |
| `Vocabulary.CanonicalIffClosed` | internal/vocabulary/resolver.go:56-101 | For any catalog: resolving a resolved slug gives the same slug for every label exactly when the slug behind each reachable key resolves to itself and every key in slug form names its own entry |
| `Vocabulary.DefaultIsCanonical` | internal/vocabulary/resolver.go:104-124 | The default catalog meets that: for every label, in both modes, catalog hits included |
| `Vocabulary.BuildCatalog` | internal/vocabulary/resolver.go:118-123 | The loop fills the map from slugs and labels |
| `Vocabulary.DefaultShareSlug` | internal/vocabulary/resolver.go:56-88 | In strict mode every slug of the default catalog but the one with a dot, and the slug with an underscore behind it, resolve to the same slug, one known, one only proposed |
| `LateProperty.ValueTypeTaken` | internal/workers/extract.go:386-393 | Each of the five value types is taken in any letter case and with white space around it, and every other type is a string |
| `LateProperty.SlugIsPickedUpLate` | internal/workers/extract.go:303-336 | Under that resolver: a fact labelled with such a slug and an underscore, in front of one labelled with the slug, is stored by the second write only |
| `LateProperty.DateIsPickedUpLate` | internal/workers/extract.go:303-336 | So it is for `date_` and `date`, for a source in a store that has no such property yet |
| `Bundle.BundleQuotes` | internal/assembler/bundle.go:247-262 | In every reachable state, each source of a bundle carries an excerpt that is exactly the source's text at the bundle's offsets, whatever order the rows come in |
| `Bundle.BundleShows` | internal/assembler/bundle.go:247-291 | Each source of a bundle has the URL and the status of its source row, and excerpt and offsets of an evidence row of the statements |
| `Bundle.BundleHasNoGaps` | internal/briefs/briefs.go:261-268 | In every reachable state every statement of a bundle has exactly one source id, so no evidence gap is ever reported |
| `Bundle.ReferencesClosed` | internal/assembler/bundle.go:269-299 | Source ids of statements and sources match both ways, and no source appears twice |
| `Bundle.ExcerptCarriedIffFirst` | internal/assembler/bundle.go:293-297 | For any rows: a row's excerpt and offsets are carried exactly when the first row of its source has the same |
| `Bundle.AllExcerptsCarriedIff` | internal/assembler/bundle.go:293-297 | For any rows: all are carried exactly when no two rows of one source differ |
| `Bundle.BundleCarriesAllIff` | internal/assembler/bundle.go:242-299 | For any tables, statements and row order: the bundle carries every excerpt of its statements exactly when no two of their evidence rows quote one source differently |
| `Example.SecondExcerptLost` | internal/assembler/bundle.go:293-297 | A run of five steps from the empty store after which it does not: two statements quote different spans of one source, the second's only source carries the first's excerpt, and in every row order one is lost |
| `Bundle.LoadBundleSources` | internal/assembler/bundle.go:269-299 | The row loop computes the first row of each source and the source ids of each statement, in row order |
| `Bundle.SourcesInOrder` | internal/assembler/bundle.go:293-296 | The sources stand in the order of their first rows |
| `Bundle.IdsInOrder` | internal/assembler/bundle.go:292 | The source ids of a statement stand in the order of its rows |
| `Bundle.AttachedIds` | internal/assembler/bundle.go:131-137 | Statement for statement in the order asked for: its id, and the source ids of its rows |
| `Bundle.AssembleEvidence` | internal/assembler/bundle.go:131-137 | Statements get the source ids of their rows |

## Left out

- HTTP, feed parsing, the Wayback Machine, LLM clients, retries and cancellation: collected items, proposals, verification outcomes and failures are arbitrary inputs of the steps.
- SQL: a query's LIMIT, age filter and ORDER BY appear as an arbitrary choice of distinct rows or an arbitrary row order; a failing statement is a transaction that changes nothing; row locks and isolation levels are not modelled beyond atomic writes.
- `archive_url`, titles, publication dates, notes and other columns no modelled code decides on; NUMERIC rounding of stored confidences; 32-bit columns for offsets.
- zlib, SHA-256, `url.Parse`, SQL casts, Unicode tables and duration parsing: arbitrary functions, with the laws a proof needs as preconditions; entity labels reach the store through an arbitrary key function.
- `uuid.NewString`: a counter that never repeats.
- Tenants: one tenant, except in the relations of `Graph`; row-level security is not modelled.
- Regular expressions and date parsing: match spans and normalisers are inputs; matches are in the text, and non-empty whole runes where a statement says so.
- Floating-point amounts (internal/extractors/deterministic/money.go:55-77); confidences and similarities are reals.
- Collation: strings are ordered by code point, as Go orders them; `ORDER BY entity_id::text` is taken to do the same for ids.
- The monotonic clock: times are integers; overflow of durations is not modelled.
- Qualifiers, relations, entity rows and JSON of bundles and briefs, key claims and citations: further filters and sorts of the same kind.
- Vector search, dossiers, JWT, CLI, configuration, deployment checks.
- Gazetteer.ExtractGazetteer: the fixed dictionary is an arbitrary list of entries with non-empty phrases; an empty phrase would never end the search loop and the dictionary has none.
- Conflicts.DetectConflicts: distinct statement ids are required, as the primary key gives them; with repeated ids the value that comes first would be up to the unstable sort.
- Store.Database.WriteExtractedFacts: the inserts of one fact are functions on the copy of the tables the transaction works on, not statements of their own.
- Graph.ExpandGraph: a seed that is no UUID fails in the query; ids are plain strings here.
- Scheduler.PollLoop: the loop ends after a given number of waits, standing for cancellation; the time polls take is part of the delay of the wait that follows.
