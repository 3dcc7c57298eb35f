/**
 The gazetteer said over the decoded text: which fact a phrase gives, that a stored name
 stands alone, and that a name that stands alone is stored.
 */
module WholeWords {
  import opened Wrappers
  import opened Utf8
  import opened Excerpt
  import opened Spans
  import opened Text
  import opened Gazetteer

  /** No letter or digit of the decoded text touches the runes from `k` to `l`. */
  ghost predicate StandsAlone(u: Unicode, text: string, k: int, l: int) {
    && 0 <= k <= l <= |text|
    && (k == 0 || !(u.isLetter(text[k - 1]) || u.isDigit(text[k - 1])))
    && (l == |text| || !(u.isLetter(text[l]) || u.isDigit(text[l])))
  }

  // ------------------------------------------------------------------
  // The runes on both sides
  // ------------------------------------------------------------------

  lemma OneSequence(s: Bytes)
    requires Valid(s) && RuneCount(s) == 1
    ensures s != [] && ValidWidth(s) == |s| && Decode(s) == [FirstRune(s)]
  {
    var w := Width(s);
    assert RuneCount(s[w..]) == 0;
    assert s[w..] == [];
    assert Decode(s[w..]) == "";
  }

  /** A valid string is what stands in front of its last rune and one valid sequence. */
  lemma LastSequence(s: Bytes) returns (b: nat)
    requires Valid(s) && s != []
    ensures b < |s| && ValidWidth(s[b..]) == |s| - b && |Decode(s)| > 0 && FirstRune(s[b..]) == Decode(s)[|Decode(s)| - 1]
  {
    var n := RuneCount(s) - 1;
    b := ByteOffset(s, n);
    ByteOffsetMonotone(s, n, n + 1);
    ValidSuffix(s, n);
    DecodeAfter(s, n);
    LastRunePosition(s);
    OneSequence(s[b..]);
  }

  lemma NoSequenceInside(s: Bytes, w: nat)
    requires 0 < w < |s| && ValidWidth(s) == |s|
    ensures ValidWidth(s[|s| - w..]) == 0
  {
    assert Continuation(s[|s| - w]);
  }

  lemma {:induction false} LastRuneFrom(s: Bytes, b: nat, w: nat)
    requires b < |s| && ValidWidth(s[b..]) == |s| - b && 0 < w <= |s| - b
    ensures LastRune(s, w) == FirstRune(s[b..])
    decreases |s| - w
  {
    var last := s[b..];
    if w < |last| {
      NoSequenceInside(last, w);
      assert s[|s| - w..] == last[|last| - w..];
      LastRuneFrom(s, b, w + 1);
    }
  }

  lemma LastRuneIsLast(s: Bytes)
    requires Valid(s) && s != []
    ensures |Decode(s)| > 0 && LastRune(s, 1) == Decode(s)[|Decode(s)| - 1]
  {
    var b := LastSequence(s);
    LastRuneFrom(s, b, 1);
  }

  lemma FrontRune(s: Bytes, b: nat, k: nat, front: Bytes)
    requires Valid(s) && 0 < b <= |s| && front == s[..b] && k <= RuneCount(s) && ByteOffset(s, k) == b
    ensures 0 < k <= |Decode(s)| && LastRune(front, 1) == Decode(s)[k - 1]
  {
    DecodeBefore(s, k);
    ValidPrefix(s, k);
    LastRuneOfFront(front, Decode(s), k);
  }

  lemma LastRuneOfFront(front: Bytes, text: string, k: nat)
    requires Valid(front) && front != [] && k <= |text| && Decode(front) == text[..k]
    ensures 0 < k && LastRune(front, 1) == text[k - 1]
  {
    LastRuneIsLast(front);
  }

  lemma ValidFront(s: Bytes, b: nat)
    requires Valid(s) && b <= |s| && RuneCount(s[..b]) <= RuneCount(s) && ByteOffset(s, RuneCount(s[..b])) == b
    ensures Valid(s[..b]) && Decode(s[..b]) == Decode(s)[..RuneCount(s[..b])]
  {
    var k := RuneCount(s[..b]);
    DecodeBefore(s, k);
    ValidPrefix(s, k);
  }

  lemma BehindRune(s: Bytes, b: nat, k: nat)
    requires b < |s| && k <= RuneCount(s) && ByteOffset(s, k) == b
    ensures k < |Decode(s)| && FirstRune(s[b..]) == Decode(s)[k]
  {
    DecodeAfter(s, k);
    assert Decode(s[b..])[0] == FirstRune(s[b..]);
  }

  /** A boundary is the position of the rune whose number its byte position is converted to. */
  lemma RuneNumber(s: Bytes, b: nat) returns (k: nat)
    requires Boundary(s, b) && b <= |s|
    ensures k == ByteToRune(s, b) && k <= RuneCount(s) && ByteOffset(s, k) == b
  {
    k := RuneCount(s[..b]);
    BoundaryIsRunePosition(s, b);
    RunesInFront(s, b);
  }

  lemma BoundedIffAlone(u: Unicode, s: Bytes, a: nat, b: nat)
    requires Valid(s) && Boundary(s, a) && Boundary(s, b) && a <= b <= |s|
    ensures HasWordBoundaries(u, s, a, b) <==> StandsAlone(u, Decode(s), ByteToRune(s, a), ByteToRune(s, b))
  {
    var k := RuneNumber(s, a);
    var l := RuneNumber(s, b);
    AtPositions(u, s, a, b, k, l);
  }

  lemma AtPositions(u: Unicode, s: Bytes, a: nat, b: nat, k: nat, l: nat)
    requires Valid(s) && a <= b <= |s| && k <= RuneCount(s) && l <= RuneCount(s) && ByteOffset(s, k) == a && ByteOffset(s, l) == b
    ensures HasWordBoundaries(u, s, a, b) <==> StandsAlone(u, Decode(s), k, l)
  {
    OffsetsOrdered(s, k, l);
    LastRunePosition(s);
    if a > 0 { FrontRune(s, a, k, s[..a]); } else { SameRune(s, k, 0); }
    if b < |s| { BehindRune(s, b, l); } else { SameRune(s, l, RuneCount(s)); }
  }

  // ------------------------------------------------------------------
  // Where facts come from
  // ------------------------------------------------------------------

  /** A visited span with a value has the canonical name and word boundaries. */
  ghost predicate IsFound(q: Search, rawText: Bytes, canonical: string, c: Candidate) {
    && c.end == c.start + q.size <= |rawText|
    && (c.value == Some(canonical) <==> q.bounded(c.start, c.end)) && (c.value == None <==> !q.bounded(c.start, c.end))
  }

  lemma {:induction false} ScanFound(q: Search, rawText: Bytes, canonical: string, from: nat)
    requires from <= |rawText| && Scan(q, rawText, canonical, from).Some?
    ensures forall c | c in Scan(q, rawText, canonical, from).value :: IsFound(q, rawText, canonical, c)
    decreases |rawText| - from
  {
    var idx := q.find(from);
    if idx >= 0 {
      ScanFound(q, rawText, canonical, from + idx + q.size);
    }
  }

  lemma {:induction false} ScanAllFrom(qs: seq<Search>, rawText: Bytes, canonical: string, c: Candidate) returns (i: nat)
    requires ScanAll(qs, rawText, canonical).Some? && c in ScanAll(qs, rawText, canonical).value
    ensures i < |qs| && Scan(qs[i], rawText, canonical, 0).Some? && c in Scan(qs[i], rawText, canonical, 0).value
  {
    var n := |qs| - 1;
    if c in ScanAll(qs[..n], rawText, canonical).value {
      i := ScanAllFrom(qs[..n], rawText, canonical, c);
    } else {
      i := n;
    }
  }

  lemma {:induction false} AllFactsFrom(rawText: Bytes, jobs: seq<Job>, f: Fact) returns (i: nat, c: Candidate)
    requires AllFacts(rawText, jobs).Some? && f in AllFacts(rawText, jobs).value
    ensures i < |jobs| && JobSpans(rawText, jobs[i]).Some? && c in JobSpans(rawText, jobs[i]).value
    ensures c.value.Some? && c.start <= c.end <= |rawText| && f == MakeFact(jobs[i].kind, rawText, c)
  {
    var n := |jobs| - 1;
    var before := AllFacts(rawText, jobs[..n]).value;
    if f in before {
      i, c := AllFactsFrom(rawText, jobs[..n], f);
    } else {
      i := n;
      var x := GreedyFrom(jobs[n].kind, rawText, before, JobSpans(rawText, jobs[n]).value, f);
      c := JobSpans(rawText, jobs[n]).value[x];
    }
  }

  lemma SearchBounds(u: Unicode, rawText: Bytes, phrase: Phrase, a: nat, b: nat)
    requires a <= b <= |rawText|
    ensures PhraseSearch(u, rawText, phrase).bounded(a, b) <==> HasWordBoundaries(u, rawText, a, b)
    ensures PhraseSearch(u, rawText, phrase).size == |phrase|
  {
  }

  /** A visited span of a phrase: whole runes that lower to the lowered phrase, with a value
      exactly when they stand alone. */
  lemma VisitedSpan(u: Unicode, rawText: Bytes, phrase: Phrase, canonical: string, c: Candidate)
    requires Valid(rawText) && Searchable(u, rawText, phrase)
    requires ScanPhrase(u, rawText, phrase, canonical).Some? && c in ScanPhrase(u, rawText, phrase, canonical).value
    ensures Aligned(rawText, c) && c.end == c.start + |phrase| && Lower(u, rawText[c.start..c.end]) == Lower(u, phrase)
    ensures c.value == if StandsAlone(u, Decode(rawText), ByteToRune(rawText, c.start), ByteToRune(rawText, c.end)) then Some(canonical) else None
  {
    SpanReads(u, rawText, phrase, canonical, c);
    SpanValue(u, rawText, phrase, canonical, c);
    BoundedIffAlone(u, rawText, c.start, c.end);
  }

  lemma SpanReads(u: Unicode, rawText: Bytes, phrase: Phrase, canonical: string, c: Candidate)
    requires Searchable(u, rawText, phrase)
    requires ScanPhrase(u, rawText, phrase, canonical).Some? && c in ScanPhrase(u, rawText, phrase, canonical).value
    ensures Aligned(rawText, c) && c.end == c.start + |phrase| && Lower(u, rawText[c.start..c.end]) == Lower(u, phrase)
  {
    ScanFindsPhrase(u, rawText, phrase, canonical);
    OneSpanReads(u, rawText, Lower(u, phrase), |phrase|, ScanPhrase(u, rawText, phrase, canonical).value, c);
  }

  lemma OneSpanReads(u: Unicode, rawText: Bytes, needle: Bytes, n: nat, cs: seq<Candidate>, c: Candidate)
    requires |needle| == n > 0 && c in cs
    requires forall c | c in cs :: c.end == c.start + n && ReadsAs(u, rawText, needle, c.start)
    ensures Aligned(rawText, c) && c.end == c.start + n && Lower(u, rawText[c.start..c.end]) == needle
  {
    ReadIsAligned(u, rawText, needle, c);
  }

  lemma SpanValue(u: Unicode, rawText: Bytes, phrase: Phrase, canonical: string, c: Candidate)
    requires ScanPhrase(u, rawText, phrase, canonical).Some? && c in ScanPhrase(u, rawText, phrase, canonical).value
    requires c.start <= c.end <= |rawText|
    ensures c.value == if HasWordBoundaries(u, rawText, c.start, c.end) then Some(canonical) else None
  {
    var q := PhraseSearch(u, rawText, phrase);
    ScanFound(q, rawText, canonical, 0);
    SearchBounds(u, rawText, phrase, c.start, c.end);
    assert IsFound(q, rawText, canonical, c);
  }

  // ------------------------------------------------------------------
  // The facts
  // ------------------------------------------------------------------

  /** The fact of an entry at the runes it names: their text reads as a phrase of the entry in
      lower case and stands alone. */
  ghost predicate NamesEntry(u: Unicode, subject: string, rawText: Bytes, e: Entry, f: Fact) {
    && f.subject == subject && f.slug == e.slug && f.value == e.canonical && f.valueType == e.valueType
    && f.extractionMethod == "gazetteer:v1" && f.confidence == None
    && WorkerVerify(rawText, f.excerpt, f.start, f.end)
    && (exists p | p in e.phrases :: Lower(u, f.excerpt) == Lower(u, p))
    && StandsAlone(u, Decode(rawText), f.start, f.end)
  }

  lemma EntryFact(u: Unicode, subject: string, rawText: Bytes, e: Entry, c: Candidate, f: Fact)
    requires Valid(rawText) && EntrySearchable(u, rawText, e)
    requires JobSpans(rawText, JobOf(u, subject, rawText, e)).Some? && c in JobSpans(rawText, JobOf(u, subject, rawText, e)).value
    requires c.value.Some? && c.start <= c.end <= |rawText| && f == MakeFact(JobOf(u, subject, rawText, e).kind, rawText, c)
    ensures NamesEntry(u, subject, rawText, e, f)
  {
    var job := JobOf(u, subject, rawText, e);
    var i := ScanAllFrom(job.qs, rawText, e.canonical, c);
    var p := e.phrases[i];
    assert p in e.phrases && job.qs[i] == PhraseSearch(u, rawText, p);
    VisitedSpan(u, rawText, p, e.canonical, c);
    AlignedFact(job.kind, rawText, c);
  }

  /** On a valid text searchable for the dictionary every fact is an entry's name that stands
      alone. */
  lemma FactsStandAlone(u: Unicode, subject: string, rawText: Bytes, entries: seq<Entry>, f: Fact) returns (e: Entry)
    requires Valid(rawText) && forall e | e in entries :: EntrySearchable(u, rawText, e)
    requires AllFacts(rawText, Jobs(u, subject, rawText, entries)).Some? && f in AllFacts(rawText, Jobs(u, subject, rawText, entries)).value
    ensures e in entries && NamesEntry(u, subject, rawText, e, f)
  {
    var i, c := AllFactsFrom(rawText, Jobs(u, subject, rawText, entries), f);
    e := entries[i];
    EntryFact(u, subject, rawText, e, c, f);
  }

  /** The runes from `k` to `l` read as the phrase in lower case. */
  ghost predicate ReadsPhrase(u: Unicode, rawText: Bytes, phrase: Phrase, k: nat, l: nat) {
    k <= l <= RuneCount(rawText) && Lower(u, Runes(rawText, k, l)) == Lower(u, phrase)
  }

  /** No occurrence of the phrase that begins in front of rune `k` goes on behind it. */
  ghost predicate NotInsideAnother(u: Unicode, rawText: Bytes, phrase: Phrase, k: nat) {
    forall i: nat, j: nat | ReadsPhrase(u, rawText, phrase, i, j) && i < k :: j <= k
  }

  lemma SearchableIsValid(u: Unicode, rawText: Bytes)
    requires KeepsWidths(u, rawText)
    ensures |Lower(u, rawText)| == |rawText| && SameOffsets(rawText, Lower(u, rawText))
  {
    LowerKeepsLength(u, rawText);
    KeepsWidthsIff(u, rawText);
  }

  /** An occurrence in runes is one in the bytes of the lowered text. */
  lemma OccurrenceInBytes(u: Unicode, rawText: Bytes, phrase: Phrase, k: nat, l: nat)
    requires Searchable(u, rawText, phrase) && ReadsPhrase(u, rawText, phrase, k, l)
    ensures ByteOffset(rawText, l) == ByteOffset(rawText, k) + |phrase|
    ensures OccursAt(Lower(u, rawText), Lower(u, phrase), ByteOffset(rawText, k))
  {
    SearchableIsValid(u, rawText);
    LowerOfRunes(u, rawText, k, l);
    assert SameOffset(rawText, Lower(u, rawText), k) && SameOffset(rawText, Lower(u, rawText), l);
    OffsetsAscend(rawText, k, l);
  }

  /** A visited span is an occurrence in runes. */
  lemma SpanInRunes(u: Unicode, rawText: Bytes, phrase: Phrase, c: Candidate)
    requires Aligned(rawText, c) && Lower(u, rawText[c.start..c.end]) == Lower(u, phrase)
    ensures var i, j := ByteToRune(rawText, c.start), ByteToRune(rawText, c.end);
            ReadsPhrase(u, rawText, phrase, i, j) && ByteOffset(rawText, i) == c.start && ByteOffset(rawText, j) == c.end
  {
    var i := RuneNumber(rawText, c.start);
    var j := RuneNumber(rawText, c.end);
    OffsetsOrdered(rawText, i, j);
  }

  lemma {:induction false} ScanAllHas(qs: seq<Search>, rawText: Bytes, canonical: string, i: nat, c: Candidate)
    requires ScanAll(qs, rawText, canonical).Some? && i < |qs|
    requires Scan(qs[i], rawText, canonical, 0).Some? && c in Scan(qs[i], rawText, canonical, 0).value
    ensures c in ScanAll(qs, rawText, canonical).value
  {
    if i < |qs| - 1 {
      ScanAllHas(qs[..|qs| - 1], rawText, canonical, i, c);
    }
  }

  /** The span the search visits for an occurrence that no other one covers in front. */
  lemma VisitedForOccurrence(u: Unicode, rawText: Bytes, phrase: Phrase, canonical: string, k: nat, l: nat) returns (c: Candidate)
    requires Searchable(u, rawText, phrase) && ReadsPhrase(u, rawText, phrase, k, l) && NotInsideAnother(u, rawText, phrase, k)
    ensures ScanPhrase(u, rawText, phrase, canonical).Some? && c in ScanPhrase(u, rawText, phrase, canonical).value
    ensures c.end <= |rawText| && ByteToRune(rawText, c.start) == k && ByteToRune(rawText, c.end) == l
  {
    OccurrenceInBytes(u, rawText, phrase, k, l);
    ScanFindsPhrase(u, rawText, phrase, canonical);
    c := SpanOver(Lower(u, rawText), Lower(u, phrase), ScanPhrase(u, rawText, phrase, canonical).value, ByteOffset(rawText, k));
    SpanReads(u, rawText, phrase, canonical, c);
    SpanIsOccurrence(u, rawText, phrase, c, k, l);
  }

  lemma SpanOver(h: Bytes, needle: Bytes, cs: seq<Candidate>, p: nat) returns (c: Candidate)
    requires Visits(h, needle, 0, cs) && OccursAt(h, needle, p)
    ensures c in cs && c.start <= p < c.end
  {
    c :| c in cs && c.start <= p < c.end;
  }

  lemma SpanIsOccurrence(u: Unicode, rawText: Bytes, phrase: Phrase, c: Candidate, k: nat, l: nat)
    requires k <= l <= RuneCount(rawText) && NotInsideAnother(u, rawText, phrase, k) && ByteOffset(rawText, l) == ByteOffset(rawText, k) + |phrase|
    requires Aligned(rawText, c) && c.end == c.start + |phrase| && Lower(u, rawText[c.start..c.end]) == Lower(u, phrase)
    requires c.start <= ByteOffset(rawText, k) < c.end
    ensures ByteToRune(rawText, c.start) == k && ByteToRune(rawText, c.end) == l
  {
    SpanInRunes(u, rawText, phrase, c);
    var i, j := ByteToRune(rawText, c.start), ByteToRune(rawText, c.end);
    StartsThere(u, rawText, phrase, c, i, j, k);
    SameRune(rawText, i, k);
    SameRune(rawText, j, l);
  }

  lemma SameRune(s: Bytes, i: nat, k: nat)
    requires i <= RuneCount(s) && k <= RuneCount(s) && ByteOffset(s, i) == ByteOffset(s, k)
    ensures i == k
  {
    OffsetsOrdered(s, i, k);
    OffsetsOrdered(s, k, i);
  }

  lemma StartsThere(u: Unicode, rawText: Bytes, phrase: Phrase, c: Candidate, i: nat, j: nat, k: nat)
    requires k <= RuneCount(rawText) && NotInsideAnother(u, rawText, phrase, k) && c.start <= ByteOffset(rawText, k) < c.end
    requires ReadsPhrase(u, rawText, phrase, i, j) && ByteOffset(rawText, i) == c.start && ByteOffset(rawText, j) == c.end
    ensures c.start == ByteOffset(rawText, k)
  {
    OffsetsOrdered(rawText, k, i);
    OffsetsOrdered(rawText, j, k);
  }

  lemma WholeWordCovered(u: Unicode, subject: string, rawText: Bytes, entries: seq<Entry>, e: Entry, phrase: Phrase, k: nat, l: nat)
    requires Valid(rawText) && forall e | e in entries :: EntrySearchable(u, rawText, e)
    requires e in entries && phrase in e.phrases && ReadsPhrase(u, rawText, phrase, k, l)
    requires StandsAlone(u, Decode(rawText), k, l) && NotInsideAnother(u, rawText, phrase, k)
    ensures AllFacts(rawText, Jobs(u, subject, rawText, entries)).Some?
    ensures exists f | f in AllFacts(rawText, Jobs(u, subject, rawText, entries)).value :: k < f.end && l > f.start
  {
    GazetteerSoundAndMaximal(u, subject, rawText, entries);
    var jobs := Jobs(u, subject, rawText, entries);
    var facts := AllFacts(rawText, jobs).value;
    assert EntrySearchable(u, rawText, e);
    var c := SpanOfEntry(u, subject, rawText, e, phrase, k, l);
    var i :| 0 <= i < |entries| && entries[i] == e;
    assert jobs[i] == JobOf(u, subject, rawText, e) && jobs[i] in jobs;
    assert FullFor(rawText, JobSpans(rawText, jobs[i]).value, facts);
    assert Blocked(rawText, facts, c);
    var f :| f in facts && Overlap(ByteToRune(rawText, c.start), ByteToRune(rawText, c.end), f);
  }

  lemma {:induction false} AllFactsPrefix(rawText: Bytes, jobs: seq<Job>, n: nat)
    requires n <= |jobs| && AllFacts(rawText, jobs).Some?
    ensures AllFacts(rawText, jobs[..n]).Some? && AllFacts(rawText, jobs[..n]).value <= AllFacts(rawText, jobs).value
  {
    if n == |jobs| {
      assert jobs[..n] == jobs;
    } else {
      assert jobs[..|jobs| - 1][..n] == jobs[..n];
      AllFactsPrefix(rawText, jobs[..|jobs| - 1], n);
    }
  }

  /** Conversely, a phrase of entry `i` that stands alone in such a text, and does not begin
      inside another occurrence of itself, is stored, or a fact of that or an earlier entry
      has a rune of it. */
  lemma WholeWordIsStored(u: Unicode, subject: string, rawText: Bytes, entries: seq<Entry>, i: nat, phrase: Phrase, k: nat, l: nat) returns (f: Fact, e: Entry)
    requires Valid(rawText) && forall e | e in entries :: EntrySearchable(u, rawText, e)
    requires i < |entries| && phrase in entries[i].phrases && ReadsPhrase(u, rawText, phrase, k, l)
    requires StandsAlone(u, Decode(rawText), k, l) && NotInsideAnother(u, rawText, phrase, k)
    ensures AllFacts(rawText, Jobs(u, subject, rawText, entries)).Some?
    ensures f in AllFacts(rawText, Jobs(u, subject, rawText, entries)).value && k < f.end && l > f.start
    ensures e in entries[..i + 1] && NamesEntry(u, subject, rawText, e, f)
  {
    f, e := FirstEntries(u, subject, rawText, entries, entries[..i + 1], i, phrase, k, l);
    GazetteerSoundAndMaximal(u, subject, rawText, entries);
    var jobs, fewer := Jobs(u, subject, rawText, entries), Jobs(u, subject, rawText, entries[..i + 1]);
    assert jobs[..i + 1] == fewer;
    AllFactsPrefix(rawText, jobs, i + 1);
    InLonger(AllFacts(rawText, fewer).value, AllFacts(rawText, jobs).value, f);
  }

  lemma FirstEntries(u: Unicode, subject: string, rawText: Bytes, entries: seq<Entry>, some: seq<Entry>, i: nat, phrase: Phrase, k: nat, l: nat) returns (f: Fact, e: Entry)
    requires Valid(rawText) && forall e | e in entries :: EntrySearchable(u, rawText, e)
    requires i < |entries| && some == entries[..i + 1] && phrase in entries[i].phrases && ReadsPhrase(u, rawText, phrase, k, l)
    requires StandsAlone(u, Decode(rawText), k, l) && NotInsideAnother(u, rawText, phrase, k)
    ensures AllFacts(rawText, Jobs(u, subject, rawText, some)).Some?
    ensures f in AllFacts(rawText, Jobs(u, subject, rawText, some)).value && k < f.end && l > f.start
    ensures e in some && NamesEntry(u, subject, rawText, e, f)
  {
    assert forall e | e in some :: e in entries;
    assert some[i] == entries[i];
    WholeWordCovered(u, subject, rawText, some, entries[i], phrase, k, l);
    f :| f in AllFacts(rawText, Jobs(u, subject, rawText, some)).value && k < f.end && l > f.start;
    e := FactsStandAlone(u, subject, rawText, some, f);
  }

  lemma SpanOfEntry(u: Unicode, subject: string, rawText: Bytes, e: Entry, phrase: Phrase, k: nat, l: nat) returns (c: Candidate)
    requires Valid(rawText) && EntrySearchable(u, rawText, e)
    requires phrase in e.phrases && ReadsPhrase(u, rawText, phrase, k, l)
    requires StandsAlone(u, Decode(rawText), k, l) && NotInsideAnother(u, rawText, phrase, k)
    ensures var job := JobOf(u, subject, rawText, e); JobSpans(rawText, job).Some? && c in JobSpans(rawText, job).value
    ensures c.value.Some? && ByteToRune(rawText, c.start) == k && ByteToRune(rawText, c.end) == l
  {
    assert Searchable(u, rawText, phrase);
    c := VisitedForOccurrence(u, rawText, phrase, e.canonical, k, l);
    VisitedSpan(u, rawText, phrase, e.canonical, c);
    ScanAllAligned(u, rawText, e.phrases, e.canonical);
    var i :| 0 <= i < |e.phrases| && e.phrases[i] == phrase;
    var qs := Searches(u, rawText, e.phrases);
    assert qs[i] == PhraseSearch(u, rawText, phrase);
    ScanAllHas(qs, rawText, e.canonical, i, c);
  }
}
