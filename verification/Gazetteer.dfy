/**
 The gazetteer extractor: phrases are looked up in the lowercased text, and the position
 found there is applied to the text itself.
 */
module Gazetteer {
  import opened Wrappers
  import opened Utf8
  import opened Excerpt
  import opened Spans
  import opened Text

  // ------------------------------------------------------------------
  // Lowercasing and searching
  // ------------------------------------------------------------------

  /** `strings.ToLower`: rune by rune; an invalid byte counts as U+FFFD. */
  function Lower(u: Unicode, s: Bytes): Bytes {
    if s == [] then [] else EncodeRune(u.lower(FirstRune(s))) + Lower(u, s[Width(s)..])
  }

  predicate OccursAt(h: Bytes, needle: Bytes, i: nat) {
    i + |needle| <= |h| && h[i..i + |needle|] == needle
  }

  /** `strings.Index` */
  function Index(h: Bytes, needle: Bytes, from: nat): (i: int)
    ensures i >= -1
    ensures i >= 0 ==> from <= i && OccursAt(h, needle, i)
    ensures forall j: nat | from <= j && (i < 0 || j < i) :: !OccursAt(h, needle, j)
    decreases |h| - from
  {
    if from + |needle| > |h| then -1
    else if h[from..from + |needle|] == needle then from
    else Index(h, needle, from + 1)
  }

  /** `utf8.DecodeLastRuneInString`: the valid sequence that ends the string, tried from
      width `w` up. */
  function LastRune(s: Bytes, w: nat): char
    requires w > 0
    decreases 4 - w
  {
    if w > 4 || w > |s| then RUNE_ERROR
    else if ValidWidth(s[|s| - w..]) == w then FirstRune(s[|s| - w..])
    else LastRune(s, w + 1)
  }

  predicate HasWordBoundaries(u: Unicode, rawText: Bytes, start: nat, end: nat)
    requires start <= end <= |rawText|
  {
    && (start > 0 ==> !WordRune(u, LastRune(rawText[..start], 1)))
    && (end < |rawText| ==> !WordRune(u, FirstRune(rawText[end..])))
  }

  type Phrase = p: Bytes | p != [] witness [0x61]

  /** Where the lowered phrase next occurs in the lowered rest of the text; -1 nowhere. */
  function NextFind(u: Unicode, rawText: Bytes, lowerPhrase: Bytes, from: nat): (idx: int)
    requires from <= |rawText|
    ensures idx >= -1
  {
    Index(Lower(u, rawText[from..]), lowerPhrase, 0)
  }

  /** The search for one phrase: the next find from a position, the boundary test on a
      span, and the length of the phrase. */
  datatype AnySearch = Search(find: nat -> int, bounded: (nat, nat) -> bool, size: nat)

  type Search = q: AnySearch | q.size > 0 witness Search((p: nat) => -1, (a: nat, b: nat) => false, 1)

  function PhraseSearch(u: Unicode, rawText: Bytes, phrase: Phrase): Search {
    var lowerPhrase := Lower(u, phrase);
    Search((from: nat) => if from <= |rawText| then NextFind(u, rawText, lowerPhrase, from) else -1,
           (start: nat, end: nat) => start <= end <= |rawText| && HasWordBoundaries(u, rawText, start, end),
           |phrase|)
  }

  /** A visited span has a value when it has word boundaries. */
  function Found(q: Search, canonical: string, start: nat): Candidate {
    Candidate(start, start + q.size, if q.bounded(start, start + q.size) then Some(canonical) else None)
  }

  function Then(visited: seq<Candidate>, rest: Option<seq<Candidate>>): Option<seq<Candidate>> {
    if rest.None? then None else Some(visited + rest.value)
  }

  /** All spans the search loop visits.  None: a span leaves the text, and slicing it is a
      run-time panic. */
  function Scan(q: Search, rawText: Bytes, canonical: string, from: nat): (cs: Option<seq<Candidate>>)
    requires from <= |rawText|
    ensures cs.Some? ==> InText(rawText, cs.value)
    decreases |rawText| - from
  {
    var idx := q.find(from);
    if idx < 0 then Some([])
    else if from + idx + q.size > |rawText| then None
    else Then([Found(q, canonical, from + idx)], Scan(q, rawText, canonical, from + idx + q.size))
  }

  function ScanPhrase(u: Unicode, rawText: Bytes, phrase: Phrase, canonical: string): (cs: Option<seq<Candidate>>)
    ensures cs.Some? ==> InText(rawText, cs.value)
  {
    Scan(PhraseSearch(u, rawText, phrase), rawText, canonical, 0)
  }

  /** The searches of one entry, one behind the other. */
  function ScanAll(qs: seq<Search>, rawText: Bytes, canonical: string): (cs: Option<seq<Candidate>>)
    ensures cs.Some? ==> InText(rawText, cs.value)
  {
    if qs == [] then Some([])
    else
      var before := ScanAll(qs[..|qs| - 1], rawText, canonical);
      if before.None? then None else Then(before.value, Scan(qs[|qs| - 1], rawText, canonical, 0))
  }

  function Searches(u: Unicode, rawText: Bytes, phrases: seq<Phrase>): (qs: seq<Search>)
    ensures |qs| == |phrases|
  {
    seq(|phrases|, i requires 0 <= i < |phrases| => PhraseSearch(u, rawText, phrases[i]))
  }

  method Consider(kind: Kind, rawText: Bytes, facts: seq<Fact>, ghost visited: seq<Candidate>, kept: seq<Fact>, c: Candidate) returns (kept': seq<Fact>)
    requires InText(rawText, visited) && c.start <= c.end <= |rawText|
    requires kept == Greedy(kind, rawText, facts, visited)
    ensures kept' == Greedy(kind, rawText, facts, visited + [c])
  {
    assert (visited + [c])[..|visited|] == visited;
    var overlaps := OverlapsExistingFact(rawText, kept, c);
    return if c.value.Some? && !overlaps then kept + [MakeFact(kind, rawText, c)] else kept;
  }

  lemma ThenStep(visited: seq<Candidate>, c: Candidate, rest: Option<seq<Candidate>>)
    ensures Then(visited, Then([c], rest)) == Then(visited + [c], rest)
  {
    if rest.Some? { assert visited + ([c] + rest.value) == visited + [c] + rest.value; }
  }

  /** The loop over one phrase. */
  method AppendPhraseFacts(q: Search, kind: Kind, canonical: string, rawText: Bytes, facts: seq<Fact>) returns (kept: seq<Fact>, panicked: bool)
    ensures panicked <==> Scan(q, rawText, canonical, 0).None?
    ensures !panicked ==> kept == Greedy(kind, rawText, facts, Scan(q, rawText, canonical, 0).value)
  {
    kept := facts;
    var searchFrom := 0;
    ghost var visited: seq<Candidate> := [];
    ghost var all := Scan(q, rawText, canonical, 0);
    assert all.Some? ==> [] + all.value == all.value;
    while true
      invariant searchFrom <= |rawText| && InText(rawText, visited)
      invariant all == Then(visited, Scan(q, rawText, canonical, searchFrom))
      invariant kept == Greedy(kind, rawText, facts, visited)
      decreases |rawText| - searchFrom
    {
      var idx := q.find(searchFrom);
      if idx < 0 {
        assert visited + [] == visited;
        return kept, false;
      }
      var start := searchFrom + idx;
      var end := start + q.size;
      if end > |rawText| {
        return kept, true;
      }
      var c := Found(q, canonical, start);
      ThenStep(visited, c, Scan(q, rawText, canonical, end));
      kept := Consider(kind, rawText, facts, visited, kept, c);
      visited := visited + [c];
      searchFrom := end;
    }
  }

  /** All phrases of one entry, in order. */
  method AppendGazetteerFacts(qs: seq<Search>, kind: Kind, canonical: string, rawText: Bytes, facts: seq<Fact>) returns (kept: seq<Fact>, panicked: bool)
    ensures panicked <==> ScanAll(qs, rawText, canonical).None?
    ensures !panicked ==> kept == Greedy(kind, rawText, facts, ScanAll(qs, rawText, canonical).value)
  {
    kept := facts;
    panicked := false;
    for i := 0 to |qs|
      invariant !panicked
      invariant ScanAll(qs[..i], rawText, canonical).Some?
      invariant kept == Greedy(kind, rawText, facts, ScanAll(qs[..i], rawText, canonical).value)
    {
      assert qs[..i + 1][..i] == qs[..i];
      kept, panicked := AppendPhraseFacts(qs[i], kind, canonical, rawText, kept);
      if panicked {
        PanicStays(qs, rawText, canonical, i + 1);
        return;
      }
      PhraseDone(qs[..i + 1], kind, canonical, rawText, facts);
    }
    assert qs[..|qs|] == qs;
  }

  lemma PhraseDone(qs: seq<Search>, kind: Kind, canonical: string, rawText: Bytes, facts: seq<Fact>)
    requires qs != [] && ScanAll(qs[..|qs| - 1], rawText, canonical).Some? && Scan(qs[|qs| - 1], rawText, canonical, 0).Some?
    ensures ScanAll(qs, rawText, canonical).Some?
    ensures Greedy(kind, rawText, facts, ScanAll(qs, rawText, canonical).value) ==
            Greedy(kind, rawText, Greedy(kind, rawText, facts, ScanAll(qs[..|qs| - 1], rawText, canonical).value),
                   Scan(qs[|qs| - 1], rawText, canonical, 0).value)
  {
    GreedyAppend(kind, rawText, facts, ScanAll(qs[..|qs| - 1], rawText, canonical).value, Scan(qs[|qs| - 1], rawText, canonical, 0).value);
  }

  lemma {:induction false} PanicStays(qs: seq<Search>, rawText: Bytes, canonical: string, i: nat)
    requires i <= |qs| && ScanAll(qs[..i], rawText, canonical).None?
    ensures ScanAll(qs, rawText, canonical).None?
  {
    if i == |qs| {
      assert qs[..i] == qs;
    } else {
      assert qs[..|qs| - 1][..i] == qs[..i];
      PanicStays(qs[..|qs| - 1], rawText, canonical, i);
    }
  }

  // ------------------------------------------------------------------
  // Runes of the lowered text
  // ------------------------------------------------------------------

  lemma LoweredFront(u: Unicode, s: Bytes)
    requires s != []
    ensures var h := Lower(u, s);
            h != [] && ValidWidth(h) > 0 && Width(h) == |EncodeRune(u.lower(FirstRune(s)))| && h[Width(h)..] == Lower(u, s[Width(s)..])
  {
    EncodedRuneDecodes(u.lower(FirstRune(s)), Lower(u, s[Width(s)..]));
  }

  /** Rune by rune: as many runes as the text, and valid whatever the text. */
  lemma {:induction false} LowerRunes(u: Unicode, s: Bytes)
    ensures Valid(Lower(u, s)) && RuneCount(Lower(u, s)) == RuneCount(s)
  {
    if s != [] {
      LoweredFront(u, s);
      LowerRunes(u, s[Width(s)..]);
    }
  }

  lemma {:induction false} LowerBehind(u: Unicode, s: Bytes, k: nat)
    requires k <= RuneCount(s) == RuneCount(Lower(u, s))
    ensures Lower(u, Behind(s, k)) == Behind(Lower(u, s), k)
  {
    if k != 0 {
      LoweredFront(u, s);
      LowerBehind(u, s[Width(s)..], k - 1);
    }
  }

  lemma {:induction false} LowerInFront(u: Unicode, s: Bytes, k: nat)
    requires k <= RuneCount(s) == RuneCount(Lower(u, s))
    ensures Lower(u, s[..ByteOffset(s, k)]) == Lower(u, s)[..ByteOffset(Lower(u, s), k)]
  {
    if k != 0 {
      var rest := s[Width(s)..];
      LowerRunes(u, rest);
      LowerInFront(u, rest, k - 1);
      LoweredFront(u, s);
      LowerFrontStep(u, s, rest, Lower(u, s), Lower(u, rest), k);
    }
  }

  lemma LowerFrontStep(u: Unicode, s: Bytes, rest: Bytes, h: Bytes, hrest: Bytes, k: nat)
    requires s != [] && h != [] && rest == s[Width(s)..] && hrest == h[Width(h)..]
    requires 0 < k && k - 1 <= RuneCount(rest) && k - 1 <= RuneCount(hrest)
    requires Width(h) == |EncodeRune(u.lower(FirstRune(s)))| && h == EncodeRune(u.lower(FirstRune(s))) + hrest
    requires Lower(u, rest[..ByteOffset(rest, k - 1)]) == hrest[..ByteOffset(hrest, k - 1)]
    ensures k <= RuneCount(s) && k <= RuneCount(h) && Lower(u, s[..ByteOffset(s, k)]) == h[..ByteOffset(h, k)]
  {
    OffsetStep(s, k);
    OffsetStep(h, k);
    LowerOneMore(u, s, ByteOffset(s, k), hrest, ByteOffset(hrest, k - 1));
  }

  lemma OffsetStep(s: Bytes, k: nat)
    requires s != [] && 0 < k && k - 1 <= RuneCount(s[Width(s)..])
    ensures k <= RuneCount(s) && ByteOffset(s, k) == Width(s) + ByteOffset(s[Width(s)..], k - 1)
  {
  }

  lemma LowerOneMore(u: Unicode, s: Bytes, n: nat, h: Bytes, m: nat)
    requires s != [] && Width(s) <= n <= |s| && m <= |h| && Lower(u, s[Width(s)..][..n - Width(s)]) == h[..m]
    ensures var e := EncodeRune(u.lower(FirstRune(s)));
            Lower(u, s[..n]) == (e + h)[..|e| + m]
  {
    PrefixKeepsFirstRune(s, n);
    TakeDrop(s, n, Width(s));
    TakeLonger(EncodeRune(u.lower(FirstRune(s))), h, m);
  }

  lemma TakeLonger(a: Bytes, b: Bytes, n: nat)
    requires n <= |b|
    ensures (a + b)[..|a| + n] == a + b[..n]
  {
  }

  /** The bytes of the runes from `k` to `l`. */
  function Runes(s: Bytes, k: nat, l: nat): Bytes
    requires k <= l <= RuneCount(s)
  {
    OffsetsAscend(s, k, l);
    s[ByteOffset(s, k)..ByteOffset(s, l)]
  }

  lemma OffsetsAscend(s: Bytes, k: nat, l: nat)
    requires k <= l <= RuneCount(s)
    ensures ByteOffset(s, k) <= ByteOffset(s, l)
  {
    if k < l { ByteOffsetMonotone(s, k, l); }
  }

  /** Lowering runes of the text gives those runes of the lowered text. */
  lemma LowerOfRunes(u: Unicode, s: Bytes, k: nat, l: nat)
    requires k <= l <= RuneCount(s) == RuneCount(Lower(u, s))
    ensures Lower(u, Runes(s, k, l)) == Runes(Lower(u, s), k, l)
  {
    var front := s[..ByteOffset(s, l)];
    LowerInFront(u, s, l);
    RunesOfFront(s, k, l);
    RunesOfFront(Lower(u, s), k, l);
    LowerRunes(u, front);
    LowerBehind(u, front, k);
  }

  /** The runes from `k` to `l` are what is left behind `k` of the first `l`. */
  lemma RunesOfFront(s: Bytes, k: nat, l: nat)
    requires k <= l <= RuneCount(s)
    ensures k <= RuneCount(s[..ByteOffset(s, l)]) && Behind(s[..ByteOffset(s, l)], k) == Runes(s, k, l)
  {
    OffsetsAscend(s, k, l);
    var b := ByteOffset(s, l);
    OffsetInPrefix(s, k, b);
    BehindIsSuffix(s[..b], k);
    assert s[..b][ByteOffset(s, k)..] == s[ByteOffset(s, k)..b];
  }

  // ------------------------------------------------------------------
  // Lowercasing that keeps widths
  // ------------------------------------------------------------------

  /** Lowering changes no rune's width.  Invalid bytes, which turn into three, are out. */
  ghost predicate KeepsWidths(u: Unicode, s: Bytes) {
    s == [] || (|EncodeRune(u.lower(FirstRune(s)))| == Width(s) && KeepsWidths(u, s[Width(s)..]))
  }

  ghost predicate SameOffset(s: Bytes, h: Bytes, k: nat) {
    k <= RuneCount(s) && k <= RuneCount(h) ==> ByteOffset(s, k) == ByteOffset(h, k)
  }

  ghost predicate SameOffsets(s: Bytes, h: Bytes) {
    RuneCount(s) == RuneCount(h) && forall k: nat :: SameOffset(s, h, k)
  }

  /** Then, and only then, runes of text and lowered text start at the same bytes. */
  lemma {:induction false} KeepsWidthsIff(u: Unicode, s: Bytes)
    ensures KeepsWidths(u, s) <==> SameOffsets(s, Lower(u, s))
  {
    LowerRunes(u, s);
    if s != [] {
      LoweredFront(u, s);
      KeepsWidthsIff(u, s[Width(s)..]);
      OffsetsBehind(s, Lower(u, s));
    }
  }

  lemma OffsetsBehind(s: Bytes, h: Bytes)
    requires s != [] && h != []
    ensures SameOffsets(s, h) <==> Width(s) == Width(h) && SameOffsets(s[Width(s)..], h[Width(h)..])
  {
    var s', h' := s[Width(s)..], h[Width(h)..];
    if SameOffsets(s, h) {
      assert SameOffset(s, h, 1);
      OffsetStep(s, 1);
      OffsetStep(h, 1);
      forall k: nat ensures SameOffset(s', h', k) {
        assert SameOffset(s, h, k + 1);
        if k <= RuneCount(s') { OffsetStep(s, k + 1); OffsetStep(h, k + 1); }
      }
    }
    if Width(s) == Width(h) && SameOffsets(s', h') {
      forall k: nat ensures SameOffset(s, h, k) {
        if 0 < k <= RuneCount(s) {
          assert SameOffset(s', h', k - 1);
          OffsetStep(s, k);
          OffsetStep(h, k);
        }
      }
    }
  }

  /** Behind an ASCII byte of a valid string is a boundary. */
  lemma BehindAscii(s: Bytes, b: nat)
    requires Valid(s) && b < |s| && s[b] < 0x80
    ensures Boundary(s, b) && Boundary(s, b + 1)
  {
    BoundariesOfValid(s, b);
    BoundaryIsRunePosition(s, b);
    var k := RuneCount(s[..b]);
    EndOffset(s);
    if k == RuneCount(s) { assert false; }
    NextRune(s, k);
    RuneIsBoundary(s, k + 1);
  }

  ghost predicate AsciiBytes(s: Bytes) {
    forall b | b in s :: b < 0x80
  }

  /** An ASCII needle lies on boundaries. */
  lemma NeedleOnBoundaries(h: Bytes, needle: Bytes, i: nat)
    requires Valid(h) && needle != [] && AsciiBytes(needle) && OccursAt(h, needle, i)
    ensures Boundary(h, i) && Boundary(h, i + |needle|)
  {
    var last := |needle| - 1;
    assert h[i] == h[i..i + |needle|][0] == needle[0] && h[i + last] == h[i..i + |needle|][last] == needle[last];
    assert needle[0] in needle && needle[last] in needle;
    BehindAscii(h, i);
    BehindAscii(h, i + last);
  }

  /** Where an ASCII needle occurs in the lowered text lie whole runes of the text that lower
      to the needle. */
  lemma OccurrenceRunes(u: Unicode, s: Bytes, needle: Bytes, i: nat) returns (k: nat, l: nat)
    requires needle != [] && AsciiBytes(needle) && OccursAt(Lower(u, s), needle, i)
    ensures k < l <= RuneCount(s) == RuneCount(Lower(u, s))
    ensures ByteOffset(Lower(u, s), k) == i && ByteOffset(Lower(u, s), l) == i + |needle|
    ensures Lower(u, Runes(s, k, l)) == needle
  {
    var h := Lower(u, s);
    LowerRunes(u, s);
    NeedleOnBoundaries(h, needle, i);
    BoundaryIsRunePosition(h, i);
    BoundaryIsRunePosition(h, i + |needle|);
    k, l := RuneCount(h[..i]), RuneCount(h[..i + |needle|]);
    if l < k { ByteOffsetMonotone(h, l, k); }
    LowerOfRunes(u, s, k, l);
  }

  /** Where widths are kept, the needle lies on the same bytes of the text. */
  lemma OccurrenceIsAligned(u: Unicode, s: Bytes, needle: Bytes, i: nat)
    requires KeepsWidths(u, s) && needle != [] && AsciiBytes(needle) && OccursAt(Lower(u, s), needle, i)
    ensures ReadsAs(u, s, needle, i)
  {
    var k, l := OccurrenceRunes(u, s, needle, i);
    KeepsWidthsIff(u, s);
    assert SameOffset(s, Lower(u, s), k) && SameOffset(s, Lower(u, s), l);
    RuneIsBoundary(s, k);
    RuneIsBoundary(s, l);
  }

  /** Whole runes of the text that lower to the needle. */
  ghost predicate ReadsAs(u: Unicode, rawText: Bytes, needle: Bytes, p: nat) {
    && p + |needle| <= |rawText| && Boundary(rawText, p) && Boundary(rawText, p + |needle|)
    && Lower(u, rawText[p..p + |needle|]) == needle
  }

  /** The bytes of the runes that one find matched are the bytes the span takes exactly when
      lowering keeps the length of the text in front of them, and their own. */
  lemma SpanIsOccurrenceIff(u: Unicode, rawText: Bytes, phrase: Phrase, from: nat) returns (k: nat, l: nat)
    requires from <= |rawText| && AsciiBytes(Lower(u, phrase)) && |Lower(u, phrase)| == |phrase|
    requires NextFind(u, rawText, Lower(u, phrase), from) >= 0
    ensures k < l <= RuneCount(rawText[from..])
    ensures Lower(u, Runes(rawText[from..], k, l)) == Lower(u, phrase)
    ensures NextFind(u, rawText, Lower(u, phrase), from) == |Lower(u, Runes(rawText[from..], 0, k))|
    ensures var s, idx := rawText[from..], NextFind(u, rawText, Lower(u, phrase), from);
            var front, own := Runes(s, 0, k), Runes(s, k, l);
            idx == |front| && idx + |phrase| == |front| + |own| <==>
            |Lower(u, front)| == |front| && |Lower(u, own)| == |own|
  {
    var s, idx := rawText[from..], NextFind(u, rawText, Lower(u, phrase), from);
    k, l := OccurrenceRunes(u, s, Lower(u, phrase), idx);
    LowerInFront(u, s, k);
    OffsetsAscend(s, k, l);
  }

  /** The span of one find leaves the text, which ends the extractor, exactly when the text in
      front and the matched runes grow in lower case by more bytes than lie behind them. */
  lemma SpanLeavesTextIff(u: Unicode, rawText: Bytes, phrase: Phrase, from: nat) returns (k: nat, l: nat)
    requires from <= |rawText| && AsciiBytes(Lower(u, phrase)) && |Lower(u, phrase)| == |phrase|
    requires NextFind(u, rawText, Lower(u, phrase), from) >= 0
    ensures k < l <= RuneCount(rawText[from..]) && Lower(u, Runes(rawText[from..], k, l)) == Lower(u, phrase)
    ensures var s, idx := rawText[from..], NextFind(u, rawText, Lower(u, phrase), from);
            var front, own, behind := Runes(s, 0, k), Runes(s, k, l), Behind(s, l);
            && (from + idx + |phrase| > |rawText| <==> |Lower(u, front)| + |phrase| > |rawText| - from)
            && (from + idx + |phrase| > |rawText| <==> |Lower(u, front)| + |Lower(u, own)| > |front| + |own| + |behind|)
  {
    k, l := SpanIsOccurrenceIff(u, rawText, phrase, from);
    InThreeParts(rawText[from..], k, l);
  }

  lemma InThreeParts(s: Bytes, k: nat, l: nat)
    requires k <= l <= RuneCount(s)
    ensures |s| == |Runes(s, 0, k)| + |Runes(s, k, l)| + |Behind(s, l)|
  {
    OffsetsAscend(s, k, l);
    BehindIsSuffix(s, l);
  }

  // ------------------------------------------------------------------
  // What the search finds
  // ------------------------------------------------------------------

  /** The text and the phrase as the gazetteer needs them: lowering keeps the widths of the
      text, and the phrase lowers to ASCII of the same length. */
  ghost predicate Searchable(u: Unicode, rawText: Bytes, phrase: Phrase) {
    KeepsWidths(u, rawText) && AsciiBytes(Lower(u, phrase)) && |Lower(u, phrase)| == |phrase|
  }

  /** Searching a suffix is searching the whole from there. */
  lemma IndexInSuffix(h: Bytes, needle: Bytes, from: nat)
    requires from <= |h|
    ensures var idx := Index(h[from..], needle, 0);
            && (idx >= 0 ==> OccursAt(h, needle, from + idx))
            && (forall j: nat | from <= j && OccursAt(h, needle, j) :: 0 <= idx <= j - from)
  {
    var idx := Index(h[from..], needle, 0);
    if idx >= 0 {
      assert h[from..][idx..idx + |needle|] == h[from + idx..from + idx + |needle|];
    }
    forall j: nat | from <= j && OccursAt(h, needle, j) ensures 0 <= idx <= j - from {
      assert h[from..][j - from..j - from + |needle|] == h[j..j + |needle|];
      assert OccursAt(h[from..], needle, j - from);
    }
  }

  /** From `p` the search finds the first occurrence at or behind `p`. */
  ghost predicate FindsFirst(q: Search, h: Bytes, needle: Bytes, p: nat) {
    && (q.find(p) >= 0 ==> OccursAt(h, needle, p + q.find(p)))
    && (forall j: nat | p <= j && OccursAt(h, needle, j) :: 0 <= q.find(p) <= j - p)
  }

  /** The spans are occurrences, and every occurrence from `from` on starts inside a span. */
  ghost predicate Visits(h: Bytes, needle: Bytes, from: nat, cs: seq<Candidate>) {
    && (forall c | c in cs :: c.end == c.start + |needle| && OccursAt(h, needle, c.start))
    && (forall j: nat | from <= j && OccursAt(h, needle, j) :: exists c | c in cs :: c.start <= j < c.end)
  }

  lemma {:induction false} ScanVisits(q: Search, rawText: Bytes, h: Bytes, needle: Bytes, canonical: string, from: nat, good: set<nat>)
    requires q.size == |needle| > 0 && |h| == |rawText| && from in good
    requires forall p | p in good :: p <= |h| && FindsFirst(q, h, needle, p)
    requires forall p: nat | OccursAt(h, needle, p) :: p + |needle| in good
    ensures Scan(q, rawText, canonical, from).Some? && Visits(h, needle, from, Scan(q, rawText, canonical, from).value)
    decreases |rawText| - from
  {
    var idx := q.find(from);
    if idx >= 0 {
      var end := from + idx + |needle|;
      ScanVisits(q, rawText, h, needle, canonical, end, good);
      VisitsOneMore(h, needle, from, Found(q, canonical, from + idx), Scan(q, rawText, canonical, end).value);
    }
  }

  lemma VisitsOneMore(h: Bytes, needle: Bytes, from: nat, c: Candidate, rest: seq<Candidate>)
    requires c.end == c.start + |needle| && OccursAt(h, needle, c.start) && Visits(h, needle, c.end, rest)
    requires forall j: nat | from <= j && OccursAt(h, needle, j) :: c.start <= j
    ensures Visits(h, needle, from, [c] + rest)
  {
    var cs := [c] + rest;
    assert c in cs;
    forall j: nat | from <= j && OccursAt(h, needle, j) ensures exists d | d in cs :: d.start <= j < d.end {
      if j >= c.end {
        var d :| d in rest && d.start <= j < d.end;
        assert d in cs;
      }
    }
  }

  lemma BoundaryFindsFirst(u: Unicode, rawText: Bytes, phrase: Phrase, p: nat)
    requires KeepsWidths(u, rawText) && Boundary(rawText, p) && p <= |rawText|
    ensures p <= |Lower(u, rawText)|
    ensures FindsFirst(PhraseSearch(u, rawText, phrase), Lower(u, rawText), Lower(u, phrase), p)
  {
    LowerSuffix(u, rawText, p);
    FindInSuffix(PhraseSearch(u, rawText, phrase), Lower(u, rawText), Lower(u, phrase), Lower(u, rawText[p..]), p);
  }

  /** Where widths are kept, lowering a suffix is a suffix of the lowered text. */
  lemma LowerSuffix(u: Unicode, s: Bytes, b: nat)
    requires KeepsWidths(u, s) && Boundary(s, b) && b <= |s|
    ensures b <= |Lower(u, s)| && Lower(u, s[b..]) == Lower(u, s)[b..]
  {
    BoundaryIsRunePosition(s, b);
    var k := RuneCount(s[..b]);
    KeepsWidthsIff(u, s);
    assert SameOffset(s, Lower(u, s), k);
    LowerBehind(u, s, k);
    BehindIsSuffix(s, k);
    BehindIsSuffix(Lower(u, s), k);
  }

  lemma LowerKeepsLength(u: Unicode, s: Bytes)
    requires KeepsWidths(u, s)
    ensures |Lower(u, s)| == |s|
  {
    KeepsWidthsIff(u, s);
    assert SameOffset(s, Lower(u, s), RuneCount(s));
    LastRunePosition(s);
    LastRunePosition(Lower(u, s));
  }

  lemma FindInSuffix(q: Search, h: Bytes, needle: Bytes, suffix: Bytes, p: nat)
    requires p <= |h| && suffix == h[p..] && q.find(p) == Index(suffix, needle, 0)
    ensures FindsFirst(q, h, needle, p)
  {
    IndexInSuffix(h, needle, p);
  }

  ghost function Boundaries(s: Bytes): set<nat> {
    set b: nat | b <= |s| && Boundary(s, b)
  }

  lemma BoundariesFindFirst(u: Unicode, rawText: Bytes, phrase: Phrase)
    requires KeepsWidths(u, rawText)
    ensures forall p | p in Boundaries(rawText) :: FindsFirst(PhraseSearch(u, rawText, phrase), Lower(u, rawText), Lower(u, phrase), p)
  {
    forall p | p in Boundaries(rawText)
      ensures FindsFirst(PhraseSearch(u, rawText, phrase), Lower(u, rawText), Lower(u, phrase), p)
    {
      BoundaryFindsFirst(u, rawText, phrase, p);
    }
  }

  lemma OccurrencesRead(u: Unicode, rawText: Bytes, needle: Bytes)
    requires KeepsWidths(u, rawText) && needle != [] && AsciiBytes(needle)
    ensures forall p: nat | OccursAt(Lower(u, rawText), needle, p) :: ReadsAs(u, rawText, needle, p)
  {
    forall p: nat | OccursAt(Lower(u, rawText), needle, p) ensures ReadsAs(u, rawText, needle, p) {
      OccurrenceIsAligned(u, rawText, needle, p);
    }
  }

  lemma ScanOn(q: Search, u: Unicode, rawText: Bytes, h: Bytes, needle: Bytes, canonical: string)
    requires q.size == |needle| > 0 && |h| == |rawText|
    requires forall p | p in Boundaries(rawText) :: FindsFirst(q, h, needle, p)
    requires forall p: nat | OccursAt(h, needle, p) :: ReadsAs(u, rawText, needle, p)
    ensures var cs := Scan(q, rawText, canonical, 0);
            cs.Some? && Visits(h, needle, 0, cs.value) &&
            forall c | c in cs.value :: c.end == c.start + |needle| && ReadsAs(u, rawText, needle, c.start)
  {
    ScanVisits(q, rawText, h, needle, canonical, 0, Boundaries(rawText));
  }

  /** On a searchable text the search never leaves the text; every span it visits is whole
      runes that lower to the lowered phrase, and every occurrence of the lowered phrase in
      the lowered text starts inside a visited span. */
  lemma ScanFindsPhrase(u: Unicode, rawText: Bytes, phrase: Phrase, canonical: string)
    requires Searchable(u, rawText, phrase)
    ensures var cs := ScanPhrase(u, rawText, phrase, canonical);
            cs.Some? && Visits(Lower(u, rawText), Lower(u, phrase), 0, cs.value) &&
            forall c | c in cs.value :: c.end == c.start + |phrase| && ReadsAs(u, rawText, Lower(u, phrase), c.start)
  {
    LowerKeepsLength(u, rawText);
    BoundariesFindFirst(u, rawText, phrase);
    OccurrencesRead(u, rawText, Lower(u, phrase));
    ScanOn(PhraseSearch(u, rawText, phrase), u, rawText, Lower(u, rawText), Lower(u, phrase), canonical);
  }

  lemma {:induction false} ScanAllAligned(u: Unicode, rawText: Bytes, phrases: seq<Phrase>, canonical: string)
    requires forall p | p in phrases :: Searchable(u, rawText, p)
    ensures var cs := ScanAll(Searches(u, rawText, phrases), rawText, canonical);
            cs.Some? && forall c | c in cs.value :: Aligned(rawText, c)
  {
    if phrases != [] {
      var n := |phrases| - 1;
      ScanAllAligned(u, rawText, phrases[..n], canonical);
      assert Searches(u, rawText, phrases)[..n] == Searches(u, rawText, phrases[..n]);
      ScanPhraseAligned(u, rawText, phrases[n], canonical);
    }
  }

  lemma ScanPhraseAligned(u: Unicode, rawText: Bytes, phrase: Phrase, canonical: string)
    requires Searchable(u, rawText, phrase)
    ensures var cs := ScanPhrase(u, rawText, phrase, canonical);
            cs.Some? && forall c | c in cs.value :: Aligned(rawText, c)
  {
    ScanFindsPhrase(u, rawText, phrase, canonical);
    var needle := Lower(u, phrase);
    var cs := ScanPhrase(u, rawText, phrase, canonical).value;
    forall c | c in cs ensures Aligned(rawText, c) {
      ReadIsAligned(u, rawText, needle, c);
    }
  }

  lemma ReadIsAligned(u: Unicode, rawText: Bytes, needle: Bytes, c: Candidate)
    requires needle != [] && c.end == c.start + |needle| && ReadsAs(u, rawText, needle, c.start)
    ensures Aligned(rawText, c)
  {
  }

  // ------------------------------------------------------------------
  // All entries
  // ------------------------------------------------------------------

  datatype Entry = Entry(phrases: seq<Phrase>, canonical: string, slug: string, valueType: string)

  /** An entry ready to be looked up in one text. */
  datatype Job = Job(kind: Kind, canonical: string, qs: seq<Search>)

  function JobOf(u: Unicode, subject: string, rawText: Bytes, e: Entry): Job {
    Job(Kind(subject, e.slug, e.valueType, "gazetteer:v1"), e.canonical, Searches(u, rawText, e.phrases))
  }

  function Jobs(u: Unicode, subject: string, rawText: Bytes, entries: seq<Entry>): (jobs: seq<Job>)
    ensures |jobs| == |entries|
  {
    seq(|entries|, i requires 0 <= i < |entries| => JobOf(u, subject, rawText, entries[i]))
  }

  /** The spans of one entry. */
  function JobSpans(rawText: Bytes, job: Job): (cs: Option<seq<Candidate>>)
    ensures cs.Some? ==> InText(rawText, cs.value)
  {
    ScanAll(job.qs, rawText, job.canonical)
  }

  /** The facts of all entries, each selected behind those of the entries before it.  None:
      some span leaves the text. */
  function AllFacts(rawText: Bytes, jobs: seq<Job>): Option<seq<Fact>> {
    if jobs == [] then Some([])
    else
      var before, job := AllFacts(rawText, jobs[..|jobs| - 1]), jobs[|jobs| - 1];
      if before.None? || JobSpans(rawText, job).None? then None
      else Some(Greedy(job.kind, rawText, before.value, JobSpans(rawText, job).value))
  }

  lemma {:induction false} AllFactsNone(rawText: Bytes, jobs: seq<Job>)
    ensures AllFacts(rawText, jobs).None? <==> exists j | j in jobs :: JobSpans(rawText, j).None?
  {
    if jobs != [] {
      var n := |jobs| - 1;
      AllFactsNone(rawText, jobs[..n]);
      assert jobs == jobs[..n] + [jobs[n]];
      assert forall j :: j in jobs <==> j in jobs[..n] || j == jobs[n];
    }
  }

  lemma {:induction false} NoneStays(rawText: Bytes, jobs: seq<Job>, i: nat)
    requires i <= |jobs| && AllFacts(rawText, jobs[..i]).None?
    ensures AllFacts(rawText, jobs).None?
  {
    if i == |jobs| {
      assert jobs[..i] == jobs;
    } else {
      assert jobs[..|jobs| - 1][..i] == jobs[..i];
      NoneStays(rawText, jobs[..|jobs| - 1], i);
    }
  }

  /** The loop over the entries. */
  method ExtractJobs(rawText: Bytes, jobs: seq<Job>) returns (facts: seq<Fact>, panicked: bool)
    ensures panicked <==> AllFacts(rawText, jobs).None?
    ensures !panicked ==> facts == AllFacts(rawText, jobs).value
  {
    facts := [];
    panicked := false;
    for i := 0 to |jobs|
      invariant !panicked && AllFacts(rawText, jobs[..i]) == Some(facts)
    {
      assert jobs[..i + 1][..i] == jobs[..i];
      facts, panicked := AppendGazetteerFacts(jobs[i].qs, jobs[i].kind, jobs[i].canonical, rawText, facts);
      if panicked {
        NoneStays(rawText, jobs, i + 1);
        return;
      }
    }
    assert jobs[..|jobs|] == jobs;
  }

  ghost predicate Panics(u: Unicode, rawText: Bytes, e: Entry) {
    ScanAll(Searches(u, rawText, e.phrases), rawText, e.canonical).None?
  }

  ghost predicate EntrySearchable(u: Unicode, rawText: Bytes, e: Entry) {
    forall p | p in e.phrases :: Searchable(u, rawText, p)
  }

  /** Facts that pass the write check and share no rune and no byte. */
  ghost predicate Sound(rawText: Bytes, facts: seq<Fact>) {
    AllPass(rawText, facts) && Disjoint(facts) && DisjointBytes(rawText, facts)
  }

  /** Each span of the jobs with word boundaries overlaps a fact. */
  ghost predicate Full(rawText: Bytes, jobs: seq<Job>, facts: seq<Fact>) {
    forall j | j in jobs && JobSpans(rawText, j).Some? :: FullFor(rawText, JobSpans(rawText, j).value, facts)
  }

  ghost predicate FullFor(rawText: Bytes, cs: seq<Candidate>, facts: seq<Fact>) {
    forall c | c in cs && c.value.Some? :: Blocked(rawText, facts, c)
  }

  ghost predicate AlignedJob(rawText: Bytes, j: Job) {
    JobSpans(rawText, j).Some? && forall c | c in JobSpans(rawText, j).value :: Aligned(rawText, c)
  }

  lemma BlockedStays(rawText: Bytes, cs: seq<Candidate>, facts: seq<Fact>, more: seq<Fact>)
    requires FullFor(rawText, cs, facts) && facts <= more
    ensures FullFor(rawText, cs, more)
  {
    forall c | c in cs && c.value.Some? ensures Blocked(rawText, more, c) {
      var f :| f in facts && Overlap(ByteToRune(rawText, c.start), ByteToRune(rawText, c.end), f);
      var i :| 0 <= i < |facts| && facts[i] == f;
      assert more[i] == f;
    }
  }

  /** Where all spans are whole runes, the facts are sound and none could be added. */
  lemma {:induction false} AllFactsSound(rawText: Bytes, jobs: seq<Job>)
    requires forall j | j in jobs :: AlignedJob(rawText, j)
    ensures AllFacts(rawText, jobs).Some?
    ensures Sound(rawText, AllFacts(rawText, jobs).value) && Full(rawText, jobs, AllFacts(rawText, jobs).value)
  {
    if jobs != [] {
      var n := |jobs| - 1;
      AllFactsSound(rawText, jobs[..n]);
      assert jobs == jobs[..n] + [jobs[n]] && AlignedJob(rawText, jobs[n]);
      OneJobMore(rawText, jobs[..n], jobs[n], AllFacts(rawText, jobs[..n]).value);
    }
  }

  lemma OneJobMore(rawText: Bytes, jobs: seq<Job>, job: Job, facts: seq<Fact>)
    requires AlignedJob(rawText, job) && Sound(rawText, facts) && Full(rawText, jobs, facts)
    ensures var more := Greedy(job.kind, rawText, facts, JobSpans(rawText, job).value);
            Sound(rawText, more) && Full(rawText, jobs + [job], more)
  {
    var cs := JobSpans(rawText, job).value;
    var more := Greedy(job.kind, rawText, facts, cs);
    GreedyGood(job.kind, rawText, facts, cs);
    forall j | j in jobs + [job] && JobSpans(rawText, j).Some? ensures FullFor(rawText, JobSpans(rawText, j).value, more) {
      if j in jobs { BlockedStays(rawText, JobSpans(rawText, j).value, facts, more); }
    }
  }

  lemma SearchableIsAligned(u: Unicode, subject: string, rawText: Bytes, entries: seq<Entry>)
    requires forall e | e in entries :: EntrySearchable(u, rawText, e)
    ensures forall j | j in Jobs(u, subject, rawText, entries) :: AlignedJob(rawText, j)
  {
    var jobs := Jobs(u, subject, rawText, entries);
    forall j | j in jobs ensures AlignedJob(rawText, j) {
      var i :| 0 <= i < |jobs| && jobs[i] == j;
      assert EntrySearchable(u, rawText, entries[i]);
      ScanAllAligned(u, rawText, entries[i].phrases, entries[i].canonical);
    }
  }

  lemma JobPanics(u: Unicode, subject: string, rawText: Bytes, entries: seq<Entry>)
    ensures AllFacts(rawText, Jobs(u, subject, rawText, entries)).None? <==> exists e | e in entries :: Panics(u, rawText, e)
  {
    var jobs := Jobs(u, subject, rawText, entries);
    AllFactsNone(rawText, jobs);
    if j :| j in jobs && JobSpans(rawText, j).None? {
      var i :| 0 <= i < |jobs| && jobs[i] == j;
      assert Panics(u, rawText, entries[i]) && entries[i] in entries;
    }
    if e :| e in entries && Panics(u, rawText, e) {
      var i :| 0 <= i < |entries| && entries[i] == e;
      assert jobs[i] in jobs && JobSpans(rawText, jobs[i]).None?;
    }
  }

  /** All entries of the gazetteer.  It panics exactly when a span of some entry leaves the
      text; otherwise its facts are the greedy selection, entry behind entry. */
  method ExtractGazetteer(u: Unicode, subject: string, rawText: Bytes, entries: seq<Entry>) returns (facts: seq<Fact>, panicked: bool)
    ensures panicked <==> exists e | e in entries :: Panics(u, rawText, e)
    ensures !panicked ==> AllFacts(rawText, Jobs(u, subject, rawText, entries)) == Some(facts)
  {
    var jobs := Jobs(u, subject, rawText, entries);
    facts, panicked := ExtractJobs(rawText, jobs);
    JobPanics(u, subject, rawText, entries);
  }

  /** On a text searchable for all phrases: no run-time panic, every fact passes the write
      check, no two share a byte, and no find with word boundaries could be added. */
  lemma GazetteerSoundAndMaximal(u: Unicode, subject: string, rawText: Bytes, entries: seq<Entry>)
    requires forall e | e in entries :: EntrySearchable(u, rawText, e)
    ensures var jobs := Jobs(u, subject, rawText, entries);
            && AllFacts(rawText, jobs).Some? && !(exists e | e in entries :: Panics(u, rawText, e))
            && Sound(rawText, AllFacts(rawText, jobs).value) && Full(rawText, jobs, AllFacts(rawText, jobs).value)
  {
    SearchableIsAligned(u, subject, rawText, entries);
    AllFactsSound(rawText, Jobs(u, subject, rawText, entries));
    JobPanics(u, subject, rawText, entries);
  }
}
