/**
 What the gazetteer does on texts whose runes change their width in lower case: spans that
 leave the text, and spans that miss the phrase.
 */
module Drift {
  import opened Wrappers
  import opened Utf8
  import opened Excerpt
  import opened Spans
  import opened Text
  import opened Gazetteer

  // ------------------------------------------------------------------
  // Lowercasing pieces
  // ------------------------------------------------------------------

  lemma WidthInFront(a: Bytes, b: Bytes)
    requires a != [] && ValidWidth(a) > 0
    ensures Width(a + b) == Width(a) && FirstRune(a + b) == FirstRune(a)
  {
  }

  lemma {:induction false} LowerAppend(u: Unicode, a: Bytes, b: Bytes)
    requires Valid(a)
    ensures Lower(u, a + b) == Lower(u, a) + Lower(u, b)
  {
    if a == [] {
      assert a + b == b;
    } else {
      LowerAppend(u, a[Width(a)..], b);
      LowerFront(u, a, b);
      Regroup(EncodeRune(u.lower(FirstRune(a))), Lower(u, a[Width(a)..]), Lower(u, b));
    }
  }

  lemma LowerFront(u: Unicode, a: Bytes, b: Bytes)
    requires a != [] && ValidWidth(a) > 0
    ensures Lower(u, a + b) == EncodeRune(u.lower(FirstRune(a))) + Lower(u, a[Width(a)..] + b)
    ensures Lower(u, a) == EncodeRune(u.lower(FirstRune(a))) + Lower(u, a[Width(a)..])
  {
    WidthInFront(a, b);
    assert (a + b)[Width(a)..] == a[Width(a)..] + b;
  }

  lemma {:induction false} LowerAscii(u: Unicode, s: Bytes)
    requires AsciiTables(u) && AsciiBytes(s)
    ensures Valid(s) && |Lower(u, s)| == |s|
    ensures forall i | 0 <= i < |s| :: Lower(u, s)[i] == AsciiLower(s[i] as char) as byte
  {
    if s != [] {
      assert s[0] in s && forall b | b in s[1..] :: b in s;
      LowerAscii(u, s[1..]);
      LowerAsciiRune(u, s);
    }
  }

  lemma LowerAsciiRune(u: Unicode, s: Bytes)
    requires AsciiTables(u) && s != [] && s[0] < 0x80
    ensures ValidWidth(s) == 1 && Lower(u, s) == [AsciiLower(s[0] as char) as byte] + Lower(u, s[1..])
  {
    assert FirstRune(s) == s[0] as char;
    assert EncodeRune(AsciiLower(s[0] as char)) == [AsciiLower(s[0] as char) as byte];
  }

  /** ASCII phrases meet what the search needs of a phrase. */
  lemma AsciiPhrase(u: Unicode, phrase: Phrase)
    requires AsciiTables(u) && AsciiBytes(phrase)
    ensures AsciiBytes(Lower(u, phrase)) && |Lower(u, phrase)| == |phrase|
  {
    LowerAscii(u, phrase);
    var l := Lower(u, phrase);
    forall b | b in l ensures b < 0x80 {
      var i :| 0 <= i < |l| && l[i] == b;
      assert phrase[i] in phrase;
    }
  }

  // ------------------------------------------------------------------
  // Where the first find lies
  // ------------------------------------------------------------------

  lemma FirstByteOf(h: Bytes, needle: Bytes, i: nat)
    requires needle != [] && OccursAt(h, needle, i)
    ensures h[i] == needle[0]
  {
    assert h[i..i + |needle|][0] == h[i];
  }

  /** A needle whose first byte is not in front of it is found right there. */
  lemma FoundBehind(front: Bytes, needle: Bytes, rest: Bytes)
    requires needle != [] && needle[0] !in front
    ensures Index(front + (needle + rest), needle, 0) == |front|
  {
    var h := front + (needle + rest);
    assert h[|front|..|front| + |needle|] == needle;
    assert OccursAt(h, needle, |front|);
    forall i: nat | i < |front| ensures !OccursAt(h, needle, i) {
      assert h[i] == front[i] && front[i] in front;
      if OccursAt(h, needle, i) { FirstByteOf(h, needle, i); }
    }
  }

  /** The find counts lowered bytes: of a text in front that lowers to `front`, and the
      phrase behind it, it answers the length of `front`. */
  lemma FindCountsLoweredBytes(u: Unicode, before: Bytes, phrase: Phrase, rest: Bytes)
    requires Valid(before) && Valid(phrase) && Lower(u, phrase) != [] && Lower(u, phrase)[0] !in Lower(u, before)
    ensures NextFind(u, before + (phrase + rest), Lower(u, phrase), 0) == |Lower(u, before)|
  {
    var rawText := before + (phrase + rest);
    assert rawText[0..] == rawText;
    LowerAppend(u, before, phrase + rest);
    LowerAppend(u, phrase, rest);
    FoundBehind(Lower(u, before), Lower(u, phrase), Lower(u, rest));
  }

  // ------------------------------------------------------------------
  // A longer lower case
  // ------------------------------------------------------------------

  /** Whenever the text in front grows in lower case and the phrase ends the text, the span
      leaves the text and the extractor panics. */
  lemma LongerLowerCasePanics(u: Unicode, before: Bytes, phrase: Phrase, canonical: string)
    requires Valid(before) && Valid(phrase) && Lower(u, phrase) != [] && Lower(u, phrase)[0] !in Lower(u, before)
    requires |Lower(u, before)| > |before|
    ensures ScanPhrase(u, before + phrase, phrase, canonical).None?
  {
    assert phrase + [] == phrase;
    FindCountsLoweredBytes(u, before, phrase, []);
  }

  /** The place from which the search that ends the extractor was made. */
  lemma {:induction false} PanicPlace(q: Search, rawText: Bytes, canonical: string, from: nat) returns (at: nat)
    requires from <= |rawText| && Scan(q, rawText, canonical, from).None?
    ensures from <= at <= |rawText| && q.find(at) >= 0 && at + q.find(at) + q.size > |rawText|
    decreases |rawText| - from
  {
    var idx := q.find(from);
    if from + idx + q.size > |rawText| {
      at := from;
    } else {
      at := PanicPlace(q, rawText, canonical, from + idx + q.size);
    }
  }

  /** A text no rest of which grows in lower case never panics: a search that does has come
      to a place where the rest of the text grows. */
  lemma PanicNeedsGrowth(u: Unicode, rawText: Bytes, phrase: Phrase, canonical: string) returns (at: nat)
    requires |Lower(u, phrase)| == |phrase| && ScanPhrase(u, rawText, phrase, canonical).None?
    ensures at <= |rawText| && |Lower(u, rawText[at..])| > |rawText[at..]|
  {
    var q := PhraseSearch(u, rawText, phrase);
    at := PanicPlace(q, rawText, canonical, 0);
    SearchFinds(u, rawText, phrase, q);
    assert OccursAt(Lower(u, rawText[at..]), Lower(u, phrase), q.find(at));
  }

  lemma {:induction false} PhrasePanics(qs: seq<Search>, rawText: Bytes, canonical: string, i: nat)
    requires i < |qs| && Scan(qs[i], rawText, canonical, 0).None?
    ensures ScanAll(qs, rawText, canonical).None?
  {
    if i < |qs| - 1 {
      PhrasePanics(qs[..|qs| - 1], rawText, canonical, i);
    }
  }

  /** "Apple" */
  const APPLE: Phrase := [0x41, 0x70, 0x70, 0x6C, 0x65]

  /** U+023A, two bytes; its lower case U+2C65 has three. */
  const A_WITH_STROKE: Bytes := [0xC8, 0xBA]

  /** The entry for "Apple Inc.", whose alias is "Apple", panics on that rune and "Apple". */
  lemma AppleEntryPanics(u: Unicode, e: Entry)
    requires AsciiTables(u) && u.lower(0x23A as char) == 0x2C65 as char && APPLE in e.phrases
    ensures Panics(u, A_WITH_STROKE + APPLE, e)
  {
    StrokePanics(u, e.canonical);
    PhraseOfEntryPanics(u, A_WITH_STROKE + APPLE, e, APPLE);
  }

  lemma PhraseOfEntryPanics(u: Unicode, rawText: Bytes, e: Entry, phrase: Phrase)
    requires phrase in e.phrases && ScanPhrase(u, rawText, phrase, e.canonical).None?
    ensures Panics(u, rawText, e)
  {
    var i :| 0 <= i < |e.phrases| && e.phrases[i] == phrase;
    PhrasePanics(Searches(u, rawText, e.phrases), rawText, e.canonical, i);
  }

  lemma StrokePanics(u: Unicode, canonical: string)
    requires AsciiTables(u) && u.lower(0x23A as char) == 0x2C65 as char
    ensures ScanPhrase(u, A_WITH_STROKE + APPLE, APPLE, canonical).None?
  {
    LoweredStroke(u);
    LowerAscii(u, APPLE);
    LongerLowerCasePanics(u, A_WITH_STROKE, APPLE, canonical);
  }

  lemma LoweredStroke(u: Unicode)
    requires u.lower(0x23A as char) == 0x2C65 as char
    ensures Valid(A_WITH_STROKE) && Lower(u, A_WITH_STROKE) == [0xE2, 0xB1, 0xA5]
  {
    assert FirstRune(A_WITH_STROKE) == 0x23A as char && A_WITH_STROKE[2..] == [];
    assert EncodeRune(0x2C65 as char) == [0xE2, 0xB1, 0xA5];
  }

  // ------------------------------------------------------------------
  // A shorter lower case
  // ------------------------------------------------------------------

  /** `n` times U+0130, two bytes each; its lower case is the letter i. */
  function Dotted(n: nat): Bytes {
    if n == 0 then [] else [0xC4, 0xB0] + Dotted(n - 1)
  }

  lemma {:induction false} DottedLowered(u: Unicode, n: nat)
    requires u.lower(0x130 as char) == 'i'
    ensures Valid(Dotted(n)) && |Dotted(n)| == 2 * n && |Lower(u, Dotted(n))| == n
    ensures forall b | b in Lower(u, Dotted(n)) :: b == 0x69
  {
    if n > 0 {
      DottedLowered(u, n - 1);
      DottedFront(u, Dotted(n), Dotted(n - 1));
    }
  }

  lemma DottedFront(u: Unicode, s: Bytes, rest: Bytes)
    requires u.lower(0x130 as char) == 'i' && s == [0xC4, 0xB0] + rest
    ensures ValidWidth(s) == 2 && s[2..] == rest && Lower(u, s) == [0x69] + Lower(u, rest)
  {
    assert s[2..] == rest;
    assert FirstRune(s) == 0x130 as char;
    assert EncodeRune('i') == [0x69];
  }

  /** Behind the text `Dotted(n) + gap` a phrase is found `n` bytes too early. */
  ghost predicate Shifts(u: Unicode, n: nat, gap: Bytes, phrase: Phrase) {
    && AsciiTables(u) && u.lower(0x130 as char) == 'i'
    && AsciiBytes(gap) && AsciiBytes(phrase) && 0 < n <= |gap|
    && Lower(u, phrase) != [] && Lower(u, phrase)[0] != 0x69 && Lower(u, phrase)[0] !in Lower(u, gap)
  }

  function ShiftedText(n: nat, gap: Bytes, phrase: Phrase, rest: Bytes): Bytes {
    Dotted(n) + (gap + (phrase + rest))
  }

  lemma FoundEarly(u: Unicode, n: nat, gap: Bytes, phrase: Phrase, rest: Bytes)
    requires Shifts(u, n, gap, phrase)
    ensures NextFind(u, ShiftedText(n, gap, phrase, rest), Lower(u, phrase), 0) == n + |gap|
  {
    LoweredBefore(u, n, gap, phrase);
    Regroup(Dotted(n), gap, phrase + rest);
    FindCountsLoweredBytes(u, Dotted(n) + gap, phrase, rest);
  }

  lemma Regroup(a: Bytes, b: Bytes, c: Bytes)
    ensures a + (b + c) == (a + b) + c
  {
  }

  lemma LoweredBefore(u: Unicode, n: nat, gap: Bytes, phrase: Phrase)
    requires Shifts(u, n, gap, phrase)
    ensures Valid(Dotted(n) + gap) && Valid(phrase) && |Lower(u, Dotted(n) + gap)| == n + |gap|
    ensures Lower(u, phrase)[0] !in Lower(u, Dotted(n) + gap)
  {
    DottedLowered(u, n);
    LowerAscii(u, gap);
    LowerAscii(u, phrase);
    LowerAppend(u, Dotted(n), gap);
    ValidAppend(Dotted(n), gap);
  }

  lemma {:induction false} ValidAppend(a: Bytes, b: Bytes)
    requires Valid(a) && Valid(b)
    ensures Valid(a + b)
  {
    if a == [] {
      assert a + b == b;
    } else {
      WidthInFront(a, b);
      assert ValidWidth(a + b) > 0 && (a + b)[Width(a)..] == a[Width(a)..] + b;
      ValidAppend(a[Width(a)..], b);
    }
  }

  lemma {:induction false} ValidInFront(a: Bytes, b: Bytes)
    requires Valid(a)
    ensures Boundary(a + b, |a|)
  {
    if a != [] {
      WidthInFront(a, b);
      assert (a + b)[Width(a)..] == a[Width(a)..] + b;
      ValidInFront(a[Width(a)..], b);
    }
  }

  /** A position in the ASCII bytes behind is a boundary. */
  lemma AsciiPosition(u: Unicode, before: Bytes, ascii: Bytes, rest: Bytes, i: nat)
    requires AsciiTables(u) && Valid(before) && AsciiBytes(ascii) && i <= |ascii|
    ensures Boundary(before + (ascii + rest), |before| + i)
  {
    assert forall b | b in ascii[..i] :: b in ascii;
    LowerAscii(u, ascii[..i]);
    ValidAppend(before, ascii[..i]);
    ValidInFront(before + ascii[..i], ascii[i..] + rest);
    CutInside(before, ascii, rest, i);
  }

  lemma CutInside(a: Bytes, b: Bytes, c: Bytes, i: nat)
    requires i <= |b|
    ensures (a + b[..i]) + (b[i..] + c) == a + (b + c)
  {
  }

  /** What the span takes: the `n` last bytes of the gap and the phrase without its `n` last. */
  function Taken(n: nat, gap: Bytes, phrase: Phrase): Bytes
    requires n <= |gap|
  {
    (gap + phrase)[|gap| - n..|gap| - n + |phrase|]
  }

  lemma SpanTakes(u: Unicode, n: nat, gap: Bytes, phrase: Phrase, rest: Bytes)
    requires Shifts(u, n, gap, phrase)
    ensures var rawText, start := ShiftedText(n, gap, phrase, rest), n + |gap|;
            && start + |phrase| <= |rawText| && rawText[start..start + |phrase|] == Taken(n, gap, phrase)
            && Boundary(rawText, start) && Boundary(rawText, start + |phrase|)
  {
    DottedLowered(u, n);
    TakenSlice(Dotted(n), n, gap, phrase, rest);
    AsciiPosition(u, Dotted(n), gap + phrase, rest, |gap| - n);
    AsciiPosition(u, Dotted(n), gap + phrase, rest, |gap| - n + |phrase|);
  }

  lemma TakenSlice(dotted: Bytes, n: nat, gap: Bytes, phrase: Phrase, rest: Bytes)
    requires |dotted| == 2 * n && n <= |gap|
    ensures dotted + (gap + (phrase + rest)) == dotted + ((gap + phrase) + rest)
    ensures (dotted + (gap + (phrase + rest)))[n + |gap|..n + |gap| + |phrase|] == Taken(n, gap, phrase)
  {
    assert gap + (phrase + rest) == (gap + phrase) + rest;
  }

  /** It does not read as the phrase. */
  lemma TakenIsNotThePhrase(u: Unicode, n: nat, gap: Bytes, phrase: Phrase)
    requires Shifts(u, n, gap, phrase)
    ensures Lower(u, Taken(n, gap, phrase)) != Lower(u, phrase)
  {
    var taken := Taken(n, gap, phrase);
    assert forall b | b in taken :: b in gap || b in phrase;
    LowerAscii(u, taken);
    LowerAscii(u, gap);
    assert taken[0] == gap[|gap| - n];
    assert Lower(u, taken)[0] == Lower(u, gap)[|gap| - n] && Lower(u, gap)[|gap| - n] in Lower(u, gap);
  }

  /** The first fact has the value, the given excerpt, and passes the write check. */
  ghost predicate Stores(rawText: Bytes, canonical: string, taken: Bytes, facts: seq<Fact>) {
    && facts != [] && facts[0].value == canonical && facts[0].excerpt == taken
    && WorkerVerify(rawText, taken, facts[0].start, facts[0].end)
  }

  /** Where that span has word boundaries and the search ends, the extractor stores a fact for
      the phrase whose excerpt is not the phrase and passes the write check. */
  lemma ShorterLowerCaseMisquotes(u: Unicode, kind: Kind, canonical: string, n: nat, gap: Bytes, phrase: Phrase, rest: Bytes,
                                  rawText: Bytes, q: Search, cs: seq<Candidate>)
    requires Shifts(u, n, gap, phrase) && rawText == ShiftedText(n, gap, phrase, rest) && q == PhraseSearch(u, rawText, phrase)
    requires q.bounded(n + |gap|, n + |gap| + |phrase|) && Scan(q, rawText, canonical, 0) == Some(cs)
    ensures Stores(rawText, canonical, Taken(n, gap, phrase), Greedy(kind, rawText, [], cs))
    ensures Lower(u, Taken(n, gap, phrase)) != Lower(u, phrase)
  {
    TakenIsNotThePhrase(u, n, gap, phrase);
    ShiftedFind(u, n, gap, phrase, rest, rawText, q);
    TakenStored(u, kind, canonical, n, gap, phrase, rest, rawText, q, cs, Greedy(kind, rawText, [], cs));
  }

  lemma TakenStored(u: Unicode, kind: Kind, canonical: string, n: nat, gap: Bytes, phrase: Phrase, rest: Bytes,
                    rawText: Bytes, q: Search, cs: seq<Candidate>, facts: seq<Fact>)
    requires Shifts(u, n, gap, phrase) && rawText == ShiftedText(n, gap, phrase, rest)
    requires q.size == |phrase| && q.find(0) == n + |gap| && q.bounded(n + |gap|, n + |gap| + |phrase|)
    requires Scan(q, rawText, canonical, 0) == Some(cs)
    requires InText(rawText, cs) && facts == Greedy(kind, rawText, [], cs)
    ensures Stores(rawText, canonical, Taken(n, gap, phrase), facts)
  {
    SpanTakes(u, n, gap, phrase, rest);
    FirstStored(q, kind, canonical, rawText, n + |gap|, cs, facts, Taken(n, gap, phrase));
  }

  lemma ShiftedFind(u: Unicode, n: nat, gap: Bytes, phrase: Phrase, rest: Bytes, rawText: Bytes, q: Search)
    requires Shifts(u, n, gap, phrase) && rawText == ShiftedText(n, gap, phrase, rest) && q == PhraseSearch(u, rawText, phrase)
    ensures q.size == |phrase| && q.find(0) == n + |gap|
  {
    FoundEarly(u, n, gap, phrase, rest);
    SearchFinds(u, rawText, phrase, q);
  }

  lemma SearchFinds(u: Unicode, rawText: Bytes, phrase: Phrase, q: Search)
    requires q == PhraseSearch(u, rawText, phrase)
    ensures q.size == |phrase| && forall from: nat | from <= |rawText| :: q.find(from) == NextFind(u, rawText, Lower(u, phrase), from)
    ensures forall start: nat, end: nat | start <= end <= |rawText| :: q.bounded(start, end) <==> HasWordBoundaries(u, rawText, start, end)
  {
  }

  lemma FirstStored(q: Search, kind: Kind, canonical: string, rawText: Bytes, start: nat, cs: seq<Candidate>, facts: seq<Fact>, taken: Bytes)
    requires InText(rawText, cs) && facts == Greedy(kind, rawText, [], cs)
    requires q.find(0) == start && start + q.size <= |rawText| && q.bounded(start, start + q.size)
    requires Scan(q, rawText, canonical, 0) == Some(cs) && Boundary(rawText, start) && Boundary(rawText, start + q.size)
    requires rawText[start..start + q.size] == taken
    ensures Stores(rawText, canonical, taken, facts)
  {
    var c := Candidate(start, start + q.size, Some(canonical));
    FirstFound(q, rawText, canonical);
    AlignedFact(kind, rawText, c);
    FirstIsKept(kind, rawText, cs);
  }

  lemma FirstFound(q: Search, rawText: Bytes, canonical: string)
    requires q.find(0) >= 0 && Scan(q, rawText, canonical, 0).Some?
    ensures var cs := Scan(q, rawText, canonical, 0).value; cs != [] && cs[0] == Found(q, canonical, q.find(0))
  {
  }

  /** The first candidate with a value is kept. */
  lemma FirstIsKept(kind: Kind, rawText: Bytes, cs: seq<Candidate>)
    requires InText(rawText, cs) && cs != [] && cs[0].value.Some?
    ensures [MakeFact(kind, rawText, cs[0])] <= Greedy(kind, rawText, [], cs)
  {
    var first := [cs[0]];
    assert cs == first + cs[1..] && first[..0] == [];
    assert Greedy(kind, rawText, [], first[..0]) == [];
    assert Greedy(kind, rawText, [], first) == [MakeFact(kind, rawText, cs[0])];
    GreedyAppend(kind, rawText, [], first, cs[1..]);
  }

  /** " . wxyz " */
  const GAP: Bytes := [0x20, 0x2E, 0x20, 0x77, 0x78, 0x79, 0x7A, 0x20]

  /** "Apple Inc." */
  const APPLE_INC: Phrase := [0x41, 0x70, 0x70, 0x6C, 0x65, 0x20, 0x49, 0x6E, 0x63, 0x2E]

  /** " " */
  const BLANK: Bytes := [0x20]

  /** "wxyz Apple" */
  const WXYZ_APPLE: Bytes := [0x77, 0x78, 0x79, 0x7A, 0x20, 0x41, 0x70, 0x70, 0x6C, 0x65]

  lemma LowerLacks(u: Unicode, s: Bytes, b: byte)
    requires AsciiTables(u) && AsciiBytes(s) && forall i | 0 <= i < |s| :: AsciiLower(s[i] as char) as byte != b
    ensures b !in Lower(u, s)
  {
    LowerAscii(u, s);
  }

  lemma GapLacksA(u: Unicode)
    requires AsciiTables(u)
    ensures AsciiBytes(GAP) && 0x61 !in Lower(u, GAP)
  {
    LowerLacks(u, GAP, 0x61);
  }

  lemma AppleStartsWithA(u: Unicode)
    requires AsciiTables(u)
    ensures AsciiBytes(APPLE_INC) && |Lower(u, APPLE_INC)| == 10 && Lower(u, APPLE_INC)[0] == 0x61
  {
    LowerAscii(u, APPLE_INC);
  }

  lemma AppleShifts(u: Unicode)
    requires AsciiTables(u) && u.lower(0x130 as char) == 'i'
    ensures Shifts(u, 5, GAP, APPLE_INC)
  {
    GapLacksA(u);
    AppleStartsWithA(u);
  }

  lemma AppleTaken()
    ensures Taken(5, GAP, APPLE_INC) == WXYZ_APPLE
  {
    assert (GAP + APPLE_INC)[3..13] == WXYZ_APPLE;
  }

  /** Five times U+0130 and " . wxyz Apple Inc. ": for the value "Apple Inc." the extractor
      stores the excerpt "wxyz Apple". */
  lemma WxyzAppleIsStored(u: Unicode, kind: Kind, canonical: string, rawText: Bytes, q: Search)
    requires AsciiTables(u) && u.lower(0x130 as char) == 'i'
    requires rawText == ShiftedText(5, GAP, APPLE_INC, BLANK) && q == PhraseSearch(u, rawText, APPLE_INC)
    ensures var cs := Scan(q, rawText, canonical, 0);
            cs.Some? && Stores(rawText, canonical, WXYZ_APPLE, Greedy(kind, rawText, [], cs.value))
    ensures Lower(u, WXYZ_APPLE) != Lower(u, APPLE_INC)
  {
    AppleShifts(u);
    AppleTaken();
    AppleBounded(u, rawText, q);
    AppleScanEnds(u, rawText, q, canonical);
    ShorterLowerCaseMisquotes(u, kind, canonical, 5, GAP, APPLE_INC, BLANK, rawText, q, Scan(q, rawText, canonical, 0).value);
  }

  lemma TextBytes(rawText: Bytes)
    requires rawText == ShiftedText(5, GAP, APPLE_INC, BLANK)
    ensures |rawText| == 29 && rawText[12] == 0x20 && rawText[23..] == [0x20, 0x49, 0x6E, 0x63, 0x2E, 0x20]
  {
    var d := Dotted(5);
    assert |d| == 10 by { assert |Dotted(1)| == 2 && |Dotted(2)| == 4 && |Dotted(3)| == 6 && |Dotted(4)| == 8; }
    assert rawText == d + (GAP + (APPLE_INC + BLANK));
  }

  lemma AppleBounded(u: Unicode, rawText: Bytes, q: Search)
    requires AsciiTables(u) && rawText == ShiftedText(5, GAP, APPLE_INC, BLANK) && q == PhraseSearch(u, rawText, APPLE_INC)
    ensures q.bounded(13, 23)
  {
    TextBytes(rawText);
    BlankIsNoWord(u, rawText[..13], rawText[23..]);
    SearchFinds(u, rawText, APPLE_INC, q);
  }

  lemma BlankIsNoWord(u: Unicode, front: Bytes, behind: Bytes)
    requires AsciiTables(u) && front != [] && front[|front| - 1] == 0x20 && behind != [] && behind[0] == 0x20
    ensures !WordRune(u, LastRune(front, 1)) && !WordRune(u, FirstRune(behind))
  {
    var last := front[|front| - 1..];
    assert last == [0x20];
    assert LastRune(front, 1) == ' ' && FirstRune(behind) == ' ';
  }

  lemma AppleScanEnds(u: Unicode, rawText: Bytes, q: Search, canonical: string)
    requires AsciiTables(u) && u.lower(0x130 as char) == 'i'
    requires rawText == ShiftedText(5, GAP, APPLE_INC, BLANK) && q == PhraseSearch(u, rawText, APPLE_INC)
    ensures Scan(q, rawText, canonical, 0).Some?
  {
    TextBytes(rawText);
    AppleFound(u, rawText, q);
    AppleNotFoundAgain(u, rawText, q);
    EndsThere(q, rawText, canonical, 13);
  }

  lemma AppleFound(u: Unicode, rawText: Bytes, q: Search)
    requires AsciiTables(u) && u.lower(0x130 as char) == 'i'
    requires rawText == ShiftedText(5, GAP, APPLE_INC, BLANK) && q == PhraseSearch(u, rawText, APPLE_INC)
    ensures q.size == 10 && q.find(0) == 13
  {
    AppleShifts(u);
    ShiftedFind(u, 5, GAP, APPLE_INC, BLANK, rawText, q);
  }

  lemma AppleNotFoundAgain(u: Unicode, rawText: Bytes, q: Search)
    requires AsciiTables(u) && rawText == ShiftedText(5, GAP, APPLE_INC, BLANK) && q == PhraseSearch(u, rawText, APPLE_INC)
    ensures q.find(23) < 0
  {
    TextBytes(rawText);
    AppleStartsWithA(u);
    SearchFinds(u, rawText, APPLE_INC, q);
    TooShort(u, rawText[23..], Lower(u, APPLE_INC));
  }

  lemma TooShort(u: Unicode, s: Bytes, needle: Bytes)
    requires AsciiTables(u) && AsciiBytes(s) && |s| < |needle|
    ensures Index(Lower(u, s), needle, 0) == -1
  {
    LowerAscii(u, s);
  }

  lemma EndsThere(q: Search, rawText: Bytes, canonical: string, start: nat)
    requires q.find(0) == start && start + q.size <= |rawText| && q.find(start + q.size) < 0
    ensures Scan(q, rawText, canonical, 0).Some?
  {
    assert Scan(q, rawText, canonical, start + q.size) == Some([]);
  }
}
