/**
 Non-overlapping facts from candidate spans, as the date and the gazetteer extractor
 select them: in order of priority, each candidate unless it overlaps a fact already kept.
 */
module Spans {
  import opened Wrappers
  import opened Utf8
  import opened Excerpt

  /** A byte span of the text; `value` is what its normaliser makes of it, if anything. */
  datatype Candidate = Candidate(start: nat, end: nat, value: Option<string>)

  /** What the facts of one extractor pass have in common. */
  datatype Kind = Kind(subject: string, slug: string, valueType: string, extractionMethod: string)

  ghost predicate InText(rawText: Bytes, cs: seq<Candidate>) {
    forall c | c in cs :: c.start <= c.end <= |rawText|
  }

  /** Non-empty and whole runes, as regular expression matches are. */
  ghost predicate Aligned(rawText: Bytes, c: Candidate) {
    c.start < c.end <= |rawText| && Boundary(rawText, c.start) && Boundary(rawText, c.end)
  }

  function MakeFact(kind: Kind, rawText: Bytes, c: Candidate): Fact
    requires c.start <= c.end <= |rawText| && c.value.Some?
  {
    Fact(kind.subject, kind.slug, c.value.value, kind.valueType,
         SpanExcerpt(rawText, c.start, c.end), ByteToRune(rawText, c.start), ByteToRune(rawText, c.end),
         kind.extractionMethod, None)
  }

  /** The fact has the columns of its extractor, no confidence of its own, the bytes of the
      match and the numbers of runes in front of its two ends. */
  ghost predicate SaysMatch(kind: Kind, rawText: Bytes, start: nat, end: nat, f: Fact) {
    && start <= end <= |rawText|
    && f.subject == kind.subject && f.slug == kind.slug && f.valueType == kind.valueType
    && f.extractionMethod == kind.extractionMethod && f.confidence == None
    && f.excerpt == rawText[start..end] && f.start == RuneCount(rawText[..start]) && f.end == RuneCount(rawText[..end])
  }

  lemma MadeFactSays(kind: Kind, rawText: Bytes, c: Candidate)
    requires c.start <= c.end <= |rawText| && c.value.Some?
    ensures var f := MakeFact(kind, rawText, c); SaysMatch(kind, rawText, c.start, c.end, f) && Some(f.value) == c.value
  {
    assert rawText[..0] == [] && rawText[..|rawText|] == rawText;
  }

  /** The overlap test on rune ranges. */
  predicate Overlap(start: int, end: int, f: Fact) {
    start < f.end && end > f.start
  }

  predicate Blocked(rawText: Bytes, facts: seq<Fact>, c: Candidate) {
    exists f | f in facts :: Overlap(ByteToRune(rawText, c.start), ByteToRune(rawText, c.end), f)
  }

  method OverlapsExistingFact(rawText: Bytes, facts: seq<Fact>, c: Candidate) returns (overlaps: bool)
    ensures overlaps <==> Blocked(rawText, facts, c)
  {
    var runeStart := ByteToRune(rawText, c.start);
    var runeEnd := ByteToRune(rawText, c.end);
    for i := 0 to |facts|
      invariant forall j | 0 <= j < i :: !Overlap(runeStart, runeEnd, facts[j])
    {
      if Overlap(runeStart, runeEnd, facts[i]) {
        return true;
      }
    }
    return false;
  }

  function Greedy(kind: Kind, rawText: Bytes, facts: seq<Fact>, cs: seq<Candidate>): (kept: seq<Fact>)
    requires InText(rawText, cs)
    ensures facts <= kept
  {
    if cs == [] then facts
    else
      var n := |cs| - 1;
      var before := Greedy(kind, rawText, facts, cs[..n]);
      if cs[n].value.None? || Blocked(rawText, before, cs[n]) then before
      else before + [MakeFact(kind, rawText, cs[n])]
  }

  lemma {:induction false} GreedyAppend(kind: Kind, rawText: Bytes, facts: seq<Fact>, a: seq<Candidate>, b: seq<Candidate>)
    requires InText(rawText, a) && InText(rawText, b)
    ensures Greedy(kind, rawText, Greedy(kind, rawText, facts, a), b) == Greedy(kind, rawText, facts, a + b)
  {
    if b == [] {
      assert a + b == a;
    } else {
      var n := |b| - 1;
      GreedyAppend(kind, rawText, facts, a, b[..n]);
      assert (a + b)[..|a + b| - 1] == a + b[..n];
    }
  }

  // ------------------------------------------------------------------
  // What is kept
  // ------------------------------------------------------------------

  ghost predicate Apart(f: Fact, g: Fact) {
    f.end <= g.start || g.end <= f.start
  }

  ghost predicate Disjoint(facts: seq<Fact>) {
    forall i, j | 0 <= i < j < |facts| :: Apart(facts[i], facts[j])
  }

  /** Kept facts are pairwise disjoint in runes. */
  lemma {:induction false} GreedyDisjoint(kind: Kind, rawText: Bytes, facts: seq<Fact>, cs: seq<Candidate>)
    requires InText(rawText, cs) && Disjoint(facts)
    ensures Disjoint(Greedy(kind, rawText, facts, cs))
  {
    if cs != [] {
      var n := |cs| - 1;
      GreedyDisjoint(kind, rawText, facts, cs[..n]);
      var before := Greedy(kind, rawText, facts, cs[..n]);
      if cs[n].value.Some? && !Blocked(rawText, before, cs[n]) {
        var f := MakeFact(kind, rawText, cs[n]);
        forall i | 0 <= i < |before| ensures Apart(before[i], f) {
          assert before[i] in before;
        }
      }
    }
  }

  /** The byte range of a fact, read off its rune offsets. */
  function ByteStart(rawText: Bytes, f: Fact): int {
    if RuneToByte(rawText, f.start).Some? then RuneToByte(rawText, f.start).value else -1
  }

  function ByteEnd(rawText: Bytes, f: Fact): int {
    if RuneToByte(rawText, f.end).Some? then RuneToByte(rawText, f.end).value else -1
  }

  /** The fact made from an aligned candidate passes the write check and its offsets lead
      back to the candidate's bytes. */
  lemma AlignedFact(kind: Kind, rawText: Bytes, c: Candidate)
    requires Aligned(rawText, c) && c.value.Some?
    ensures var f := MakeFact(kind, rawText, c);
            WorkerVerify(rawText, f.excerpt, f.start, f.end) && ByteStart(rawText, f) == c.start && ByteEnd(rawText, f) == c.end
  {
    AlignedSpanAccepted(rawText, c.start, c.end);
    ByteRuneByte(rawText, c.start);
    ByteRuneByte(rawText, c.end);
  }

  ghost predicate AllPass(rawText: Bytes, facts: seq<Fact>) {
    forall f | f in facts :: WorkerVerify(rawText, f.excerpt, f.start, f.end)
  }

  /** Every kept fact passes the write check. */
  lemma {:induction false} GreedyPasses(kind: Kind, rawText: Bytes, facts: seq<Fact>, cs: seq<Candidate>)
    requires InText(rawText, cs) && AllPass(rawText, facts)
    requires forall c | c in cs :: Aligned(rawText, c)
    ensures AllPass(rawText, Greedy(kind, rawText, facts, cs))
  {
    if cs != [] {
      var n := |cs| - 1;
      GreedyPasses(kind, rawText, facts, cs[..n]);
      if cs[n].value.Some? { AlignedFact(kind, rawText, cs[n]); }
    }
  }

  /** Facts that pass the write check overlap in runes exactly when they overlap in bytes. */
  lemma ApartInBytes(rawText: Bytes, f: Fact, g: Fact)
    requires WorkerVerify(rawText, f.excerpt, f.start, f.end) && WorkerVerify(rawText, g.excerpt, g.start, g.end)
    ensures Apart(f, g) <==> ByteEnd(rawText, f) <= ByteStart(rawText, g) || ByteEnd(rawText, g) <= ByteStart(rawText, f)
  {
    OffsetsOrdered(rawText, f.end, g.start);
    OffsetsOrdered(rawText, g.end, f.start);
  }

  lemma OffsetsOrdered(s: Bytes, i: nat, j: nat)
    requires i <= RuneCount(s) && j <= RuneCount(s)
    ensures i <= j <==> ByteOffset(s, i) <= ByteOffset(s, j)
  {
    if i < j { ByteOffsetMonotone(s, i, j); }
    if j < i { ByteOffsetMonotone(s, j, i); }
  }

  // ------------------------------------------------------------------
  // What is rejected
  // ------------------------------------------------------------------

  /** A candidate that normalises is in the result or overlaps a fact kept before it. */
  lemma {:induction false} GreedyMaximal(kind: Kind, rawText: Bytes, facts: seq<Fact>, cs: seq<Candidate>, i: nat)
    requires InText(rawText, cs) && i < |cs| && cs[i].value.Some?
    ensures var before := Greedy(kind, rawText, facts, cs[..i]);
            before <= Greedy(kind, rawText, facts, cs) &&
            (Blocked(rawText, before, cs[i]) || before + [MakeFact(kind, rawText, cs[i])] <= Greedy(kind, rawText, facts, cs))
  {
    assert cs == cs[..i] + cs[i..];
    GreedyAppend(kind, rawText, facts, cs[..i + 1], cs[i + 1..]);
    assert cs[..i + 1] + cs[i + 1..] == cs;
    assert cs[..i + 1][..i] == cs[..i];
  }

  /** No candidate can be added: each one that normalises overlaps a kept fact. */
  lemma NothingCanBeAdded(kind: Kind, rawText: Bytes, facts: seq<Fact>, cs: seq<Candidate>, c: Candidate)
    requires InText(rawText, cs) && c in cs && c.value.Some? && Aligned(rawText, c)
    ensures Blocked(rawText, Greedy(kind, rawText, facts, cs), c)
  {
    var i :| 0 <= i < |cs| && cs[i] == c;
    GreedyMaximal(kind, rawText, facts, cs, i);
    var before, kept := Greedy(kind, rawText, facts, cs[..i]), Greedy(kind, rawText, facts, cs);
    if Blocked(rawText, before, c) {
      var f :| f in before && Overlap(ByteToRune(rawText, c.start), ByteToRune(rawText, c.end), f);
      assert f in kept;
    } else {
      var f := MakeFact(kind, rawText, c);
      ByteToRuneMonotone(rawText, c.start, c.end);
      assert kept[|before|] == (before + [f])[|before|] == f;
      assert f in kept && Overlap(ByteToRune(rawText, c.start), ByteToRune(rawText, c.end), f);
    }
  }

  /** A choice of candidates by priority: one is chosen exactly when it normalises and
      overlaps no candidate chosen before it. */
  ghost predicate ByPriority(rawText: Bytes, cs: seq<Candidate>, chosen: set<nat>) {
    && (forall i | i in chosen :: i < |cs|)
    && (forall i | 0 <= i < |cs| ::
          i in chosen <==> cs[i].value.Some? && !Conflicts(rawText, cs, chosen, i))
  }

  ghost predicate Conflicts(rawText: Bytes, cs: seq<Candidate>, chosen: set<nat>, i: nat)
    requires i < |cs|
  {
    exists j | 0 <= j < i && j in chosen ::
      ByteToRune(rawText, cs[i].start) < ByteToRune(rawText, cs[j].end) && ByteToRune(rawText, cs[i].end) > ByteToRune(rawText, cs[j].start)
  }

  /** The facts of the chosen candidates, in order. */
  ghost function FactsOf(kind: Kind, rawText: Bytes, cs: seq<Candidate>, chosen: set<nat>): (facts: seq<Fact>)
    requires InText(rawText, cs) && forall i | i in chosen && i < |cs| :: cs[i].value.Some?
  {
    if cs == [] then []
    else
      var n := |cs| - 1;
      FactsOf(kind, rawText, cs[..n], chosen) + if n in chosen then [MakeFact(kind, rawText, cs[n])] else []
  }

  lemma {:induction false} FactsOfMembers(kind: Kind, rawText: Bytes, cs: seq<Candidate>, chosen: set<nat>)
    requires InText(rawText, cs) && forall i | i in chosen && i < |cs| :: cs[i].value.Some?
    ensures forall f :: f in FactsOf(kind, rawText, cs, chosen) <==>
              exists j | 0 <= j < |cs| && j in chosen :: MakeFact(kind, rawText, cs[j]) == f
  {
    if cs != [] {
      var n := |cs| - 1;
      var shorter := FactsOf(kind, rawText, cs[..n], chosen);
      FactsOfMembers(kind, rawText, cs[..n], chosen);
      forall f ensures f in FactsOf(kind, rawText, cs, chosen) <==>
                         exists j | 0 <= j < |cs| && j in chosen :: MakeFact(kind, rawText, cs[j]) == f
      {
        if f in shorter {
          var j :| 0 <= j < n && j in chosen && MakeFact(kind, rawText, cs[..n][j]) == f;
          assert MakeFact(kind, rawText, cs[j]) == f;
        }
        if j :| 0 <= j < |cs| && j in chosen && MakeFact(kind, rawText, cs[j]) == f {
          if j < n { assert MakeFact(kind, rawText, cs[..n][j]) == f; }
        }
      }
    }
  }

  /** Greedy selection is the only choice by priority. */
  lemma {:induction false} GreedyIsByPriority(kind: Kind, rawText: Bytes, cs: seq<Candidate>, chosen: set<nat>)
    requires InText(rawText, cs) && ByPriority(rawText, cs, chosen)
    ensures FactsOf(kind, rawText, cs, chosen) == Greedy(kind, rawText, [], cs)
  {
    if cs != [] {
      var n := |cs| - 1;
      var earlier := set i | i in chosen && i < n;
      PriorityPrefix(rawText, cs, chosen, earlier);
      GreedyIsByPriority(kind, rawText, cs[..n], earlier);
      SameFacts(kind, rawText, cs[..n], chosen, earlier);
      BlockedIffConflicts(kind, rawText, cs, chosen);
    }
  }

  /** Candidates in order, each unless it overlaps one already chosen. */
  ghost function Choose(rawText: Bytes, cs: seq<Candidate>): (chosen: set<nat>)
    ensures forall i | i in chosen :: i < |cs|
  {
    if cs == [] then {}
    else
      var n := |cs| - 1;
      var earlier := Choose(rawText, cs[..n]);
      if cs[n].value.Some? && !Conflicts(rawText, cs, earlier, n) then earlier + {n} else earlier
  }

  /** Such a choice exists for every list, so with `GreedyIsByPriority` exactly one does. */
  lemma {:induction false} ChoiceExists(rawText: Bytes, cs: seq<Candidate>)
    ensures ByPriority(rawText, cs, Choose(rawText, cs))
  {
    if cs != [] {
      var n := |cs| - 1;
      var chosen, earlier := Choose(rawText, cs), Choose(rawText, cs[..n]);
      ChoiceExists(rawText, cs[..n]);
      forall i | 0 <= i < n ensures Conflicts(rawText, cs, chosen, i) <==> Conflicts(rawText, cs[..n], earlier, i) {
        assert forall j | 0 <= j <= i :: cs[..n][j] == cs[j];
      }
      assert Conflicts(rawText, cs, chosen, n) <==> Conflicts(rawText, cs, earlier, n);
    }
  }

  lemma PriorityPrefix(rawText: Bytes, cs: seq<Candidate>, chosen: set<nat>, earlier: set<nat>)
    requires cs != [] && ByPriority(rawText, cs, chosen) && forall i :: i in earlier <==> i in chosen && i < |cs| - 1
    ensures ByPriority(rawText, cs[..|cs| - 1], earlier)
  {
    var less := cs[..|cs| - 1];
    forall i | 0 <= i < |less| ensures Conflicts(rawText, less, earlier, i) <==> Conflicts(rawText, cs, chosen, i) {
      assert forall j | 0 <= j <= i :: less[j] == cs[j];
    }
  }

  lemma {:induction false} SameFacts(kind: Kind, rawText: Bytes, cs: seq<Candidate>, a: set<nat>, b: set<nat>)
    requires InText(rawText, cs) && forall i: nat | i < |cs| :: i in a <==> i in b
    requires forall i | i in a && i < |cs| :: cs[i].value.Some?
    ensures FactsOf(kind, rawText, cs, a) == FactsOf(kind, rawText, cs, b)
  {
    if cs != [] {
      SameFacts(kind, rawText, cs[..|cs| - 1], a, b);
    }
  }

  lemma BlockedIffConflicts(kind: Kind, rawText: Bytes, cs: seq<Candidate>, chosen: set<nat>)
    requires InText(rawText, cs) && cs != [] && forall i | i in chosen && i < |cs| :: cs[i].value.Some?
    ensures var n := |cs| - 1;
            Blocked(rawText, FactsOf(kind, rawText, cs[..n], chosen), cs[n]) <==> Conflicts(rawText, cs, chosen, n)
  {
    var n := |cs| - 1;
    var facts := FactsOf(kind, rawText, cs[..n], chosen);
    FactsOfMembers(kind, rawText, cs[..n], chosen);
    var a, b := ByteToRune(rawText, cs[n].start), ByteToRune(rawText, cs[n].end);
    if f :| f in facts && Overlap(a, b, f) {
      var j :| 0 <= j < n && j in chosen && MakeFact(kind, rawText, cs[..n][j]) == f;
      assert a < ByteToRune(rawText, cs[j].end) && b > ByteToRune(rawText, cs[j].start);
    }
    if j :| 0 <= j < n && j in chosen && a < ByteToRune(rawText, cs[j].end) && b > ByteToRune(rawText, cs[j].start) {
      var f := MakeFact(kind, rawText, cs[..n][j]);
      assert f in facts && Overlap(a, b, f);
    }
  }

  // ------------------------------------------------------------------
  // Identifiers
  // ------------------------------------------------------------------

  /** A match and the span of its value group. */
  datatype ValueMatch = ValueMatch(start: nat, end: nat, valueStart: nat, valueEnd: nat)

  ghost predicate GroupIn(rawText: Bytes, m: ValueMatch) {
    m.start <= m.end <= |rawText| && m.valueStart <= m.valueEnd <= |rawText|
  }

  function IdentifierCandidate(rawText: Bytes, m: ValueMatch, normalize: Bytes -> string): Candidate
    requires GroupIn(rawText, m)
  {
    Candidate(m.start, m.end, Some(normalize(rawText[m.valueStart..m.valueEnd])))
  }

  /** `collectIdentifierFacts`: a fact for every match, in order.  Matches of whole runes
      give facts that pass the write check. */
  method CollectIdentifierFacts(kind: Kind, rawText: Bytes, matches: seq<ValueMatch>, normalize: Bytes -> string) returns (facts: seq<Fact>)
    requires forall m | m in matches :: GroupIn(rawText, m)
    ensures |facts| == |matches|
    ensures forall i | 0 <= i < |matches| :: facts[i] == MakeFact(kind, rawText, IdentifierCandidate(rawText, matches[i], normalize))
    ensures forall i | 0 <= i < |matches| :: SaysMatch(kind, rawText, matches[i].start, matches[i].end, facts[i])
    ensures forall i | 0 <= i < |matches| ::
              GroupIn(rawText, matches[i]) && facts[i].value == normalize(rawText[matches[i].valueStart..matches[i].valueEnd])
    ensures (forall m | m in matches :: Aligned(rawText, IdentifierCandidate(rawText, m, normalize))) ==> AllPass(rawText, facts)
  {
    facts := [];
    for i := 0 to |matches|
      invariant |facts| == i
      invariant forall j | 0 <= j < i :: GroupIn(rawText, matches[j])
      invariant forall j | 0 <= j < i :: facts[j] == MakeFact(kind, rawText, IdentifierCandidate(rawText, matches[j], normalize))
      invariant forall j | 0 <= j < i :: SaysMatch(kind, rawText, matches[j].start, matches[j].end, facts[j])
      invariant forall j | 0 <= j < i :: facts[j].value == normalize(rawText[matches[j].valueStart..matches[j].valueEnd])
    {
      assert matches[i] in matches;
      MadeFactSays(kind, rawText, IdentifierCandidate(rawText, matches[i], normalize));
      facts := facts + [MakeFact(kind, rawText, IdentifierCandidate(rawText, matches[i], normalize))];
    }
    if forall m | m in matches :: Aligned(rawText, IdentifierCandidate(rawText, m, normalize)) {
      forall f | f in facts ensures WorkerVerify(rawText, f.excerpt, f.start, f.end) {
        var i :| 0 <= i < |facts| && facts[i] == f;
        AlignedFact(kind, rawText, IdentifierCandidate(rawText, matches[i], normalize));
      }
    }
  }

  // ------------------------------------------------------------------
  // Dates
  // ------------------------------------------------------------------

  datatype Match = Match(start: nat, end: nat)

  ghost predicate MatchesIn(rawText: Bytes, matches: seq<Match>) {
    forall m | m in matches :: m.start <= m.end <= |rawText|
  }

  /** Matches with what the normaliser makes of their text. */
  function Normalised(rawText: Bytes, matches: seq<Match>, normalize: Bytes -> Option<string>): (cs: seq<Candidate>)
    requires MatchesIn(rawText, matches)
    ensures |cs| == |matches| && InText(rawText, cs)
  {
    seq(|matches|, i requires 0 <= i < |matches| =>
      Candidate(matches[i].start, matches[i].end, normalize(SpanExcerpt(rawText, matches[i].start, matches[i].end))))
  }

  method AppendDateFacts(kind: Kind, rawText: Bytes, facts: seq<Fact>, matches: seq<Match>, normalize: Bytes -> Option<string>) returns (kept: seq<Fact>)
    requires MatchesIn(rawText, matches)
    ensures kept == Greedy(kind, rawText, facts, Normalised(rawText, matches, normalize))
  {
    kept := facts;
    ghost var cs := Normalised(rawText, matches, normalize);
    for i := 0 to |matches|
      invariant kept == Greedy(kind, rawText, facts, cs[..i])
    {
      assert cs[..i + 1][..i] == cs[..i];
      var m := matches[i];
      var excerpt := SpanExcerpt(rawText, m.start, m.end);
      var value := normalize(excerpt);
      if value.None? {
        continue;
      }
      var c := Candidate(m.start, m.end, value);
      var overlaps := OverlapsExistingFact(rawText, kept, c);
      if overlaps {
        continue;
      }
      kept := kept + [MakeFact(kind, rawText, c)];
    }
    assert cs[..|matches|] == cs;
  }

  /** The four patterns, in order of priority. */
  datatype DateMatches = DateMatches(rfc3339: seq<Match>, monthDayYear: seq<Match>, dayMonthYear: seq<Match>, iso: seq<Match>)

  datatype Normalisers = Normalisers(
    rfc3339: Bytes -> Option<string>,
    monthDayYear: Bytes -> Option<string>,
    dayMonthYear: Bytes -> Option<string>,
    iso: Bytes -> Option<string>)

  ghost predicate DatesIn(rawText: Bytes, m: DateMatches) {
    && MatchesIn(rawText, m.rfc3339) && MatchesIn(rawText, m.monthDayYear)
    && MatchesIn(rawText, m.dayMonthYear) && MatchesIn(rawText, m.iso)
  }

  function DateCandidates(rawText: Bytes, m: DateMatches, n: Normalisers): (cs: seq<Candidate>)
    requires DatesIn(rawText, m)
    ensures InText(rawText, cs)
  {
    Normalised(rawText, m.rfc3339, n.rfc3339) + Normalised(rawText, m.monthDayYear, n.monthDayYear) +
      Normalised(rawText, m.dayMonthYear, n.dayMonthYear) + Normalised(rawText, m.iso, n.iso)
  }

  method ExtractDates(subject: string, rawText: Bytes, m: DateMatches, n: Normalisers) returns (facts: seq<Fact>)
    requires DatesIn(rawText, m)
    ensures facts == Greedy(DateKind(subject), rawText, [], DateCandidates(rawText, m, n))
    ensures Disjoint(facts)
  {
    var kind := DateKind(subject);
    facts := AppendDateFacts(kind, rawText, [], m.rfc3339, n.rfc3339);
    facts := AppendDateFacts(kind, rawText, facts, m.monthDayYear, n.monthDayYear);
    facts := AppendDateFacts(kind, rawText, facts, m.dayMonthYear, n.dayMonthYear);
    facts := AppendDateFacts(kind, rawText, facts, m.iso, n.iso);
    var a, b, c, d := Normalised(rawText, m.rfc3339, n.rfc3339), Normalised(rawText, m.monthDayYear, n.monthDayYear),
      Normalised(rawText, m.dayMonthYear, n.dayMonthYear), Normalised(rawText, m.iso, n.iso);
    GreedyAppend(kind, rawText, [], a, b);
    GreedyAppend(kind, rawText, [], a + b, c);
    GreedyAppend(kind, rawText, [], a + b + c, d);
    GreedyDisjoint(kind, rawText, [], a + b + c + d);
  }

  function DateKind(subject: string): Kind {
    Kind(subject, "date", "date", "regex:dates-v1")
  }

  /** Date facts of aligned matches: all pass the write check, no two share a byte, and
      no other date that normalises could be added. */
  lemma DatesDisjointAndMaximal(subject: string, rawText: Bytes, m: DateMatches, n: Normalisers)
    requires DatesIn(rawText, m)
    requires forall c | c in DateCandidates(rawText, m, n) :: Aligned(rawText, c)
    ensures var facts := Greedy(DateKind(subject), rawText, [], DateCandidates(rawText, m, n));
            && AllPass(rawText, facts) && DisjointBytes(rawText, facts)
            && (forall c | c in DateCandidates(rawText, m, n) && c.value.Some? :: Blocked(rawText, facts, c))
  {
    GreedyGood(DateKind(subject), rawText, [], DateCandidates(rawText, m, n));
  }

  /** No two facts share a byte. */
  ghost predicate DisjointBytes(rawText: Bytes, facts: seq<Fact>) {
    forall i, j | 0 <= i < j < |facts| ::
      ByteEnd(rawText, facts[i]) <= ByteStart(rawText, facts[j]) || ByteEnd(rawText, facts[j]) <= ByteStart(rawText, facts[i])
  }

  lemma GreedyGood(kind: Kind, rawText: Bytes, earlier: seq<Fact>, cs: seq<Candidate>)
    requires InText(rawText, cs) && (forall c | c in cs :: Aligned(rawText, c)) && AllPass(rawText, earlier) && Disjoint(earlier)
    ensures var facts := Greedy(kind, rawText, earlier, cs);
            && AllPass(rawText, facts) && Disjoint(facts) && DisjointBytes(rawText, facts)
            && (forall c | c in cs && c.value.Some? :: Blocked(rawText, facts, c))
  {
    var facts := Greedy(kind, rawText, earlier, cs);
    GreedyPasses(kind, rawText, earlier, cs);
    GreedyDisjoint(kind, rawText, earlier, cs);
    DisjointInBytes(rawText, facts);
    forall c | c in cs && c.value.Some? ensures Blocked(rawText, facts, c) {
      NothingCanBeAdded(kind, rawText, earlier, cs, c);
    }
  }

  lemma DisjointInBytes(rawText: Bytes, facts: seq<Fact>)
    requires AllPass(rawText, facts)
    ensures Disjoint(facts) <==> DisjointBytes(rawText, facts)
  {
    forall i, j | 0 <= i < j < |facts|
      ensures Apart(facts[i], facts[j]) <==>
              ByteEnd(rawText, facts[i]) <= ByteStart(rawText, facts[j]) || ByteEnd(rawText, facts[j]) <= ByteStart(rawText, facts[i])
    {
      assert facts[i] in facts && facts[j] in facts;
      ApartInBytes(rawText, facts[i], facts[j]);
    }
  }

  // ------------------------------------------------------------------
  // What a date fact says, and which date wins
  // ------------------------------------------------------------------

  /** Pattern `p` of the four, in the order they are tried. */
  ghost function Pattern(m: DateMatches, p: nat): seq<Match> {
    if p == 0 then m.rfc3339 else if p == 1 then m.monthDayYear else if p == 2 then m.dayMonthYear else if p == 3 then m.iso else []
  }

  /** What the normaliser of pattern `p` makes of a text. */
  ghost function ValueOf(n: Normalisers, p: nat, text: Bytes): Option<string> {
    if p == 0 then n.rfc3339(text) else if p == 1 then n.monthDayYear(text) else if p == 2 then n.dayMonthYear(text) else n.iso(text)
  }

  /** The text of match `i` of pattern `p`. */
  ghost predicate HasText(rawText: Bytes, m: DateMatches, p: nat, i: nat, text: Bytes) {
    && i < |Pattern(m, p)| && Pattern(m, p)[i].start <= Pattern(m, p)[i].end <= |rawText|
    && text == rawText[Pattern(m, p)[i].start..Pattern(m, p)[i].end]
  }

  /** The fact of match `i` of pattern `p`: its value is what the pattern's normaliser says. */
  ghost predicate SaysDate(subject: string, rawText: Bytes, m: DateMatches, n: Normalisers, p: nat, i: nat, f: Fact) {
    && HasText(rawText, m, p, i, f.excerpt) && ValueOf(n, p, f.excerpt) == Some(f.value)
    && SaysMatch(Kind(subject, "date", "date", "regex:dates-v1"), rawText, Pattern(m, p)[i].start, Pattern(m, p)[i].end, f)
  }

  /** Match `j` of pattern `q` is tried before match `i` of pattern `p`. */
  ghost predicate Before(q: nat, j: nat, p: nat, i: nat) {
    q < p || (q == p && j < i)
  }

  /** How many matches are tried before those of pattern `p`. */
  ghost function Tried(m: DateMatches, p: nat): nat {
    (if p > 0 then |m.rfc3339| else 0) + (if p > 1 then |m.monthDayYear| else 0) + (if p > 2 then |m.dayMonthYear| else 0)
  }

  /** Candidate `x` is match `i` of pattern `p`. */
  ghost predicate IsMatch(rawText: Bytes, m: DateMatches, n: Normalisers, p: nat, i: nat, c: Candidate) {
    && i < |Pattern(m, p)| && c.start == Pattern(m, p)[i].start && c.end == Pattern(m, p)[i].end
    && c.start <= c.end <= |rawText| && c.value == ValueOf(n, p, rawText[c.start..c.end])
  }

  lemma NormalisedAt(rawText: Bytes, matches: seq<Match>, normalize: Bytes -> Option<string>, i: nat)
    requires MatchesIn(rawText, matches) && i < |matches|
    ensures var c := Normalised(rawText, matches, normalize)[i];
            && c.start == matches[i].start && c.end == matches[i].end && c.start <= c.end <= |rawText|
            && c.value == normalize(rawText[c.start..c.end])
  {
    assert matches[i] in matches;
    assert SpanExcerpt(rawText, matches[i].start, matches[i].end) == rawText[matches[i].start..matches[i].end];
  }

  lemma InPart(a: seq<Candidate>, b: seq<Candidate>, c: seq<Candidate>, d: seq<Candidate>, i: nat)
    ensures i < |a| ==> (a + b + c + d)[i] == a[i]
    ensures i < |b| ==> (a + b + c + d)[|a| + i] == b[i]
    ensures i < |c| ==> (a + b + c + d)[|a| + |b| + i] == c[i]
    ensures i < |d| ==> (a + b + c + d)[|a| + |b| + |c| + i] == d[i]
  {
  }

  lemma DateNumber(rawText: Bytes, m: DateMatches, n: Normalisers, p: nat, i: nat)
    requires DatesIn(rawText, m) && i < |Pattern(m, p)|
    ensures Tried(m, p) + i < |DateCandidates(rawText, m, n)|
    ensures IsMatch(rawText, m, n, p, i, DateCandidates(rawText, m, n)[Tried(m, p) + i])
  {
    InPart(Normalised(rawText, m.rfc3339, n.rfc3339), Normalised(rawText, m.monthDayYear, n.monthDayYear),
           Normalised(rawText, m.dayMonthYear, n.dayMonthYear), Normalised(rawText, m.iso, n.iso), i);
    if p == 0 {
      NormalisedAt(rawText, m.rfc3339, n.rfc3339, i);
    } else if p == 1 {
      NormalisedAt(rawText, m.monthDayYear, n.monthDayYear, i);
    } else if p == 2 {
      NormalisedAt(rawText, m.dayMonthYear, n.dayMonthYear, i);
    } else {
      NormalisedAt(rawText, m.iso, n.iso, i);
    }
  }

  lemma NumberOfDate(rawText: Bytes, m: DateMatches, n: Normalisers, x: nat) returns (p: nat, i: nat)
    requires DatesIn(rawText, m) && x < |DateCandidates(rawText, m, n)|
    ensures i < |Pattern(m, p)| && x == Tried(m, p) + i
  {
    p := if x < Tried(m, 1) then 0 else if x < Tried(m, 2) then 1 else if x < Tried(m, 3) then 2 else 3;
    i := x - Tried(m, p);
  }

  lemma EarlierNumber(m: DateMatches, q: nat, j: nat, p: nat, i: nat)
    requires j < |Pattern(m, q)| && i < |Pattern(m, p)| && Tried(m, q) + j < Tried(m, p) + i
    ensures Before(q, j, p, i)
  {
  }

  lemma {:induction false} GreedyFrom(kind: Kind, rawText: Bytes, facts: seq<Fact>, cs: seq<Candidate>, f: Fact) returns (x: nat)
    requires InText(rawText, cs) && f in Greedy(kind, rawText, facts, cs) && f !in facts
    ensures x < |cs| && cs[x].value.Some? && f == MakeFact(kind, rawText, cs[x])
  {
    var n := |cs| - 1;
    if f in Greedy(kind, rawText, facts, cs[..n]) {
      x := GreedyFrom(kind, rawText, facts, cs[..n], f);
    } else {
      x := n;
    }
  }

  lemma MatchFact(subject: string, rawText: Bytes, m: DateMatches, n: Normalisers, p: nat, i: nat, c: Candidate)
    requires IsMatch(rawText, m, n, p, i, c) && c.value.Some?
    ensures SaysDate(subject, rawText, m, n, p, i, MakeFact(DateKind(subject), rawText, c))
  {
    MadeFactSays(DateKind(subject), rawText, c);
  }

  /** Every date fact is that of a match. */
  lemma DateFactIsMatch(subject: string, rawText: Bytes, m: DateMatches, n: Normalisers, f: Fact) returns (p: nat, i: nat)
    requires DatesIn(rawText, m) && f in Greedy(DateKind(subject), rawText, [], DateCandidates(rawText, m, n))
    ensures SaysDate(subject, rawText, m, n, p, i, f)
  {
    var x := GreedyFrom(DateKind(subject), rawText, [], DateCandidates(rawText, m, n), f);
    p, i := NumberOfDate(rawText, m, n, x);
    DateNumber(rawText, m, n, p, i);
    MatchFact(subject, rawText, m, n, p, i, DateCandidates(rawText, m, n)[x]);
  }

  /** A match that normalises has its fact, or overlaps that of a match of an earlier pattern or
      an earlier match of its own. */
  lemma EarlierDateWins(subject: string, rawText: Bytes, m: DateMatches, n: Normalisers, p: nat, i: nat, text: Bytes)
    returns (f: Fact, q: nat, j: nat)
    requires DatesIn(rawText, m) && HasText(rawText, m, p, i, text) && ValueOf(n, p, text).Some?
    ensures f in Greedy(DateKind(subject), rawText, [], DateCandidates(rawText, m, n)) && SaysDate(subject, rawText, m, n, q, j, f)
    ensures (q == p && j == i) || (Before(q, j, p, i) &&
              RuneCount(rawText[..Pattern(m, p)[i].start]) < f.end && RuneCount(rawText[..Pattern(m, p)[i].end]) > f.start)
  {
    var cs, kind, x := DateCandidates(rawText, m, n), DateKind(subject), Tried(m, p) + i;
    DateNumber(rawText, m, n, p, i);
    GreedyMaximal(kind, rawText, [], cs, x);
    var before := Greedy(kind, rawText, [], cs[..x]);
    if Blocked(rawText, before, cs[x]) {
      f :| f in before && Overlap(ByteToRune(rawText, cs[x].start), ByteToRune(rawText, cs[x].end), f);
      var y := GreedyFrom(kind, rawText, [], cs[..x], f);
      q, j := NumberOfDate(rawText, m, n, y);
      DateNumber(rawText, m, n, q, j);
      EarlierNumber(m, q, j, p, i);
      MatchFact(subject, rawText, m, n, q, j, cs[y]);
      InLonger(before, Greedy(kind, rawText, [], cs), f);
      RunesInFront(rawText, cs[x].start);
      RunesInFront(rawText, cs[x].end);
    } else {
      f, q, j := MakeFact(kind, rawText, cs[x]), p, i;
      MatchFact(subject, rawText, m, n, p, i, cs[x]);
      assert (before + [f])[|before|] == f;
      InLonger(before + [f], Greedy(kind, rawText, [], cs), f);
    }
  }

  lemma InLonger(a: seq<Fact>, b: seq<Fact>, f: Fact)
    requires a <= b && f in a
    ensures f in b
  {
  }

  lemma RunesInFront(s: Bytes, b: nat)
    requires b <= |s|
    ensures ByteToRune(s, b) == RuneCount(s[..b])
  {
    assert s[..0] == [] && s[..|s|] == s;
  }
}
