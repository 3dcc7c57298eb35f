/**
 Excerpt offsets: the two directions of rune/byte arithmetic, the two excerpt
 checks built on them, and the facts the deterministic extractors cut out of a text.
 */
module Excerpt {
  import opened Utf8
  import opened Order
  import opened Wrappers

  /** What `runeOffsetToByteOffset` finds: a position for 0..runeCount, nothing outside. */
  function RuneToByte(s: Bytes, runeOffset: int): Option<nat> {
    if 0 <= runeOffset <= RuneCount(s) then Some(ByteOffset(s, runeOffset)) else None
  }

  /** The `range` loop both packages carry. */
  method RuneOffsetToByteOffset(s: Bytes, runeOffset: int) returns (byteOffset: nat, ok: bool)
    ensures ok <==> RuneToByte(s, runeOffset).Some?
    ensures byteOffset == if ok then RuneToByte(s, runeOffset).value else 0
  {
    if runeOffset == 0 {
      return 0, true;
    }
    if runeOffset < 0 {
      return 0, false;
    }
    var index := 0;
    var pos := 0;
    while pos < |s|
      invariant pos <= |s| && index <= runeOffset
      invariant index <= RuneCount(s) && pos == ByteOffset(s, index)
      decreases |s| - pos
    {
      if index == runeOffset {
        return pos, true;
      }
      EndsAtLastRune(s, index);
      NextRune(s, index);
      pos := pos + Width(s[pos..]);
      index := index + 1;
    }
    EndsAtLastRune(s, index);
    if index == runeOffset {
      return |s|, true;
    }
    return 0, false;
  }

  /** The end of the string is the position behind the last rune and no other. */
  lemma EndsAtLastRune(s: Bytes, k: nat)
    requires k <= RuneCount(s)
    ensures ByteOffset(s, k) == |s| <==> k == RuneCount(s)
  {
    EndOffset(s);
    if k < RuneCount(s) {
      ByteOffsetMonotone(s, k, RuneCount(s));
    }
  }

  /** The next rune starts right behind the current one. */
  lemma NextRune(s: Bytes, k: nat)
    requires k < RuneCount(s)
    ensures ByteOffset(s, k) < |s|
    ensures ByteOffset(s, k + 1) == ByteOffset(s, k) + Width(s[ByteOffset(s, k)..])
  {
    NextRuneBehind(s, k);
    BehindIsSuffix(s, k);
  }

  lemma {:induction false} NextRuneBehind(s: Bytes, k: nat)
    requires k < RuneCount(s)
    ensures Behind(s, k) != [] && ByteOffset(s, k + 1) == ByteOffset(s, k) + Width(Behind(s, k))
  {
    if k != 0 {
      NextRuneBehind(s[Width(s)..], k - 1);
    }
  }

  /** `byteOffsetToCharOffset`: the number of runes in front of a byte position. */
  function ByteToRune(s: Bytes, offset: int): nat {
    if offset <= 0 then 0
    else if offset >= |s| then RuneCount(s)
    else RuneCount(s[..offset])
  }

  /** From runes to bytes and back is the identity, for every string, valid or not. */
  lemma RuneByteRune(s: Bytes, k: nat)
    requires k <= |Decode(s)|
    ensures ByteToRune(s, RuneToByte(s, k).value) == k
  {
    var b := ByteOffset(s, k);
    SplitAtRune(s, k);
    EndOffset(s);
    if k < |Decode(s)| {
      ByteOffsetMonotone(s, k, |Decode(s)|);
    }
    if 0 < k {
      ByteOffsetMonotone(s, 0, k);
    }
  }

  /** From bytes to runes and back is the identity exactly on the rune boundaries. */
  lemma ByteRuneByte(s: Bytes, b: nat)
    requires b <= |s|
    ensures Boundary(s, b) <==> RuneToByte(s, ByteToRune(s, b)) == Some(b)
  {
    EndOffset(s);
    if Boundary(s, b) {
      BoundaryIsRunePosition(s, b);
      assert s[..|s|] == s;
    }
    if RuneToByte(s, ByteToRune(s, b)) == Some(b) {
      SplitAtRune(s, ByteToRune(s, b));
    }
  }

  /** On boundaries the rune offset grows strictly with the byte offset, both ways. */
  lemma ByteToRuneMonotone(s: Bytes, a: nat, b: nat)
    requires a <= |s| && b <= |s| && Boundary(s, a) && Boundary(s, b)
    ensures a < b <==> ByteToRune(s, a) < ByteToRune(s, b)
  {
    ByteRuneByte(s, a);
    ByteRuneByte(s, b);
    var i, j := ByteToRune(s, a), ByteToRune(s, b);
    if i < j {
      ByteOffsetMonotone(s, i, j);
    } else if j < i {
      ByteOffsetMonotone(s, j, i);
    }
  }

  /** Off the boundaries the conversion is not even monotone: inside U+10000 the
      broken prefix counts as three runes, behind it as one. */
  lemma MisalignedOffsetOvershoots()
    ensures var s: Bytes := [0xF0, 0x90, 0x80, 0x80, 0x61];
            ByteToRune(s, 3) == 3 && ByteToRune(s, 4) == 1 && !Boundary(s, 3) && Boundary(s, 4)
  {
    var s: Bytes := [0xF0, 0x90, 0x80, 0x80, 0x61];
    assert s[..3] == [0xF0, 0x90, 0x80];
    assert s[..3][1..] == [0x90, 0x80] && s[..3][1..][1..] == [0x80];
    assert Decode([0x80]) == [RUNE_ERROR];
    assert Decode([0x90, 0x80]) == [RUNE_ERROR, RUNE_ERROR];
    assert Width(s) == 4;
    assert s[..4][4..] == [];
    assert |Decode(s[..4])| == 1;
  }

  // ------------------------------------------------------------------
  // The excerpt checks
  // ------------------------------------------------------------------

  /** The check in front of every write (internal/workers). */
  predicate WorkerVerify(rawText: Bytes, excerpt: Bytes, start: int, end: int) {
    if start < 0 || end < 0 || start >= end then false
    else
      match RuneToByte(rawText, start)
      case None => false
      case Some(startByte) =>
        match RuneToByte(rawText, end)
        case None => false
        case Some(endByte) =>
          if startByte > endByte || endByte > |rawText| then false
          else rawText[startByte..endByte] == excerpt
  }

  /** The filter on LLM proposals (internal/extractors). */
  predicate ExtractorVerify(rawText: Bytes, excerpt: Bytes, start: int, end: int) {
    if start < 0 || end < start then false
    else
      match RuneToByte(rawText, start)
      case None => false
      case Some(startByte) =>
        match RuneToByte(rawText, end)
        case None => false
        case Some(endByte) =>
          if startByte > endByte || endByte > |rawText| then false
          else rawText[startByte..endByte] == excerpt
  }

  /** What the worker's check means: some non-empty range of whole runes of the text is the
      excerpt, and the offsets count the runes in front of its two ends. */
  lemma WorkerVerifyMeans(rawText: Bytes, excerpt: Bytes, start: int, end: int)
    ensures WorkerVerify(rawText, excerpt, start, end) <==>
            exists a, b :: CutsOut(rawText, excerpt, start, end, a, b)
  {
    if WorkerVerify(rawText, excerpt, start, end) {
      AcceptedCutsOut(rawText, excerpt, start, end);
    }
    if a, b :| CutsOut(rawText, excerpt, start, end, a, b) {
      PositionOf(rawText, start, a);
      PositionOf(rawText, end, b);
      if end < start { ByteOffsetMonotone(rawText, end, start); }
    }
  }

  /** The bytes from `a` to `b` are the excerpt, `start` runes stand in front of `a` and
      `end` in front of `b`. */
  ghost predicate CutsOut(rawText: Bytes, excerpt: Bytes, start: int, end: int, a: nat, b: nat) {
    && a < b <= |rawText| && rawText[a..b] == excerpt
    && RunePosition(rawText, start, a) && RunePosition(rawText, end, b)
  }

  ghost predicate RunePosition(s: Bytes, k: int, b: nat)
    requires b <= |s|
  {
    Boundary(s, b) && RuneCount(s[..b]) == k
  }

  lemma PositionOf(s: Bytes, k: int, b: nat)
    requires b <= |s|
    ensures RunePosition(s, k, b) <==> RuneToByte(s, k) == Some(b)
  {
    if RunePosition(s, k, b) {
      BoundaryIsRunePosition(s, b);
    }
    if RuneToByte(s, k) == Some(b) {
      SplitAtRune(s, k);
    }
  }

  lemma AcceptedCutsOut(rawText: Bytes, excerpt: Bytes, start: int, end: int)
    requires WorkerVerify(rawText, excerpt, start, end)
    ensures exists a, b :: CutsOut(rawText, excerpt, start, end, a, b)
  {
    var a, b := ByteOffset(rawText, start), ByteOffset(rawText, end);
    ByteOffsetMonotone(rawText, start, end);
    PositionOf(rawText, start, a);
    PositionOf(rawText, end, b);
    assert CutsOut(rawText, excerpt, start, end, a, b);
  }

  /** On valid text the check is equality of runes: the text between the two rune
      offsets, counted as a database counts characters, is the excerpt. */
  lemma WorkerVerifyIsSubstring(rawText: Bytes, excerpt: Bytes, start: int, end: int)
    requires Valid(rawText)
    ensures WorkerVerify(rawText, excerpt, start, end) <==>
            0 <= start < end <= |Decode(rawText)| && Valid(excerpt) && Decode(excerpt) == Decode(rawText)[start..end]
  {
    if 0 <= start < end <= |Decode(rawText)| {
      SliceDecodes(rawText, start, end);
      ValidSlice(rawText, start, end);
      EncodeDecode(excerpt);
      EncodeDecode(rawText[ByteOffset(rawText, start)..ByteOffset(rawText, end)]);
    }
  }

  /** For any text an accepted excerpt reads as exactly the runes between its offsets. */
  lemma AcceptedExcerptReads(rawText: Bytes, excerpt: Bytes, start: int, end: int)
    requires WorkerVerify(rawText, excerpt, start, end)
    ensures 0 <= start < end <= |Decode(rawText)| && Decode(excerpt) == Decode(rawText)[start..end]
    ensures excerpt != []
  {
    SliceDecodes(rawText, start, end);
  }

  /** The two checks differ only on empty ranges. */
  lemma WorkerIsExtractorAndNonempty(rawText: Bytes, excerpt: Bytes, start: int, end: int)
    ensures WorkerVerify(rawText, excerpt, start, end) <==>
            ExtractorVerify(rawText, excerpt, start, end) && start < end
    ensures ExtractorVerify(rawText, excerpt, start, end) && !WorkerVerify(rawText, excerpt, start, end) <==>
            0 <= start == end <= |Decode(rawText)| && excerpt == []
  {
    if 0 <= start < end <= |Decode(rawText)| {
      ByteOffsetMonotone(rawText, start, end);
    }
  }

  method VerifyExcerptOffset(rawText: Bytes, excerpt: Bytes, start: int, end: int) returns (accepted: bool)
    ensures accepted <==> WorkerVerify(rawText, excerpt, start, end)
  {
    if start < 0 || end < 0 || start >= end {
      return false;
    }
    var startByte, ok := RuneOffsetToByteOffset(rawText, start);
    if !ok {
      return false;
    }
    var endByte;
    endByte, ok := RuneOffsetToByteOffset(rawText, end);
    if !ok || startByte > endByte || endByte > |rawText| {
      return false;
    }
    return rawText[startByte..endByte] == excerpt;
  }

  method VerifyProposalOffset(rawText: Bytes, excerpt: Bytes, start: int, end: int) returns (accepted: bool)
    ensures accepted <==> ExtractorVerify(rawText, excerpt, start, end)
  {
    if start < 0 || end < start {
      return false;
    }
    var startByte, ok := RuneOffsetToByteOffset(rawText, start);
    if !ok {
      return false;
    }
    var endByte;
    endByte, ok := RuneOffsetToByteOffset(rawText, end);
    if !ok {
      return false;
    }
    if startByte > endByte || endByte > |rawText| {
      return false;
    }
    return rawText[startByte..endByte] == excerpt;
  }

  // ------------------------------------------------------------------
  // Facts
  // ------------------------------------------------------------------

  /** The part of an extracted fact the write path looks at. */
  datatype Fact = Fact(
    subject: string,
    slug: string,
    value: string,
    valueType: string,
    excerpt: Bytes,
    start: int,
    end: int,
    extractionMethod: string,
    confidence: Option<real>)

  /** `FilterVerifiedStatementProposals` on a list of proposals. */
  ghost predicate Passing(rawText: Bytes, f: Fact) {
    ExtractorVerify(rawText, f.excerpt, f.start, f.end)
  }

  ghost function Kept(rawText: Bytes, proposals: seq<Fact>): seq<Fact> {
    if proposals == [] then []
    else
      var n := |proposals| - 1;
      Kept(rawText, proposals[..n]) + if Passing(rawText, proposals[n]) then [proposals[n]] else []
  }

  /** The positions of the proposals that pass. */
  ghost predicate ListsPassing(rawText: Bytes, proposals: seq<Fact>, ps: seq<nat>) {
    Ascends(ps) && forall p: nat :: p in ps <==> p < |proposals| && Passing(rawText, proposals[p])
  }

  ghost predicate FactsAt(proposals: seq<Fact>, ps: seq<nat>, facts: seq<Fact>) {
    |facts| == |ps| && forall j | 0 <= j < |ps| :: ps[j] < |proposals| && facts[j] == proposals[ps[j]]
  }

  lemma PassingStep(rawText: Bytes, proposals: seq<Fact>, ps: seq<nat>)
    requires proposals != [] && ListsPassing(rawText, proposals[..|proposals| - 1], ps)
    ensures ListsPassing(rawText, proposals, if Passing(rawText, proposals[|proposals| - 1]) then ps + [|proposals| - 1] else ps)
  {
    var n := |proposals| - 1;
    assert forall p | 0 <= p < n :: proposals[..n][p] == proposals[p];
    assert forall j | 0 <= j < |ps| :: ps[j] in ps;
  }

  lemma FactsAtStep(proposals: seq<Fact>, ps: seq<nat>, facts: seq<Fact>)
    requires proposals != [] && FactsAt(proposals[..|proposals| - 1], ps, facts)
    ensures FactsAt(proposals, ps, facts) && FactsAt(proposals, ps + [|proposals| - 1], facts + [proposals[|proposals| - 1]])
  {
  }

  /** The proposals kept are those that pass, in the order in which they came. */
  lemma {:induction false} KeptInOrder(rawText: Bytes, proposals: seq<Fact>) returns (ps: seq<nat>)
    ensures ListsPassing(rawText, proposals, ps) && FactsAt(proposals, ps, Kept(rawText, proposals))
  {
    if proposals == [] {
      ps := [];
    } else {
      var n := |proposals| - 1;
      ps := KeptInOrder(rawText, proposals[..n]);
      PassingStep(rawText, proposals, ps);
      FactsAtStep(proposals, ps, Kept(rawText, proposals[..n]));
      if Passing(rawText, proposals[n]) { ps := ps + [n]; }
    }
  }

  method FilterVerifiedStatementProposals(rawText: Bytes, proposals: seq<Fact>) returns (out: seq<Fact>)
    ensures out == Kept(rawText, proposals)
    ensures forall f :: f in out <==> f in proposals && Passing(rawText, f)
  {
    out := [];
    for i := 0 to |proposals|
      invariant out == Kept(rawText, proposals[..i])
      invariant forall f :: f in out <==> f in proposals[..i] && Passing(rawText, f)
    {
      var p := proposals[i];
      assert proposals[..i + 1][..i] == proposals[..i];
      var ok := VerifyProposalOffset(rawText, p.excerpt, p.start, p.end);
      if ok {
        out := out + [p];
      }
    }
    assert proposals[..|proposals|] == proposals;
  }

  /** Excerpt and offsets as `collectIdentifierFacts`, the money and the date extractor
      compute them from a byte span of the text. */
  function SpanExcerpt(rawText: Bytes, a: nat, b: nat): Bytes
    requires a <= b <= |rawText|
  {
    rawText[a..b]
  }

  predicate SpanAccepted(rawText: Bytes, a: nat, b: nat)
    requires a <= b <= |rawText|
  {
    WorkerVerify(rawText, SpanExcerpt(rawText, a, b), ByteToRune(rawText, a), ByteToRune(rawText, b))
  }

  /** A fact built from a non-empty span of whole runes always passes the write check,
      invalid bytes in the text notwithstanding. */
  lemma AlignedSpanAccepted(rawText: Bytes, a: nat, b: nat)
    requires a < b <= |rawText| && Boundary(rawText, a) && Boundary(rawText, b)
    ensures SpanAccepted(rawText, a, b)
  {
    ByteRuneByte(rawText, a);
    ByteRuneByte(rawText, b);
    ByteToRuneMonotone(rawText, a, b);
  }

  /** On valid text, which archived text always is, whole runes are also necessary:
      the check accepts a span exactly when it is non-empty and starts and ends on
      rune boundaries. */
  lemma SpanAcceptedIffAligned(rawText: Bytes, a: nat, b: nat)
    requires Valid(rawText) && a <= b <= |rawText|
    ensures SpanAccepted(rawText, a, b) <==> a < b && Boundary(rawText, a) && Boundary(rawText, b)
  {
    EndOffset(rawText);
    if a < b && Boundary(rawText, a) && Boundary(rawText, b) {
      AlignedSpanAccepted(rawText, a, b);
    }
    if SpanAccepted(rawText, a, b) {
      var i, j := ByteToRune(rawText, a), ByteToRune(rawText, b);
      var a', b' := ByteOffset(rawText, i), ByteOffset(rawText, j);
      ByteOffsetMonotone(rawText, i, j);
      SplitAtRune(rawText, i);
      SplitAtRune(rawText, j);
      assert rawText[a'..b'] == rawText[a..b];
      assert rawText[a'] == rawText[a'..b'][0] == rawText[a..b][0] == rawText[a];
      BoundariesOfValid(rawText, a');
      BoundariesOfValid(rawText, a);
      ByteRuneByte(rawText, a);
      assert a' == a && b' == b;
    }
  }
}
