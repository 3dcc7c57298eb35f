/**
 What survives of a page, said over positions of the page: which runes are left, and which
 tags keep words apart.
 */
module Page {
  import opened Utf8
  import opened Text
  import opened StripHtml
  import opened Order

  // ------------------------------------------------------------------
  // Positions
  // ------------------------------------------------------------------

  ghost predicate Bracket(c: char) {
    c == '<' || c == '>'
  }

  /** At position `i` no tag is open: the last bracket in front of it is `>`, or there is none
      and none was open before the text. */
  ghost predicate Outside(text: string, open: bool, i: nat)
    requires i <= |text|
  {
    || (!open && forall k | 0 <= k < i :: !Bracket(text[k]))
    || (exists k | 0 <= k < i :: text[k] == '>' && forall j | k < j < i :: !Bracket(text[j]))
  }

  ghost predicate ShownAt(text: string, open: bool, i: nat) {
    i < |text| && !Bracket(text[i]) && Outside(text, open, i)
  }

  /** The runes of the text at these positions. */
  ghost function Pick(text: string, ps: seq<nat>): string
    requires forall p | p in ps :: p < |text|
  {
    seq(|ps|, j requires 0 <= j < |ps| => assert ps[j] in ps; text[ps[j]])
  }

  /** All positions that show, ascending. */
  ghost predicate ListsShown(text: string, open: bool, ps: seq<nat>) {
    Ascends(ps) && forall i: nat :: i in ps <==> ShownAt(text, open, i)
  }

  lemma OutsideBehind(text: string, open: bool, i: nat)
    requires text != "" && i <= |text| - 1
    ensures Outside(text, open, i + 1) <==> Outside(text[1..], InTag(text[0], open), i)
  {
    var rest, state := text[1..], InTag(text[0], open);
    assert forall k | 0 <= k < i :: rest[k] == text[k + 1];
    if !open && forall k | 0 <= k < i + 1 :: !Bracket(text[k]) {
      assert !state;
    }
    if k :| 0 <= k < i + 1 && text[k] == '>' && forall j | k < j < i + 1 :: !Bracket(text[j]) {
      if k > 0 {
        assert rest[k - 1] == '>' && forall j | k - 1 < j < i :: !Bracket(rest[j]);
      } else {
        assert !state && forall j | 0 <= j < i :: !Bracket(rest[j]);
      }
    }
    if !state && forall k | 0 <= k < i :: !Bracket(rest[k]) {
      NothingBehindFirst(text, open, i);
    }
    if k :| 0 <= k < i && rest[k] == '>' && forall j | k < j < i :: !Bracket(rest[j]) {
      assert text[k + 1] == '>' && forall j | k + 1 < j < i + 1 :: !Bracket(text[j]) by {
        forall j | k + 1 < j < i + 1 ensures !Bracket(text[j]) { assert text[j] == rest[j - 1]; }
      }
    }
  }

  lemma NothingBehindFirst(text: string, open: bool, i: nat)
    requires text != "" && i <= |text| - 1 && !InTag(text[0], open) && forall k | 0 <= k < i :: !Bracket(text[1..][k])
    ensures Outside(text, open, i + 1)
  {
    forall j | 0 < j < i + 1 ensures !Bracket(text[j]) { assert text[j] == text[1..][j - 1]; }
    if text[0] == '>' {
      assert text[0] == '>' && forall j | 0 < j < i + 1 :: !Bracket(text[j]);
    }
  }

  ghost function Shifted(ps: seq<nat>): (r: seq<nat>)
    ensures |r| == |ps| && forall j | 0 <= j < |ps| :: r[j] == ps[j] + 1
  {
    seq(|ps|, j requires 0 <= j < |ps| => ps[j] + 1)
  }

  lemma ShiftedShown(text: string, open: bool, ps: seq<nat>)
    requires text != "" && ListsShown(text[1..], InTag(text[0], open), ps)
    ensures ListsShown(text, open, if ShownAt(text, open, 0) then [0] + Shifted(ps) else Shifted(ps))
  {
    var all := if ShownAt(text, open, 0) then [0] + Shifted(ps) else Shifted(ps);
    forall i: nat ensures i in all <==> ShownAt(text, open, i) {
      if i > 0 {
        ShownBehind(text, open, i - 1);
        if i in all { InShifted(ps, i); }
        if i - 1 in ps { InShifted(ps, i); }
      } else {
        if i in Shifted(ps) { InShifted(ps, i); }
      }
    }
  }

  lemma InShifted(ps: seq<nat>, i: nat)
    ensures i in Shifted(ps) <==> i > 0 && i - 1 in ps
  {
    if i in Shifted(ps) {
      var j :| 0 <= j < |ps| && Shifted(ps)[j] == i;
      assert ps[j] in ps;
    }
    if i > 0 && i - 1 in ps {
      var j :| 0 <= j < |ps| && ps[j] == i - 1;
      assert Shifted(ps)[j] == i;
    }
  }

  lemma ShownBehind(text: string, open: bool, i: nat)
    requires text != ""
    ensures ShownAt(text, open, i + 1) <==> ShownAt(text[1..], InTag(text[0], open), i)
  {
    if i < |text| - 1 { OutsideBehind(text, open, i); }
  }

  lemma PickShifted(text: string, ps: seq<nat>)
    requires text != "" && forall p | p in ps :: p < |text| - 1
    ensures forall p | p in Shifted(ps) :: p < |text|
    ensures Pick(text, Shifted(ps)) == Pick(text[1..], ps)
  {
    forall p | p in Shifted(ps) ensures p < |text| { InShifted(ps, p); }
    forall j | 0 <= j < |ps| ensures Pick(text, Shifted(ps))[j] == Pick(text[1..], ps)[j] {
      assert ps[j] in ps;
    }
  }

  /** The flag loop lets through exactly the runes at the positions outside tags. */
  lemma {:induction false} OutsideIsShown(text: string, open: bool) returns (ps: seq<nat>)
    ensures ListsShown(text, open, ps) && OutsideTags(text, open) == Pick(text, ps)
  {
    if text == "" {
      ps := [];
    } else {
      var rest := OutsideIsShown(text[1..], InTag(text[0], open));
      assert forall p | p in rest :: ShownAt(text[1..], InTag(text[0], open), p);
      ShiftedShown(text, open, rest);
      PickShifted(text, rest);
      FirstShown(text, open);
      ps := if ShownAt(text, open, 0) then [0] + Shifted(rest) else Shifted(rest);
      if ShownAt(text, open, 0) { PickFirst(text, Shifted(rest)); }
    }
  }

  lemma FirstShown(text: string, open: bool)
    requires text != ""
    ensures Shown(text[0], open) == if ShownAt(text, open, 0) then [text[0]] else ""
  {
  }

  lemma PickFirst(text: string, ps: seq<nat>)
    requires text != "" && forall p | p in ps :: p < |text|
    ensures Pick(text, [0] + ps) == [text[0]] + Pick(text, ps)
  {
    forall j | 0 <= j < |ps| + 1 ensures Pick(text, [0] + ps)[j] == ([text[0]] + Pick(text, ps))[j] {
      assert j > 0 ==> ([0] + ps)[j] == ps[j - 1] && ps[j - 1] in ps;
    }
  }

  // ------------------------------------------------------------------
  // The stripped text
  // ------------------------------------------------------------------

  /** The page after the replacement of tags by line breaks. */
  function Broken(html: Bytes): Bytes {
    Replaced(html, Breaks(), 5)
  }

  /** The words of the stripped text are the words of what stands outside tags on the page. */
  lemma StripKeepsWords(html: Bytes) returns (ps: seq<nat>)
    ensures ListsShown(Decode(Broken(html)), false, ps)
    ensures Decode(StripHTML(html)) == Join(Fields(Pick(Decode(Broken(html)), ps)))
  {
    ps := OutsideIsShown(Decode(Broken(html)), false);
    StripDecodes(html);
    VisibleIsOutside(html);
  }

  lemma VisibleIsOutside(html: Bytes)
    ensures Visible(html, Breaks()) == OutsideTags(Decode(Broken(html)), false)
  {
  }

  lemma StripDecodes(html: Bytes)
    ensures Decode(StripHTML(html)) == Join(Fields(Visible(html, Breaks())))
  {
    var joined := Join(Fields(Visible(html, Breaks())));
    JoinNormalized(Fields(Visible(html, Breaks())));
    TrimNormalized(joined);
    DecodeEncode(joined);
  }

  ghost predicate ListsWordRunes(text: string, ps: seq<nat>) {
    Ascends(ps) && forall i: nat :: i in ps <==> i < |text| && !IsSpace(text[i])
  }

  ghost predicate ListsShownWordRunes(text: string, ps: seq<nat>) {
    Ascends(ps) && forall i: nat :: i in ps <==> ShownAt(text, false, i) && !IsSpace(text[i])
  }

  lemma {:induction false} NonSpacePositions(s: string) returns (ps: seq<nat>)
    ensures ListsWordRunes(s, ps) && NonSpace(s) == Pick(s, ps)
  {
    if s == "" {
      ps := [];
    } else {
      var rest := NonSpacePositions(s[1..]);
      WordRunesStep(s, rest);
      PickShifted(s, rest);
      ps := if IsSpace(s[0]) then Shifted(rest) else [0] + Shifted(rest);
      if !IsSpace(s[0]) { PickFirst(s, Shifted(rest)); }
    }
  }

  lemma WordRunesStep(s: string, rest: seq<nat>)
    requires s != "" && ListsWordRunes(s[1..], rest)
    ensures ListsWordRunes(s, if IsSpace(s[0]) then Shifted(rest) else [0] + Shifted(rest))
  {
    var ps := if IsSpace(s[0]) then Shifted(rest) else [0] + Shifted(rest);
    forall i: nat ensures i in ps <==> i < |s| && !IsSpace(s[i]) {
      InShifted(rest, i);
    }
  }

  /** Picking from what was picked. */
  ghost function Through(ps: seq<nat>, qs: seq<nat>): (r: seq<nat>)
    requires forall q | q in qs :: q < |ps|
  {
    seq(|qs|, j requires 0 <= j < |qs| => assert qs[j] in qs; ps[qs[j]])
  }

  lemma PickThrough(text: string, ps: seq<nat>, qs: seq<nat>)
    requires (forall p | p in ps :: p < |text|) && forall q | q in qs :: q < |ps|
    ensures forall p | p in Through(ps, qs) :: p < |text|
    ensures Pick(Pick(text, ps), qs) == Pick(text, Through(ps, qs))
  {
    forall p | p in Through(ps, qs) ensures p < |text| {
      var j :| 0 <= j < |qs| && Through(ps, qs)[j] == p;
      assert qs[j] in qs && ps[qs[j]] in ps;
    }
    forall j | 0 <= j < |qs| ensures Pick(Pick(text, ps), qs)[j] == Pick(text, Through(ps, qs))[j] {
      assert qs[j] in qs;
    }
  }

  lemma ThroughLists(text: string, ps: seq<nat>, qs: seq<nat>)
    requires ListsShown(text, false, ps) && ListsWordRunes(Pick(text, ps), qs)
    ensures ListsShownWordRunes(text, Through(ps, qs))
  {
    var r := Through(ps, qs);
    forall i, j | 0 <= i < j < |r| ensures r[i] < r[j] {
      assert qs[i] in qs && qs[j] in qs;
    }
    forall i: nat ensures i in r <==> ShownAt(text, false, i) && !IsSpace(text[i]) {
      if i in r {
        var j :| 0 <= j < |r| && r[j] == i;
        assert qs[j] in qs && ps[qs[j]] in ps;
      }
      if ShownAt(text, false, i) && !IsSpace(text[i]) {
        var k :| 0 <= k < |ps| && ps[k] == i;
        assert k in qs;
        var j :| 0 <= j < |qs| && qs[j] == k;
        assert r[j] == i;
      }
    }
  }

  /** Rune for rune: the runes of the stripped text that are no space are those of the page, no
      space and no bracket, at the positions where no tag is open. */
  lemma StripKeepsRunes(html: Bytes) returns (ps: seq<nat>, qs: seq<nat>)
    ensures ListsShownWordRunes(Decode(Broken(html)), ps) && ListsWordRunes(Decode(StripHTML(html)), qs)
    ensures Pick(Decode(StripHTML(html)), qs) == Pick(Decode(Broken(html)), ps)
  {
    var text := Decode(Broken(html));
    var shown := OutsideIsShown(text, false);
    var kept := NonSpacePositions(Pick(text, shown));
    qs := NonSpacePositions(Decode(StripHTML(html)));
    ps := Through(shown, kept);
    PickThrough(text, shown, kept);
    ThroughLists(text, shown, kept);
    StrippedShape(html);
  }

  // ------------------------------------------------------------------
  // Tags that break lines
  // ------------------------------------------------------------------

  const NL: Bytes := [0x0A]

  /** One tag: `<` in front, `>` at the end, no bracket and no line break in between. */
  ghost predicate OneTag(p: Bytes) {
    && |p| >= 2 && p[0] == 0x3C && p[|p| - 1] == 0x3E
    && forall i | 0 < i < |p| - 1 :: p[i] != 0x3C && p[i] != 0x3E && p[i] != 0x0A
  }

  /** Nothing is found across a byte that no pattern goes on with. */
  lemma {:induction false} ReplaceSplit(a: Bytes, b: Bytes, p: Bytes, q: Bytes)
    requires p != [] && (b != [] ==> forall i | 0 < i < |p| :: p[i] != b[0])
    ensures ReplaceAll(a + b, p, q) == ReplaceAll(a, p, q) + ReplaceAll(b, p, q)
    decreases |a|
  {
    if a == [] {
      assert a + b == b;
    } else if HasPrefix(a, p) {
      assert (a + b)[..|p|] == a[..|p|] && (a + b)[|p|..] == a[|p|..] + b;
      ReplaceSplit(a[|p|..], b, p, q);
    } else {
      NoPrefixAcross(a, b, p);
      assert (a + b)[1..] == a[1..] + b;
      ReplaceSplit(a[1..], b, p, q);
    }
  }

  lemma PrefixBytes(s: Bytes, p: Bytes)
    ensures HasPrefix(s, p) <==> |p| <= |s| && forall i | 0 <= i < |p| :: s[i] == p[i]
  {
    if |p| <= |s| {
      assert forall i | 0 <= i < |p| :: s[..|p|][i] == s[i];
    }
  }

  lemma NoPrefixAcross(a: Bytes, b: Bytes, p: Bytes)
    requires a != [] && p != [] && !HasPrefix(a, p) && (b != [] ==> forall i | 0 < i < |p| :: p[i] != b[0])
    ensures !HasPrefix(a + b, p)
  {
    PrefixBytes(a, p);
    PrefixBytes(a + b, p);
    assert forall i | 0 <= i < |a| :: (a + b)[i] == a[i];
    assert b != [] ==> (a + b)[|a|] == b[0];
  }

  /** Bytes that are no `<` stay in front. */
  lemma {:induction false} ReplaceBehind(x: Bytes, b: Bytes, p: Bytes, q: Bytes)
    requires p != [] && p[0] == 0x3C && forall i | 0 <= i < |x| :: x[i] != 0x3C
    ensures ReplaceAll(x + b, p, q) == x + ReplaceAll(b, p, q)
    decreases |x|
  {
    if x == [] {
      assert x + b == b;
      assert x + ReplaceAll(b, p, q) == ReplaceAll(b, p, q);
    } else {
      PrefixBytes(x + b, p);
      assert (x + b)[1..] == x[1..] + b;
      ReplaceBehind(x[1..], b, p, q);
      assert [x[0]] + (x[1..] + ReplaceAll(b, p, q)) == x + ReplaceAll(b, p, q);
    }
  }

  lemma OtherTagNoPrefix(t: Bytes, b: Bytes, p: Bytes)
    requires OneTag(t) && OneTag(p) && t != p
    ensures !HasPrefix(t + b, p)
  {
    PrefixBytes(t + b, p);
    assert forall i | 0 <= i < |t| :: (t + b)[i] == t[i];
    assert |p| == |t| ==> exists i :: 0 <= i < |p| && p[i] != t[i];
  }

  lemma TagStays(a: Bytes, t: Bytes, b: Bytes, p: Bytes)
    requires OneTag(t) && OneTag(p) && t != p
    ensures ReplaceAll(a + (t + b), p, NL) == ReplaceAll(a, p, NL) + (t + ReplaceAll(b, p, NL))
  {
    ReplaceSplit(a, t + b, p, NL);
    OtherTagNoPrefix(t, b, p);
    assert (t + b)[1..] == t[1..] + b;
    ReplaceBehind(t[1..], b, p, NL);
    assert [t[0]] + (t[1..] + ReplaceAll(b, p, NL)) == t + ReplaceAll(b, p, NL);
  }

  lemma TagBreaks(a: Bytes, t: Bytes, b: Bytes)
    requires OneTag(t)
    ensures ReplaceAll(a + (t + b), t, NL) == ReplaceAll(a, t, NL) + (NL + ReplaceAll(b, t, NL))
  {
    ReplaceSplit(a, t + b, t, NL);
    assert (t + b)[..|t|] == t && (t + b)[|t|..] == b;
  }

  lemma BreakStays(a: Bytes, b: Bytes, p: Bytes)
    requires OneTag(p)
    ensures ReplaceAll(a + (NL + b), p, NL) == ReplaceAll(a, p, NL) + (NL + ReplaceAll(b, p, NL))
  {
    ReplaceSplit(a, NL + b, p, NL);
    ReplaceBehind(NL, b, p, NL);
  }

  lemma OneReplacement(a: Bytes, x: Bytes, b: Bytes, p: Bytes)
    requires OneTag(p) && (x == NL || OneTag(x))
    ensures ReplaceAll(a + (x + b), p, NL) == ReplaceAll(a, p, NL) + ((if x == p then NL else x) + ReplaceAll(b, p, NL))
  {
    if x == NL {
      BreakStays(a, b, p);
    } else if x == p {
      TagBreaks(a, x, b);
    } else {
      TagStays(a, x, b, p);
    }
  }

  /** A replacement list of different tags, each replaced by a line break. */
  ghost predicate BreakList(repl: seq<Bytes>) {
    && TagPairs(repl)
    && (forall i | 0 <= i < |repl| / 2 :: BreakPair(repl, i))
    && (forall i, j | 0 <= i < j < |repl| / 2 :: repl[2 * i] != repl[2 * j])
  }

  ghost predicate BreakPair(repl: seq<Bytes>, i: nat)
    requires i < |repl| / 2
  {
    OneTag(repl[2 * i]) && repl[2 * i + 1] == NL
  }

  lemma ReplacedStep(html: Bytes, repl: seq<Bytes>, n: nat)
    requires BreakList(repl) && 0 < n && 2 * n <= |repl|
    ensures Replaced(html, repl, n) == ReplaceAll(Replaced(html, repl, n - 1), repl[2 * (n - 1)], NL)
  {
    assert BreakPair(repl, n - 1);
  }

  /** Tag `m` stays until its turn comes, and then is a line break. */
  lemma {:induction false} ReplacedSplit(a: Bytes, b: Bytes, repl: seq<Bytes>, m: nat, n: nat, t: Bytes)
    requires BreakList(repl) && m < |repl| / 2 && 2 * n <= |repl| && t == repl[2 * m]
    ensures Replaced(a + (t + b), repl, n) == Replaced(a, repl, n) + ((if n <= m then t else NL) + Replaced(b, repl, n))
  {
    if n > 0 {
      var i := n - 1;
      ReplacedSplit(a, b, repl, m, i, t);
      ReplacedStep(a, repl, n);
      ReplacedStep(b, repl, n);
      ReplacedStep(a + (t + b), repl, n);
      TurnOf(repl, m, i);
      OneReplacement(Replaced(a, repl, i), if i <= m then t else NL, Replaced(b, repl, i), repl[2 * i]);
    }
  }

  lemma TurnOf(repl: seq<Bytes>, m: nat, i: nat)
    requires BreakList(repl) && m < |repl| / 2 && i < |repl| / 2
    ensures OneTag(repl[2 * i]) && OneTag(repl[2 * m]) && repl[2 * i] != NL && (repl[2 * i] == repl[2 * m] <==> i == m)
  {
    assert BreakPair(repl, i) && BreakPair(repl, m);
    if i < m { assert repl[2 * i] != repl[2 * m]; }
    if m < i { assert repl[2 * m] != repl[2 * i]; }
  }

  // ------------------------------------------------------------------
  // The five tags
  // ------------------------------------------------------------------

  /** The bytes of an ASCII text. */
  ghost predicate Spells(s: Bytes, text: string) {
    |s| == |text| && forall i | 0 <= i < |s| :: s[i] as int == text[i] as int
  }

  ghost predicate IsBreak(tag: Bytes) {
    Spells(tag, "<br>") || Spells(tag, "<br/>") || Spells(tag, "<br />") || Spells(tag, "</p>") || Spells(tag, "</div>")
  }

  lemma {:induction false} EncodesAscii(text: string)
    requires forall i | 0 <= i < |text| :: (text[i] as int) < 128
    ensures Spells(Encode(text), text)
  {
    if text != "" {
      EncodesAscii(text[1..]);
      assert EncodeRune(text[0]) == [text[0] as int as byte];
      assert Encode(text) == [text[0] as int as byte] + Encode(text[1..]);
    }
  }

  lemma TagsSpelled()
    ensures Spells(Encode("<br>"), "<br>") && Spells(Encode("<br/>"), "<br/>") && Spells(Encode("<br />"), "<br />")
    ensures Spells(Encode("</p>"), "</p>") && Spells(Encode("</div>"), "</div>")
  {
    EncodesAscii("<br>");
    EncodesAscii("<br/>");
    EncodesAscii("<br />");
    EncodesAscii("</p>");
    EncodesAscii("</div>");
  }

  lemma BreaksSpelled()
    ensures var b := Breaks(); Spells(b[0], "<br>") && Spells(b[2], "<br/>") && Spells(b[4], "<br />") && Spells(b[6], "</p>") && Spells(b[8], "</div>")
    ensures var b := Breaks(); Spells(b[1], "\n") && b[3] == b[1] && b[5] == b[1] && b[7] == b[1] && b[9] == b[1]
  {
    TagsSpelled();
    EncodesAscii("\n");
  }

  /** A tag of a certain length, told by its second byte from others of that length. */
  ghost predicate TagOf(t: Bytes, n: nat, second: char) {
    OneTag(t) && |t| == n && t[1] as int == second as int
  }

  lemma SpelledTag(t: Bytes, text: string)
    requires Spells(t, text) && |text| >= 2 && text[0] == '<' && text[|text| - 1] == '>'
    requires forall i | 0 < i < |text| - 1 :: text[i] != '<' && text[i] != '>' && text[i] != '\n'
    ensures TagOf(t, |text|, text[1])
  {
  }

  lemma ListIsBreakList(repl: seq<Bytes>)
    requires |repl| == 10 && TagPairs(repl)
    requires Spells(repl[0], "<br>") && Spells(repl[2], "<br/>") && Spells(repl[4], "<br />") && Spells(repl[6], "</p>") && Spells(repl[8], "</div>")
    requires repl[1] == NL && repl[3] == NL && repl[5] == NL && repl[7] == NL && repl[9] == NL
    ensures BreakList(repl)
  {
    SpelledTag(repl[0], "<br>");
    SpelledTag(repl[2], "<br/>");
    SpelledTag(repl[4], "<br />");
    SpelledTag(repl[6], "</p>");
    SpelledTag(repl[8], "</div>");
    FiveTags(repl);
  }

  lemma FiveTags(repl: seq<Bytes>)
    requires |repl| == 10 && TagPairs(repl)
    requires TagOf(repl[0], 4, 'b') && TagOf(repl[2], 5, 'b') && TagOf(repl[4], 6, 'b') && TagOf(repl[6], 4, '/') && TagOf(repl[8], 6, '/')
    requires repl[1] == NL && repl[3] == NL && repl[5] == NL && repl[7] == NL && repl[9] == NL
    ensures BreakList(repl)
  {
    forall i | 0 <= i < 5 ensures BreakPair(repl, i) {
    }
  }

  lemma BreaksAreTags()
    ensures BreakList(Breaks())
  {
    BreaksSpelled();
    assert Breaks()[1] == NL;
    ListIsBreakList(Breaks());
  }

  lemma SameSpelling(s: Bytes, t: Bytes, text: string)
    requires Spells(s, text) && Spells(t, text)
    ensures s == t
  {
  }

  lemma BreakNumber(repl: seq<Bytes>, tag: Bytes) returns (m: nat)
    requires |repl| == 10 && IsBreak(tag)
    requires Spells(repl[0], "<br>") && Spells(repl[2], "<br/>") && Spells(repl[4], "<br />") && Spells(repl[6], "</p>") && Spells(repl[8], "</div>")
    ensures m < 5 && repl[2 * m] == tag
  {
    if Spells(tag, "<br>") {
      m := 0;
      SameSpelling(tag, repl[0], "<br>");
    } else if Spells(tag, "<br/>") {
      m := 1;
      SameSpelling(tag, repl[2], "<br/>");
    } else if Spells(tag, "<br />") {
      m := 2;
      SameSpelling(tag, repl[4], "<br />");
    } else if Spells(tag, "</p>") {
      m := 3;
      SameSpelling(tag, repl[6], "</p>");
    } else {
      m := 4;
      SameSpelling(tag, repl[8], "</div>");
    }
  }

  /** Each of the five tags, wherever it stands, is replaced by a line break. */
  lemma TagBecomesBreak(a: Bytes, tag: Bytes, b: Bytes)
    requires IsBreak(tag)
    ensures Broken(a + (tag + b)) == Broken(a) + (NL + Broken(b))
  {
    BreaksSpelled();
    BreaksAreTags();
    var m := BreakNumber(Breaks(), tag);
    ReplacedSplit(a, b, Breaks(), m, 5, tag);
  }

  ghost predicate Holds(s: Bytes, p: Bytes) {
    exists i: nat :: HoldsAt(s, p, i)
  }

  ghost predicate HoldsAt(s: Bytes, p: Bytes, i: nat) {
    i + |p| <= |s| && s[i..i + |p|] == p
  }

  lemma {:induction false} NotHeldNotReplaced(s: Bytes, p: Bytes, q: Bytes)
    requires p != [] && !Holds(s, p)
    ensures ReplaceAll(s, p, q) == s
  {
    if s != [] {
      if HasPrefix(s, p) { assert HoldsAt(s, p, 0); }
      forall i: nat ensures !HoldsAt(s[1..], p, i) {
        if HoldsAt(s[1..], p, i) { assert s[1..][i..i + |p|] == s[i + 1..i + 1 + |p|] && HoldsAt(s, p, i + 1); }
      }
      NotHeldNotReplaced(s[1..], p, q);
    }
  }

  lemma {:induction false} NoneHeld(s: Bytes, repl: seq<Bytes>, n: nat)
    requires BreakList(repl) && 2 * n <= |repl| && forall i | 0 <= i < |repl| / 2 :: !Holds(s, repl[2 * i])
    ensures Replaced(s, repl, n) == s
  {
    if n > 0 {
      NoneHeld(s, repl, n - 1);
      var i := n - 1;
      assert !Holds(s, repl[2 * i]);
      ReplacedStep(s, repl, n);
      NotHeldNotReplaced(s, repl[2 * i], NL);
    }
  }

  /** And nothing else is replaced. */
  lemma NoTagNoBreak(html: Bytes)
    requires forall tag | IsBreak(tag) :: !Holds(html, tag)
    ensures Broken(html) == html
  {
    BreaksSpelled();
    BreaksAreTags();
    NoneOfFive(html, Breaks());
    NoneHeld(html, Breaks(), 5);
  }

  lemma NoneOfFive(html: Bytes, repl: seq<Bytes>)
    requires |repl| == 10 && forall tag | IsBreak(tag) :: !Holds(html, tag)
    requires Spells(repl[0], "<br>") && Spells(repl[2], "<br/>") && Spells(repl[4], "<br />") && Spells(repl[6], "</p>") && Spells(repl[8], "</div>")
    ensures forall i | 0 <= i < 5 :: !Holds(html, repl[2 * i])
  {
    assert IsBreak(repl[0]) && IsBreak(repl[2]) && IsBreak(repl[4]) && IsBreak(repl[6]) && IsBreak(repl[8]);
    forall i | 0 <= i < 5 ensures !Holds(html, repl[2 * i]) {
    }
  }

  // ------------------------------------------------------------------
  // Words on both sides
  // ------------------------------------------------------------------

  lemma BreakEndsSequence(x: Bytes, y: Bytes)
    requires x != []
    ensures ValidWidth(x + (NL + y)) == ValidWidth(x) && Width(x + (NL + y)) == Width(x)
    ensures FirstRune(x + (NL + y)) == FirstRune(x)
  {
  }

  lemma {:induction false} DecodeAroundBreak(x: Bytes, y: Bytes)
    ensures Decode(x + (NL + y)) == Decode(x) + ("\n" + Decode(y))
  {
    if x == [] {
      DecodeBreak(y);
      assert x + (NL + y) == NL + y && Decode(x) == "";
    } else {
      DecodeAroundBreak(x[Width(x)..], y);
      DecodeFront(x, NL + y);
      Regroup([FirstRune(x)], Decode(x[Width(x)..]), "\n" + Decode(y));
    }
  }

  lemma DecodeBreak(y: Bytes)
    ensures Decode(NL + y) == "\n" + Decode(y)
  {
    assert (NL + y)[1..] == y && FirstRune(NL + y) == '\n';
  }

  lemma Regroup(a: string, b: string, c: string)
    ensures a + (b + c) == (a + b) + c
  {
  }

  lemma DecodeFront(x: Bytes, more: Bytes)
    requires x != [] && NL <= more
    ensures Decode(x + more) == [FirstRune(x)] + Decode(x[Width(x)..] + more)
  {
    BreakEndsSequence(x, more[1..]);
    assert more == NL + more[1..];
    assert (x + more)[Width(x)..] == x[Width(x)..] + more;
  }

  lemma {:induction false} OutsideTagsAppend(a: string, b: string, open: bool)
    requires Outside(a, open, |a|)
    ensures OutsideTags(a + b, open) == OutsideTags(a, open) + OutsideTags(b, false)
  {
    if a == "" {
      assert a + b == b;
    } else {
      OutsideBehind(a, open, |a| - 1);
      assert (a + b)[1..] == a[1..] + b;
      OutsideTagsAppend(a[1..], b, InTag(a[0], open));
    }
  }

  lemma VisibleAroundBreak(a: Bytes, tag: Bytes, b: Bytes)
    requires IsBreak(tag) && Outside(Decode(Broken(a)), false, |Decode(Broken(a))|)
    ensures Visible(a + (tag + b), Breaks()) == Visible(a, Breaks()) + ("\n" + Visible(b, Breaks()))
  {
    var x, y := Decode(Broken(a)), Decode(Broken(b));
    TagBecomesBreak(a, tag, b);
    DecodeAroundBreak(Broken(a), Broken(b));
    OutsideTagsAppend(x, "\n" + y, false);
    assert ("\n" + y)[1..] == y;
  }

  lemma {:induction false} FieldsAroundSpace(x: string, c: char, y: string)
    requires IsSpace(c)
    ensures Fields(x + ([c] + y)) == Fields(x) + Fields(y)
    decreases |x|
  {
    var s := x + ([c] + y);
    if x == "" {
      assert s == [c] + y && s[1..] == y;
    } else if IsSpace(x[0]) {
      assert s[1..] == x[1..] + ([c] + y);
      FieldsAroundSpace(x[1..], c, y);
    } else {
      var n := WordLength(x);
      WordAroundSpace(x, c, y);
      assert s[..n] == x[..n] && s[n..] == x[n..] + ([c] + y);
      FieldsAroundSpace(x[n..], c, y);
    }
  }

  lemma WordAroundSpace(x: string, c: char, y: string)
    requires x != "" && !IsSpace(x[0]) && IsSpace(c)
    ensures 0 < WordLength(x) && WordLength(x + ([c] + y)) == WordLength(x)
  {
    var n := WordLength(x);
    var w, rest := x[..n], x[n..] + ([c] + y);
    assert x + ([c] + y) == w + rest;
    assert forall d | d in w :: !IsSpace(d);
    WordLengthOf(w, rest);
  }

  lemma WordsOfPage(html: Bytes)
    ensures Fields(Decode(StripHTML(html))) == Fields(Visible(html, Breaks()))
  {
    StripDecodes(html);
    FieldsJoin(Fields(Visible(html, Breaks())));
  }

  /** Wherever no tag is open, each of the five tags keeps the words on its two sides apart:
      the words of the whole are those in front and those behind. */
  lemma BreakKeepsWordsApart(a: Bytes, tag: Bytes, b: Bytes)
    requires IsBreak(tag) && Outside(Decode(Broken(a)), false, |Decode(Broken(a))|)
    ensures Fields(Decode(StripHTML(a + (tag + b)))) == Fields(Decode(StripHTML(a))) + Fields(Decode(StripHTML(b)))
  {
    WordsOfPage(a + (tag + b));
    WordsOfPage(a);
    WordsOfPage(b);
    VisibleAroundBreak(a, tag, b);
    FieldsAroundSpace(Visible(a, Breaks()), '\n', Visible(b, Breaks()));
  }
}
