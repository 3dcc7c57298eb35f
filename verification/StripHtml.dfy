/** `stripHTML`: the deterministic function from a page to its archived text. */
module StripHtml {
  import opened Utf8
  import opened Text

  predicate HasPrefix(s: Bytes, prefix: Bytes) {
    |prefix| <= |s| && s[..|prefix|] == prefix
  }

  /** `strings.ReplaceAll` for a non-empty pattern */
  function ReplaceAll(s: Bytes, old_: Bytes, new_: Bytes): Bytes
    requires old_ != []
    decreases |s|
  {
    if s == [] then []
    else if HasPrefix(s, old_) then new_ + ReplaceAll(s[|old_|..], old_, new_)
    else [s[0]] + ReplaceAll(s[1..], old_, new_)
  }

  const LT: byte := '<' as byte

  /** A replacement list: patterns and replacements in pairs, every pattern a tag. */
  ghost predicate TagPairs(repl: seq<Bytes>) {
    |repl| % 2 == 0 && forall i | 0 <= i < |repl| :: repl[i] != [] && (i % 2 == 0 ==> repl[i][0] == LT)
  }

  /** The first `n` replacements, one after the other. */
  function Replaced(html: Bytes, repl: seq<Bytes>, n: nat): Bytes
    requires 2 * n <= |repl| && forall i | 0 <= i < |repl| :: repl[i] != []
  {
    if n == 0 then html else ReplaceAll(Replaced(html, repl, n - 1), repl[2 * n - 2], repl[2 * n - 1])
  }

  function Breaks(): (repl: seq<Bytes>)
    ensures |repl| == 10 && TagPairs(repl)
  {
    var nl := Encode("\n");
    [Encode("<br>"), nl, Encode("<br/>"), nl, Encode("<br />"), nl, Encode("</p>"), nl, Encode("</div>"), nl]
  }

  /** The flag behind one rune. */
  predicate InTag(r: char, inTag: bool) {
    r == '<' || (r != '>' && inTag)
  }

  /** What the builder receives for one rune. */
  function Shown(r: char, inTag: bool): string {
    if r == '<' || r == '>' || inTag then "" else [r]
  }

  /** The runes outside angle brackets. */
  function OutsideTags(text: string, inTag: bool): string {
    if text == "" then "" else Shown(text[0], inTag) + OutsideTags(text[1..], InTag(text[0], inTag))
  }

  /** The visible runes of a page, before white space is tidied. */
  function Visible(html: Bytes, repl: seq<Bytes>): string
    requires TagPairs(repl)
  {
    OutsideTags(Decode(Replaced(html, repl, |repl| / 2)), false)
  }

  function StripWith(html: Bytes, repl: seq<Bytes>): Bytes
    requires TagPairs(repl)
  {
    Encode(TrimSpace(Join(Fields(Visible(html, repl)))))
  }

  function StripHTML(html: Bytes): Bytes {
    StripWith(html, Breaks())
  }

  /** The loop over the replacement list. */
  method ReplaceBreaks(html: Bytes, repl: seq<Bytes>) returns (s: Bytes)
    requires TagPairs(repl)
    ensures s == Replaced(html, repl, |repl| / 2)
  {
    s := html;
    var i := 0;
    while i + 1 < |repl|
      invariant 0 <= i <= |repl| && i % 2 == 0
      invariant s == Replaced(html, repl, i / 2)
    {
      assert (i + 2) / 2 == i / 2 + 1 && 2 * (i / 2) == i;
      s := ReplaceAll(s, repl[i], repl[i + 1]);
      i := i + 2;
    }
  }

  lemma EncodeShown(r: char, inTag: bool)
    ensures Encode(Shown(r, inTag)) == if r == '<' || r == '>' || inTag then [] else EncodeRune(r)
  {
    assert [r][1..] == "";
  }

  lemma OutsideFirst(rest: Bytes, inTag: bool)
    requires rest != []
    ensures var r := FirstRune(rest);
            OutsideTags(Decode(rest), inTag) ==
              Shown(r, inTag) + OutsideTags(Decode(rest[Width(rest)..]), InTag(r, inTag))
  {
    assert Decode(rest)[1..] == Decode(rest[Width(rest)..]);
  }

  /** One turn of the rune loop: what is still to come is this rune, if it shows,
      and what comes behind it. */
  lemma DropStep(b: Bytes, rest: Bytes, inTag: bool)
    requires rest != []
    ensures var r := FirstRune(rest);
            b + Encode(OutsideTags(Decode(rest), inTag)) ==
              (if r == '<' || r == '>' || inTag then b else b + EncodeRune(r)) +
                Encode(OutsideTags(Decode(rest[Width(rest)..]), InTag(r, inTag)))
  {
    var r := FirstRune(rest);
    var after := OutsideTags(Decode(rest[Width(rest)..]), InTag(r, inTag));
    OutsideFirst(rest, inTag);
    EncodeAppend(Shown(r, inTag), after);
    EncodeShown(r, inTag);
  }

  /** The loop over the runes, with its `inTag` flag and its builder. */
  method DropTags(s: Bytes) returns (b: Bytes)
    ensures b == Encode(OutsideTags(Decode(s), false))
  {
    var inTag := false;
    b := [];
    var rest := s;
    while rest != []
      invariant b + Encode(OutsideTags(Decode(rest), inTag)) == Encode(OutsideTags(Decode(s), false))
      decreases |rest|
    {
      var r := FirstRune(rest);
      DropStep(b, rest, inTag);
      rest := rest[Width(rest)..];
      if r == '<' {
        inTag := true;
      } else if r == '>' {
        inTag := false;
      } else if !inTag {
        b := b + EncodeRune(r);
      }
    }
  }

  method StripTags(html: Bytes, repl: seq<Bytes>) returns (text: Bytes)
    requires TagPairs(repl)
    ensures text == StripWith(html, repl)
  {
    var s := ReplaceBreaks(html, repl);
    var b := DropTags(s);
    DecodeEncode(OutsideTags(Decode(s), false));
    return Encode(TrimSpace(Join(Fields(Decode(b)))));
  }

  method Strip(html: Bytes) returns (text: Bytes)
    ensures text == StripHTML(html)
  {
    text := StripTags(html, Breaks());
  }

  // ------------------------------------------------------------------
  // What it guarantees
  // ------------------------------------------------------------------

  lemma {:induction false} NoTagsOutside(text: string, inTag: bool)
    ensures '<' !in OutsideTags(text, inTag) && '>' !in OutsideTags(text, inTag)
  {
    if text != "" {
      NoTagsOutside(text[1..], InTag(text[0], inTag));
    }
  }

  lemma {:induction false} NoTagsUnchanged(text: string)
    requires '<' !in text && '>' !in text
    ensures OutsideTags(text, false) == text
  {
    if text != "" {
      assert text[0] in text;
      NoTagsUnchanged(text[1..]);
    }
  }

  lemma {:induction false} NothingToReplace(s: Bytes, old_: Bytes, new_: Bytes)
    requires old_ != [] && old_[0] !in s
    ensures ReplaceAll(s, old_, new_) == s
  {
    if s != [] {
      assert s[0] in s;
      if |old_| <= |s| {
        assert s[..|old_|][0] == s[0];
      }
      NothingToReplace(s[1..], old_, new_);
    }
  }

  lemma {:induction false} NoReplacement(html: Bytes, repl: seq<Bytes>, n: nat)
    requires TagPairs(repl) && 2 * n <= |repl| && LT !in html
    ensures Replaced(html, repl, n) == html
  {
    if n > 0 {
      NoReplacement(html, repl, n - 1);
      NothingToReplace(html, repl[2 * n - 2], repl[2 * n - 1]);
    }
  }

  lemma StrippedWithShape(html: Bytes, repl: seq<Bytes>)
    requires TagPairs(repl)
    ensures var text := Decode(StripWith(html, repl));
            && Valid(StripWith(html, repl))
            && '<' !in text && '>' !in text
            && Normalized(text)
            && NonSpace(text) == NonSpace(Visible(html, repl))
  {
    var visible := Visible(html, repl);
    var joined := Join(Fields(visible));
    JoinNormalized(Fields(visible));
    TrimNormalized(joined);
    DecodeEncode(joined);
    NoTagsOutside(Decode(Replaced(html, repl, |repl| / 2)), false);
    if '<' in joined {
      FieldsKeepMembers(visible, '<');
    }
    if '>' in joined {
      FieldsKeepMembers(visible, '>');
    }
    FieldsKeepNonSpace(visible);
  }

  lemma StripWithFixedPoint(s: Bytes, repl: seq<Bytes>)
    requires TagPairs(repl)
    requires Valid(s) && '<' !in Decode(s) && '>' !in Decode(s) && Normalized(Decode(s))
    ensures StripWith(s, repl) == s
  {
    var text := Decode(s);
    EncodeDecode(s);
    if LT in s {
      AsciiBytesAreRunes(text, LT);
    }
    NoReplacement(s, repl, |repl| / 2);
    NoTagsUnchanged(text);
    RejoinNormalized(text);
    TrimNormalized(text);
  }

  /** Every archived text is valid UTF-8 without angle brackets, its words separated
      by single blanks, and its characters are the page's visible ones in order. */
  lemma StrippedShape(html: Bytes)
    ensures var text := Decode(StripHTML(html));
            && Valid(StripHTML(html))
            && '<' !in text && '>' !in text
            && Normalized(text)
            && NonSpace(text) == NonSpace(Visible(html, Breaks()))
  {
    StrippedWithShape(html, Breaks());
  }

  /** The fixed points are exactly the texts of that shape. */
  lemma StripFixedPoint(s: Bytes)
    ensures StripHTML(s) == s <==>
            Valid(s) && '<' !in Decode(s) && '>' !in Decode(s) && Normalized(Decode(s))
  {
    StrippedShape(s);
    if Valid(s) && '<' !in Decode(s) && '>' !in Decode(s) && Normalized(Decode(s)) {
      StripWithFixedPoint(s, Breaks());
    }
  }

  /** Archived text is a fixed point: archiving it again would not move an offset. */
  lemma StripIdempotent(html: Bytes)
    ensures StripHTML(StripHTML(html)) == StripHTML(html)
  {
    StrippedShape(html);
    StripFixedPoint(StripHTML(html));
  }
}
