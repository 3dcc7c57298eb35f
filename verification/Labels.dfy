/**
 The vocabulary said over labels: the words of a slug, the entries the default labels find,
 and what becomes of a label without an entry.
 */
module Labels {
  import opened Text
  import opened Vocabulary

  // ------------------------------------------------------------------
  // Runs of letters and digits
  // ------------------------------------------------------------------

  /** From and up to which position. */
  datatype Run = Run(from: nat, to: nat)

  ghost predicate Letter(u: Unicode, c: char) {
    u.isLetter(c) || u.isDigit(c)
  }

  ghost predicate Inside(s: string, runs: seq<Run>) {
    forall i | 0 <= i < |runs| :: runs[i].from < runs[i].to <= |s|
  }

  ghost predicate InRuns(runs: seq<Run>, x: nat) {
    exists i | 0 <= i < |runs| :: runs[i].from <= x < runs[i].to
  }

  /** The runs of letters and digits, each as long as it can be, from left to right. */
  ghost predicate IsRuns(u: Unicode, s: string, runs: seq<Run>) {
    && Inside(s, runs)
    && (forall i, j | 0 <= i < j < |runs| :: runs[i].to < runs[j].from)
    && (forall x: nat | x < |s| :: Letter(u, s[x]) <==> InRuns(runs, x))
  }

  /** The runs with single underscores in between. */
  ghost function Joined(s: string, runs: seq<Run>): string
    requires Inside(s, runs)
  {
    if runs == [] then ""
    else if |runs| == 1 then s[runs[0].from..runs[0].to]
    else s[runs[0].from..runs[0].to] + "_" + Joined(s, runs[1..])
  }

  ghost function Shift(runs: seq<Run>): (r: seq<Run>)
    ensures |r| == |runs| && forall i | 0 <= i < |runs| :: r[i] == Run(runs[i].from + 1, runs[i].to + 1)
  {
    seq(|runs|, i requires 0 <= i < |runs| => Run(runs[i].from + 1, runs[i].to + 1))
  }

  lemma InShift(runs: seq<Run>, x: nat)
    ensures InRuns(Shift(runs), x + 1) <==> InRuns(runs, x)
    ensures !InRuns(Shift(runs), 0)
  {
    if i :| 0 <= i < |runs| && runs[i].from <= x < runs[i].to {
      assert Shift(runs)[i].from <= x + 1 < Shift(runs)[i].to;
    }
  }

  lemma {:induction false} JoinedShift(s: string, runs: seq<Run>)
    requires s != "" && Inside(s[1..], runs)
    ensures Inside(s, Shift(runs)) && Joined(s, Shift(runs)) == Joined(s[1..], runs)
  {
    if runs != [] {
      assert Shift(runs)[1..] == Shift(runs[1..]);
      JoinedShift(s, runs[1..]);
      SliceOfTail(s, runs[0].from, runs[0].to);
    }
  }

  lemma SliceOfTail(s: string, a: nat, b: nat)
    requires s != "" && a <= b <= |s| - 1
    ensures s[1..][a..b] == s[a + 1..b + 1]
  {
  }

  // ------------------------------------------------------------------
  // Runs of a string from those of its tail
  // ------------------------------------------------------------------

  lemma NoLetterFirst(u: Unicode, s: string, runs: seq<Run>)
    requires s != "" && !Letter(u, s[0]) && IsRuns(u, s[1..], runs)
    ensures IsRuns(u, s, Shift(runs))
  {
    forall x: nat | x < |s| ensures Letter(u, s[x]) <==> InRuns(Shift(runs), x) {
      InShift(runs, 0);
      if x > 0 {
        InShift(runs, x - 1);
        assert s[x] == s[1..][x - 1];
      }
    }
  }

  /** The first letter alone, in front of a tail that begins with none. */
  ghost function OneMore(runs: seq<Run>): seq<Run> {
    [Run(0, 1)] + Shift(runs)
  }

  lemma InOneMore(runs: seq<Run>, x: nat)
    ensures InRuns(OneMore(runs), 0) && (InRuns(OneMore(runs), x + 1) <==> InRuns(runs, x))
  {
    var r := OneMore(runs);
    assert r[0].from <= 0 < r[0].to;
    InShift(runs, x);
    if i :| 0 <= i < |r| && r[i].from <= x + 1 < r[i].to {
      assert Shift(runs)[i - 1] == r[i];
    }
    if InRuns(Shift(runs), x + 1) {
      var i :| 0 <= i < |runs| && Shift(runs)[i].from <= x + 1 < Shift(runs)[i].to;
      assert r[i + 1] == Shift(runs)[i];
    }
  }

  lemma FirstNotInRuns(u: Unicode, s: string, runs: seq<Run>, i: nat)
    requires IsRuns(u, s, runs) && i < |runs| && (s == "" || !Letter(u, s[0]))
    ensures runs[i].from > 0
  {
    if runs[i].from == 0 { assert InRuns(runs, 0); }
  }

  lemma LetterFirst(u: Unicode, s: string, runs: seq<Run>)
    requires s != "" && Letter(u, s[0]) && IsRuns(u, s[1..], runs) && (s[1..] == "" || !Letter(u, s[1..][0]))
    ensures IsRuns(u, s, OneMore(runs))
  {
    var r := OneMore(runs);
    forall i, j | 0 <= i < j < |r| ensures r[i].to < r[j].from {
      FirstNotInRuns(u, s[1..], runs, j - 1);
      assert r[j] == Shift(runs)[j - 1] && (i > 0 ==> r[i] == Shift(runs)[i - 1]);
    }
    forall x: nat | x < |s| ensures Letter(u, s[x]) <==> InRuns(r, x) {
      InOneMore(runs, 0);
      if x > 0 {
        InOneMore(runs, x - 1);
        assert s[x] == s[1..][x - 1];
      }
    }
  }

  /** The first letter in front of a run. */
  ghost function Longer(runs: seq<Run>): seq<Run>
    requires runs != []
  {
    [Run(0, runs[0].to + 1)] + Shift(runs[1..])
  }

  lemma InLonger(runs: seq<Run>, x: nat)
    requires runs != [] && runs[0].from == 0
    ensures InRuns(Longer(runs), 0) && (InRuns(Longer(runs), x + 1) <==> InRuns(runs, x))
  {
    var r := Longer(runs);
    assert r[0].from <= 0 < r[0].to;
    forall i | 0 < i < |runs| ensures r[i] == Run(runs[i].from + 1, runs[i].to + 1) {
      assert r[i] == Shift(runs[1..])[i - 1];
    }
    if i :| 0 <= i < |runs| && runs[i].from <= x < runs[i].to {
      assert r[i].from <= x + 1 < r[i].to;
    }
    if i :| 0 <= i < |r| && r[i].from <= x + 1 < r[i].to {
      assert runs[i].from <= x < runs[i].to;
    }
  }

  lemma FirstRunFirst(u: Unicode, s: string, runs: seq<Run>)
    requires IsRuns(u, s, runs) && s != "" && Letter(u, s[0])
    ensures runs != [] && runs[0].from == 0
  {
    assert InRuns(runs, 0);
    var i :| 0 <= i < |runs| && runs[i].from <= 0 < runs[i].to;
    LeftmostRun(s, runs, i);
  }

  lemma LeftmostRun(s: string, runs: seq<Run>, i: nat)
    requires Inside(s, runs) && (forall i, j | 0 <= i < j < |runs| :: runs[i].to < runs[j].from) && i < |runs|
    ensures runs[0].from <= runs[i].from
  {
    if i > 0 { assert runs[0].to < runs[i].from; }
  }

  lemma LetterMore(u: Unicode, s: string, runs: seq<Run>)
    requires s != "" && Letter(u, s[0]) && IsRuns(u, s[1..], runs) && s[1..] != "" && Letter(u, s[1..][0])
    ensures runs != [] && runs[0].from == 0 && IsRuns(u, s, Longer(runs))
  {
    FirstRunFirst(u, s[1..], runs);
    var r := Longer(runs);
    forall i | 0 < i < |runs| ensures r[i] == Run(runs[i].from + 1, runs[i].to + 1) {
      assert r[i] == Shift(runs[1..])[i - 1];
    }
    forall x: nat | x < |s| ensures Letter(u, s[x]) <==> InRuns(r, x) {
      InLonger(runs, 0);
      if x > 0 {
        InLonger(runs, x - 1);
        assert s[x] == s[1..][x - 1];
      }
    }
  }

  // ------------------------------------------------------------------
  // The loop over the runes
  // ------------------------------------------------------------------

  ghost function Lead(u: Unicode, s: string, after: bool): string {
    if s != "" && !Letter(u, s[0]) && !after then "_" else ""
  }

  ghost function Trail(u: Unicode, s: string, runs: seq<Run>): string {
    if s != "" && runs != [] && !Letter(u, s[|s| - 1]) then "_" else ""
  }

  /** What the loop writes: the words, and an underscore for other runes at either end. */
  ghost predicate Writes(u: Unicode, s: string, runs: seq<Run>) {
    && Inside(s, runs)
    && (forall after :: Underscored(u, s, after) == Lead(u, s, after) + (Joined(s, runs) + Trail(u, s, runs)))
  }

  lemma WritesNoLetter(u: Unicode, s: string, runs: seq<Run>)
    requires s != "" && !Letter(u, s[0]) && Writes(u, s[1..], runs)
    ensures Writes(u, s, Shift(runs))
  {
    JoinedShift(s, runs);
    var rest := Joined(s[1..], runs) + Trail(u, s[1..], runs);
    assert Underscored(u, s[1..], true) == "" + rest;
    assert Trail(u, s, Shift(runs)) == Trail(u, s[1..], runs) by {
      if runs != [] { assert s[1..][|s| - 2] == s[|s| - 1]; }
    }
    forall after ensures Underscored(u, s, after) == Lead(u, s, after) + rest {
      assert Underscored(u, s, after) == (if after then "" else "_") + ("" + rest);
    }
  }

  lemma JoinedOneMore(s: string, runs: seq<Run>)
    requires s != "" && Inside(s[1..], runs)
    ensures Inside(s, OneMore(runs))
    ensures Joined(s, OneMore(runs)) == [s[0]] + (if runs == [] then "" else "_" + Joined(s[1..], runs))
  {
    JoinedShift(s, runs);
    OneMoreInside(s, runs);
    assert OneMore(runs)[1..] == Shift(runs) && s[0..1] == [s[0]];
    assert [s[0]] + "_" + Joined(s[1..], runs) == [s[0]] + ("_" + Joined(s[1..], runs));
  }

  lemma OneMoreInside(s: string, runs: seq<Run>)
    requires s != "" && Inside(s, Shift(runs))
    ensures Inside(s, OneMore(runs))
  {
    assert forall i | 0 < i < |OneMore(runs)| :: OneMore(runs)[i] == Shift(runs)[i - 1];
  }

  lemma NoRunsNoLetters(u: Unicode, s: string)
    requires IsRuns(u, s, []) && s != ""
    ensures !Letter(u, s[|s| - 1])
  {
    assert !InRuns([], |s| - 1);
  }

  lemma WritesLetterFirst(u: Unicode, s: string, runs: seq<Run>)
    requires s != "" && Letter(u, s[0]) && IsRuns(u, s[1..], runs) && Writes(u, s[1..], runs) && (s[1..] == "" || !Letter(u, s[1..][0]))
    ensures Writes(u, s, OneMore(runs))
  {
    var rest := s[1..];
    JoinedOneMore(s, runs);
    if runs == [] && rest != "" { NoRunsNoLetters(u, rest); }
    if rest != "" { assert rest[|rest| - 1] == s[|s| - 1]; }
    forall after ensures Underscored(u, s, after) == Lead(u, s, after) + (Joined(s, OneMore(runs)) + Trail(u, s, OneMore(runs))) {
      assert Underscored(u, s, after) == [s[0]] + (Lead(u, rest, false) + (Joined(rest, runs) + Trail(u, rest, runs)));
      FirstLetterTexts([s[0]], Joined(rest, runs), Trail(u, rest, runs));
    }
  }

  lemma FirstLetterTexts(a: string, j: string, t: string)
    ensures a + ("_" + (j + t)) == "" + ((a + ("_" + j)) + t)
    ensures a + ("_" + ("" + "")) == "" + ((a + "") + "_")
    ensures a + ("" + ("" + "")) == "" + ((a + "") + "")
    ensures a + ("" + (j + t)) == "" + ((a + j) + t)
  {
  }

  lemma JoinedLonger(s: string, runs: seq<Run>)
    requires s != "" && Inside(s[1..], runs) && runs != [] && runs[0].from == 0
    ensures Inside(s, Longer(runs)) && Joined(s, Longer(runs)) == [s[0]] + Joined(s[1..], runs)
  {
    var more := runs[1..];
    JoinedShift(s, more);
    LongerInside(s, runs);
    assert Longer(runs)[1..] == Shift(more);
    FirstSlice(s, runs[0].to);
    FirstInFront([s[0]], s[1..][0..runs[0].to], Joined(s[1..], more));
  }

  lemma FirstSlice(s: string, n: nat)
    requires s != "" && n <= |s| - 1
    ensures s[0..n + 1] == [s[0]] + s[1..][0..n]
  {
  }

  lemma LongerInside(s: string, runs: seq<Run>)
    requires s != "" && Inside(s[1..], runs) && runs != [] && Inside(s, Shift(runs[1..]))
    ensures Inside(s, Longer(runs))
  {
    assert forall i | 0 < i < |Longer(runs)| :: Longer(runs)[i] == Shift(runs[1..])[i - 1];
  }

  lemma FirstInFront(a: string, b: string, c: string)
    ensures (a + b) + "_" + c == a + (b + "_" + c)
  {
  }

  lemma WritesLetterMore(u: Unicode, s: string, runs: seq<Run>)
    requires s != "" && Letter(u, s[0]) && Writes(u, s[1..], runs) && s[1..] != "" && Letter(u, s[1..][0])
    requires runs != [] && runs[0].from == 0
    ensures Writes(u, s, Longer(runs))
  {
    var rest := s[1..];
    JoinedLonger(s, runs);
    assert rest[|rest| - 1] == s[|s| - 1];
    forall after ensures Underscored(u, s, after) == Lead(u, s, after) + (Joined(s, Longer(runs)) + Trail(u, s, Longer(runs))) {
      assert Underscored(u, s, after) == [s[0]] + (Lead(u, rest, false) + (Joined(rest, runs) + Trail(u, rest, runs)));
      FirstLetterTexts([s[0]], Joined(rest, runs), Trail(u, rest, runs));
    }
  }

  lemma {:induction false} RunsOf(u: Unicode, s: string) returns (runs: seq<Run>)
    ensures IsRuns(u, s, runs) && Writes(u, s, runs)
  {
    if s == "" {
      runs := [];
    } else {
      var rest := RunsOf(u, s[1..]);
      if !Letter(u, s[0]) {
        NoLetterFirst(u, s, rest);
        WritesNoLetter(u, s, rest);
        runs := Shift(rest);
      } else if s[1..] == "" || !Letter(u, s[1..][0]) {
        LetterFirst(u, s, rest);
        WritesLetterFirst(u, s, rest);
        runs := OneMore(rest);
      } else {
        LetterMore(u, s, rest);
        WritesLetterMore(u, s, rest);
        runs := Longer(rest);
      }
    }
  }

  // ------------------------------------------------------------------
  // Slugs
  // ------------------------------------------------------------------

  lemma {:induction false} JoinedEnds(u: Unicode, s: string, runs: seq<Run>)
    requires IsRuns(u, s, runs) && runs != []
    ensures Joined(s, runs) != "" && Letter(u, Joined(s, runs)[0]) && Letter(u, Joined(s, runs)[|Joined(s, runs)| - 1])
  {
    assert InRuns(runs, runs[0].from) && InRuns(runs, runs[|runs| - 1].to - 1);
    JoinedEndsAt(s, runs);
  }

  lemma {:induction false} JoinedEndsAt(s: string, runs: seq<Run>)
    requires Inside(s, runs) && runs != []
    ensures Joined(s, runs) != "" && Joined(s, runs)[0] == s[runs[0].from]
    ensures Joined(s, runs)[|Joined(s, runs)| - 1] == s[runs[|runs| - 1].to - 1]
  {
    if |runs| > 1 {
      var tail := runs[1..];
      assert Inside(s, tail) && tail[|tail| - 1] == runs[|runs| - 1];
      JoinedEndsAt(s, tail);
      EndsOf(s[runs[0].from..runs[0].to], Joined(s, runs[1..]));
    }
  }

  lemma EndsOf(a: string, b: string)
    requires a != "" && b != ""
    ensures var s := a + "_" + b; s != "" && s[0] == a[0] && s[|s| - 1] == b[|b| - 1]
  {
  }

  lemma TrimsEnds(lead: string, middle: string, trail: string)
    requires (lead == "" || lead == "_") && (trail == "" || trail == "_")
    requires if middle == "" then trail == "" else middle[0] != '_' && middle[|middle| - 1] != '_'
    ensures TrimUnderscores(lead + (middle + trail)) == middle
  {
    var s, t := lead + (middle + trail), middle + trail;
    TrimsTrail(middle, trail);
    assert t == "" || t[0] == middle[0];
    assert TrimLeftUnderscores(t) == t;
    assert lead == "" ==> s == t;
    assert lead == "_" ==> s[1..] == t;
  }

  lemma TrimsTrail(middle: string, trail: string)
    requires trail == "" || trail == "_"
    requires if middle == "" then trail == "" else middle[|middle| - 1] != '_'
    ensures TrimRightUnderscores(middle + trail) == middle
  {
    assert middle + "" == middle;
    if trail == "_" {
      assert (middle + trail)[..|middle + trail| - 1] == middle;
    }
  }

  /** The label without white space at its ends, in lower case. */
  ghost predicate IsLowered(u: Unicode, name: string, front: string, behind: string, lowered: string) {
    && AllSpace(front) && AllSpace(behind) && |name| == |front| + |lowered| + |behind|
    && front <= name && (forall i | 0 <= i < |behind| :: name[|front| + |lowered| + i] == behind[i])
    && (forall i | 0 <= i < |lowered| :: lowered[i] == u.lower(name[|front| + i]))
    && (lowered != "" ==> !IsSpace(name[|front|]) && !IsSpace(name[|front| + |lowered| - 1]))
  }

  lemma NormalizedIsLowered(u: Unicode, name: string) returns (front: string, behind: string)
    ensures IsLowered(u, name, front, behind, NormalizeLabel(u, name))
  {
    front, behind := TrimSpaceMeans(name);
    var middle := TrimSpace(name);
    assert name[|front|..|front| + |middle|] == middle;
    forall i | 0 <= i < |middle| ensures name[|front| + i] == middle[i] {
      assert name[|front|..|front| + |middle|][i] == middle[i];
    }
    forall i | 0 <= i < |behind| ensures name[|front| + |middle| + i] == behind[i] {
      assert name[|front| + |middle|..][i] == behind[i];
    }
  }

  lemma SlugWords(u: Unicode, name: string) returns (runs: seq<Run>)
    requires Lawful(u)
    ensures IsRuns(u, NormalizeLabel(u, name), runs) && NormalizeSlug(u, name) == Joined(NormalizeLabel(u, name), runs)
    ensures runs == [] <==> NormalizeSlug(u, name) == ""
  {
    var lowered := NormalizeLabel(u, name);
    runs := RunsOf(u, lowered);
    if runs != [] { JoinedEnds(u, lowered, runs); }
    assert !Letter(u, '_') by { assert !WordRune(u, '_'); }
    TrimsEnds(Lead(u, lowered, false), Joined(lowered, runs), Trail(u, lowered, runs));
  }

  /** The words of a slug are the label's runs of letters and digits, in lower case and in order. */
  lemma SlugIsWords(u: Unicode, name: string) returns (front: string, behind: string, lowered: string, runs: seq<Run>)
    requires Lawful(u)
    ensures IsLowered(u, name, front, behind, lowered) && IsRuns(u, lowered, runs) && NormalizeSlug(u, name) == Joined(lowered, runs)
  {
    front, behind := NormalizedIsLowered(u, name);
    lowered := NormalizeLabel(u, name);
    runs := SlugWords(u, name);
  }

  // ------------------------------------------------------------------
  // Entries
  // ------------------------------------------------------------------

  /** A label without an entry: known in permissive mode, and in strict mode proposed.  Its
      slug is its words, or the label in lower case when it has none. */
  lemma UnknownLabel(u: Unicode, strict: bool, catalog: Catalog, name: string, valueType: string) returns (front: string, behind: string, lowered: string, runs: seq<Run>)
    requires Lawful(u) && NormalizeLabel(u, name) !in catalog
    ensures IsLowered(u, name, front, behind, lowered) && IsRuns(u, lowered, runs)
    ensures var r, slug := Resolve(u, strict, catalog, name, valueType), if runs == [] then lowered else Joined(lowered, runs);
            && r.property == Property(slug, name, valueType)
            && (strict ==> !r.known && r.proposals == [slug]) && (!strict ==> r.known && r.proposals == [])
  {
    front, behind := NormalizedIsLowered(u, name);
    lowered := NormalizeLabel(u, name);
    runs := SlugWords(u, name);
  }

  // ------------------------------------------------------------------
  // The default labels
  // ------------------------------------------------------------------

  /** `name` is `title` but for letter case and white space around it. */
  ghost predicate SameLabel(u: Unicode, name: string, title: string) {
    exists front, behind :: Around(u, name, title, front, behind)
  }

  ghost predicate Around(u: Unicode, name: string, title: string, front: string, behind: string) {
    && AllSpace(front) && AllSpace(behind) && |name| == |front| + |title| + |behind|
    && (forall i | 0 <= i < |front| :: name[i] == front[i])
    && (forall i | 0 <= i < |title| :: u.lower(name[|front| + i]) == u.lower(title[i]))
    && (forall i | 0 <= i < |behind| :: name[|front| + |title| + i] == behind[i])
  }

  /** Labels that are the same have one key. */
  lemma SameLabelSameKey(u: Unicode, name: string, title: string)
    requires Lawful(u) && SameLabel(u, name, title) && title != "" && !IsSpace(title[0]) && !IsSpace(title[|title| - 1])
    ensures NormalizeLabel(u, name) == LowerText(u, title)
  {
    var front, behind :| Around(u, name, title, front, behind);
    var a, b := NormalizedIsLowered(u, name);
    var n, m := |front|, |title|;
    var lowered := NormalizeLabel(u, name);
    assert IsSpace(u.lower(name[n])) <==> IsSpace(name[n]);
    assert IsSpace(u.lower(name[n + m - 1])) <==> IsSpace(name[n + m - 1]);
    SpaceAround(name, n, m, front, behind);
    SpaceAround(name, |a|, |lowered|, a, b);
    SameMiddle(name, n, m, |a|, |lowered|);
  }

  /** And only they have it. */
  lemma SameKeySameLabel(u: Unicode, name: string, title: string)
    requires NormalizeLabel(u, name) == LowerText(u, title)
    ensures SameLabel(u, name, title)
  {
    var front, behind := NormalizedIsLowered(u, name);
    assert forall i | 0 <= i < |title| :: u.lower(name[|front| + i]) == LowerText(u, title)[i];
    assert Around(u, name, title, front, behind);
  }

  /** Nothing but white space in front of position `n` and behind the next `m` runes. */
  ghost predicate Surrounded(s: string, n: nat, m: nat) {
    n + m <= |s| && (forall i | 0 <= i < n :: IsSpace(s[i])) && forall i | n + m <= i < |s| :: IsSpace(s[i])
  }

  lemma SpaceAround(s: string, n: nat, m: nat, front: string, behind: string)
    requires AllSpace(front) && AllSpace(behind) && |front| == n && |s| == n + m + |behind|
    requires (forall i | 0 <= i < n :: s[i] == front[i]) && forall i | 0 <= i < |behind| :: s[n + m + i] == behind[i]
    ensures Surrounded(s, n, m)
  {
    forall i | n + m <= i < |s| ensures IsSpace(s[i]) {
      var j := i - n - m;
      assert s[n + m + j] == behind[j];
    }
  }

  lemma InMiddle(s: string, n: nat, m: nat, p: nat)
    requires Surrounded(s, n, m) && p < |s| && !IsSpace(s[p])
    ensures n <= p < n + m
  {
  }

  /** White space at both ends of a string can be taken off in one way only. */
  lemma SameMiddle(s: string, n: nat, m: nat, k: nat, l: nat)
    requires Surrounded(s, n, m) && Surrounded(s, k, l) && m > 0
    requires !IsSpace(s[n]) && !IsSpace(s[n + m - 1]) && (l > 0 ==> !IsSpace(s[k]) && !IsSpace(s[k + l - 1]))
    ensures n == k && m == l
  {
    InMiddle(s, k, l, n);
    InMiddle(s, k, l, n + m - 1);
    InMiddle(s, n, m, k);
    InMiddle(s, n, m, k + l - 1);
  }

  // Every slug and every label of the default catalog finds its entry, in any letter case and
  // with white space around it.

  /** In both modes the name finds this property. */
  ghost predicate Finds(u: Unicode, name: string, slug: string, title: string, valueType: string) {
    forall strict, other :: Resolve(u, strict, Fill(u, DEFAULTS), name, other) == Resolution(Property(slug, title, valueType), true, [])
  }

  lemma {:induction false} FillHasTitles(u: Unicode, owner: string -> int, properties: seq<Property>, i: nat)
    requires forall i | 0 <= i < |properties| :: Tidy(u, owner, i, properties[i])
    requires i < |properties|
    ensures NormalizeLabel(u, properties[i].title) in Fill(u, properties) && properties[i].slug in Fill(u, properties)
  {
    var n := |properties| - 1;
    assert Tidy(u, owner, n, properties[n]);
    if i < n {
      FillHasTitles(u, owner, properties[..n], i);
    }
  }

  lemma DefaultKeys(u: Unicode, i: nat)
    requires AsciiLawful(u) && i < |DEFAULTS|
    ensures var c := Fill(u, DEFAULTS);
            && DEFAULTS[i].slug in c && c[DEFAULTS[i].slug] == DEFAULTS[i]
            && NormalizeLabel(u, DEFAULTS[i].title) in c && c[NormalizeLabel(u, DEFAULTS[i].title)] == DEFAULTS[i]
  {
    DefaultsTidy(u);
    FillKeys(u, DefaultOwner, DEFAULTS);
    FillHasTitles(u, DefaultOwner, DEFAULTS, i);
    assert Tidy(u, DefaultOwner, i, DEFAULTS[i]);
  }

  /** A slug or label of entry `i`, however written, finds it. */
  lemma DefaultFinds(u: Unicode, i: nat, name: string)
    requires AsciiLawful(u) && i < |DEFAULTS| && (SameLabel(u, name, DEFAULTS[i].slug) || SameLabel(u, name, DEFAULTS[i].title))
    ensures Finds(u, name, DEFAULTS[i].slug, DEFAULTS[i].title, DEFAULTS[i].valueType)
  {
    DefaultKeys(u, i);
    var t, odd := DefaultTidyAscii(i);
    KeyOfName(u, name, DEFAULTS[i], t);
  }

  lemma KeyOfName(u: Unicode, name: string, p: Property, t: string)
    requires AsciiLawful(u) && AsciiLabel(p.slug, p.slug) && AsciiLabel(p.title, t)
    requires SameLabel(u, name, p.slug) || SameLabel(u, name, p.title)
    ensures NormalizeLabel(u, name) == p.slug || NormalizeLabel(u, name) == NormalizeLabel(u, p.title)
  {
    AsciiNormalized(u, p.slug, p.slug);
    AsciiNormalized(u, p.title, t);
    if SameLabel(u, name, p.slug) {
      SameLabelSameKey(u, name, p.slug);
      assert LowerText(u, p.slug) == p.slug;
    } else {
      SameLabelSameKey(u, name, p.title);
      assert LowerText(u, p.title) == t;
    }
  }

  lemma ItsOwnLabel(u: Unicode, title: string)
    ensures SameLabel(u, title, title)
  {
    assert Around(u, title, title, "", "");
  }

  lemma TitleFinds(u: Unicode, i: nat, title: string, slug: string, valueType: string)
    requires AsciiLawful(u) && i < |DEFAULTS| && DEFAULTS[i] == Property(slug, title, valueType)
    ensures Finds(u, title, slug, title, valueType)
  {
    ItsOwnLabel(u, title);
    DefaultFinds(u, i, title);
  }

  /** The labels and what they find. */
  lemma DefaultLabels(u: Unicode)
    requires AsciiLawful(u)
    ensures Finds(u, "SEC CIK", "sec_cik", "SEC CIK", "string")
    ensures Finds(u, "SEC CUSIP", "sec_cusip", "SEC CUSIP", "string")
    ensures Finds(u, "SEC ISIN", "sec_isin", "SEC ISIN", "string")
    ensures Finds(u, "USD amount", "usd_amount", "USD amount", "number")
    ensures Finds(u, "Date", "date", "Date", "date")
    ensures Finds(u, "Organization name", "org_name", "Organization name", "string")
    ensures Finds(u, "Person name", "person_name", "Person name", "string")
    ensures Finds(u, "DOI", "doi", "DOI", "string")
    ensures Finds(u, "ClinicalTrials.gov NCT ID", "clinicaltrials.gov_nct_id", "ClinicalTrials.gov NCT ID", "string")
    ensures Finds(u, "ISBN-13", "isbn_13", "ISBN-13", "string")
  {
    TitleFinds(u, 0, "SEC CIK", "sec_cik", "string");
    TitleFinds(u, 1, "SEC CUSIP", "sec_cusip", "string");
    TitleFinds(u, 2, "SEC ISIN", "sec_isin", "string");
    TitleFinds(u, 3, "USD amount", "usd_amount", "number");
    TitleFinds(u, 4, "Date", "date", "date");
    TitleFinds(u, 5, "Organization name", "org_name", "string");
    TitleFinds(u, 6, "Person name", "person_name", "string");
    TitleFinds(u, 7, "DOI", "doi", "string");
    TitleFinds(u, 8, "ClinicalTrials.gov NCT ID", "clinicaltrials.gov_nct_id", "string");
    TitleFinds(u, 9, "ISBN-13", "isbn_13", "string");
  }
}
