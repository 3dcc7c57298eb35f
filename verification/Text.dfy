/** White space, words and joining, as Go's `strings` and `unicode` packages do them. */
module Text {

  /** `unicode.IsSpace` */
  predicate IsSpace(c: char) {
    var n := c as int;
    9 <= n <= 13 || n == 0x20 || n == 0x85 || n == 0xA0 || n == 0x1680 || 0x2000 <= n <= 0x200A ||
    n == 0x2028 || n == 0x2029 || n == 0x202F || n == 0x205F || n == 0x3000
  }

  /** The runes with the property White_Space, one by one. */
  const WHITE_SPACE: string := "\U{9}\U{A}\U{B}\U{C}\U{D}\U{20}\U{85}\U{A0}\U{1680}\U{2000}\U{2001}\U{2002}\U{2003}\U{2004}\U{2005}\U{2006}\U{2007}\U{2008}\U{2009}\U{200A}\U{2028}\U{2029}\U{202F}\U{205F}\U{3000}"

  lemma IsWhiteSpace(c: char)
    ensures IsSpace(c) <==> c in WHITE_SPACE
  {
    var n := c as int;
    if 9 <= n <= 13 {
      assert c == WHITE_SPACE[n - 9];
    } else if 0x2000 <= n <= 0x200A {
      assert c == WHITE_SPACE[n - 0x2000 + 9];
    }
  }

  /** The Unicode tables behind `unicode.ToLower`, `unicode.IsLetter` and `unicode.IsDigit`. */
  datatype Unicode = Unicode(lower: char -> char, isLetter: char -> bool, isDigit: char -> bool)

  predicate WordRune(u: Unicode, c: char) {
    u.isLetter(c) || u.isDigit(c)
  }

  function AsciiLower(c: char): char {
    if 'A' <= c <= 'Z' then c + (0x20 as char) else c
  }

  predicate AsciiWord(c: char) {
    'a' <= c <= 'z' || 'A' <= c <= 'Z' || '0' <= c <= '9'
  }

  /** The Unicode tables on ASCII. */
  ghost predicate AsciiTables(u: Unicode) {
    && (forall c: char | c as int < 128 :: u.lower(c) == AsciiLower(c))
    && (forall c: char | c as int < 128 :: WordRune(u, c) <==> AsciiWord(c))
  }

  function WordLength(s: string): (n: nat)
    ensures n <= |s|
    ensures forall i | 0 <= i < n :: !IsSpace(s[i])
    ensures n < |s| ==> IsSpace(s[n])
  {
    if s == "" || IsSpace(s[0]) then 0 else 1 + WordLength(s[1..])
  }

  /** `strings.Fields` */
  function Fields(s: string): (words: seq<string>)
    ensures forall w | w in words :: IsWord(w)
    decreases |s|
  {
    if s == "" then []
    else if IsSpace(s[0]) then Fields(s[1..])
    else [s[..WordLength(s)]] + Fields(s[WordLength(s)..])
  }

  predicate IsWord(w: string) {
    w != "" && forall c | c in w :: !IsSpace(c)
  }

  /** `strings.Join(words, " ")` */
  function Join(words: seq<string>): string {
    if words == [] then ""
    else if |words| == 1 then words[0]
    else words[0] + " " + Join(words[1..])
  }

  function TrimLeft(s: string): string {
    if s != "" && IsSpace(s[0]) then TrimLeft(s[1..]) else s
  }

  function TrimRight(s: string): string {
    if s != "" && IsSpace(s[|s| - 1]) then TrimRight(s[..|s| - 1]) else s
  }

  /** `strings.TrimSpace` */
  function TrimSpace(s: string): string {
    TrimRight(TrimLeft(s))
  }

  function NonSpace(s: string): string {
    if s == "" then "" else (if IsSpace(s[0]) then "" else [s[0]]) + NonSpace(s[1..])
  }

  ghost predicate AllSpace(s: string) {
    forall i | 0 <= i < |s| :: IsSpace(s[i])
  }

  lemma {:induction false} TrimLeftMeans(s: string)
    ensures var r := TrimLeft(s); |r| <= |s| && s[|s| - |r|..] == r && AllSpace(s[..|s| - |r|]) && (r != "" ==> !IsSpace(r[0]))
  {
    if s != "" && IsSpace(s[0]) {
      TrimLeftMeans(s[1..]);
      var n := |s| - |TrimLeft(s)|;
      assert forall i | 0 < i < n :: s[..n][i] == s[1..][..n - 1][i - 1];
    }
  }

  lemma {:induction false} TrimRightMeans(s: string)
    ensures var r := TrimRight(s); |r| <= |s| && s[..|r|] == r && AllSpace(s[|r|..]) && (r != "" ==> !IsSpace(r[|r| - 1]))
  {
    if s != "" && IsSpace(s[|s| - 1]) {
      TrimRightMeans(s[..|s| - 1]);
      var n := |TrimRight(s)|;
      forall i | 0 <= i < |s| - n ensures IsSpace(s[n..][i]) {
        if i < |s| - 1 - n { assert s[n..][i] == s[..|s| - 1][n..][i]; }
      }
    }
  }

  /** `TrimSpace` cuts white space off both ends and nothing else; a blank string is cut to nothing. */
  lemma TrimSpaceMeans(s: string) returns (front: string, behind: string)
    ensures s == front + TrimSpace(s) + behind && AllSpace(front) && AllSpace(behind)
    ensures TrimSpace(s) != "" ==> !IsSpace(TrimSpace(s)[0]) && !IsSpace(TrimSpace(s)[|TrimSpace(s)| - 1])
    ensures TrimSpace(s) == "" <==> AllSpace(s)
  {
    var middle := TrimLeft(s);
    TrimLeftMeans(s);
    TrimRightMeans(middle);
    front, behind := s[..|s| - |middle|], middle[|TrimRight(middle)|..];
    if TrimSpace(s) == "" {
      assert s == front + behind;
    }
  }

  /** Words separated by single blanks: no other space anywhere, none at the ends,
      never two together. */
  predicate Normalized(s: string) {
    && (s != "" ==> !IsSpace(s[0]) && !IsSpace(s[|s| - 1]))
    && (forall i | 0 <= i < |s| && IsSpace(s[i]) :: s[i] == ' ')
    && (forall i | 0 <= i < |s| - 1 :: !(IsSpace(s[i]) && IsSpace(s[i + 1])))
  }

  lemma WordLengthOf(w: string, rest: string)
    requires IsWord(w) && (rest == "" || IsSpace(rest[0]))
    ensures WordLength(w + rest) == |w|
  {
    var s := w + rest;
    assert forall i | 0 <= i < |w| :: s[i] == w[i] && !IsSpace(s[i]);
    assert rest != "" ==> s[|w|] == rest[0];
  }

  /** Splitting undoes joining. */
  lemma {:induction false} FieldsJoin(words: seq<string>)
    requires forall w | w in words :: IsWord(w)
    ensures Fields(Join(words)) == words
  {
    if words == [] {
    } else if |words| == 1 {
      WordLengthOf(words[0], "");
      assert words[0] + "" == words[0];
      assert words[0][|words[0]|..] == "";
      assert words == [words[0]];
      assert !IsSpace(words[0][0]);
    } else {
      var w := words[0];
      var tail := " " + Join(words[1..]);
      WordLengthOf(w, tail);
      assert w + " " + Join(words[1..]) == w + tail;
      assert (w + tail)[..|w|] == w && (w + tail)[|w|..] == tail;
      assert tail[1..] == Join(words[1..]);
      assert !IsSpace((w + tail)[0]);
      FieldsJoin(words[1..]);
    }
  }

  lemma {:induction false} JoinNormalized(words: seq<string>)
    requires forall w | w in words :: IsWord(w)
    ensures Normalized(Join(words))
    ensures words != [] ==> Join(words) != "" && Join(words)[0] == words[0][0]
  {
    if words != [] {
      assert IsWord(words[0]);
      assert forall i | 0 <= i < |words[0]| :: words[0][i] in words[0];
      if |words| > 1 {
        JoinNormalized(words[1..]);
      }
    }
  }

  lemma {:induction false} TrimNormalized(s: string)
    requires Normalized(s)
    ensures TrimSpace(s) == s
  {
  }

  /** Behind its first word a normalized string goes on with a blank and a normalized rest. */
  lemma NormalizedRest(s: string)
    requires Normalized(s) && s != "" && WordLength(s) < |s|
    ensures 0 < WordLength(s) < |s| - 1 && s[WordLength(s)] == ' '
    ensures Normalized(s[WordLength(s) + 1..]) && s[WordLength(s) + 1..] != ""
  {
    var n := WordLength(s);
    assert s[n] == ' ' && !IsSpace(s[n + 1]);
    NormalizedSuffix(s, n + 1);
  }

  lemma NormalizedSuffix(s: string, k: nat)
    requires Normalized(s) && k < |s| && !IsSpace(s[k])
    ensures Normalized(s[k..])
  {
    var rest := s[k..];
    assert rest[0] == s[k] && rest[|rest| - 1] == s[|s| - 1];
    forall i | 0 <= i < |rest| && IsSpace(rest[i]) ensures rest[i] == ' ' {
      assert rest[i] == s[k + i];
    }
    forall i | 0 <= i < |rest| - 1 ensures !(IsSpace(rest[i]) && IsSpace(rest[i + 1])) {
      var j := k + i;
      assert rest[i] == s[j] && rest[i + 1] == s[j + 1];
    }
  }

  /** Re-spacing a normalized string changes nothing. */
  lemma {:induction false} RejoinNormalized(s: string)
    requires Normalized(s)
    ensures Join(Fields(s)) == s
    decreases |s|
  {
    if s != "" {
      var n := WordLength(s);
      if n == |s| {
        assert s[..n] == s && s[n..] == "";
      } else {
        var rest := s[n + 1..];
        NormalizedRest(s);
        RejoinNormalized(rest);
        assert s[n..][1..] == rest;
        assert Fields(s) == [s[..n]] + Fields(rest);
        assert s == s[..n] + " " + rest;
      }
    }
  }

  lemma {:induction false} NonSpaceAppend(a: string, b: string)
    ensures NonSpace(a + b) == NonSpace(a) + NonSpace(b)
  {
    if a == "" {
      assert a + b == b;
    } else {
      assert (a + b)[1..] == a[1..] + b;
      NonSpaceAppend(a[1..], b);
    }
  }

  /** Re-spacing loses, adds and reorders no character. */
  lemma {:induction false} FieldsKeepNonSpace(s: string)
    ensures NonSpace(Join(Fields(s))) == NonSpace(s)
    decreases |s|
  {
    if s == "" {
    } else if IsSpace(s[0]) {
      FieldsKeepNonSpace(s[1..]);
    } else {
      var n := WordLength(s);
      var rest := Fields(s[n..]);
      FieldsKeepNonSpace(s[n..]);
      assert s == s[..n] + s[n..];
      NonSpaceAppend(s[..n], s[n..]);
      if rest == [] {
        assert Join(Fields(s)) == s[..n];
        assert NonSpace(s[n..]) == "";
        assert NonSpace(s[..n]) + "" == NonSpace(s[..n]);
      } else {
        assert Fields(s)[1..] == rest;
        assert Join(Fields(s)) == s[..n] + (" " + Join(rest));
        NonSpaceAppend(s[..n], " " + Join(rest));
        NonSpaceAppend(" ", Join(rest));
        assert NonSpace(" ") == "";
      }
    }
  }

  lemma {:induction false} FieldsKeepMembers(s: string, c: char)
    requires c in Join(Fields(s))
    ensures c in s || c == ' '
    decreases |s|
  {
    if s == "" {
    } else if IsSpace(s[0]) {
      FieldsKeepMembers(s[1..], c);
    } else {
      var n := WordLength(s);
      assert Fields(s)[1..] == Fields(s[n..]);
      if c in s[..n] {
      } else if Fields(s[n..]) != [] && c in Join(Fields(s[n..])) {
        FieldsKeepMembers(s[n..], c);
      }
    }
  }
}
