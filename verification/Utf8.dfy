/**
 UTF-8 as Go reads it: a string is any byte sequence, `range` over it yields one
 rune per valid sequence (section 3 of RFC 3629) and one U+FFFD of width 1 per
 byte that starts no valid sequence.  Dafny's `char` is a Unicode scalar value,
 which is exactly what such a loop yields.
 */
module Utf8 {

  newtype byte = x: int | 0 <= x < 256

  type Bytes = seq<byte>

  const RUNE_ERROR: char := 0xFFFD as char

  predicate Continuation(b: byte) {
    0x80 <= b < 0xC0
  }

  /** The second byte allowed after `lead`; it excludes overlong forms, surrogates
      and everything past U+10FFFF. */
  predicate SecondByte(lead: byte, b: byte) {
    if lead == 0xE0 then 0xA0 <= b < 0xC0
    else if lead == 0xED then 0x80 <= b < 0xA0
    else if lead == 0xF0 then 0x90 <= b < 0xC0
    else if lead == 0xF4 then 0x80 <= b < 0x90
    else Continuation(b)
  }

  /** Length of the valid sequence at the front of `s`, 0 when there is none. */
  function ValidWidth(s: Bytes): (w: nat)
    ensures w <= 4 && w <= |s|
  {
    if s == [] then 0
    else if s[0] < 0x80 then 1
    else if 0xC2 <= s[0] < 0xE0 && |s| >= 2 && Continuation(s[1]) then 2
    else if 0xE0 <= s[0] < 0xF0 && |s| >= 3 && SecondByte(s[0], s[1]) && Continuation(s[2]) then 3
    else if 0xF0 <= s[0] < 0xF5 && |s| >= 4 && SecondByte(s[0], s[1]) && Continuation(s[2]) && Continuation(s[3]) then 4
    else 0
  }

  /** How far `range` advances over the front of `s`. */
  function Width(s: Bytes): (w: nat)
    requires s != []
    ensures 1 <= w <= 4 && w <= |s|
  {
    if ValidWidth(s) == 0 then 1 else ValidWidth(s)
  }

  function Low6(b: byte): int {
    b as int % 64
  }

  /** The rune `range` yields at the front of `s`. */
  function FirstRune(s: Bytes): char
    requires s != []
  {
    match ValidWidth(s)
    case 0 => RUNE_ERROR
    case 1 => s[0] as char
    case 2 => ((s[0] as int - 0xC0) * 64 + Low6(s[1])) as char
    case 3 => ((s[0] as int - 0xE0) * 4096 + Low6(s[1]) * 64 + Low6(s[2])) as char
    case _ => ((s[0] as int - 0xF0) * 262144 + Low6(s[1]) * 4096 + Low6(s[2]) * 64 + Low6(s[3])) as char
  }

  /** `utf8.RuneCountInString` */
  function RuneCount(s: Bytes): nat {
    if s == [] then 0 else 1 + RuneCount(s[Width(s)..])
  }

  /** All runes of `s`. */
  function Decode(s: Bytes): (text: string)
    ensures |text| == RuneCount(s)
  {
    if s == [] then "" else [FirstRune(s)] + Decode(s[Width(s)..])
  }

  function EncodeRune(c: char): (s: Bytes)
    ensures 1 <= |s| <= 4
  {
    var n := c as int;
    if n < 0x80 then [n as byte]
    else if n < 0x800 then [(0xC0 + n / 64) as byte, (0x80 + n % 64) as byte]
    else if n < 0x10000 then [(0xE0 + n / 4096) as byte, (0x80 + n / 64 % 64) as byte, (0x80 + n % 64) as byte]
    else [(0xF0 + n / 262144) as byte, (0x80 + n / 4096 % 64) as byte, (0x80 + n / 64 % 64) as byte, (0x80 + n % 64) as byte]
  }

  function Encode(text: string): Bytes {
    if text == "" then [] else EncodeRune(text[0]) + Encode(text[1..])
  }

  /** `utf8.ValidString`: no byte of `s` decodes to an error of width 1. */
  predicate Valid(s: Bytes) {
    s == [] || (ValidWidth(s) > 0 && Valid(s[Width(s)..]))
  }

  /** Byte position of rune number `k`. */
  function ByteOffset(s: Bytes, k: nat): (b: nat)
    requires k <= RuneCount(s)
    ensures b <= |s|
  {
    if k == 0 then 0 else Width(s) + ByteOffset(s[Width(s)..], k - 1)
  }

  /** `b` is where some rune of `s` starts, or its end. */
  predicate Boundary(s: Bytes, b: nat) {
    b == 0 || (s != [] && Width(s) <= b && Boundary(s[Width(s)..], b - Width(s)))
  }

  // ------------------------------------------------------------------
  // Encoding and decoding
  // ------------------------------------------------------------------

  lemma TwoBytesDecode(n: int, s: Bytes)
    requires 0x80 <= n < 0x800 && |s| >= 2
    requires s[0] as int == 0xC0 + n / 64 && s[1] as int == 0x80 + n % 64
    ensures ValidWidth(s) == 2 && FirstRune(s) as int == n
  {
  }

  lemma ThreeBytesDecode(n: int, s: Bytes)
    requires 0x800 <= n < 0x10000 && !(0xD800 <= n < 0xE000) && |s| >= 3
    requires s[0] as int == 0xE0 + n / 4096 && s[1] as int == 0x80 + n / 64 % 64 && s[2] as int == 0x80 + n % 64
    ensures ValidWidth(s) == 3 && FirstRune(s) as int == n
  {
    var m := n / 64;
    assert n == 64 * m + n % 64;
    assert m == 64 * (n / 4096) + m % 64;
    assert Low6(s[1]) == m % 64 && Low6(s[2]) == n % 64;
  }

  lemma FourBytesDecode(n: int, s: Bytes)
    requires 0x10000 <= n < 0x110000 && |s| >= 4
    requires s[0] as int == 0xF0 + n / 262144 && s[1] as int == 0x80 + n / 4096 % 64
    requires s[2] as int == 0x80 + n / 64 % 64 && s[3] as int == 0x80 + n % 64
    ensures ValidWidth(s) == 4 && FirstRune(s) as int == n
  {
    Digits(n);
    var l, m := n / 4096 % 64, n / 64 % 64;
    assert 0 <= l < 64 && 0 <= m < 64;
    assert Low6(s[1]) == l && Low6(s[2]) == m && Low6(s[3]) == n % 64;
  }

  /** Base 64. */
  lemma Digits(n: nat)
    ensures n == n / 262144 * 262144 + n / 4096 % 64 * 4096 + n / 64 % 64 * 64 + n % 64
  {
    var m := n / 64;
    var l := n / 4096;
    assert l == m / 64 && n / 262144 == l / 64;
    assert n == 64 * m + n % 64;
    assert m == 64 * l + m % 64;
    assert l == 64 * (l / 64) + l % 64;
  }

  lemma EncodedRuneDecodes(c: char, rest: Bytes)
    ensures ValidWidth(EncodeRune(c) + rest) == |EncodeRune(c)|
    ensures FirstRune(EncodeRune(c) + rest) == c
  {
    var n := c as int;
    var e := EncodeRune(c);
    var s := e + rest;
    assert forall i | 0 <= i < |e| :: s[i] == e[i];
    if 0x80 <= n < 0x800 {
      TwoBytesDecode(n, s);
    } else if 0x800 <= n < 0x10000 {
      ThreeBytesDecode(n, s);
    } else if 0x10000 <= n {
      FourBytesDecode(n, s);
    }
  }

  /** Decoding undoes encoding. */
  lemma {:induction false} DecodeEncode(text: string)
    ensures Decode(Encode(text)) == text && Valid(Encode(text))
  {
    if text != "" {
      var rest := Encode(text[1..]);
      EncodedRuneDecodes(text[0], rest);
      assert (EncodeRune(text[0]) + rest)[|EncodeRune(text[0])|..] == rest;
      DecodeEncode(text[1..]);
    }
  }

  lemma TwoBytesReencode(s: Bytes)
    requires ValidWidth(s) == 2
    ensures EncodeRune(FirstRune(s)) == [s[0], s[1]]
  {
    var n := FirstRune(s) as int;
    assert n / 64 == s[0] as int - 0xC0 && n % 64 == Low6(s[1]);
  }

  lemma ThreeBytesReencode(s: Bytes)
    requires ValidWidth(s) == 3
    ensures EncodeRune(FirstRune(s)) == [s[0], s[1], s[2]]
  {
    var n := FirstRune(s) as int;
    assert n % 64 == Low6(s[2]) && n / 64 == (s[0] as int - 0xE0) * 64 + Low6(s[1]);
    assert n / 4096 == n / 64 / 64;
  }

  lemma FourBytesReencode(s: Bytes)
    requires ValidWidth(s) == 4
    ensures EncodeRune(FirstRune(s)) == [s[0], s[1], s[2], s[3]]
  {
    var n := FirstRune(s) as int;
    assert n % 64 == Low6(s[3]);
    assert n / 64 == (s[0] as int - 0xF0) * 4096 + Low6(s[1]) * 64 + Low6(s[2]);
    assert n / 4096 == n / 64 / 64;
    assert n / 4096 == (s[0] as int - 0xF0) * 64 + Low6(s[1]);
    assert n / 262144 == n / 4096 / 64;
  }

  lemma ValidSequenceReencodes(s: Bytes)
    requires ValidWidth(s) > 0
    ensures EncodeRune(FirstRune(s)) == s[..ValidWidth(s)]
  {
    match ValidWidth(s)
    case 1 =>
    case 2 => TwoBytesReencode(s);
    case 3 => ThreeBytesReencode(s);
    case _ => FourBytesReencode(s);
  }

  lemma {:induction false} ValidReencodes(s: Bytes)
    requires Valid(s)
    ensures Encode(Decode(s)) == s
  {
    if s != [] {
      var rest := s[Width(s)..];
      ValidReencodes(rest);
      ValidSequenceReencodes(s);
      assert Decode(s)[1..] == Decode(rest);
      assert s == s[..Width(s)] + rest;
    }
  }

  /** Encoding undoes decoding exactly on the valid strings. */
  lemma EncodeDecode(s: Bytes)
    ensures Valid(s) <==> Encode(Decode(s)) == s
  {
    DecodeEncode(Decode(s));
    if Valid(s) {
      ValidReencodes(s);
    }
  }

  lemma {:induction false} EncodeAppend(a: string, b: string)
    ensures Encode(a + b) == Encode(a) + Encode(b)
  {
    if a == "" {
      assert a + b == b;
    } else {
      assert (a + b)[1..] == a[1..] + b;
      EncodeAppend(a[1..], b);
    }
  }

  /** An ASCII byte occurs in an encoding only as that ASCII rune. */
  lemma {:induction false} AsciiBytesAreRunes(text: string, b: byte)
    requires b < 0x80 && b in Encode(text)
    ensures b as char in text
  {
    if b in EncodeRune(text[0]) {
    } else {
      AsciiBytesAreRunes(text[1..], b);
    }
  }

  /** A byte that starts no valid sequence reads as U+FFFD. */
  lemma InvalidByteReads(s: Bytes)
    requires s != [] && ValidWidth(s) == 0
    ensures Decode(s) == ['\U{FFFD}'] + Decode(s[1..])
  {
  }

  // ------------------------------------------------------------------
  // Offsets
  // ------------------------------------------------------------------

  lemma TakeDrop<T>(s: seq<T>, n: nat, w: nat)
    requires w <= n <= |s|
    ensures s[..n][w..] == s[w..][..n - w]
  {
  }

  lemma DropDrop<T>(s: seq<T>, a: nat, b: nat)
    requires a + b <= |s|
    ensures s[a..][b..] == s[a + b..]
  {
  }

  /** Cutting a string behind its first rune does not change that rune. */
  lemma PrefixKeepsFirstRune(s: Bytes, n: nat)
    requires s != [] && Width(s) <= n <= |s|
    ensures Width(s[..n]) == Width(s) && FirstRune(s[..n]) == FirstRune(s)
    ensures ValidWidth(s[..n]) == ValidWidth(s)
  {
  }

  lemma DecodePrefix(s: Bytes, n: nat)
    requires s != [] && Width(s) <= n <= |s|
    ensures s[..n] != [] && s[..n][Width(s)..] == s[Width(s)..][..n - Width(s)]
    ensures Width(s[..n]) == Width(s)
    ensures Decode(s[..n]) == [FirstRune(s)] + Decode(s[Width(s)..][..n - Width(s)])
  {
    PrefixKeepsFirstRune(s, n);
    TakeDrop(s, n, Width(s));
  }

  lemma {:induction false} RuneIsBoundary(s: Bytes, k: nat)
    requires k <= RuneCount(s)
    ensures Boundary(s, ByteOffset(s, k))
  {
    if k != 0 {
      RuneIsBoundary(s[Width(s)..], k - 1);
    }
  }

  lemma {:induction false} DecodeBefore(s: Bytes, k: nat)
    requires k <= RuneCount(s)
    ensures Decode(s[..ByteOffset(s, k)]) == Decode(s)[..k]
  {
    if k != 0 {
      DecodeBefore(s[Width(s)..], k - 1);
      OffsetOfNext(s, k);
      OneRuneMore(s, ByteOffset(s, k), k);
    }
  }

  lemma OffsetOfNext(s: Bytes, k: nat)
    requires s != [] && 0 < k <= RuneCount(s)
    ensures ByteOffset(s, k) == Width(s) + ByteOffset(s[Width(s)..], k - 1)
  {
  }

  lemma OneRuneMore(s: Bytes, n: nat, k: nat)
    requires s != [] && Width(s) <= n <= |s| && 0 < k <= RuneCount(s)
    requires Decode(s[Width(s)..][..n - Width(s)]) == Decode(s[Width(s)..])[..k - 1]
    ensures Decode(s[..n]) == Decode(s)[..k]
  {
    DecodePrefix(s, n);
    TakeBehind(FirstRune(s), Decode(s[Width(s)..]), k);
  }

  lemma TakeBehind<T>(x: T, s: seq<T>, k: nat)
    requires 0 < k <= |s| + 1
    ensures ([x] + s)[..k] == [x] + s[..k - 1]
  {
  }

  /** What is left of `s` behind its first `k` runes. */
  ghost function Behind(s: Bytes, k: nat): Bytes
    requires k <= RuneCount(s)
  {
    if k == 0 then s else Behind(s[Width(s)..], k - 1)
  }

  lemma {:induction false} BehindIsSuffix(s: Bytes, k: nat)
    requires k <= RuneCount(s)
    ensures Behind(s, k) == s[ByteOffset(s, k)..]
  {
    if k != 0 {
      BehindIsSuffix(s[Width(s)..], k - 1);
      DropDrop(s, Width(s), ByteOffset(s[Width(s)..], k - 1));
    }
  }

  lemma {:induction false} BehindBehind(s: Bytes, k: nat, i: nat)
    requires k + i <= RuneCount(s)
    ensures RuneCount(Behind(s, k)) == RuneCount(s) - k
    ensures Behind(Behind(s, k), i) == Behind(s, k + i)
  {
    if k != 0 {
      BehindBehind(s[Width(s)..], k - 1, i);
    }
  }

  lemma {:induction false} RuneBehind(s: Bytes, k: nat, i: nat)
    requires k + i < RuneCount(s) && i < RuneCount(Behind(s, k))
    ensures Decode(Behind(s, k))[i] == Decode(s)[k + i]
  {
    if k != 0 {
      RuneBehind(s[Width(s)..], k - 1, i);
    }
  }

  lemma BehindDecodes(s: Bytes, k: nat)
    requires k <= RuneCount(s)
    ensures Decode(Behind(s, k)) == Decode(s)[k..]
  {
    BehindBehind(s, k, 0);
    forall i: nat | i < RuneCount(s) - k ensures Decode(Behind(s, k))[i] == Decode(s)[k..][i] {
      RuneBehind(s, k, i);
    }
  }

  lemma DecodeAfter(s: Bytes, k: nat)
    requires k <= |Decode(s)|
    ensures Decode(s[ByteOffset(s, k)..]) == Decode(s)[k..]
  {
    BehindIsSuffix(s, k);
    BehindDecodes(s, k);
  }

  /** Rune positions are boundaries, and decoding splits there. */
  lemma SplitAtRune(s: Bytes, k: nat)
    requires k <= |Decode(s)|
    ensures Boundary(s, ByteOffset(s, k))
    ensures Decode(s[..ByteOffset(s, k)]) == Decode(s)[..k]
    ensures Decode(s[ByteOffset(s, k)..]) == Decode(s)[k..]
  {
    RuneIsBoundary(s, k);
    DecodeBefore(s, k);
    DecodeAfter(s, k);
  }

  lemma {:induction false} BoundaryIsRunePosition(s: Bytes, b: nat)
    requires Boundary(s, b)
    ensures b <= |s| && RuneCount(s[..b]) <= RuneCount(s) && ByteOffset(s, RuneCount(s[..b])) == b
  {
    if b != 0 {
      BoundaryIsRunePosition(s[Width(s)..], b - Width(s));
      FrontCount(s, b);
    }
  }

  /** A front part has its first rune and those of what comes behind it. */
  lemma FrontCount(s: Bytes, b: nat)
    requires s != [] && Width(s) <= b <= |s|
    ensures RuneCount(s[..b]) == 1 + RuneCount(s[Width(s)..][..b - Width(s)])
  {
    DecodePrefix(s, b);
  }

  /** Byte positions are strictly increasing in the rune number. */
  lemma {:induction false} ByteOffsetMonotone(s: Bytes, i: nat, j: nat)
    requires i < j <= RuneCount(s)
    ensures ByteOffset(s, i) < ByteOffset(s, j)
  {
    if i != 0 {
      ByteOffsetMonotone(s[Width(s)..], i - 1, j - 1);
    }
  }

  lemma {:induction false} LastRunePosition(s: Bytes)
    ensures ByteOffset(s, RuneCount(s)) == |s|
  {
    if s != [] {
      LastRunePosition(s[Width(s)..]);
    }
  }

  lemma EndOffset(s: Bytes)
    ensures ByteOffset(s, |Decode(s)|) == |s| && Boundary(s, |s|)
  {
    LastRunePosition(s);
    RuneIsBoundary(s, RuneCount(s));
  }

  /** The runes between two rune positions are those of the bytes between them. */
  lemma SliceDecodes(s: Bytes, i: nat, j: nat)
    requires i <= j <= |Decode(s)|
    ensures ByteOffset(s, i) <= ByteOffset(s, j)
    ensures Decode(s[ByteOffset(s, i)..ByteOffset(s, j)]) == Decode(s)[i..j]
  {
    if i < j {
      ByteOffsetMonotone(s, i, j);
    }
    var bi, bj := ByteOffset(s, i), ByteOffset(s, j);
    var cut := s[..bj];
    SplitAtRune(s, j);
    SplitAtRune(s, i);
    assert cut[..bi] == s[..bi];
    OffsetInPrefix(s, i, bj);
    SplitAtRune(cut, i);
    assert Decode(cut)[i..] == Decode(s)[i..j];
    assert cut[bi..] == s[bi..bj];
  }

  /** Rune positions up to the cut are those of the whole string. */
  lemma {:induction false} OffsetInPrefix(s: Bytes, i: nat, b: nat)
    requires i <= RuneCount(s) && ByteOffset(s, i) <= b <= |s|
    ensures i <= RuneCount(s[..b]) && ByteOffset(s[..b], i) == ByteOffset(s, i)
  {
    if i != 0 {
      var w := Width(s);
      OffsetInPrefix(s[w..], i - 1, b - w);
      PrefixKeepsFirstRune(s, b);
      TakeDrop(s, b, w);
    }
  }

  lemma {:induction false} ValidPrefix(s: Bytes, k: nat)
    requires Valid(s) && k <= RuneCount(s)
    ensures Valid(s[..ByteOffset(s, k)])
  {
    if k != 0 {
      ValidPrefix(s[Width(s)..], k - 1);
      ValidExtends(s, ByteOffset(s, k));
    }
  }

  lemma ValidExtends(s: Bytes, b: nat)
    requires s != [] && ValidWidth(s) > 0 && Width(s) <= b <= |s| && Valid(s[Width(s)..][..b - Width(s)])
    ensures Valid(s[..b])
  {
    PrefixKeepsFirstRune(s, b);
    TakeDrop(s, b, Width(s));
  }

  lemma {:induction false} ValidBehind(s: Bytes, k: nat)
    requires Valid(s) && k <= RuneCount(s)
    ensures Valid(Behind(s, k))
  {
    if k != 0 {
      ValidBehind(s[Width(s)..], k - 1);
    }
  }

  lemma ValidSuffix(s: Bytes, k: nat)
    requires Valid(s) && k <= RuneCount(s)
    ensures Valid(s[ByteOffset(s, k)..])
  {
    ValidBehind(s, k);
    BehindIsSuffix(s, k);
  }

  /** A slice of a valid string between rune positions is valid. */
  lemma ValidSlice(s: Bytes, i: nat, j: nat)
    requires Valid(s) && i <= j <= |Decode(s)|
    ensures ByteOffset(s, i) <= ByteOffset(s, j)
    ensures Valid(s[ByteOffset(s, i)..ByteOffset(s, j)])
  {
    if i < j {
      ByteOffsetMonotone(s, i, j);
    }
    var bi, bj := ByteOffset(s, i), ByteOffset(s, j);
    ValidPrefix(s, j);
    OffsetInPrefix(s, i, bj);
    ValidSuffix(s[..bj], i);
    assert s[..bj][bi..] == s[bi..bj];
  }

  /** In a valid string a boundary is never a continuation byte, and every other
      position inside the string is one. */
  lemma {:induction false} BoundariesOfValid(s: Bytes, b: nat)
    requires Valid(s) && b < |s|
    ensures Boundary(s, b) <==> !Continuation(s[b])
  {
    var w := Width(s);
    if b >= w {
      BoundariesOfValid(s[w..], b - w);
    }
  }
}
