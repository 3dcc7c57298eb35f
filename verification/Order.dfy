/** Byte order on strings, and sorting by a strict weak order as `sort.Slice` does: any
    arrangement in which nothing stands before something smaller. */
module Order {

  predicate Less(a: string, b: string) {
    if b == "" then false
    else if a == "" then true
    else if a[0] != b[0] then a[0] < b[0]
    else Less(a[1..], b[1..])
  }

  lemma {:induction false} LessTotal(a: string, b: string)
    ensures Less(a, b) || Less(b, a) || a == b
    ensures !(Less(a, b) && Less(b, a)) && !Less(a, a)
  {
    if a != "" && b != "" {
      LessTotal(a[1..], b[1..]);
      LessTotal(a[1..], a[1..]);
      if a[0] == b[0] && a[1..] == b[1..] {
        assert a == [a[0]] + a[1..] && b == [b[0]] + b[1..];
      }
    } else if a != "" {
      LessTotal(a[1..], a[1..]);
    }
  }

  lemma {:induction false} LessTransitive(a: string, b: string, c: string)
    requires Less(a, b) && Less(b, c)
    ensures Less(a, c)
  {
    if a != "" && a[0] == b[0] == c[0] {
      LessTransitive(a[1..], b[1..], c[1..]);
    }
  }

  /** Positions from left to right. */
  ghost predicate Ascends(ps: seq<nat>) {
    forall i, j | 0 <= i < j < |ps| :: ps[i] < ps[j]
  }

  /** `a` and `b` agree on their first `n` runes, and then `a` ends or goes on with the smaller one. */
  ghost predicate SmallerFrom(a: string, b: string, n: nat) {
    && n <= |a| && n < |b| && (forall i | 0 <= i < n :: a[i] == b[i])
    && (n == |a| || a[n] < b[n])
  }

  /** The order is by the first rune in which two strings differ, a prefix first. */
  lemma {:induction false} LessMeans(a: string, b: string)
    ensures Less(a, b) <==> exists n: nat :: SmallerFrom(a, b, n)
  {
    if b != "" && a != "" && a[0] == b[0] {
      LessMeans(a[1..], b[1..]);
      if n: nat :| SmallerFrom(a[1..], b[1..], n) {
        forall i | 0 <= i < n + 1 ensures a[i] == b[i] {
          if i > 0 { assert a[i] == a[1..][i - 1] && b[i] == b[1..][i - 1]; }
        }
        assert SmallerFrom(a, b, n + 1);
      }
      if n: nat :| SmallerFrom(a, b, n) {
        assert SmallerFrom(a[1..], b[1..], n - 1);
      }
    } else if b != "" && (a == "" || a[0] < b[0]) {
      assert SmallerFrom(a, b, 0);
    }
  }

  /** What `sort.Slice` asks of its less function. */
  ghost predicate StrictWeak<T(!new)>(less: (T, T) -> bool) {
    && (forall a :: !less(a, a))
    && (forall a, b, c :: less(a, b) && less(b, c) ==> less(a, c))
    && (forall a, b, c :: less(a, c) ==> less(a, b) || less(b, c))
  }

  ghost predicate Ordered<T>(s: seq<T>, less: (T, T) -> bool) {
    forall i, j | 0 <= i < j < |s| :: !less(s[j], s[i])
  }

  method Insert<T(!new)>(s: seq<T>, x: T, less: (T, T) -> bool) returns (r: seq<T>)
    requires StrictWeak(less) && Ordered(s, less)
    ensures Ordered(r, less) && multiset(r) == multiset(s) + multiset{x}
  {
    var i := |s|;
    while i > 0 && less(x, s[i - 1])
      invariant 0 <= i <= |s|
      invariant forall j | i <= j < |s| :: less(x, s[j])
    {
      i := i - 1;
    }
    InsertedOrdered(s, i, x, less);
    assert s == s[..i] + s[i..];
    r := s[..i] + [x] + s[i..];
  }

  lemma InsertedOrdered<T(!new)>(s: seq<T>, i: nat, x: T, less: (T, T) -> bool)
    requires StrictWeak(less) && Ordered(s, less) && i <= |s|
    requires forall j | i <= j < |s| :: less(x, s[j])
    requires i > 0 ==> !less(x, s[i - 1])
    ensures Ordered(s[..i] + [x] + s[i..], less)
  {
    forall j | 0 <= j < i ensures !less(x, s[j]) {
      if j < i - 1 {
        var y, z := s[j], s[i - 1];
        assert less(x, y) ==> less(x, z) || less(z, y);
      }
    }
    forall j | i <= j < |s| ensures !less(s[j], x) {
      assert less(x, s[j]) && !less(x, x);
    }
    var r := s[..i] + [x] + s[i..];
    forall a, b | 0 <= a < b < |r| ensures !less(r[b], r[a]) {
      var sa, sb := if a < i then a else a - 1, if b < i then b else b - 1;
      if a != i && b != i { assert r[a] == s[sa] && r[b] == s[sb]; }
    }
  }

  method SortSlice<T(!new)>(s: seq<T>, less: (T, T) -> bool) returns (r: seq<T>)
    requires StrictWeak(less)
    ensures Ordered(r, less) && multiset(r) == multiset(s)
  {
    r := [];
    for i := 0 to |s|
      invariant Ordered(r, less) && multiset(r) == multiset(s[..i])
    {
      assert s[..i + 1] == s[..i] + [s[i]];
      r := Insert(r, s[i], less);
    }
    assert s[..|s|] == s;
  }

  lemma LessStrictWeak()
    ensures StrictWeak(Less)
  {
    forall a: string, b: string, c: string
      ensures !Less(a, a) && (Less(a, b) && Less(b, c) ==> Less(a, c)) && (Less(a, c) ==> Less(a, b) || Less(b, c))
    {
      LessTotal(a, a);
      LessTotal(a, b);
      LessTotal(b, c);
      if Less(a, b) && Less(b, c) { LessTransitive(a, b, c); }
      if Less(a, c) && Less(b, a) { LessTransitive(b, a, c); }
    }
  }

  /** The members of a set, ascending, each once. */
  method SortedMembers(s: set<string>) returns (r: seq<string>)
    ensures forall i, j | 0 <= i < j < |r| :: Less(r[i], r[j])
    ensures forall x :: x in r <==> x in s
  {
    var todo := s;
    var list: seq<string> := [];
    while todo != {}
      invariant todo <= s
      invariant forall x :: x in list <==> x in s && x !in todo
      invariant forall i, j | 0 <= i < j < |list| :: list[i] != list[j]
      decreases todo
    {
      var x :| x in todo;
      list := list + [x];
      todo := todo - {x};
    }
    LessStrictWeak();
    r := SortSlice(list, Less);
    SortedDistinct(list, r);
  }

  lemma SortedDistinct(list: seq<string>, r: seq<string>)
    requires Ordered(r, Less) && multiset(r) == multiset(list)
    requires forall i, j | 0 <= i < j < |list| :: list[i] != list[j]
    ensures forall i, j | 0 <= i < j < |r| :: Less(r[i], r[j])
    ensures forall x :: x in r <==> x in list
  {
    forall x ensures x in r <==> x in list {
      assert x in r <==> x in multiset(r);
      assert x in list <==> x in multiset(list);
    }
    forall i, j | 0 <= i < j < |r| ensures Less(r[i], r[j]) {
      OnceInList(list, r[i]);
      if r[i] == r[j] { CountedTwice(r, i, j); }
      LessTotal(r[i], r[j]);
    }
  }

  lemma CountedTwice<T>(s: seq<T>, i: nat, j: nat)
    requires i < j < |s| && s[i] == s[j]
    ensures multiset(s)[s[i]] >= 2
  {
    assert s == s[..j] + s[j..];
    assert s[i] in s[..j] && s[j] in s[j..];
    assert s[i] in multiset(s[..j]) && s[j] in multiset(s[j..]);
  }

  lemma {:induction false} OnceInList<T>(list: seq<T>, x: T)
    requires forall i, j | 0 <= i < j < |list| :: list[i] != list[j]
    ensures multiset(list)[x] <= 1
  {
    if list != [] {
      var n := |list| - 1;
      OnceInList(list[..n], x);
      assert list == list[..n] + [list[n]];
    }
  }

  lemma SameMembers<T>(s: seq<T>, t: seq<T>)
    requires multiset(s) == multiset(t)
    ensures forall x :: x in s <==> x in t
  {
    assert forall x :: x in s <==> x in multiset(s);
    assert forall x :: x in t <==> x in multiset(t);
  }
}
