/** Conflict detection in briefs: all pairs of statements that say different things about
    the same property of the same entity. */
module Conflicts {
  import opened Order

  datatype Statement = Statement(id: string, entity: string, slug: string, value: string)

  datatype Conflict = Conflict(entity: string, slug: string, valueA: string, valueB: string)

  datatype Key = Key(entity: string, slug: string)

  function KeyOf(s: Statement): Key { Key(s.entity, s.slug) }

  function ConflictKey(c: Conflict): Key { Key(c.entity, c.slug) }

  /** What a pair is reported as. */
  function Report(a: Statement, b: Statement): Conflict {
    Conflict(a.entity, a.slug, a.value, b.value)
  }

  // ------------------------------------------------------------------
  // What should be reported
  // ------------------------------------------------------------------

  ghost predicate DistinctIds(list: seq<Statement>) {
    forall i, j | 0 <= i < j < |list| :: list[i].id != list[j].id
  }

  ghost function Members(list: seq<Statement>): set<Statement> {
    set s | s in list
  }

  /** `a` and `b` clash and are reported as `c`, with the value of the smaller id first. */
  ghost predicate Clash(a: Statement, b: Statement, c: Conflict) {
    KeyOf(a) == KeyOf(b) && a.value != b.value && Less(a.id, b.id) && Report(a, b) == c
  }

  ghost function Pairs(s: set<Statement>, c: Conflict): set<(Statement, Statement)> {
    set a, b | a in s && b in s && Clash(a, b, c) :: (a, b)
  }

  /** One entry for each clashing pair. */
  ghost predicate OncePerPair(list: seq<Statement>, found: multiset<Conflict>) {
    forall c :: found[c] == |Pairs(Members(list), c)|
  }

  // ------------------------------------------------------------------
  // Orders
  // ------------------------------------------------------------------

  predicate ById(a: Statement, b: Statement) { Less(a.id, b.id) }

  predicate ConflictLess(a: Conflict, b: Conflict) {
    if a.entity != b.entity then Less(a.entity, b.entity)
    else if a.slug != b.slug then Less(a.slug, b.slug)
    else Less(a.valueA, b.valueA)
  }

  lemma ByIdStrictWeak()
    ensures StrictWeak(ById)
  {
    LessStrictWeak();
  }

  lemma ConflictTransitive(a: Conflict, b: Conflict, c: Conflict)
    ensures !ConflictLess(a, a)
    ensures ConflictLess(a, b) && ConflictLess(b, c) ==> ConflictLess(a, c)
    ensures ConflictLess(a, c) ==> ConflictLess(a, b) || ConflictLess(b, c)
  {
    LessStrictWeak();
    LessTotal(a.entity, b.entity);
    LessTotal(b.entity, c.entity);
    LessTotal(a.slug, b.slug);
    LessTotal(b.slug, c.slug);
  }

  lemma ConflictStrictWeak()
    ensures StrictWeak(ConflictLess)
  {
    forall a, b, c
      ensures !ConflictLess(a, a)
      ensures ConflictLess(a, b) && ConflictLess(b, c) ==> ConflictLess(a, c)
      ensures ConflictLess(a, c) ==> ConflictLess(a, b) || ConflictLess(b, c)
    {
      ConflictTransitive(a, b, c);
    }
  }

  // ------------------------------------------------------------------
  // One group
  // ------------------------------------------------------------------

  ghost predicate SeenAt(g: seq<Statement>, i: nat, j: nat, c: Conflict, x: int, y: int) {
    0 <= x < y < |g| && (x < i || (x == i && y < j)) && g[x].value != g[y].value && Report(g[x], g[y]) == c
  }

  /** Pairs the nested loops have reported as `c` when they stand at `i`, `j`. */
  ghost function Seen(g: seq<Statement>, i: nat, j: nat, c: Conflict): set<(Statement, Statement)> {
    set x, y | 0 <= x < |g| && 0 <= y < |g| && SeenAt(g, i, j, c, x, y) :: (g[x], g[y])
  }

  lemma InSeen(g: seq<Statement>, i: nat, j: nat, c: Conflict, x: nat, y: nat)
    requires DistinctIds(g) && x < |g| && y < |g|
    ensures (g[x], g[y]) in Seen(g, i, j, c) <==> SeenAt(g, i, j, c, x, y)
  {
    if (g[x], g[y]) in Seen(g, i, j, c) {
      var x', y' :| 0 <= x' < |g| && 0 <= y' < |g| && SeenAt(g, i, j, c, x', y') && (g[x'], g[y']) == (g[x], g[y]);
      assert x' == x && y' == y;
    }
  }

  ghost function Hit(g: seq<Statement>, i: nat, j: nat, c: Conflict): set<(Statement, Statement)>
    requires i < |g| && j < |g|
  {
    if g[i].value != g[j].value && Report(g[i], g[j]) == c then {(g[i], g[j])} else {}
  }

  lemma SeenGrows(g: seq<Statement>, i: nat, j: nat, c: Conflict)
    requires DistinctIds(g) && i < j < |g|
    ensures Seen(g, i, j + 1, c) == Seen(g, i, j, c) + Hit(g, i, j, c)
  {
    forall p ensures p in Seen(g, i, j + 1, c) <==> p in Seen(g, i, j, c) + Hit(g, i, j, c) {
      if x, y :| 0 <= x < |g| && 0 <= y < |g| && (g[x], g[y]) == p {
        InSeen(g, i, j, c, x, y);
        InSeen(g, i, j + 1, c, x, y);
      }
    }
  }

  lemma SeenStep(g: seq<Statement>, i: nat, j: nat, c: Conflict)
    requires DistinctIds(g) && i < j < |g|
    ensures |Seen(g, i, j + 1, c)| == |Seen(g, i, j, c)| + |Hit(g, i, j, c)|
  {
    SeenGrows(g, i, j, c);
    InSeen(g, i, j, c, i, j);
  }

  ghost predicate CountsSeen(out: seq<Conflict>, g: seq<Statement>, i: nat, j: nat) {
    forall c :: multiset(out)[c] == |Seen(g, i, j, c)|
  }

  lemma CountsStep(out: seq<Conflict>, out': seq<Conflict>, g: seq<Statement>, i: nat, j: nat)
    requires DistinctIds(g) && i < j < |g| && CountsSeen(out, g, i, j)
    requires out' == if g[i].value != g[j].value then out + [Report(g[i], g[j])] else out
    ensures CountsSeen(out', g, i, j + 1)
  {
    forall c ensures multiset(out')[c] == |Seen(g, i, j + 1, c)| {
      SeenStep(g, i, j, c);
    }
  }

  lemma RowDone(out: seq<Conflict>, g: seq<Statement>, i: nat)
    requires CountsSeen(out, g, i, |g|)
    ensures CountsSeen(out, g, i + 1, i + 2)
  {
    forall c ensures Seen(g, i, |g|, c) == Seen(g, i + 1, i + 2, c) {
      assert forall x, y :: SeenAt(g, i, |g|, c, x, y) <==> SeenAt(g, i + 1, i + 2, c, x, y);
    }
  }

  lemma NothingSeen(g: seq<Statement>)
    ensures CountsSeen([], g, 0, 1)
  {
    forall c ensures Seen(g, 0, 1, c) == {} {
    }
  }

  /** The inner loop. */
  method PairRow(g: seq<Statement>, i: nat, found: seq<Conflict>) returns (out: seq<Conflict>)
    requires DistinctIds(g) && i < |g| && CountsSeen(found, g, i, i + 1)
    ensures CountsSeen(out, g, i, |g|)
  {
    out := found;
    for j := i + 1 to |g|
      invariant CountsSeen(out, g, i, j)
    {
      out := ReportIfDifferent(g, i, j, out);
    }
  }

  method ReportIfDifferent(g: seq<Statement>, i: nat, j: nat, found: seq<Conflict>) returns (out: seq<Conflict>)
    requires DistinctIds(g) && i < j < |g| && CountsSeen(found, g, i, j)
    ensures CountsSeen(out, g, i, j + 1)
  {
    out := found;
    if g[i].value != g[j].value {
      out := out + [Report(g[i], g[j])];
    }
    CountsStep(found, out, g, i, j);
  }

  /** The nested loops over a group sorted by id. */
  method PairUp(g: seq<Statement>) returns (out: seq<Conflict>)
    requires DistinctIds(g) && Ordered(g, ById) && forall i, j | 0 <= i < j < |g| :: KeyOf(g[i]) == KeyOf(g[j])
    ensures OncePerPair(g, multiset(out))
  {
    out := PairRows(g);
    AllCounted(out, g, LastRow(g));
  }

  function LastRow(g: seq<Statement>): nat {
    if g == [] then 0 else |g| - 1
  }

  /** Row by row. */
  method PairRows(g: seq<Statement>) returns (out: seq<Conflict>)
    requires DistinctIds(g)
    ensures CountsSeen(out, g, LastRow(g), LastRow(g) + 1)
  {
    out := [];
    var i := 0;
    NothingSeen(g);
    while i < |g| - 1
      invariant i <= |g| - 1 || i == 0
      invariant CountsSeen(out, g, i, i + 1)
    {
      out := PairRow(g, i, out);
      RowDone(out, g, i);
      i := i + 1;
    }
    assert i == LastRow(g);
  }

  lemma AllCounted(out: seq<Conflict>, g: seq<Statement>, i: nat)
    requires DistinctIds(g) && Ordered(g, ById) && forall i, j | 0 <= i < j < |g| :: KeyOf(g[i]) == KeyOf(g[j])
    requires i >= |g| - 1 && CountsSeen(out, g, i, i + 1)
    ensures OncePerPair(g, multiset(out))
  {
    forall c ensures multiset(out)[c] == |Pairs(Members(g), c)| {
      AllSeen(g, i, c);
    }
  }

  lemma AllSeen(g: seq<Statement>, i: nat, c: Conflict)
    requires DistinctIds(g) && Ordered(g, ById) && forall i, j | 0 <= i < j < |g| :: KeyOf(g[i]) == KeyOf(g[j])
    requires i >= |g| - 1
    ensures Seen(g, i, i + 1, c) == Pairs(Members(g), c)
  {
    forall a, b | (a, b) in Seen(g, i, i + 1, c) ensures (a, b) in Pairs(Members(g), c) {
      var x, y :| 0 <= x < |g| && 0 <= y < |g| && SeenAt(g, i, i + 1, c, x, y) && (g[x], g[y]) == (a, b);
      IdsAscend(g, x, y);
    }
    forall a, b | (a, b) in Pairs(Members(g), c) ensures (a, b) in Seen(g, i, i + 1, c) {
      var x :| 0 <= x < |g| && g[x] == a;
      var y :| 0 <= y < |g| && g[y] == b;
      IdsAscend(g, x, y);
      InSeen(g, i, i + 1, c, x, y);
    }
  }

  lemma IdsAscend(g: seq<Statement>, x: nat, y: nat)
    requires DistinctIds(g) && Ordered(g, ById) && x < |g| && y < |g|
    ensures Less(g[x].id, g[y].id) <==> x < y
  {
    var a, b := g[x], g[y];
    LessTotal(a.id, b.id);
    assert x < y ==> !ById(b, a);
    assert y < x ==> !ById(a, b);
  }

  // ------------------------------------------------------------------
  // All groups
  // ------------------------------------------------------------------

  function WithKey(list: seq<Statement>, k: Key): seq<Statement> {
    if list == [] then []
    else
      var s := list[|list| - 1];
      WithKey(list[..|list| - 1], k) + if KeyOf(s) == k then [s] else []
  }

  lemma {:induction false} WithKeyMembers(list: seq<Statement>, k: Key)
    ensures forall s :: s in WithKey(list, k) <==> s in list && KeyOf(s) == k
    ensures DistinctIds(list) ==> DistinctIds(WithKey(list, k))
  {
    if list != [] {
      var n := |list| - 1;
      WithKeyMembers(list[..n], k);
      assert list == list[..n] + [list[n]];
      if DistinctIds(list) {
        assert forall s | s in list[..n] :: s.id != list[n].id;
      }
    }
  }

  ghost predicate Grouped(list: seq<Statement>, byKey: map<Key, seq<Statement>>) {
    && (forall k | k in byKey :: byKey[k] == WithKey(list, k))
    && (forall k | k !in byKey :: WithKey(list, k) == [])
  }

  method GroupByKey(list: seq<Statement>) returns (byKey: map<Key, seq<Statement>>)
    ensures Grouped(list, byKey)
  {
    byKey := map[];
    for i := 0 to |list|
      invariant Grouped(list[..i], byKey)
    {
      assert list[..i + 1][..i] == list[..i];
      var k := KeyOf(list[i]);
      byKey := byKey[k := (if k in byKey then byKey[k] else []) + [list[i]]];
    }
    assert list[..|list|] == list;
  }

  /** Only statements with the key of a conflict take part in it. */
  lemma PairsOfKey(list: seq<Statement>, g: seq<Statement>, c: Conflict)
    requires multiset(g) == multiset(WithKey(list, ConflictKey(c)))
    ensures Pairs(Members(g), c) == Pairs(Members(list), c)
  {
    WithKeyMembers(list, ConflictKey(c));
    SameMembers(g, WithKey(list, ConflictKey(c)));
  }

  /** What the loop over the groups has found when `todo` is left. */
  ghost predicate FoundSoFar(list: seq<Statement>, byKey: map<Key, seq<Statement>>, todo: set<Key>, found: multiset<Conflict>) {
    forall c :: found[c] == if ConflictKey(c) in byKey && ConflictKey(c) !in todo then |Pairs(Members(list), c)| else 0
  }

  lemma GroupAdds(list: seq<Statement>, byKey: map<Key, seq<Statement>>, todo: set<Key>, k: Key, g: seq<Statement>, out: multiset<Conflict>, found: multiset<Conflict>)
    requires Grouped(list, byKey) && k in todo && k in byKey
    requires multiset(g) == multiset(byKey[k]) && OncePerPair(g, out)
    requires FoundSoFar(list, byKey, todo, found)
    ensures FoundSoFar(list, byKey, todo - {k}, found + out)
  {
    forall c ensures out[c] == if ConflictKey(c) == k then |Pairs(Members(list), c)| else 0 {
      if ConflictKey(c) == k {
        PairsOfKey(list, g, c);
      } else {
        OtherKey(list, g, k, c);
      }
    }
  }

  lemma OtherKey(list: seq<Statement>, g: seq<Statement>, k: Key, c: Conflict)
    requires multiset(g) == multiset(WithKey(list, k)) && ConflictKey(c) != k
    ensures Pairs(Members(g), c) == {}
  {
    WithKeyMembers(list, k);
    SameMembers(g, WithKey(list, k));
  }

  lemma AllGroupsDone(list: seq<Statement>, byKey: map<Key, seq<Statement>>, found: multiset<Conflict>)
    requires Grouped(list, byKey) && FoundSoFar(list, byKey, {}, found)
    ensures OncePerPair(list, found)
  {
    forall c ensures found[c] == |Pairs(Members(list), c)| {
      if ConflictKey(c) !in byKey {
        WithKeyMembers(list, ConflictKey(c));
        assert Pairs(Members(list), c) == {};
      }
    }
  }

  /** A group of fewer than two statements has no pair. */
  lemma SmallGroup(g: seq<Statement>)
    requires |g| < 2
    ensures OncePerPair(g, multiset{})
  {
    forall c ensures Pairs(Members(g), c) == {} {
      forall a: Statement ensures !Less(a.id, a.id) { LessTotal(a.id, a.id); }
    }
  }

  /** Sorted copies keep ids distinct and stay in the group. */
  lemma SortedGroup(list: seq<Statement>, k: Key, g: seq<Statement>)
    requires DistinctIds(list) && multiset(g) == multiset(WithKey(list, k))
    ensures DistinctIds(g) && forall i, j | 0 <= i < j < |g| :: KeyOf(g[i]) == KeyOf(g[j])
  {
    WithKeyMembers(list, k);
    SameMembers(g, WithKey(list, k));
    assert forall i | 0 <= i < |g| :: g[i] in WithKey(list, k);
    DistinctPermuted(WithKey(list, k), g);
  }

  lemma DistinctPermuted(s: seq<Statement>, t: seq<Statement>)
    requires DistinctIds(s) && multiset(t) == multiset(s)
    ensures DistinctIds(t)
  {
    SameMembers(s, t);
    forall i, j | 0 <= i < j < |t| ensures t[i].id != t[j].id {
      OnceInList(s, t[i]);
      if t[i] == t[j] { CountedTwice(t, i, j); }
      assert t[i] in s && t[j] in s;
      var x :| 0 <= x < |s| && s[x] == t[i];
      var y :| 0 <= y < |s| && s[y] == t[j];
    }
  }

  /** For distinct statement ids: one entry for each unordered pair of statements with equal
      entity and property and different values, the value of the smaller id first, sorted
      by entity, slug and first value.  The groups are visited in any order. */
  method DetectConflicts(list: seq<Statement>) returns (conflicts: seq<Conflict>)
    requires DistinctIds(list)
    ensures OncePerPair(list, multiset(conflicts))
    ensures Ordered(conflicts, ConflictLess)
    ensures forall c :: multiset(conflicts)[c] == |ClashingPairs(list, c)|
    ensures InKeyOrder(conflicts)
  {
    var byKey := GroupByKey(list);
    var found: seq<Conflict> := [];
    var todo := byKey.Keys;
    ByIdStrictWeak();
    ConflictStrictWeak();
    while todo != {}
      invariant todo <= byKey.Keys
      invariant FoundSoFar(list, byKey, todo, multiset(found))
      decreases todo
    {
      var k :| k in todo;
      var g := byKey[k];
      var out: seq<Conflict> := [];
      if |g| < 2 {
        SmallGroup(g);
      } else {
        g := SortSlice(g, ById);
        SortedGroup(list, k, g);
        out := PairUp(g);
      }
      GroupAdds(list, byKey, todo, k, g, multiset(out), multiset(found));
      found := found + out;
      todo := todo - {k};
    }
    AllGroupsDone(list, byKey, multiset(found));
    conflicts := SortSlice(found, ConflictLess);
    OrderedInKeyOrder(conflicts);
    PairsClash(list);
  }

  /** The pairs reported as `c`: one entity, one property, two values, the smaller id first. */
  ghost function ClashingPairs(list: seq<Statement>, c: Conflict): set<(Statement, Statement)> {
    set a, b | a in list && b in list && a.entity == b.entity && a.slug == b.slug && a.value != b.value && Less(a.id, b.id) &&
      c == Conflict(a.entity, a.slug, a.value, b.value) :: (a, b)
  }

  lemma PairsClash(list: seq<Statement>)
    ensures forall c :: Pairs(Members(list), c) == ClashingPairs(list, c)
  {
  }

  /** Entities ascend, under one entity the slugs, under one slug the first values. */
  ghost predicate InKeyOrder(conflicts: seq<Conflict>) {
    forall i, j | 0 <= i < j < |conflicts| :: NotAfter(conflicts[i], conflicts[j])
  }

  ghost predicate NotAfter(a: Conflict, b: Conflict) {
    || Less(a.entity, b.entity)
    || (a.entity == b.entity && Less(a.slug, b.slug))
    || (a.entity == b.entity && a.slug == b.slug && (Less(a.valueA, b.valueA) || a.valueA == b.valueA))
  }

  lemma OrderedInKeyOrder(conflicts: seq<Conflict>)
    ensures Ordered(conflicts, ConflictLess) <==> InKeyOrder(conflicts)
  {
    forall a: Conflict, b: Conflict ensures !ConflictLess(b, a) <==> NotAfter(a, b) {
      LessTotal(a.entity, b.entity);
      LessTotal(a.slug, b.slug);
      LessTotal(a.valueA, b.valueA);
    }
  }

  // ------------------------------------------------------------------
  // Order
  // ------------------------------------------------------------------

  /** The entries depend on neither the order of the statements nor that of the groups. */
  lemma OrderFree(list: seq<Statement>, list': seq<Statement>, found: multiset<Conflict>, found': multiset<Conflict>)
    requires forall s :: s in list <==> s in list'
    requires OncePerPair(list, found) && OncePerPair(list', found')
    ensures found == found'
  {
    assert Members(list) == Members(list');
    forall c ensures found[c] == found'[c] {
    }
  }

  ghost predicate Tied(a: Conflict, b: Conflict) {
    a != b && !ConflictLess(a, b) && !ConflictLess(b, a)
  }

  lemma TiedMeans(a: Conflict, b: Conflict)
    ensures Tied(a, b) <==> a.entity == b.entity && a.slug == b.slug && a.valueA == b.valueA && a.valueB != b.valueB
  {
    LessTotal(a.entity, b.entity);
    LessTotal(a.slug, b.slug);
    LessTotal(a.valueA, b.valueA);
  }

  /** Two sorted outputs with the same entries are equal when no two entries tie. */
  lemma {:induction false} NoTiesOneOrder(s: seq<Conflict>, t: seq<Conflict>)
    requires multiset(s) == multiset(t) && Ordered(s, ConflictLess) && Ordered(t, ConflictLess)
    requires !HasTies(multiset(s))
    ensures s == t
  {
    SameMembers(s, t);
    if s == [] {
      assert |multiset(t)| == 0;
    } else {
      assert s[0] in s && |multiset(t)| > 0 && t != [] && t[0] in t;
      assert |s| == |multiset(s)| == |t|;
      SameFirstEntry(s, t);
      TailMultiset(s);
      TailMultiset(t);
      NoTiesOneOrder(s[1..], t[1..]);
    }
  }

  lemma SameFirstEntry(s: seq<Conflict>, t: seq<Conflict>)
    requires s != [] && t != [] && s[0] in t && t[0] in s
    requires Ordered(s, ConflictLess) && Ordered(t, ConflictLess) && !HasTies(multiset(s))
    ensures s[0] == t[0]
  {
    FirstLeast(s, t[0]);
    FirstLeast(t, s[0]);
    assert s[0] in multiset(s) && t[0] in multiset(s);
    assert !Tied(s[0], t[0]);
  }

  lemma TailMultiset<T>(s: seq<T>)
    requires s != []
    ensures s == [s[0]] + s[1..] && multiset(s[1..]) == multiset(s) - multiset{s[0]}
  {
    assert s == [s[0]] + s[1..];
  }

  lemma FirstLeast(s: seq<Conflict>, c: Conflict)
    requires Ordered(s, ConflictLess) && c in s
    ensures !ConflictLess(c, s[0])
  {
    ConflictTransitive(c, c, c);
  }

  ghost predicate HasTies(found: multiset<Conflict>) {
    exists x, y | x in found && y in found :: Tied(x, y)
  }

  ghost predicate IsArrangement(t: seq<Conflict>, s: seq<Conflict>) {
    multiset(t) == multiset(s) && Ordered(t, ConflictLess)
  }

  /** The order of the output is settled by its entries exactly when none of them tie: two
      different entries with the same entity, slug and first value can come either way. */
  lemma OrderSettledIffNoTies(s: seq<Conflict>)
    requires Ordered(s, ConflictLess)
    ensures (forall t | IsArrangement(t, s) :: t == s) <==> !HasTies(multiset(s))
  {
    if !HasTies(multiset(s)) {
      forall t | IsArrangement(t, s) ensures t == s {
        NoTiesOneOrder(s, t);
      }
    } else {
      var a, b :| a in multiset(s) && b in multiset(s) && Tied(a, b);
      var i :| 0 <= i < |s| && s[i] == a;
      var j :| 0 <= j < |s| && s[j] == b;
      SwapTied(s, i, j);
      assert IsArrangement(s[i := s[j]][j := s[i]], s);
    }
  }

  lemma SwapTied(s: seq<Conflict>, i: nat, j: nat)
    requires Ordered(s, ConflictLess) && i < |s| && j < |s| && Tied(s[i], s[j])
    ensures var t := s[i := s[j]][j := s[i]];
            multiset(t) == multiset(s) && Ordered(t, ConflictLess) && t != s
  {
    var t := s[i := s[j]][j := s[i]];
    TiedMeans(s[i], s[j]);
    assert t[i] == s[j];
    forall x, y | 0 <= x < y < |t| ensures !ConflictLess(t[y], t[x]) {
      SameRank(s, t, i, j, x);
      SameRank(s, t, i, j, y);
      assert !ConflictLess(s[y], s[x]);
    }
  }

  lemma SameRank(s: seq<Conflict>, t: seq<Conflict>, i: nat, j: nat, x: nat)
    requires i < |s| && j < |s| && Tied(s[i], s[j]) && t == s[i := s[j]][j := s[i]] && x < |s|
    ensures t[x].entity == s[x].entity && t[x].slug == s[x].slug && t[x].valueA == s[x].valueA
  {
    TiedMeans(s[i], s[j]);
  }

  // ------------------------------------------------------------------
  // Ties, seen from the statements
  // ------------------------------------------------------------------

  /** `a` and `b` are reported, `a` first. */
  ghost predicate Reported(list: seq<Statement>, a: Statement, b: Statement) {
    a in list && b in list && Clash(a, b, Report(a, b))
  }

  ghost predicate IsReport(list: seq<Statement>, x: Conflict) {
    exists a, b | Reported(list, a, b) :: Report(a, b) == x
  }

  ghost predicate SameFirst(list: seq<Statement>, a: Statement, b: Statement, c: Statement, d: Statement) {
    Reported(list, a, b) && Reported(list, c, d) && KeyOf(a) == KeyOf(c) && a.value == c.value && b.value != d.value
  }

  /** Two reported pairs with the same key and first value differ in the second. */
  ghost predicate SharedFirst(list: seq<Statement>) {
    exists a, b, c, d :: SameFirst(list, a, b, c, d)
  }

  ghost predicate FoundReports(list: seq<Statement>, found: multiset<Conflict>) {
    forall x :: x in found <==> IsReport(list, x)
  }

  lemma FoundIffReported(list: seq<Statement>, found: multiset<Conflict>)
    requires OncePerPair(list, found)
    ensures FoundReports(list, found)
  {
    forall x ensures x in found <==> IsReport(list, x) {
      PairsReport(list, x);
    }
  }

  lemma PairsReport(list: seq<Statement>, x: Conflict)
    ensures |Pairs(Members(list), x)| > 0 <==> IsReport(list, x)
  {
    var pairs := Pairs(Members(list), x);
    if p :| p in pairs {
      assert Reported(list, p.0, p.1) && Report(p.0, p.1) == x;
    }
    if a, b :| Reported(list, a, b) && Report(a, b) == x {
      assert (a, b) in pairs;
    }
  }

  lemma TiedReports(a: Statement, b: Statement, c: Statement, d: Statement)
    requires a.entity == b.entity && a.slug == b.slug && c.entity == d.entity && c.slug == d.slug
    ensures Tied(Report(a, b), Report(c, d)) <==> KeyOf(a) == KeyOf(c) && a.value == c.value && b.value != d.value
  {
    TiedMeans(Report(a, b), Report(c, d));
  }

  lemma TiesShareFirst(list: seq<Statement>, found: multiset<Conflict>, x: Conflict, y: Conflict)
    requires FoundReports(list, found) && x in found && y in found && Tied(x, y)
    ensures SharedFirst(list)
  {
    var a, b :| Reported(list, a, b) && Report(a, b) == x;
    var c, d :| Reported(list, c, d) && Report(c, d) == y;
    TiedReports(a, b, c, d);
    assert SameFirst(list, a, b, c, d);
  }

  lemma SharedFirstTies(list: seq<Statement>, found: multiset<Conflict>, a: Statement, b: Statement, c: Statement, d: Statement)
    requires FoundReports(list, found) && SameFirst(list, a, b, c, d)
    ensures Report(a, b) in found && Report(c, d) in found && Tied(Report(a, b), Report(c, d))
  {
    TiedReports(a, b, c, d);
    assert IsReport(list, Report(a, b)) && IsReport(list, Report(c, d));
  }

  /** Two entries of the output tie exactly when the statements hold two such pairs. */
  lemma TiesIffSharedFirst(list: seq<Statement>, found: multiset<Conflict>)
    requires OncePerPair(list, found)
    ensures HasTies(found) <==> SharedFirst(list)
  {
    FoundIffReported(list, found);
    if x, y :| x in found && y in found && Tied(x, y) {
      TiesShareFirst(list, found, x, y);
    }
    if a, b, c, d :| SameFirst(list, a, b, c, d) {
      SharedFirstTies(list, found, a, b, c, d);
    }
  }

  /** What `DetectConflicts` may answer. */
  ghost predicate Answers(list: seq<Statement>, conflicts: seq<Conflict>) {
    OncePerPair(list, multiset(conflicts)) && Ordered(conflicts, ConflictLess)
  }

  /** The statements settle the output exactly when they hold no two such pairs. */
  lemma OutputSettledIff(list: seq<Statement>, conflicts: seq<Conflict>)
    requires Answers(list, conflicts)
    ensures (forall t | Answers(list, t) :: t == conflicts) <==> !SharedFirst(list)
  {
    TiesIffSharedFirst(list, multiset(conflicts));
    AnswersAreArrangements(list, conflicts);
    OrderSettledIffNoTies(conflicts);
    if !HasTies(multiset(conflicts)) {
      forall t | Answers(list, t) ensures t == conflicts {
        assert IsArrangement(t, conflicts);
      }
    } else {
      var t :| IsArrangement(t, conflicts) && t != conflicts;
      assert Answers(list, t);
    }
  }

  lemma AnswersAreArrangements(list: seq<Statement>, conflicts: seq<Conflict>)
    requires Answers(list, conflicts)
    ensures forall t :: Answers(list, t) <==> IsArrangement(t, conflicts)
  {
    forall t | Answers(list, t) ensures IsArrangement(t, conflicts) {
      OrderFree(list, list, multiset(t), multiset(conflicts));
    }
  }

  /** Three statements of one entity and slug with three different values: the two reports
      of the smallest id tie, and another output is as good as any given one. */
  lemma ThreeValuesTie(list: seq<Statement>, a: Statement, b: Statement, c: Statement, conflicts: seq<Conflict>)
    requires Answers(list, conflicts)
    requires a in list && b in list && c in list && KeyOf(a) == KeyOf(b) == KeyOf(c)
    requires a.value != b.value && b.value != c.value && a.value != c.value
    requires Less(a.id, b.id) && Less(a.id, c.id)
    ensures Report(a, b) in conflicts && Report(a, c) in conflicts && Tied(Report(a, b), Report(a, c))
    ensures exists t | Answers(list, t) :: t != conflicts
  {
    FoundIffReported(list, multiset(conflicts));
    assert SameFirst(list, a, b, a, c);
    SharedFirstTies(list, multiset(conflicts), a, b, a, c);
    OutputSettledIff(list, conflicts);
  }

  /** The smallest such list.  What the sort's contract leaves open is meant: today's
      `sort.Slice` inserts lists of up to twelve entries one by one, which keeps ties in place. */
  lemma ThreeStatements(entity: string, slug: string, u: string, v: string, w: string)
    requires u != v && v != w && u != w
    ensures var list := [Statement("1", entity, slug, u), Statement("2", entity, slug, v), Statement("3", entity, slug, w)];
            DistinctIds(list) && SharedFirst(list)
  {
    var a, b, c := Statement("1", entity, slug, u), Statement("2", entity, slug, v), Statement("3", entity, slug, w);
    assert SameFirst([a, b, c], a, b, a, c);
  }
}
