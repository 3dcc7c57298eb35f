/**
 `ExpandGraph`: the recursive query, evaluated by the working-table algorithm of the
 PostgreSQL manual (section 7.8.2), against bounded reachability.
 */
module Graph {
  import opened Wrappers
  import opened Order

  type Entity = string

  datatype Relation = Relation(tenant: string, source: Entity, target: Entity, confidence: Option<real>)

  const GATE := 0.4

  /** The join and filter conditions on one relation; a missing confidence counts as 0. */
  predicate Usable(r: Relation, tenant: string) {
    r.tenant == tenant && (if r.confidence.Some? then r.confidence.value else 0.0) >= GATE
  }

  datatype Row = Row(entity: Entity, depth: nat)

  // ------------------------------------------------------------------
  // Seeds
  // ------------------------------------------------------------------

  /** `uniqueStrings`: first occurrences in order, blanks dropped. */
  function Unique(values: seq<string>): (u: seq<string>)
    ensures forall x :: x in u <==> x in values && x != ""
    ensures forall i, j | 0 <= i < j < |u| :: u[i] != u[j]
  {
    if values == [] then []
    else
      var n := |values| - 1;
      var u := Unique(values[..n]);
      assert values == values[..n] + [values[n]];
      if values[n] == "" || values[n] in u then u else u + [values[n]]
  }

  /** The first time a value that is not blank occurs. */
  ghost predicate FirstTime(values: seq<string>, p: nat) {
    p < |values| && values[p] != "" && forall q | 0 <= q < p :: values[q] != values[p]
  }

  ghost predicate ListsFirstTimes(values: seq<string>, ps: seq<nat>) {
    Ascends(ps) && forall p: nat :: p in ps <==> FirstTime(values, p)
  }

  ghost predicate ValuesAt(values: seq<string>, ps: seq<nat>, u: seq<string>) {
    |u| == |ps| && forall j | 0 <= j < |ps| :: ps[j] < |values| && u[j] == values[ps[j]]
  }

  lemma FirstTimesStep(values: seq<string>, ps: seq<nat>)
    requires values != [] && ListsFirstTimes(values[..|values| - 1], ps)
    ensures ListsFirstTimes(values, if FirstTime(values, |values| - 1) then ps + [|values| - 1] else ps)
  {
    var n := |values| - 1;
    assert forall p | 0 <= p < n :: values[..n][p] == values[p];
    assert forall p: nat | p < n :: FirstTime(values, p) <==> FirstTime(values[..n], p);
    assert forall j | 0 <= j < |ps| :: ps[j] in ps;
  }

  lemma ValuesAtStep(values: seq<string>, ps: seq<nat>, u: seq<string>)
    requires values != [] && ValuesAt(values[..|values| - 1], ps, u)
    ensures ValuesAt(values, ps, u) && ValuesAt(values, ps + [|values| - 1], u + [values[|values| - 1]])
  {
  }

  lemma NewIsFirstTime(values: seq<string>, n: nat)
    requires n < |values|
    ensures FirstTime(values, n) <==> values[n] != "" && values[n] !in Unique(values[..n])
  {
    assert forall q | 0 <= q < n :: values[..n][q] == values[q];
  }

  /** The seeds in the order in which they first occur. */
  lemma {:induction false} UniqueInOrder(values: seq<string>) returns (ps: seq<nat>)
    ensures ListsFirstTimes(values, ps) && ValuesAt(values, ps, Unique(values))
  {
    if values == [] {
      ps := [];
    } else {
      var n := |values| - 1;
      ps := UniqueInOrder(values[..n]);
      FirstTimesStep(values, ps);
      ValuesAtStep(values, ps, Unique(values[..n]));
      NewIsFirstTime(values, n);
      if FirstTime(values, n) { ps := ps + [n]; }
    }
  }

  method UniqueStrings(values: seq<string>) returns (unique: seq<string>)
    ensures unique == Unique(values)
  {
    var seen: set<string> := {};
    unique := [];
    for i := 0 to |values|
      invariant unique == Unique(values[..i])
      invariant seen == set x | x in unique
    {
      assert values[..i + 1][..i] == values[..i];
      var value := values[i];
      if value == "" || value in seen {
        continue;
      }
      seen := seen + {value};
      unique := unique + [value];
    }
    assert values[..|values|] == values;
  }

  // ------------------------------------------------------------------
  // The recursive term, one level
  // ------------------------------------------------------------------

  datatype Arc = Arc(from: Entity, to: Entity)

  /** The inner subquery: each usable relation in both directions, duplicates kept. */
  function ArcList(rels: seq<Relation>, tenant: string): (arcs: seq<Arc>)
    ensures forall a :: a in arcs <==> Linked(rels, tenant, a.from, a.to)
  {
    if rels == [] then []
    else
      var n := |rels| - 1;
      var r, before := rels[n], ArcList(rels[..n], tenant);
      assert rels == rels[..n] + [r];
      assert Usable(r, tenant) ==> Joins(r, tenant, r.source, r.target) && Joins(r, tenant, r.target, r.source);
      if Usable(r, tenant) then before + [Arc(r.source, r.target), Arc(r.target, r.source)] else before
  }

  /** A relation of the tenant joins the two, in either direction, with a confidence that is
      there and at least 0.4. */
  ghost predicate Joins(r: Relation, tenant: string, x: Entity, y: Entity) {
    && r.tenant == tenant && r.confidence != None && r.confidence.value >= 0.4
    && ((r.source == x && r.target == y) || (r.source == y && r.target == x))
  }

  /** An undirected edge between two entities. */
  ghost predicate Linked(rels: seq<Relation>, tenant: string, x: Entity, y: Entity) {
    exists r | r in rels :: Joins(r, tenant, x, y)
  }

  function Arcs(rels: seq<Relation>, tenant: string): (arcs: set<Arc>)
    ensures forall a :: a in arcs <==> Linked(rels, tenant, a.from, a.to)
  {
    set a | a in ArcList(rels, tenant)
  }

  /** SELECT next_id, depth + 1 FROM working JOIN arcs WHERE depth < max, duplicates discarded. */
  function RecursiveTerm(arcs: set<Arc>, max: nat, working: set<Row>): set<Row> {
    set g, a | g in working && a in arcs && a.from == g.entity && g.depth < max :: Row(a.to, g.depth + 1)
  }

  function Neighbours(arcs: set<Arc>, s: set<Entity>): set<Entity> {
    set a | a in arcs && a.from in s :: a.to
  }

  /** Entities at the end of a walk of exactly `k` edges. */
  function Walk(arcs: set<Arc>, seeds: set<Entity>, k: nat): set<Entity> {
    if k == 0 then seeds else Neighbours(arcs, Walk(arcs, seeds, k - 1))
  }

  function AtDepth(entities: set<Entity>, k: nat): (rows: set<Row>)
    ensures forall r :: r in rows <==> r.depth == k && r.entity in entities
  {
    set e | e in entities :: Row(e, k)
  }

  function Level(arcs: set<Arc>, seeds: set<Entity>, k: nat): set<Row> {
    AtDepth(Walk(arcs, seeds, k), k)
  }

  /** All levels up to `k`. */
  function Rows(arcs: set<Arc>, seeds: set<Entity>, k: nat): (rows: set<Row>)
    ensures forall r :: r in rows <==> r.depth <= k && r.entity in Walk(arcs, seeds, r.depth)
  {
    if k == 0 then Level(arcs, seeds, 0) else Rows(arcs, seeds, k - 1) + Level(arcs, seeds, k)
  }

  lemma NextLevel(arcs: set<Arc>, entities: set<Entity>, max: nat, k: nat)
    ensures RecursiveTerm(arcs, max, AtDepth(entities, k)) ==
            if k < max then AtDepth(Neighbours(arcs, entities), k + 1) else {}
  {
    if k < max {
      forall e | e in Neighbours(arcs, entities) ensures Row(e, k + 1) in RecursiveTerm(arcs, max, AtDepth(entities, k)) {
        var a :| a in arcs && a.from in entities && a.to == e;
        assert Row(a.from, k) in AtDepth(entities, k);
      }
    }
  }

  lemma {:induction false} EmptyLevelStays(arcs: set<Arc>, seeds: set<Entity>, k: nat, l: nat)
    requires k <= l && Walk(arcs, seeds, k) == {}
    ensures Walk(arcs, seeds, l) == {} && Rows(arcs, seeds, l) == Rows(arcs, seeds, k)
  {
    if k < l {
      EmptyLevelStays(arcs, seeds, k, l - 1);
    }
  }

  /** What a round leaves: the levels up to `k` are in the result and the last is in work. */
  ghost predicate Round(arcs: set<Arc>, seeds: set<Entity>, depth: nat, k: nat, working: set<Row>, result: set<Row>) {
    if k <= depth then working == Level(arcs, seeds, k) && result == Rows(arcs, seeds, k)
    else k == depth + 1 && working == {} && result == Rows(arcs, seeds, depth)
  }

  lemma RoundStep(arcs: set<Arc>, seeds: set<Entity>, depth: nat, k: nat, working: set<Row>, result: set<Row>)
    requires Round(arcs, seeds, depth, k, working, result) && working != {}
    ensures k <= depth && RecursiveTerm(arcs, depth, working) !! result
    ensures Round(arcs, seeds, depth, k + 1, RecursiveTerm(arcs, depth, working), result + RecursiveTerm(arcs, depth, working))
  {
    NextLevel(arcs, Walk(arcs, seeds, k), depth, k);
  }

  lemma RoundsEnd(arcs: set<Arc>, seeds: set<Entity>, depth: nat, k: nat, result: set<Row>)
    requires Round(arcs, seeds, depth, k, {}, result)
    ensures result == Rows(arcs, seeds, depth)
  {
    if k <= depth {
      AtDepthSize(Walk(arcs, seeds, k), k);
      EmptyLevelStays(arcs, seeds, k, depth);
    }
  }

  /** The working-table loop with UNION: rows already in the result are discarded, the
      loop ends when a round adds nothing.  It ends on every graph, cycles included. */
  method EvaluateUnion(arcs: set<Arc>, seeds: set<Entity>, depth: nat) returns (result: set<Row>)
    ensures result == Rows(arcs, seeds, depth)
  {
    result := AtDepth(seeds, 0);
    var working := result;
    ghost var k := 0;
    while working != {}
      invariant Round(arcs, seeds, depth, k, working, result)
      decreases depth + 1 - k
    {
      RoundStep(arcs, seeds, depth, k, working, result);
      var intermediate := RecursiveTerm(arcs, depth, working) - result;
      assert intermediate == RecursiveTerm(arcs, depth, working);
      result := result + intermediate;
      working := intermediate;
      k := k + 1;
    }
    RoundsEnd(arcs, seeds, depth, k, result);
  }

  // ------------------------------------------------------------------
  // UNION ALL
  // ------------------------------------------------------------------

  ghost function RowSet(rows: seq<Row>): set<Row> {
    set r | r in rows
  }

  ghost function ArcSet(arcs: seq<Arc>): set<Arc> {
    set a | a in arcs
  }

  /** The join of one row, duplicates kept. */
  function JoinRow(arcs: seq<Arc>, max: nat, g: Row): seq<Row> {
    if arcs == [] then []
    else
      var n := |arcs| - 1;
      JoinRow(arcs[..n], max, g) +
        (if arcs[n].from == g.entity && g.depth < max then [Row(arcs[n].to, g.depth + 1)] else [])
  }

  function JoinAll(arcs: seq<Arc>, max: nat, working: seq<Row>): seq<Row> {
    if working == [] then []
    else JoinAll(arcs, max, working[..|working| - 1]) + JoinRow(arcs, max, working[|working| - 1])
  }

  lemma {:induction false} JoinRowSet(arcs: seq<Arc>, max: nat, g: Row)
    ensures RowSet(JoinRow(arcs, max, g)) == RecursiveTerm(ArcSet(arcs), max, {g})
  {
    if arcs != [] {
      var n := |arcs| - 1;
      JoinRowSet(arcs[..n], max, g);
      assert arcs == arcs[..n] + [arcs[n]];
      assert ArcSet(arcs) == ArcSet(arcs[..n]) + {arcs[n]};
      var last := if arcs[n].from == g.entity && g.depth < max then [Row(arcs[n].to, g.depth + 1)] else [];
      assert RowSet(JoinRow(arcs[..n], max, g) + last) == RowSet(JoinRow(arcs[..n], max, g)) + RowSet(last);
    }
  }

  lemma {:induction false} JoinAllSet(arcs: seq<Arc>, max: nat, working: seq<Row>)
    ensures RowSet(JoinAll(arcs, max, working)) == RecursiveTerm(ArcSet(arcs), max, RowSet(working))
  {
    if working != [] {
      var n := |working| - 1;
      JoinAllSet(arcs, max, working[..n]);
      JoinRowSet(arcs, max, working[n]);
      assert working == working[..n] + [working[n]];
      assert RowSet(working) == RowSet(working[..n]) + {working[n]};
      var a, b := JoinAll(arcs, max, working[..n]), JoinRow(arcs, max, working[n]);
      assert RowSet(a + b) == RowSet(a) + RowSet(b);
    }
  }

  /** The same loop with UNION ALL: nothing is discarded, only the depth bound ends it.
      The same distinct rows come out. */
  method EvaluateUnionAll(arcs: seq<Arc>, seeds: seq<Entity>, depth: nat) returns (result: seq<Row>)
    ensures RowSet(result) == Rows(ArcSet(arcs), (set e | e in seeds), depth)
  {
    result := seq(|seeds|, i requires 0 <= i < |seeds| => Row(seeds[i], 0));
    var working := result;
    ghost var s := set e | e in seeds;
    ghost var k := 0;
    forall e | e in seeds ensures Row(e, 0) in result {
      var i :| 0 <= i < |seeds| && seeds[i] == e;
      assert result[i] == Row(e, 0);
    }
    while working != []
      invariant Round(ArcSet(arcs), s, depth, k, RowSet(working), RowSet(result))
      decreases depth + 1 - k
    {
      assert working[0] in RowSet(working);
      RoundStep(ArcSet(arcs), s, depth, k, RowSet(working), RowSet(result));
      JoinAllSet(arcs, depth, working);
      var intermediate := JoinAll(arcs, depth, working);
      assert RowSet(result + intermediate) == RowSet(result) + RowSet(intermediate);
      result := result + intermediate;
      working := intermediate;
      k := k + 1;
    }
    assert RowSet(working) == {};
    RoundsEnd(ArcSet(arcs), s, depth, k, RowSet(result));
  }

  // ------------------------------------------------------------------
  // Bounded reachability
  // ------------------------------------------------------------------

  /** SELECT DISTINCT entity_id. */
  function Expand(arcs: set<Arc>, seeds: set<Entity>, depth: nat): set<Entity> {
    set r | r in Rows(arcs, seeds, depth) :: r.entity
  }

  ghost predicate At(arcs: set<Arc>, seeds: set<Entity>, k: nat, x: Entity) {
    x in Walk(arcs, seeds, k)
  }

  lemma InExpand(arcs: set<Arc>, seeds: set<Entity>, depth: nat, x: Entity)
    ensures x in Expand(arcs, seeds, depth) <==> exists k: nat :: k <= depth && At(arcs, seeds, k, x)
  {
    if x in Expand(arcs, seeds, depth) {
      var r :| r in Rows(arcs, seeds, depth) && r.entity == x;
      assert r.depth <= depth && At(arcs, seeds, r.depth, x);
    }
    if k: nat :| k <= depth && At(arcs, seeds, k, x) {
      assert Row(x, k) in Rows(arcs, seeds, depth);
    }
  }

  ghost predicate Path(arcs: set<Arc>, p: seq<Entity>) {
    |p| > 0 && forall i | 0 < i < |p| :: Arc(p[i - 1], p[i]) in arcs
  }

  lemma {:induction false} WalkPath(arcs: set<Arc>, seeds: set<Entity>, k: nat, x: Entity) returns (p: seq<Entity>)
    requires x in Walk(arcs, seeds, k)
    ensures Path(arcs, p) && |p| == k + 1 && p[0] in seeds && p[k] == x
  {
    if k == 0 {
      p := [x];
    } else {
      var a :| a in arcs && a.from in Walk(arcs, seeds, k - 1) && a.to == x;
      p := WalkPath(arcs, seeds, k - 1, a.from);
      p := p + [x];
    }
  }

  lemma {:induction false} PathWalk(arcs: set<Arc>, seeds: set<Entity>, p: seq<Entity>)
    requires Path(arcs, p) && p[0] in seeds
    ensures p[|p| - 1] in Walk(arcs, seeds, |p| - 1)
  {
    var k := |p| - 1;
    if k > 0 {
      PathWalk(arcs, seeds, p[..k]);
      assert Arc(p[k - 1], p[k]) in arcs;
    }
  }

  /** A path over relations: each two consecutive entities are joined, in either
      direction, by a relation of the tenant with confidence at least the gate. */
  ghost predicate RelationPath(rels: seq<Relation>, tenant: string, p: seq<Entity>) {
    |p| > 0 && forall i | 0 < i < |p| :: Linked(rels, tenant, p[i - 1], p[i])
  }

  ghost predicate Joined(rels: seq<Relation>, tenant: string, seeds: set<Entity>, depth: nat, x: Entity) {
    exists p :: RelationPath(rels, tenant, p) && |p| <= depth + 1 && p[0] in seeds && p[|p| - 1] == x
  }

  /** One round: the seeds and what a single relation joins to one of them. */
  lemma OneRound(rels: seq<Relation>, tenant: string, seeds: set<Entity>, y: Entity)
    ensures y in Expand(Arcs(rels, tenant), seeds, 1) <==>
            y in seeds || exists x, r | x in seeds && r in rels :: Joins(r, tenant, x, y)
  {
    ExpandIsReachability(rels, tenant, seeds, 1, y);
    if p :| RelationPath(rels, tenant, p) && |p| <= 2 && p[0] in seeds && p[|p| - 1] == y {
      if |p| == 2 {
        assert Linked(rels, tenant, p[0], p[1]);
      }
    }
    if y in seeds {
      assert RelationPath(rels, tenant, [y]);
    }
    if x, r :| x in seeds && r in rels && Joins(r, tenant, x, y) {
      assert Linked(rels, tenant, x, y);
      assert RelationPath(rels, tenant, [x, y]);
    }
  }

  /** The query computes bounded undirected reachability, on cyclic graphs too. */
  lemma ExpandIsReachability(rels: seq<Relation>, tenant: string, seeds: set<Entity>, depth: nat, x: Entity)
    ensures x in Expand(Arcs(rels, tenant), seeds, depth) <==> Joined(rels, tenant, seeds, depth, x)
  {
    var arcs := Arcs(rels, tenant);
    InExpand(arcs, seeds, depth, x);
    if k: nat :| k <= depth && At(arcs, seeds, k, x) {
      var p := WalkPath(arcs, seeds, k, x);
      assert forall i | 0 < i < |p| :: Arc(p[i - 1], p[i]) in arcs;
      assert RelationPath(rels, tenant, p);
    }
    if p :| RelationPath(rels, tenant, p) && |p| <= depth + 1 && p[0] in seeds && p[|p| - 1] == x {
      assert forall i | 0 < i < |p| :: Arc(p[i - 1], p[i]) in arcs by {
        forall i | 0 < i < |p| ensures Arc(p[i - 1], p[i]) in arcs {
          assert Linked(rels, tenant, p[i - 1], p[i]);
        }
      }
      PathWalk(arcs, seeds, p);
      assert At(arcs, seeds, |p| - 1, x);
    }
  }

  // ------------------------------------------------------------------
  // Composition and symmetry
  // ------------------------------------------------------------------

  lemma {:induction false} WalkSplit(arcs: set<Arc>, seeds: set<Entity>, a: nat, b: nat)
    ensures Walk(arcs, Walk(arcs, seeds, a), b) == Walk(arcs, seeds, a + b)
  {
    if b > 0 {
      WalkSplit(arcs, seeds, a, b - 1);
    }
  }

  lemma {:induction false} WalkMonotone(arcs: set<Arc>, s: set<Entity>, t: set<Entity>, k: nat)
    requires s <= t
    ensures Walk(arcs, s, k) <= Walk(arcs, t, k)
  {
    if k > 0 {
      WalkMonotone(arcs, s, t, k - 1);
    }
  }

  /** Expanding by `a` and then by `b` is expanding by `a + b`. */
  lemma ExpandComposes(arcs: set<Arc>, seeds: set<Entity>, a: nat, b: nat)
    ensures Expand(arcs, Expand(arcs, seeds, a), b) == Expand(arcs, seeds, a + b)
  {
    var middle := Expand(arcs, seeds, a);
    forall x | x in Expand(arcs, middle, b) ensures x in Expand(arcs, seeds, a + b) {
      TwoLegs(arcs, seeds, a, b, x);
    }
    forall x | x in Expand(arcs, seeds, a + b) ensures x in Expand(arcs, middle, b) {
      InExpand(arcs, seeds, a + b, x);
      var k: nat :| k <= a + b && At(arcs, seeds, k, x);
      var i := if k < a then k else a;
      WalkSplit(arcs, seeds, i, k - i);
      forall y | y in Walk(arcs, seeds, i) ensures y in middle { assert At(arcs, seeds, i, y); InExpand(arcs, seeds, a, y); }
      WalkMonotone(arcs, Walk(arcs, seeds, i), middle, k - i);
      assert At(arcs, middle, k - i, x);
      InExpand(arcs, middle, b, x);
    }
  }

  lemma TwoLegs(arcs: set<Arc>, seeds: set<Entity>, a: nat, b: nat, x: Entity)
    requires x in Expand(arcs, Expand(arcs, seeds, a), b)
    ensures x in Expand(arcs, seeds, a + b)
  {
    var middle := Expand(arcs, seeds, a);
    InExpand(arcs, middle, b, x);
    var j: nat :| j <= b && At(arcs, middle, j, x);
    var p := WalkPath(arcs, middle, j, x);
    InExpand(arcs, seeds, a, p[0]);
    var i: nat :| i <= a && At(arcs, seeds, i, p[0]);
    PathWalk(arcs, Walk(arcs, seeds, i), p);
    WalkSplit(arcs, seeds, i, j);
    assert At(arcs, seeds, i + j, x);
    InExpand(arcs, seeds, a + b, x);
  }

  ghost function Backwards(p: seq<Entity>): seq<Entity> {
    seq(|p|, i requires 0 <= i < |p| => p[|p| - 1 - i])
  }

  lemma JoinedBothWays(rels: seq<Relation>, tenant: string, depth: nat, x: Entity, y: Entity)
    requires Joined(rels, tenant, {x}, depth, y)
    ensures Joined(rels, tenant, {y}, depth, x)
  {
    var p :| RelationPath(rels, tenant, p) && |p| <= depth + 1 && p[0] in {x} && p[|p| - 1] == y;
    var q := Backwards(p);
    forall i | 0 < i < |q| ensures Linked(rels, tenant, q[i - 1], q[i]) {
      assert Linked(rels, tenant, p[|p| - 1 - i], p[|p| - i]);
    }
    assert RelationPath(rels, tenant, q) && q[0] in {y} && q[|q| - 1] == x;
  }

  /** Between single seeds membership is symmetric. */
  lemma ExpandSymmetric(rels: seq<Relation>, tenant: string, depth: nat, x: Entity, y: Entity)
    ensures y in Expand(Arcs(rels, tenant), {x}, depth) <==> x in Expand(Arcs(rels, tenant), {y}, depth)
  {
    ExpandIsReachability(rels, tenant, {x}, depth, y);
    ExpandIsReachability(rels, tenant, {y}, depth, x);
    if Joined(rels, tenant, {x}, depth, y) { JoinedBothWays(rels, tenant, depth, x, y); }
    if Joined(rels, tenant, {y}, depth, x) { JoinedBothWays(rels, tenant, depth, y, x); }
  }

  // ------------------------------------------------------------------
  // Size
  // ------------------------------------------------------------------

  /** Seeds and endpoints. */
  ghost function Vertices(arcs: set<Arc>, seeds: set<Entity>): set<Entity> {
    seeds + (set a | a in arcs :: a.to)
  }

  lemma {:induction false} AtDepthSize(entities: set<Entity>, k: nat)
    ensures |AtDepth(entities, k)| == |entities|
    decreases |entities|
  {
    if e :| e in entities {
      AtDepthSize(entities - {e}, k);
      assert AtDepth(entities, k) == AtDepth(entities - {e}, k) + {Row(e, k)};
      assert Row(e, k) !in AtDepth(entities - {e}, k);
    } else {
      assert AtDepth(entities, k) == {};
    }
  }

  lemma SubsetSize<T>(a: set<T>, b: set<T>)
    requires a <= b
    ensures |a| <= |b|
  {
    assert b == a + (b - a);
  }

  lemma UnionSize<T>(a: set<T>, b: set<T>)
    ensures |a + b| <= |a| + |b|
  {
  }

  lemma OneMore(d: nat, n: nat)
    ensures (d + 1) * n == d * n + n
  {
  }

  lemma LevelSize(arcs: set<Arc>, seeds: set<Entity>, depth: nat)
    ensures |Level(arcs, seeds, depth)| <= |Vertices(arcs, seeds)|
  {
    var w := Walk(arcs, seeds, depth);
    assert w <= Vertices(arcs, seeds);
    SubsetSize(w, Vertices(arcs, seeds));
    AtDepthSize(w, depth);
  }

  /** With UNION the result holds at most `(depth + 1) * |V|` rows: each level at most one
      per vertex (`LevelSize`). */
  lemma {:induction false} RowsLinear(arcs: set<Arc>, seeds: set<Entity>, depth: nat)
    ensures |Rows(arcs, seeds, depth)| <= (depth + 1) * |Vertices(arcs, seeds)|
  {
    LevelSize(arcs, seeds, depth);
    var n := |Vertices(arcs, seeds)|;
    if depth > 0 {
      RowsLinear(arcs, seeds, depth - 1);
      RowsStep(arcs, seeds, depth);
      OneMore(depth, n);
    } else {
      assert Rows(arcs, seeds, 0) == Level(arcs, seeds, 0);
    }
  }

  lemma RowsStep(arcs: set<Arc>, seeds: set<Entity>, depth: nat)
    requires depth > 0
    ensures |Rows(arcs, seeds, depth)| <= |Rows(arcs, seeds, depth - 1)| + |Level(arcs, seeds, depth)|
  {
    UnionSize(Rows(arcs, seeds, depth - 1), Level(arcs, seeds, depth));
    assert Rows(arcs, seeds, depth) == Rows(arcs, seeds, depth - 1) + Level(arcs, seeds, depth);
  }

  // ------------------------------------------------------------------
  // Growth of UNION ALL
  // ------------------------------------------------------------------

  ghost function Copies(r: Row, n: nat): seq<Row> {
    seq(n, i => r)
  }

  lemma JoinRowDoubles(e: Entity, max: nat, k: nat)
    requires k < max
    ensures JoinRow([Arc(e, e), Arc(e, e)], max, Row(e, k)) == [Row(e, k + 1), Row(e, k + 1)]
  {
    var arcs := [Arc(e, e), Arc(e, e)];
    assert arcs[..1] == [Arc(e, e)] && arcs[..1][..0] == [];
    assert JoinRow(arcs[..1], max, Row(e, k)) == [Row(e, k + 1)];
  }

  /** One relation from an entity to itself doubles the working table of UNION ALL each
      round, where UNION keeps one row. */
  lemma {:induction false} UnionAllDoubles(e: Entity, max: nat, k: nat, n: nat)
    requires k < max
    ensures JoinAll([Arc(e, e), Arc(e, e)], max, Copies(Row(e, k), n)) == Copies(Row(e, k + 1), 2 * n)
    ensures RecursiveTerm({Arc(e, e)}, max, {Row(e, k)}) == {Row(e, k + 1)}
  {
    if n > 0 {
      var working := Copies(Row(e, k), n);
      UnionAllDoubles(e, max, k, n - 1);
      JoinRowDoubles(e, max, k);
      assert working[..n - 1] == Copies(Row(e, k), n - 1);
    }
  }

  // ------------------------------------------------------------------
  // The call
  // ------------------------------------------------------------------

  datatype Error = ErrInvalidDepth | ErrInvalidEntityCount

  datatype Result = Ok(entities: seq<Entity>) | Err(error: Error)

  /** Depth is checked before the seeds.  The answer holds no entity twice and is, as a
      set, the bounded reachability from the non-blank seeds; above depth 0 it ascends,
      at depth 0 it keeps the order of the seeds. */
  method ExpandGraph(rels: seq<Relation>, tenant: string, seeds: seq<Entity>, depth: int) returns (result: Result)
    ensures result == Err(ErrInvalidDepth) <==> depth < 0 || depth > 3
    ensures result == Err(ErrInvalidEntityCount) <==> 0 <= depth <= 3 && seeds == []
    ensures result.Ok? ==> forall i, j | 0 <= i < j < |result.entities| :: result.entities[i] != result.entities[j]
    ensures result.Ok? && depth > 0 ==> forall i, j | 0 <= i < j < |result.entities| :: Less(result.entities[i], result.entities[j])
    ensures result.Ok? && depth == 0 ==> result.entities == Unique(seeds)
    ensures result.Ok? ==> forall x :: x in result.entities <==> Joined(rels, tenant, (set e | e in seeds && e != ""), depth, x)
  {
    if depth < 0 || depth > 3 {
      return Err(ErrInvalidDepth);
    }
    if seeds == [] {
      return Err(ErrInvalidEntityCount);
    }
    var unique := UniqueStrings(seeds);
    var start := set e | e in unique;
    assert start == set e | e in seeds && e != "";
    forall x ensures x in Expand(Arcs(rels, tenant), start, depth) <==> Joined(rels, tenant, start, depth, x) {
      ExpandIsReachability(rels, tenant, start, depth, x);
    }
    if depth == 0 {
      DepthZero(Arcs(rels, tenant), start);
      return Ok(unique);
    }
    var rows := EvaluateUnion(Arcs(rels, tenant), start, depth);
    var distinct := set r | r in rows :: r.entity;
    var entities := SortedMembers(distinct);
    forall i, j | 0 <= i < j < |entities| ensures entities[i] != entities[j] {
      LessTotal(entities[i], entities[j]);
    }
    result := Ok(entities);
  }

  /** The short cut at depth 0 is the query at depth 0. */
  lemma DepthZero(arcs: set<Arc>, seeds: set<Entity>)
    ensures Expand(arcs, seeds, 0) == seeds
  {
    forall x ensures x in Expand(arcs, seeds, 0) <==> x in seeds {
      InExpand(arcs, seeds, 0, x);
      assert At(arcs, seeds, 0, x) <==> x in seeds;
    }
  }
}
