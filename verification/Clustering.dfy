/**
 Greedy single-linkage clustering over any "same origin" relation, against the
 connected components of that relation.  The greedy pass never merges two clusters,
 so a late row that links them leaves them apart.
 */
module Clustering {
  import Order

  datatype Node = Node(domain: string, text: string)

  type Rel = (Node, Node) -> bool

  /** The row that opened a cluster, and all its rows. */
  datatype Cluster = Cluster(first: Node, rows: set<Node>)

  /** A row joins the first cluster holding a row it is linked to, else opens its own. */
  function Place(rel: Rel, clusters: seq<Cluster>, n: Node): seq<Cluster> {
    if clusters == [] then [Cluster(n, {n})]
    else if exists m | m in clusters[0].rows :: rel(m, n) then
      [Cluster(clusters[0].first, clusters[0].rows + {n})] + clusters[1..]
    else [clusters[0]] + Place(rel, clusters[1..], n)
  }

  function Clusters(rel: Rel, nodes: seq<Node>): seq<Cluster> {
    if nodes == [] then [] else Place(rel, Clusters(rel, nodes[..|nodes| - 1]), nodes[|nodes| - 1])
  }

  ghost predicate Reflexive(rel: Rel) {
    forall a :: rel(a, a)
  }

  ghost predicate Symmetric(rel: Rel) {
    forall a, b :: rel(a, b) ==> rel(b, a)
  }

  ghost predicate TransitiveOn(rel: Rel, s: set<Node>) {
    forall a, b, c | a in s && b in s && c in s && rel(a, b) && rel(b, c) :: rel(a, c)
  }

  // ------------------------------------------------------------------
  // Connected components
  // ------------------------------------------------------------------

  /** A chain of linked rows of `s`. */
  ghost predicate IsChain(rel: Rel, s: set<Node>, p: seq<Node>) {
    p != [] && p[0] in s && (|p| > 1 ==> rel(p[0], p[1]) && IsChain(rel, s, p[1..]))
  }

  ghost predicate Joins(rel: Rel, s: set<Node>, p: seq<Node>, a: Node, b: Node) {
    IsChain(rel, s, p) && p[0] == a && p[|p| - 1] == b
  }

  ghost predicate Connected(rel: Rel, s: set<Node>, a: Node, b: Node) {
    exists p :: Joins(rel, s, p, a, b)
  }

  ghost function Component(rel: Rel, s: set<Node>, a: Node): set<Node> {
    set b | b in s && Connected(rel, s, a, b)
  }

  ghost function Components(rel: Rel, s: set<Node>): set<set<Node>> {
    set a | a in s :: Component(rel, s, a)
  }

  ghost function NodeSet(nodes: seq<Node>): set<Node> {
    set n | n in nodes
  }

  lemma ConnectedSelf(rel: Rel, s: set<Node>, a: Node)
    requires a in s
    ensures Connected(rel, s, a, a)
  {
    assert Joins(rel, s, [a], a, a);
  }

  lemma ConnectedLink(rel: Rel, s: set<Node>, a: Node, b: Node)
    requires a in s && b in s && rel(a, b)
    ensures Connected(rel, s, a, b)
  {
    assert Joins(rel, s, [a, b], a, b);
  }

  lemma {:induction false} JoinChains(rel: Rel, s: set<Node>, p: seq<Node>, q: seq<Node>)
    requires IsChain(rel, s, p) && IsChain(rel, s, q) && p[|p| - 1] == q[0]
    ensures IsChain(rel, s, p + q[1..])
  {
    if |p| == 1 {
      assert p + q[1..] == q;
    } else {
      JoinChains(rel, s, p[1..], q);
      assert (p + q[1..])[1..] == p[1..] + q[1..];
    }
  }

  lemma ConnectedTransitive(rel: Rel, s: set<Node>, a: Node, b: Node, c: Node)
    requires Connected(rel, s, a, b) && Connected(rel, s, b, c)
    ensures Connected(rel, s, a, c)
  {
    var p :| Joins(rel, s, p, a, b);
    var q :| Joins(rel, s, q, b, c);
    JoinChains(rel, s, p, q);
    assert Joins(rel, s, p + q[1..], a, c);
  }

  lemma {:induction false} ReverseChain(rel: Rel, s: set<Node>, p: seq<Node>)
    requires Symmetric(rel) && IsChain(rel, s, p)
    ensures Connected(rel, s, p[|p| - 1], p[0])
  {
    if |p| == 1 {
      ConnectedSelf(rel, s, p[0]);
    } else {
      ReverseChain(rel, s, p[1..]);
      ConnectedLink(rel, s, p[1], p[0]);
      ConnectedTransitive(rel, s, p[|p| - 1], p[1], p[0]);
    }
  }

  lemma ConnectedSymmetric(rel: Rel, s: set<Node>, a: Node, b: Node)
    requires Symmetric(rel) && Connected(rel, s, a, b)
    ensures Connected(rel, s, b, a)
  {
    var p :| Joins(rel, s, p, a, b);
    ReverseChain(rel, s, p);
  }

  lemma {:induction false} ChainGrows(rel: Rel, s: set<Node>, s': set<Node>, p: seq<Node>)
    requires s <= s' && IsChain(rel, s, p)
    ensures IsChain(rel, s', p)
  {
    if |p| > 1 {
      ChainGrows(rel, s, s', p[1..]);
    }
  }

  lemma ConnectedGrows(rel: Rel, s: set<Node>, s': set<Node>, a: Node, b: Node)
    requires s <= s' && Connected(rel, s, a, b)
    ensures Connected(rel, s', a, b)
  {
    var p :| Joins(rel, s, p, a, b);
    ChainGrows(rel, s, s', p);
    assert Joins(rel, s', p, a, b);
  }

  lemma SameComponent(rel: Rel, s: set<Node>, a: Node, b: Node)
    requires Symmetric(rel) && Connected(rel, s, a, b)
    ensures Component(rel, s, a) == Component(rel, s, b)
  {
    ConnectedSymmetric(rel, s, a, b);
    forall c | c in s ensures Connected(rel, s, a, c) <==> Connected(rel, s, b, c) {
      if Connected(rel, s, a, c) { ConnectedTransitive(rel, s, b, a, c); }
      if Connected(rel, s, b, c) { ConnectedTransitive(rel, s, a, b, c); }
    }
  }

  // ------------------------------------------------------------------
  // At least the components, at most the rows
  // ------------------------------------------------------------------

  /** Every row is in a cluster. */
  ghost predicate Reaches(s: set<Node>, clusters: seq<Cluster>) {
    forall n | n in s :: exists i | 0 <= i < |clusters| :: n in clusters[i].rows
  }

  /** A cluster lies inside one component. */
  ghost predicate Inside(rel: Rel, s: set<Node>, clusters: seq<Cluster>) {
    && (forall i | 0 <= i < |clusters| :: clusters[i].first in clusters[i].rows)
    && (forall i, n | 0 <= i < |clusters| && n in clusters[i].rows :: n in s)
    && (forall i, n | 0 <= i < |clusters| && n in clusters[i].rows :: Connected(rel, s, clusters[i].first, n))
  }

  /** What placing a row did: cluster `k` received it, the others stayed. */
  ghost predicate Placed(rel: Rel, clusters: seq<Cluster>, n: Node, k: nat, placed: seq<Cluster>) {
    && k <= |clusters|
    && |placed| == (if k < |clusters| then |clusters| else |clusters| + 1)
    && placed[k] == (if k < |clusters| then Cluster(clusters[k].first, clusters[k].rows + {n}) else Cluster(n, {n}))
    && (k < |clusters| ==> exists m | m in clusters[k].rows :: rel(m, n))
    && (forall i | 0 <= i < |clusters| && i != k :: placed[i] == clusters[i])
    && (forall i, m | 0 <= i < k && m in clusters[i].rows :: !rel(m, n))
  }

  lemma {:induction false} PlaceAppends(rel: Rel, clusters: seq<Cluster>, n: Node) returns (k: nat)
    ensures Placed(rel, clusters, n, k, Place(rel, clusters, n))
  {
    if clusters == [] || exists m | m in clusters[0].rows :: rel(m, n) {
      k := 0;
    } else {
      var k' := PlaceAppends(rel, clusters[1..], n);
      k := k' + 1;
      var rest := Place(rel, clusters[1..], n);
      var placed := Place(rel, clusters, n);
      assert forall i | 0 < i < |placed| :: placed[i] == rest[i - 1];
      assert forall i | 0 < i < |clusters| :: clusters[i] == clusters[1..][i - 1];
    }
  }

  lemma PlacedMember(rel: Rel, clusters: seq<Cluster>, n: Node, k: nat, placed: seq<Cluster>, i: nat, m: Node)
    requires Placed(rel, clusters, n, k, placed) && i < |placed| && m in placed[i].rows
    ensures (i < |clusters| && m in clusters[i].rows) || (i == k && m == n)
    ensures i < |clusters| ==> placed[i].first == clusters[i].first
  {
  }

  lemma JoinedIsConnected(rel: Rel, s: set<Node>, cluster: Cluster, n: Node)
    requires forall m | m in cluster.rows :: m in s && Connected(rel, s, cluster.first, m)
    requires exists m | m in cluster.rows :: rel(m, n)
    ensures Connected(rel, s + {n}, cluster.first, n)
  {
    var s' := s + {n};
    var l :| l in cluster.rows && rel(l, n);
    ConnectedGrows(rel, s, s', cluster.first, l);
    ConnectedLink(rel, s', l, n);
    ConnectedTransitive(rel, s', cluster.first, l, n);
  }

  lemma MemberConnected(rel: Rel, s: set<Node>, clusters: seq<Cluster>, n: Node, k: nat, placed: seq<Cluster>, i: nat, m: Node)
    requires Inside(rel, s, clusters) && Placed(rel, clusters, n, k, placed) && i < |placed| && m in placed[i].rows
    ensures m in s + {n} && Connected(rel, s + {n}, placed[i].first, m)
  {
    PlacedMember(rel, clusters, n, k, placed, i, m);
    if i < |clusters| && m in clusters[i].rows {
      ConnectedGrows(rel, s, s + {n}, clusters[i].first, m);
    } else if i < |clusters| {
      JoinedIsConnected(rel, s, clusters[k], n);
    } else {
      ConnectedSelf(rel, s + {n}, n);
    }
  }

  lemma InsideStep(rel: Rel, s: set<Node>, clusters: seq<Cluster>, n: Node, k: nat, placed: seq<Cluster>)
    requires Inside(rel, s, clusters) && Placed(rel, clusters, n, k, placed)
    ensures Inside(rel, s + {n}, placed)
  {
    forall i, m | 0 <= i < |placed| && m in placed[i].rows ensures m in s + {n} {
      MemberConnected(rel, s, clusters, n, k, placed, i, m);
    }
    forall i, m | 0 <= i < |placed| && m in placed[i].rows ensures Connected(rel, s + {n}, placed[i].first, m) {
      MemberConnected(rel, s, clusters, n, k, placed, i, m);
    }
  }

  lemma ReachesStep(rel: Rel, s: set<Node>, clusters: seq<Cluster>, n: Node, k: nat, placed: seq<Cluster>)
    requires Reaches(s, clusters) && Placed(rel, clusters, n, k, placed)
    ensures Reaches(s + {n}, placed)
  {
    forall m | m in s + {n} ensures exists i | 0 <= i < |placed| :: m in placed[i].rows {
      if m == n {
        assert m in placed[k].rows;
      } else {
        var j :| 0 <= j < |clusters| && m in clusters[j].rows;
        assert m in placed[j].rows;
      }
    }
  }

  lemma LastRow(nodes: seq<Node>)
    requires nodes != []
    ensures NodeSet(nodes) == NodeSet(nodes[..|nodes| - 1]) + {nodes[|nodes| - 1]}
  {
    assert nodes == nodes[..|nodes| - 1] + [nodes[|nodes| - 1]];
  }

  lemma {:induction false} ClustersCover(rel: Rel, nodes: seq<Node>)
    ensures Inside(rel, NodeSet(nodes), Clusters(rel, nodes)) && Reaches(NodeSet(nodes), Clusters(rel, nodes))
    ensures |Clusters(rel, nodes)| <= |nodes|
  {
    if nodes != [] {
      var before := nodes[..|nodes| - 1];
      var n := nodes[|nodes| - 1];
      ClustersCover(rel, before);
      var k := PlaceAppends(rel, Clusters(rel, before), n);
      InsideStep(rel, NodeSet(before), Clusters(rel, before), n, k, Clusters(rel, nodes));
      ReachesStep(rel, NodeSet(before), Clusters(rel, before), n, k, Clusters(rel, nodes));
      LastRow(nodes);
    }
  }

  ghost function Firsts(rel: Rel, s: set<Node>, clusters: seq<Cluster>): set<set<Node>> {
    set i | 0 <= i < |clusters| :: Component(rel, s, clusters[i].first)
  }

  lemma LastFirst(rel: Rel, s: set<Node>, clusters: seq<Cluster>)
    requires clusters != []
    ensures var n := |clusters| - 1;
            Firsts(rel, s, clusters) == Firsts(rel, s, clusters[..n]) + {Component(rel, s, clusters[n].first)}
  {
    var n := |clusters| - 1;
    forall i | 0 <= i < n
      ensures Component(rel, s, clusters[i].first) in Firsts(rel, s, clusters[..n])
    {
      assert clusters[..n][i] == clusters[i];
    }
    forall c | c in Firsts(rel, s, clusters[..n]) ensures c in Firsts(rel, s, clusters) {
      var i :| 0 <= i < n && c == Component(rel, s, clusters[..n][i].first);
      assert c == Component(rel, s, clusters[i].first);
    }
  }

  lemma {:induction false} FirstsCardinality(rel: Rel, s: set<Node>, clusters: seq<Cluster>)
    ensures |Firsts(rel, s, clusters)| <= |clusters|
  {
    if clusters != [] {
      var n := |clusters| - 1;
      FirstsCardinality(rel, s, clusters[..n]);
      LastFirst(rel, s, clusters);
    }
  }

  lemma ComponentHasFirst(rel: Rel, s: set<Node>, clusters: seq<Cluster>, i: nat, a: Node)
    requires Symmetric(rel) && Inside(rel, s, clusters) && i < |clusters| && a in clusters[i].rows
    ensures Component(rel, s, a) in Firsts(rel, s, clusters)
  {
    SameComponent(rel, s, clusters[i].first, a);
  }

  lemma ComponentsAreFirsts(rel: Rel, s: set<Node>, clusters: seq<Cluster>)
    requires Symmetric(rel) && Inside(rel, s, clusters) && Reaches(s, clusters)
    ensures Components(rel, s) <= Firsts(rel, s, clusters)
  {
    forall a | a in s ensures Component(rel, s, a) in Firsts(rel, s, clusters) {
      var i :| 0 <= i < |clusters| && a in clusters[i].rows;
      ComponentHasFirst(rel, s, clusters, i, a);
    }
  }

  lemma FirstsAreComponents(rel: Rel, s: set<Node>, clusters: seq<Cluster>)
    requires Inside(rel, s, clusters)
    ensures Firsts(rel, s, clusters) <= Components(rel, s)
  {
    forall i | 0 <= i < |clusters| ensures Component(rel, s, clusters[i].first) in Components(rel, s) {
      assert clusters[i].first in clusters[i].rows;
    }
  }

  lemma CoverReachesComponents(rel: Rel, s: set<Node>, clusters: seq<Cluster>)
    requires Symmetric(rel) && Inside(rel, s, clusters) && Reaches(s, clusters)
    ensures Components(rel, s) == Firsts(rel, s, clusters)
  {
    ComponentsAreFirsts(rel, s, clusters);
    FirstsAreComponents(rel, s, clusters);
  }

  /** The count lies between the number of components and the number of rows, for every
      symmetric relation and every order. */
  lemma CountBounds(rel: Rel, nodes: seq<Node>)
    requires Symmetric(rel)
    ensures |Components(rel, NodeSet(nodes))| <= |Clusters(rel, nodes)| <= |nodes|
  {
    var cs := Clusters(rel, nodes);
    ClustersCover(rel, nodes);
    CoverReachesComponents(rel, NodeSet(nodes), cs);
    FirstsCardinality(rel, NodeSet(nodes), cs);
  }

  // ------------------------------------------------------------------
  // Exact when the relation is transitive
  // ------------------------------------------------------------------

  ghost predicate Apart(rel: Rel, clusters: seq<Cluster>) {
    forall i, j, a, b | 0 <= i < |clusters| && 0 <= j < |clusters| && i != j && a in clusters[i].rows && b in clusters[j].rows ::
      !rel(a, b)
  }

  lemma UnlinkedThrough(rel: Rel, s: set<Node>, l: Node, m: Node, n: Node)
    requires Symmetric(rel) && TransitiveOn(rel, s) && l in s && m in s && n in s
    requires rel(l, n) && !rel(l, m)
    ensures !rel(m, n)
  {
  }

  lemma OthersUnlinked(rel: Rel, s: set<Node>, clusters: seq<Cluster>, n: Node, k: nat, placed: seq<Cluster>, i: nat, m: Node)
    requires Symmetric(rel) && TransitiveOn(rel, s + {n})
    requires Inside(rel, s, clusters) && Apart(rel, clusters) && Placed(rel, clusters, n, k, placed)
    requires i < |clusters| && i != k && m in clusters[i].rows
    ensures !rel(m, n) && !rel(n, m)
  {
    if k < |clusters| {
      var l :| l in clusters[k].rows && rel(l, n);
      assert !rel(l, m);
      UnlinkedThrough(rel, s + {n}, l, m, n);
    }
  }

  lemma ApartStep(rel: Rel, s: set<Node>, clusters: seq<Cluster>, n: Node, k: nat, placed: seq<Cluster>)
    requires Symmetric(rel) && TransitiveOn(rel, s + {n})
    requires Inside(rel, s, clusters) && Apart(rel, clusters) && Placed(rel, clusters, n, k, placed)
    ensures Apart(rel, placed)
  {
    forall i, j, a, b | 0 <= i < |placed| && 0 <= j < |placed| && i != j && a in placed[i].rows && b in placed[j].rows
      ensures !rel(a, b)
    {
      PlacedMember(rel, clusters, n, k, placed, i, a);
      PlacedMember(rel, clusters, n, k, placed, j, b);
      if i < |clusters| && a in clusters[i].rows {
        if !(j < |clusters| && b in clusters[j].rows) {
          OthersUnlinked(rel, s, clusters, n, k, placed, i, a);
        }
      } else {
        OthersUnlinked(rel, s, clusters, n, k, placed, j, b);
      }
    }
  }

  lemma {:induction false} ClustersApart(rel: Rel, nodes: seq<Node>)
    requires Symmetric(rel) && TransitiveOn(rel, NodeSet(nodes))
    ensures Apart(rel, Clusters(rel, nodes))
  {
    if nodes != [] {
      var before := nodes[..|nodes| - 1];
      var n := nodes[|nodes| - 1];
      LastRow(nodes);
      ClustersApart(rel, before);
      ClustersCover(rel, before);
      var k := PlaceAppends(rel, Clusters(rel, before), n);
      ApartStep(rel, NodeSet(before), Clusters(rel, before), n, k, Clusters(rel, nodes));
    }
  }

  lemma {:induction false} ChainCollapses(rel: Rel, s: set<Node>, p: seq<Node>)
    requires Reflexive(rel) && TransitiveOn(rel, s) && IsChain(rel, s, p)
    ensures p[|p| - 1] in s && rel(p[0], p[|p| - 1])
  {
    if |p| > 1 {
      ChainCollapses(rel, s, p[1..]);
      assert p[1] in s;
    }
  }

  lemma ConnectedIsLinked(rel: Rel, s: set<Node>, a: Node, b: Node)
    requires Reflexive(rel) && TransitiveOn(rel, s) && Connected(rel, s, a, b)
    ensures rel(a, b)
  {
    var p :| Joins(rel, s, p, a, b);
    ChainCollapses(rel, s, p);
  }

  lemma ApartComponentsDiffer(rel: Rel, s: set<Node>, clusters: seq<Cluster>, i: nat, j: nat)
    requires Reflexive(rel) && TransitiveOn(rel, s) && Inside(rel, s, clusters) && Apart(rel, clusters)
    requires i < |clusters| && j < |clusters| && i != j
    ensures Component(rel, s, clusters[i].first) != Component(rel, s, clusters[j].first)
  {
    var a, b := clusters[i].first, clusters[j].first;
    ConnectedSelf(rel, s, b);
    assert !rel(a, b);
    if Connected(rel, s, a, b) {
      ConnectedIsLinked(rel, s, a, b);
    }
    assert b in Component(rel, s, b) && b !in Component(rel, s, a);
  }

  lemma {:induction false} DistinctFirsts(rel: Rel, s: set<Node>, clusters: seq<Cluster>)
    requires forall i, j | 0 <= i < j < |clusters| :: Component(rel, s, clusters[i].first) != Component(rel, s, clusters[j].first)
    ensures |Firsts(rel, s, clusters)| == |clusters|
  {
    if clusters != [] {
      var n := |clusters| - 1;
      DistinctFirsts(rel, s, clusters[..n]);
      LastFirst(rel, s, clusters);
      assert forall i | 0 <= i < n :: clusters[..n][i] == clusters[i];
      assert Component(rel, s, clusters[n].first) !in Firsts(rel, s, clusters[..n]);
    }
  }

  lemma TransitiveCountIsComponents(rel: Rel, nodes: seq<Node>)
    requires Reflexive(rel) && Symmetric(rel) && TransitiveOn(rel, NodeSet(nodes))
    ensures |Clusters(rel, nodes)| == |Components(rel, NodeSet(nodes))|
  {
    var s := NodeSet(nodes);
    var cs := Clusters(rel, nodes);
    ClustersCover(rel, nodes);
    ClustersApart(rel, nodes);
    CoverReachesComponents(rel, s, cs);
    forall i, j | 0 <= i < j < |cs|
      ensures Component(rel, s, cs[i].first) != Component(rel, s, cs[j].first)
    {
      ApartComponentsDiffer(rel, s, cs, i, j);
    }
    DistinctFirsts(rel, s, cs);
  }

  // ------------------------------------------------------------------
  // Order-dependent when it is not
  // ------------------------------------------------------------------

  function RemoveOne(nodes: seq<Node>, a: Node): seq<Node>
    requires a in nodes
  {
    if nodes[0] == a then nodes[1..] else [nodes[0]] + RemoveOne(nodes[1..], a)
  }

  lemma {:induction false} RemoveOneMultiset(nodes: seq<Node>, a: Node)
    requires a in nodes
    ensures multiset(RemoveOne(nodes, a)) == multiset(nodes) - multiset{a}
  {
    assert nodes == [nodes[0]] + nodes[1..];
    if nodes[0] != a {
      RemoveOneMultiset(nodes[1..], a);
    }
  }

  /** Whatever is placed later, the first rows of the clusters stay. */
  lemma {:induction false} FirstsStay(rel: Rel, head: seq<Node>, tail: seq<Node>)
    ensures |Clusters(rel, head)| <= |Clusters(rel, head + tail)|
    ensures forall i | 0 <= i < |Clusters(rel, head)| :: Clusters(rel, head + tail)[i].first == Clusters(rel, head)[i].first
  {
    if tail == [] {
      assert head + tail == head;
    } else {
      var n := tail[|tail| - 1];
      var front := tail[..|tail| - 1];
      assert head + tail == (head + front) + [n];
      assert (head + tail)[..|head + tail| - 1] == head + front;
      FirstsStay(rel, head, front);
      var k := PlaceAppends(rel, Clusters(rel, head + front), n);
    }
  }

  lemma TwoClusters(rel: Rel, a: Node, c: Node)
    requires !rel(a, c)
    ensures Clusters(rel, [a, c]) == [Cluster(a, {a}), Cluster(c, {c})]
  {
    assert [a, c][..1] == [a] && [a][..0] == [];
    var one := [Cluster(a, {a})];
    assert Clusters(rel, [a]) == one;
    assert one[1..] == [];
    assert forall m | m in one[0].rows :: m == a;
    assert Place(rel, one, c) == [one[0]] + Place(rel, one[1..], c);
  }

  lemma PairCluster(rel: Rel, a: Node, b: Node)
    requires rel(a, b)
    ensures Clusters(rel, [a, b]) == [Cluster(a, {a, b})]
  {
    assert [a, b][..1] == [a] && [a][..0] == [];
    var one := [Cluster(a, {a})];
    assert Clusters(rel, [a]) == one;
    assert {a} + {b} == {a, b};
    assert a in one[0].rows;
  }

  lemma OneCluster(rel: Rel, a: Node, b: Node, c: Node)
    requires rel(a, b) && rel(b, c)
    ensures Clusters(rel, [a, b, c]) == [Cluster(a, {a, b, c})]
  {
    assert [a, b, c][..2] == [a, b] && [a, b][..1] == [a] && [a][..0] == [];
    var one := [Cluster(a, {a})];
    var two := [Cluster(a, {a, b})];
    assert Clusters(rel, [a]) == one;
    assert {a} + {b} == {a, b} && {a, b} + {c} == {a, b, c};
    assert a in one[0].rows && b in two[0].rows;
    assert Clusters(rel, [a, b]) == two;
  }

  /** Leaving out a cluster whose first row lies in another one's component loses no component. */
  lemma FirstsWithout(rel: Rel, s: set<Node>, clusters: seq<Cluster>)
    requires |clusters| >= 2 && Component(rel, s, clusters[0].first) == Component(rel, s, clusters[1].first)
    ensures Firsts(rel, s, clusters) == Firsts(rel, s, [clusters[0]] + clusters[2..])
  {
    var without := [clusters[0]] + clusters[2..];
    forall i | 0 <= i < |clusters|
      ensures Component(rel, s, clusters[i].first) in Firsts(rel, s, without)
    {
      var j := if i < 2 then 0 else i - 1;
      assert Component(rel, s, clusters[i].first) == Component(rel, s, without[j].first);
    }
    forall i | 0 <= i < |without|
      ensures Component(rel, s, without[i].first) in Firsts(rel, s, clusters)
    {
      var j := if i == 0 then 0 else i + 1;
      assert without[i] == clusters[j];
    }
  }

  lemma LinkedThrough(rel: Rel, s: set<Node>, a: Node, b: Node, c: Node)
    requires Symmetric(rel) && a in s && b in s && c in s && rel(a, b) && rel(b, c)
    ensures Component(rel, s, a) == Component(rel, s, c)
  {
    ConnectedLink(rel, s, a, b);
    ConnectedLink(rel, s, b, c);
    ConnectedTransitive(rel, s, a, b, c);
    SameComponent(rel, s, a, c);
  }

  lemma FirstTwo(rel: Rel, a: Node, c: Node, rest: seq<Node>)
    requires !rel(a, c)
    ensures var cs := Clusters(rel, [a, c] + rest);
            |cs| >= 2 && cs[0].first == a && cs[1].first == c
  {
    TwoClusters(rel, a, c);
    FirstsStay(rel, [a, c], rest);
  }

  lemma ComponentsBehindFirst(rel: Rel, s: set<Node>, clusters: seq<Cluster>)
    requires Symmetric(rel) && Inside(rel, s, clusters) && Reaches(s, clusters)
    requires |clusters| >= 2 && Component(rel, s, clusters[0].first) == Component(rel, s, clusters[1].first)
    ensures |Components(rel, s)| < |clusters|
  {
    CoverReachesComponents(rel, s, clusters);
    FirstsWithout(rel, s, clusters);
    FirstsCardinality(rel, s, [clusters[0]] + clusters[2..]);
  }

  /** With two linked but unlike rows in front, one component takes two clusters. */
  lemma SplitComponent(rel: Rel, a: Node, b: Node, c: Node, rest: seq<Node>)
    requires Symmetric(rel) && b in rest && rel(a, b) && rel(b, c) && !rel(a, c)
    ensures |Clusters(rel, [a, c] + rest)| > |Components(rel, NodeSet([a, c] + rest))|
  {
    var nodes := [a, c] + rest;
    var s := NodeSet(nodes);
    FirstTwo(rel, a, c, rest);
    ClustersCover(rel, nodes);
    assert nodes[0] == a && nodes[1] == c;
    LinkedThrough(rel, s, a, b, c);
    ComponentsBehindFirst(rel, s, Clusters(rel, nodes));
  }

  lemma TwoInFront<T>(a: T, c: T, rest: seq<T>, all: seq<T>)
    requires a in all && c in all && a != c && multiset(rest) == multiset(all) - multiset{a} - multiset{c}
    ensures multiset([a, c] + rest) == multiset(all)
  {
    assert a in multiset(all) && c in multiset(all);
    assert multiset([a, c] + rest) == multiset(rest) + multiset{c} + multiset{a};
  }

  /** Some order of the rows starts with any two different ones. */
  lemma PairInFront(nodes: seq<Node>, a: Node, c: Node) returns (rest: seq<Node>)
    requires a in nodes && c in nodes && a != c
    ensures multiset([a, c] + rest) == multiset(nodes)
    ensures forall b | b in nodes && b != a && b != c :: b in rest
  {
    var r1 := RemoveOne(nodes, a);
    RemoveOneMultiset(nodes, a);
    assert c in multiset(nodes) && c in multiset(r1);
    rest := RemoveOne(r1, c);
    RemoveOneMultiset(r1, c);
    TwoInFront(a, c, rest, nodes);
    Order.SameMembers([a, c] + rest, nodes);
  }

  /** The count is the number of components for every order of the rows exactly when
      the relation is transitive on them. */
  lemma ExactForEveryOrderIff(rel: Rel, nodes: seq<Node>)
    requires Reflexive(rel) && Symmetric(rel)
    ensures TransitiveOn(rel, NodeSet(nodes)) <==>
            forall order: seq<Node> | multiset(order) == multiset(nodes) ::
              |Clusters(rel, order)| == |Components(rel, NodeSet(nodes))|
  {
    var s := NodeSet(nodes);
    if TransitiveOn(rel, s) {
      forall order: seq<Node> | multiset(order) == multiset(nodes)
        ensures |Clusters(rel, order)| == |Components(rel, s)|
      {
        SameRows(order, nodes);
        TransitiveCountIsComponents(rel, order);
      }
    } else {
      var a, b, c :| a in s && b in s && c in s && rel(a, b) && rel(b, c) && !rel(a, c);
      var rest := PairInFront(nodes, a, c);
      SplitComponent(rel, a, b, c, rest);
      SameRows([a, c] + rest, nodes);
    }
  }

  lemma SameRows(order: seq<Node>, nodes: seq<Node>)
    requires multiset(order) == multiset(nodes)
    ensures NodeSet(order) == NodeSet(nodes)
  {
    Order.SameMembers(order, nodes);
  }

  /** A row added last opens one more cluster or none. */
  lemma AppendedRow(rel: Rel, nodes: seq<Node>, n: Node)
    ensures |Clusters(rel, nodes)| <= |Clusters(rel, nodes + [n])| <= |Clusters(rel, nodes)| + 1
  {
    assert (nodes + [n])[..|nodes|] == nodes;
    var k := PlaceAppends(rel, Clusters(rel, nodes), n);
  }
}
