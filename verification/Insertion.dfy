/**
 A row inserted between others.  Rows come ordered by source id, so new evidence can land
 anywhere; whether that can lower the count is settled by the rows it is linked to.
 */
module Insertion {
  import opened Clustering
  import opened Corroboration
  import Order
  import Text

  function InsertAt<T>(s: seq<T>, i: nat, x: T): seq<T>
    requires i <= |s|
  {
    s[..i] + [x] + s[i..]
  }

  // ------------------------------------------------------------------
  // The count in closed form
  // ------------------------------------------------------------------

  /** The rows linked to no row in front of them, `seen` standing in front of all. */
  function Leaders(rel: Rel, seen: set<Node>, nodes: seq<Node>): nat
    decreases nodes
  {
    if nodes == [] then 0
    else Leads(rel, seen, nodes[0]) + Leaders(rel, seen + {nodes[0]}, nodes[1..])
  }

  function Leads(rel: Rel, seen: set<Node>, n: Node): nat {
    if exists m | m in seen :: rel(m, n) then 0 else 1
  }

  lemma {:induction false} LeadersAppend(rel: Rel, seen: set<Node>, a: seq<Node>, b: seq<Node>)
    ensures Leaders(rel, seen, a + b) == Leaders(rel, seen, a) + Leaders(rel, seen + NodeSet(a), b)
    decreases a
  {
    if a == [] {
      assert a + b == b && seen + NodeSet(a) == seen;
    } else {
      assert a == [a[0]] + a[1..] && (a + b)[1..] == a[1..] + b;
      LeadersAppend(rel, seen + {a[0]}, a[1..], b);
      assert seen + {a[0]} + NodeSet(a[1..]) == seen + NodeSet(a);
    }
  }

  /** The number of clusters is the number of rows without an earlier linked row. */
  lemma {:induction false} ClustersAreLeaders(rel: Rel, nodes: seq<Node>)
    ensures |Clusters(rel, nodes)| == Leaders(rel, {}, nodes)
  {
    if nodes != [] {
      var before, n := nodes[..|nodes| - 1], nodes[|nodes| - 1];
      ClustersAreLeaders(rel, before);
      LeadersAppend(rel, {}, before, [n]);
      assert nodes == before + [n] && {} + NodeSet(before) == NodeSet(before);
      LastLeads(rel, before, n);
      assert Leaders(rel, NodeSet(before) + {n}, [n][1..]) == 0;
    }
  }

  lemma LastLeads(rel: Rel, before: seq<Node>, n: Node)
    ensures |Place(rel, Clusters(rel, before), n)| == |Clusters(rel, before)| + Leads(rel, NodeSet(before), n)
  {
    var cs := Clusters(rel, before);
    ClustersHold(rel, before);
    var k := PlaceAppends(rel, cs, n);
    if k < |cs| {
      var m :| m in cs[k].rows && rel(m, n);
      assert m in NodeSet(before);
    } else {
      forall m | m in NodeSet(before) ensures !rel(m, n) {
        var i :| 0 <= i < |cs| && m in cs[i].rows;
      }
    }
  }

  /** The clusters hold the rows and nothing else. */
  lemma ClustersHold(rel: Rel, nodes: seq<Node>)
    ensures forall i, n | 0 <= i < |Clusters(rel, nodes)| && n in Clusters(rel, nodes)[i].rows :: n in NodeSet(nodes)
    ensures Reaches(NodeSet(nodes), Clusters(rel, nodes))
  {
    ClustersCover(rel, nodes);
  }

  // ------------------------------------------------------------------
  // When no insertion lowers the count
  // ------------------------------------------------------------------

  /** The rows linked to `x` are pairwise linked. */
  ghost predicate LinkedPairwise(rel: Rel, s: set<Node>, x: Node) {
    forall a, b | a in s && b in s && rel(a, x) && rel(x, b) :: rel(a, b)
  }

  /** Behind a row linked to `x`, a row `x` loses no leader. */
  lemma {:induction false} LosesNothing(rel: Rel, all: set<Node>, seen: set<Node>, x: Node, s: Node, tail: seq<Node>)
    requires LinkedPairwise(rel, all, x) && seen <= all && NodeSet(tail) <= all
    requires s in seen && rel(s, x)
    ensures Leaders(rel, seen + {x}, tail) == Leaders(rel, seen, tail)
    decreases tail
  {
    if tail != [] {
      var t := tail[0];
      assert t in NodeSet(tail) && NodeSet(tail[1..]) <= NodeSet(tail);
      LosesNothing(rel, all, seen + {t}, x, s, tail[1..]);
      assert seen + {t} + {x} == seen + {x} + {t};
      assert rel(x, t) ==> rel(s, t);
    }
  }

  /** Anywhere else it loses one at most. */
  lemma {:induction false} LosesOne(rel: Rel, all: set<Node>, seen: set<Node>, x: Node, tail: seq<Node>)
    requires Symmetric(rel) && LinkedPairwise(rel, all, x) && seen <= all && NodeSet(tail) <= all
    ensures Leaders(rel, seen, tail) <= Leaders(rel, seen + {x}, tail) + 1
    decreases tail
  {
    if tail != [] {
      var t := tail[0];
      assert t in NodeSet(tail) && NodeSet(tail[1..]) <= NodeSet(tail);
      assert seen + {t} + {x} == seen + {x} + {t};
      if rel(x, t) {
        LosesNothing(rel, all, seen + {t}, x, t, tail[1..]);
      } else {
        LosesOne(rel, all, seen + {t}, x, tail[1..]);
      }
    }
  }

  lemma InsertedLeaders(rel: Rel, order: seq<Node>, i: nat, x: Node)
    requires i <= |order|
    ensures var s := NodeSet(order[..i]);
            && Leaders(rel, {}, order) == Leaders(rel, {}, order[..i]) + Leaders(rel, s, order[i..])
            && Leaders(rel, {}, InsertAt(order, i, x)) ==
               Leaders(rel, {}, order[..i]) + Leads(rel, s, x) + Leaders(rel, s + {x}, order[i..])
  {
    var front, tail := order[..i], order[i..];
    assert order == front + tail && InsertAt(order, i, x) == front + ([x] + tail);
    LeadersAppend(rel, {}, front, tail);
    LeadersAppend(rel, {}, front, [x] + tail);
    assert {} + NodeSet(front) == NodeSet(front) && ([x] + tail)[1..] == tail;
  }

  lemma InsertedKeeps(rel: Rel, order: seq<Node>, i: nat, x: Node)
    requires Symmetric(rel) && LinkedPairwise(rel, NodeSet(order), x) && i <= |order|
    ensures |Clusters(rel, InsertAt(order, i, x))| >= |Clusters(rel, order)|
  {
    var s, tail := NodeSet(order[..i]), order[i..];
    ClustersAreLeaders(rel, order);
    ClustersAreLeaders(rel, InsertAt(order, i, x));
    InsertedLeaders(rel, order, i, x);
    if m :| m in s && rel(m, x) {
      LosesNothing(rel, NodeSet(order), s, x, m, tail);
    } else {
      LosesOne(rel, NodeSet(order), s, x, tail);
    }
  }

  lemma {:induction false} MoreSeenFewerLead(rel: Rel, seen: set<Node>, more: set<Node>, tail: seq<Node>)
    requires seen <= more
    ensures Leaders(rel, more, tail) <= Leaders(rel, seen, tail)
    decreases tail
  {
    if tail != [] {
      MoreSeenFewerLead(rel, seen + {tail[0]}, more + {tail[0]}, tail[1..]);
    }
  }

  /** Between two rows that are not linked, a row linked to both lowers the count. */
  lemma InsertedMerges(rel: Rel, a: Node, x: Node, c: Node, rest: seq<Node>)
    requires rel(a, x) && rel(x, c) && !rel(a, c)
    ensures |Clusters(rel, [a, x, c] + rest)| < |Clusters(rel, [a, c] + rest)|
  {
    ClustersAreLeaders(rel, [a, x, c] + rest);
    ClustersAreLeaders(rel, [a, c] + rest);
    LeadersAppend(rel, {}, [a, x, c], rest);
    LeadersAppend(rel, {}, [a, c], rest);
    TwoLead(rel, a, c);
    OneLeads(rel, a, x, c);
    assert {} + NodeSet([a, c]) <= {} + NodeSet([a, x, c]);
    MoreSeenFewerLead(rel, {} + NodeSet([a, c]), {} + NodeSet([a, x, c]), rest);
  }

  lemma TwoLead(rel: Rel, a: Node, c: Node)
    requires !rel(a, c)
    ensures Leaders(rel, {}, [a, c]) == 2
  {
    ClustersAreLeaders(rel, [a, c]);
    TwoClusters(rel, a, c);
  }

  lemma OneLeads(rel: Rel, a: Node, x: Node, c: Node)
    requires rel(a, x) && rel(x, c)
    ensures Leaders(rel, {}, [a, x, c]) == 1
  {
    ClustersAreLeaders(rel, [a, x, c]);
    OneCluster(rel, a, x, c);
  }

  /** Any two positions can come first. */
  lemma TwoFirst<T>(s: seq<T>, i: nat, j: nat) returns (rest: seq<T>)
    requires i < |s| && j < |s| && i != j
    ensures multiset([s[i], s[j]] + rest) == multiset(s)
  {
    var r, k := Without(s, i), if j < i then j else j - 1;
    rest := Without(r, k);
    WithoutMultiset(s, i);
    WithoutMultiset(r, k);
    assert [s[i], s[j]] + rest == [s[i]] + ([s[j]] + rest);
  }

  function Without<T>(s: seq<T>, i: nat): seq<T>
    requires i < |s|
  {
    s[..i] + s[i + 1..]
  }

  lemma WithoutMultiset<T>(s: seq<T>, i: nat)
    requires i < |s|
    ensures multiset(s) == multiset(Without(s, i)) + multiset{s[i]}
  {
    assert s == s[..i] + [s[i]] + s[i + 1..];
  }

  lemma Between<T>(a: T, b: T, c: T, rest: seq<T>)
    ensures InsertAt([a, c] + rest, 1, b) == [a, b, c] + rest
  {
  }

  /** No insertion of the row, at any place in any order of the rows, lowers the count
      exactly when the rows linked to it are pairwise linked. */
  lemma InsertionNeverLowersIff(rel: Rel, nodes: seq<Node>, x: Node)
    requires Reflexive(rel) && Symmetric(rel)
    ensures LinkedPairwise(rel, NodeSet(nodes), x) <==>
            forall order: seq<Node>, i: nat | multiset(order) == multiset(nodes) && i <= |order| ::
              |Clusters(rel, InsertAt(order, i, x))| >= |Clusters(rel, order)|
  {
    if LinkedPairwise(rel, NodeSet(nodes), x) {
      forall order: seq<Node>, i: nat | multiset(order) == multiset(nodes) && i <= |order|
        ensures |Clusters(rel, InsertAt(order, i, x))| >= |Clusters(rel, order)|
      {
        SameRows(order, nodes);
        InsertedKeeps(rel, order, i, x);
      }
    } else {
      var k, l := UnlinkedPair(rel, nodes, x);
      var a, c := nodes[k], nodes[l];
      var rest := TwoFirst(nodes, k, l);
      InsertedMerges(rel, a, x, c, rest);
      Between(a, x, c, rest);
    }
  }

  lemma UnlinkedPair(rel: Rel, nodes: seq<Node>, x: Node) returns (k: nat, l: nat)
    requires Reflexive(rel) && !LinkedPairwise(rel, NodeSet(nodes), x)
    ensures k < |nodes| && l < |nodes| && k != l && rel(nodes[k], x) && rel(x, nodes[l]) && !rel(nodes[k], nodes[l])
  {
    var a, c :| a in NodeSet(nodes) && c in NodeSet(nodes) && rel(a, x) && rel(x, c) && !rel(a, c);
    k :| 0 <= k < |nodes| && nodes[k] == a;
    l :| 0 <= l < |nodes| && nodes[l] == c;
  }

  // ------------------------------------------------------------------
  // Evidence
  // ------------------------------------------------------------------

  lemma InsertedNodes(names: Names, list: seq<SourceEvidence>, i: nat, ev: SourceEvidence)
    requires i <= |list|
    ensures Nodes(names, InsertAt(list, i, ev)) == InsertAt(Nodes(names, list), i, NodeOf(names, ev))
  {
  }

  ghost predicate Safe(names: Names, evidence: seq<SourceEvidence>, ev: SourceEvidence) {
    LinkedPairwise(SameOrigin, NodeSet(Nodes(names, evidence)), NodeOf(names, ev))
  }

  /** New evidence lowers the count of independent sources in no order and at no place
      exactly when the rows of its origin have one origin pairwise. */
  lemma CountNeverLoweredIff(names: Names, evidence: seq<SourceEvidence>, ev: SourceEvidence)
    ensures Safe(names, evidence, ev) <==>
            forall order: seq<SourceEvidence>, i: nat | multiset(order) == multiset(evidence) && i <= |order| ::
              Count(names, InsertAt(order, i, ev)) >= Count(names, order)
  {
    if Safe(names, evidence, ev) {
      forall order: seq<SourceEvidence>, i: nat | multiset(order) == multiset(evidence) && i <= |order|
        ensures Count(names, InsertAt(order, i, ev)) >= Count(names, order)
      {
        NodesMultiset(names, order, evidence);
        SafeKeepsCount(names, order, i, ev);
      }
    } else {
      var order := UnsafeOrder(names, evidence, ev);
    }
  }

  lemma UnsafeOrder(names: Names, evidence: seq<SourceEvidence>, ev: SourceEvidence) returns (order: seq<SourceEvidence>)
    requires !Safe(names, evidence, ev)
    ensures multiset(order) == multiset(evidence) && 1 <= |order|
    ensures Count(names, InsertAt(order, 1, ev)) < Count(names, order)
  {
    var k, l := UnsafePair(names, evidence, ev);
    var rest := TwoFirst(evidence, k, l);
    order := [evidence[k], evidence[l]] + rest;
    SplitLowersCount(names, evidence[k], ev, evidence[l], rest);
  }

  lemma SafeKeepsCount(names: Names, list: seq<SourceEvidence>, i: nat, ev: SourceEvidence)
    requires Safe(names, list, ev) && i <= |list|
    ensures Count(names, InsertAt(list, i, ev)) >= Count(names, list)
  {
    SameOriginLaws();
    InsertedNodes(names, list, i, ev);
    InsertedKeeps(SameOrigin, Nodes(names, list), i, NodeOf(names, ev));
  }

  /** Two rows of the new row's origin that are not of one origin. */
  lemma UnsafePair(names: Names, evidence: seq<SourceEvidence>, ev: SourceEvidence) returns (k: nat, l: nat)
    requires !Safe(names, evidence, ev)
    ensures k < |evidence| && l < |evidence| && k != l
    ensures SameOrigin(NodeOf(names, evidence[k]), NodeOf(names, ev)) && SameOrigin(NodeOf(names, ev), NodeOf(names, evidence[l]))
    ensures !SameOrigin(NodeOf(names, evidence[k]), NodeOf(names, evidence[l]))
  {
    SameOriginLaws();
    k, l := UnlinkedPair(SameOrigin, Nodes(names, evidence), NodeOf(names, ev));
  }

  lemma SplitLowersCount(names: Names, a: SourceEvidence, b: SourceEvidence, c: SourceEvidence, rest: seq<SourceEvidence>)
    requires SameOrigin(NodeOf(names, a), NodeOf(names, b)) && SameOrigin(NodeOf(names, b), NodeOf(names, c))
    requires !SameOrigin(NodeOf(names, a), NodeOf(names, c))
    ensures Count(names, InsertAt([a, c] + rest, 1, b)) < Count(names, [a, c] + rest)
  {
    Between(a, b, c, rest);
    NodesOfThree(names, a, b, c, rest);
    NodesOfTwo(names, a, c, rest);
    MergeCount(names, [a, b, c] + rest, [a, c] + rest, NodeOf(names, a), NodeOf(names, b), NodeOf(names, c), Nodes(names, rest));
  }

  lemma NodesOfTwo(names: Names, a: SourceEvidence, c: SourceEvidence, rest: seq<SourceEvidence>)
    ensures Nodes(names, [a, c] + rest) == [NodeOf(names, a), NodeOf(names, c)] + Nodes(names, rest)
  {
  }

  lemma NodesOfThree(names: Names, a: SourceEvidence, b: SourceEvidence, c: SourceEvidence, rest: seq<SourceEvidence>)
    ensures Nodes(names, [a, b, c] + rest) == [NodeOf(names, a), NodeOf(names, b), NodeOf(names, c)] + Nodes(names, rest)
  {
  }

  lemma MergeCount(names: Names, more: seq<SourceEvidence>, fewer: seq<SourceEvidence>, p: Node, q: Node, r: Node, rest: seq<Node>)
    requires Nodes(names, more) == [p, q, r] + rest && Nodes(names, fewer) == [p, r] + rest
    requires SameOrigin(p, q) && SameOrigin(q, r) && !SameOrigin(p, r)
    ensures Count(names, more) < Count(names, fewer)
  {
    InsertedMerges(SameOrigin, p, q, r, rest);
  }

  /** One insertion lowers the confidence exactly when it lowers the ceiling, and below a
      confidence of the rows. */
  lemma ConfidenceLoweredIff(names: Names, list: seq<SourceEvidence>, i: nat, ev: SourceEvidence)
    requires list != [] && i <= |list|
    ensures var ceiling := Ceiling(Count(names, InsertAt(list, i, ev)));
            Corroborated(names, InsertAt(list, i, ev)) < Corroborated(names, list) <==>
            ceiling < Ceiling(Count(names, list)) && exists e | e in list :: ceiling < e.confidence
  {
    var cs, cs' := Confidences(list), Confidences(InsertAt(list, i, ev));
    assert cs' == InsertAt(cs, i, ev.confidence);
    MaxIsMax(cs);
    MaxIsMax(cs');
    assert cs == cs[..i] + cs[i..];
    assert Max(cs) in cs';
    HighestRow(list);
    var ceiling := Ceiling(Count(names, InsertAt(list, i, ev)));
    if e :| e in list && ceiling < e.confidence {
      var k :| 0 <= k < |list| && list[k] == e;
      assert cs[k] in cs;
    }
  }

  lemma HighestRow(list: seq<SourceEvidence>)
    requires list != []
    ensures exists e | e in list :: e.confidence == Max(Confidences(list))
  {
    var cs := Confidences(list);
    MaxIsMax(cs);
    var k :| 0 <= k < |cs| && cs[k] == Max(cs);
    assert list[k] in list;
  }

  /** Rows of known origins, with whatever confidences. */
  ghost predicate Of(names: Names, evidence: seq<SourceEvidence>, list: seq<SourceEvidence>) {
    list != [] && NodeSet(Nodes(names, list)) <= NodeSet(Nodes(names, evidence))
  }

  /** No list of such rows, whatever its confidences, loses confidence to the new row at any
      place exactly when the rows of its origin have one origin pairwise. */
  lemma ConfidenceNeverLoweredIff(names: Names, evidence: seq<SourceEvidence>, ev: SourceEvidence)
    ensures Safe(names, evidence, ev) <==>
            forall list: seq<SourceEvidence>, i: nat | Of(names, evidence, list) && i <= |list| ::
              Corroborated(names, InsertAt(list, i, ev)) >= Corroborated(names, list)
  {
    if Safe(names, evidence, ev) {
      forall list: seq<SourceEvidence>, i: nat | Of(names, evidence, list) && i <= |list|
        ensures Corroborated(names, InsertAt(list, i, ev)) >= Corroborated(names, list)
      {
        SafeKeepsCount(names, list, i, ev);
        ConfidenceLoweredIff(names, list, i, ev);
      }
    } else {
      var list := UnsafeList(names, evidence, ev);
    }
  }

  lemma UnsafeList(names: Names, evidence: seq<SourceEvidence>, ev: SourceEvidence) returns (list: seq<SourceEvidence>)
    requires !Safe(names, evidence, ev)
    ensures Of(names, evidence, list) && 1 <= |list|
    ensures Corroborated(names, InsertAt(list, 1, ev)) < Corroborated(names, list)
  {
    var k, l := UnsafePair(names, evidence, ev);
    var a, c := evidence[k].(confidence := 1.0), evidence[l].(confidence := 1.0);
    SameNode(names, evidence[k], 1.0);
    SameNode(names, evidence[l], 1.0);
    list := [a, c];
    PairOf(names, evidence, k, l, list);
    MergedBetween(names, a, ev, c);
  }

  lemma SameNode(names: Names, e: SourceEvidence, confidence: real)
    ensures NodeOf(names, e.(confidence := confidence)) == NodeOf(names, e)
  {
  }

  lemma PairOf(names: Names, evidence: seq<SourceEvidence>, k: nat, l: nat, list: seq<SourceEvidence>)
    requires k < |evidence| && l < |evidence| && |list| == 2
    requires NodeOf(names, list[0]) == NodeOf(names, evidence[k]) && NodeOf(names, list[1]) == NodeOf(names, evidence[l])
    ensures Of(names, evidence, list)
  {
    var nodes := Nodes(names, evidence);
    assert Nodes(names, list) == [nodes[k], nodes[l]];
    assert nodes[k] in NodeSet(nodes) && nodes[l] in NodeSet(nodes);
  }

  // ------------------------------------------------------------------
  // Three texts
  // ------------------------------------------------------------------

  lemma {:induction false} FewFields(s: string)
    ensures |Text.Fields(s)| <= |s|
    decreases |s|
  {
    if s != "" {
      if Text.IsSpace(s[0]) { FewFields(s[1..]); } else { FewFields(s[Text.WordLength(s)..]); }
    }
  }

  /** A short lower-case text with single blanks is its own canonical form. */
  lemma OwnCanonical(names: Names, s: string)
    requires names.lower(s) == s && Text.Normalized(s) && |s| <= MAX_WORDS
    ensures CanonicalText(names, s) == s
  {
    FewFields(s);
    Text.RejoinNormalized(s);
  }

  /** Under one publisher, the texts "abcd" and "abcd abcd bcd" count twice until
      "abcd abcd" comes between them: 0.85 becomes 0.5. */
  lemma ChainLowers(names: Names, a: SourceEvidence, b: SourceEvidence, c: SourceEvidence)
    requires a.rawText == "abcd" && b.rawText == "abcd abcd" && c.rawText == "abcd abcd bcd"
    requires names.lower("abcd") == "abcd" && names.lower("abcd abcd") == "abcd abcd" && names.lower("abcd abcd bcd") == "abcd abcd bcd"
    requires EvidenceDomain(names, a) == EvidenceDomain(names, b) == EvidenceDomain(names, c) != ""
    requires a.confidence >= 0.85
    ensures !Safe(names, [a, c], b)
    ensures Corroborated(names, [a, c]) == 0.85 && Corroborated(names, InsertAt([a, c], 1, b)) == 0.5
  {
    ChainLinked(names, a, b, c, "abcd", "abcd abcd", "abcd abcd bcd");
    MergedBetween(names, a, b, c);
  }

  lemma MergedBetween(names: Names, a: SourceEvidence, b: SourceEvidence, c: SourceEvidence)
    requires SameOrigin(NodeOf(names, a), NodeOf(names, b)) && SameOrigin(NodeOf(names, b), NodeOf(names, c))
    requires !SameOrigin(NodeOf(names, a), NodeOf(names, c)) && a.confidence >= 0.85
    ensures !Safe(names, [a, c], b)
    ensures Corroborated(names, [a, c]) == 0.85 && Corroborated(names, InsertAt([a, c], 1, b)) == 0.5
  {
    InsertedEvidenceLowers(names, a, b, c);
    Between(a, b, c, []);
    assert [a, c] + [] == [a, c] && [a, b, c] + [] == [a, b, c];
    if Safe(names, [a, c], b) { SafeKeepsCount(names, [a, c], 1, b); }
  }

  lemma ChainLinked(names: Names, a: SourceEvidence, b: SourceEvidence, c: SourceEvidence, r: string, s: string, t: string)
    requires a.rawText == r == "abcd" && b.rawText == s == "abcd abcd" && c.rawText == t == "abcd abcd bcd"
    requires names.lower(r) == r && names.lower(s) == s && names.lower(t) == t
    requires EvidenceDomain(names, a) == EvidenceDomain(names, b) == EvidenceDomain(names, c) != ""
    ensures SameOrigin(NodeOf(names, a), NodeOf(names, b)) && SameOrigin(NodeOf(names, b), NodeOf(names, c))
    ensures !SameOrigin(NodeOf(names, a), NodeOf(names, c))
  {
    ChainOfTexts();
    SingleBlanks();
    OwnCanonical(names, r);
    OwnCanonical(names, s);
    OwnCanonical(names, t);
  }

  lemma SingleBlanks()
    ensures Text.Normalized("abcd") && Text.Normalized("abcd abcd") && Text.Normalized("abcd abcd bcd")
  {
    TwoBlanks("abcd abcd bcd");
  }

  lemma TwoBlanks(s: string)
    requires s == "abcd abcd bcd"
    ensures Text.Normalized(s)
  {
    assert forall i | 0 <= i < |s| :: Text.IsSpace(s[i]) <==> i == 4 || i == 9;
  }
}
