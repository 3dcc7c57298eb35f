/**
 Corroboration: trigram similarity, the count of independent sources and the
 confidence ceiling.
 */
module Corroboration {
  import opened Clustering
  import opened Wrappers
  import Text

  // ------------------------------------------------------------------
  // Trigram similarity
  // ------------------------------------------------------------------

  function Padded(s: string): string {
    "  " + s + "  "
  }

  function TrigramAt(runes: string, i: nat): string
    requires i + 3 <= |runes|
  {
    runes[i..i + 3]
  }

  function Trigrams(s: string): (t: set<string>) {
    set i: nat | i <= |Padded(s)| - 3 :: TrigramAt(Padded(s), i)
  }

  method ComputeTrigrams(s: string) returns (out: set<string>)
    ensures out == Trigrams(s)
  {
    var runes := "  " + s + "  ";
    out := {};
    if |runes| < 3 {
      return;
    }
    var i := 0;
    while i <= |runes| - 3
      invariant 0 <= i <= |runes| - 2
      invariant forall t :: t in out <==> exists j: nat | j < i :: t == TrigramAt(runes, j)
    {
      out := out + {TrigramAt(runes, i)};
      i := i + 1;
    }
    assert runes == Padded(s);
    assert forall t :: t in out <==> t in Trigrams(s);
  }

  /** Twice the shared trigrams over all trigrams. */
  function Dice(a: set<string>, b: set<string>): real {
    if |a| + |b| == 0 then 1.0 else (2 * |a * b|) as real / (|a| + |b|) as real
  }

  function Similarity(a: string, b: string): real {
    Dice(Trigrams(a), Trigrams(b))
  }

  /** The loop over the first set. */
  method CountShared(aSet: set<string>, bSet: set<string>) returns (shared: nat)
    ensures shared == |aSet * bSet|
  {
    shared := 0;
    var todo := aSet;
    while todo != {}
      invariant todo <= aSet
      invariant shared + |todo * bSet| == |aSet * bSet|
      decreases todo
    {
      var tri :| tri in todo;
      if tri in bSet {
        assert todo * bSet == (todo - {tri}) * bSet + {tri};
        shared := shared + 1;
      } else {
        assert todo * bSet == (todo - {tri}) * bSet;
      }
      todo := todo - {tri};
    }
  }

  method TrigramSimilarity(a: string, b: string) returns (r: real)
    ensures r == Similarity(a, b)
  {
    var aSet := ComputeTrigrams(a);
    var bSet := ComputeTrigrams(b);
    if |aSet| == 0 && |bSet| == 0 {
      return 1.0;
    }
    var intersection := CountShared(aSet, bSet);
    return (2 * intersection) as real / (|aSet| + |bSet|) as real;
  }

  lemma SharedAtMost<T>(a: set<T>, b: set<T>)
    ensures |a * b| <= |a| && (|a * b| == |a| <==> a <= b)
  {
    assert a == (a * b) + (a - b);
    assert |a| == |a * b| + |a - b|;
    if |a - b| == 0 {
      assert a <= b;
    }
    if a <= b {
      assert a * b == a;
    }
  }

  lemma DiceBounds(a: set<string>, b: set<string>)
    requires a != {} || b != {}
    ensures 0.0 <= Dice(a, b) <= 1.0
    ensures Dice(a, b) == 1.0 <==> a == b
  {
    SharedAtMost(a, b);
    SharedAtMost(b, a);
    assert a * b == b * a;
    assert |a| + |b| > 0;
    var n, d := (2 * |a * b|) as real, (|a| + |b|) as real;
    assert 0.0 <= n <= d && d > 0.0;
    RatioBounds(n, d);
    if a == b {
      assert a * b == a;
    }
  }

  lemma RatioBounds(n: real, d: real)
    requires 0.0 <= n <= d && d > 0.0
    ensures 0.0 <= n / d <= 1.0 && (n / d == 1.0 <==> n == d)
  {
    assert n / d * d == n;
  }

  /** Similarity is symmetric, lies in [0, 1] and is 1 exactly for equal trigram sets;
      padding leaves no string without a trigram, so it never divides by zero. */
  lemma SimilarityLaws(a: string, b: string)
    ensures Trigrams(a) != {} && |Trigrams(a)| + |Trigrams(b)| > 0
    ensures Similarity(a, b) == Similarity(b, a)
    ensures 0.0 <= Similarity(a, b) <= 1.0
    ensures Similarity(a, b) == 1.0 <==> Trigrams(a) == Trigrams(b)
  {
    assert TrigramAt(Padded(a), 0) in Trigrams(a);
    assert Trigrams(a) * Trigrams(b) == Trigrams(b) * Trigrams(a);
    DiceBounds(Trigrams(a), Trigrams(b));
  }

  // ------------------------------------------------------------------
  // Independent sources
  // ------------------------------------------------------------------

  /** Lower-casing, `url.Parse` and the text form of an id are foreign code. */
  datatype Names = Names(lower: string -> string, hostname: string -> Option<string>, idText: nat -> string)

  datatype SourceEvidence = SourceEvidence(
    source: nat,
    url: string,
    publisher: string,
    rawText: string,
    confidence: real)

  function TrimPrefix(s: string, prefix: string): string {
    if prefix <= s then s[|prefix|..] else s
  }

  function EvidenceDomain(names: Names, ev: SourceEvidence): string {
    if ev.publisher != "" then names.lower(Text.TrimSpace(ev.publisher))
    else
      match names.hostname(ev.url)
      case None => ""
      case Some(host) => names.lower(TrimPrefix(host, "www."))
  }

  const MAX_WORDS := 200

  function CanonicalText(names: Names, text: string): string {
    var fields := Text.Fields(names.lower(text));
    Text.Join(if |fields| > MAX_WORDS then fields[..MAX_WORDS] else fields)
  }

  function NodeOf(names: Names, ev: SourceEvidence): Node {
    var domain := EvidenceDomain(names, ev);
    Node(if domain == "" then names.idText(ev.source) else domain, CanonicalText(names, ev.rawText))
  }

  const SAME_TEXT := 0.85

  /** Same domain and nearly the same text.  Texts under different domains are never compared. */
  predicate SameOrigin(a: Node, b: Node) {
    a.domain == b.domain && Similarity(a.text, b.text) >= SAME_TEXT
  }

  function Nodes(names: Names, evidence: seq<SourceEvidence>): (nodes: seq<Node>)
    ensures |nodes| == |evidence|
  {
    seq(|evidence|, i requires 0 <= i < |evidence| => NodeOf(names, evidence[i]))
  }

  function Count(names: Names, evidence: seq<SourceEvidence>): nat {
    |Clusters(SameOrigin, Nodes(names, evidence))|
  }

  lemma SameOriginLaws()
    ensures Reflexive(SameOrigin) && Symmetric(SameOrigin)
  {
    forall a: Node ensures SameOrigin(a, a) {
      SimilarityLaws(a.text, a.text);
    }
    forall a: Node, b: Node | SameOrigin(a, b) ensures SameOrigin(b, a) {
      SimilarityLaws(a.text, b.text);
    }
  }

  /** A cluster as the worker keeps it. */
  datatype SourceCluster = SourceCluster(domain: string, texts: seq<string>)

  ghost predicate Mirrors(c: SourceCluster, g: Cluster) {
    && g.first.domain == c.domain
    && (forall n | n in g.rows :: n.domain == c.domain && n.text in c.texts)
    && (forall t | t in c.texts :: Node(c.domain, t) in g.rows)
  }

  ghost predicate Mirror(cs: seq<SourceCluster>, gs: seq<Cluster>) {
    |cs| == |gs| && forall i | 0 <= i < |cs| :: Mirrors(cs[i], gs[i])
  }

  /** Whether a cluster takes the row. */
  method Matches(c: SourceCluster, domain: string, textKey: string) returns (matched: bool)
    ensures matched <==> c.domain == domain && exists t | t in c.texts :: Similarity(t, textKey) >= SAME_TEXT
  {
    if c.domain != domain {
      return false;
    }
    for i := 0 to |c.texts|
      invariant forall t | t in c.texts[..i] :: Similarity(t, textKey) < SAME_TEXT
    {
      var similarity := TrigramSimilarity(c.texts[i], textKey);
      if similarity >= SAME_TEXT {
        return true;
      }
    }
    return false;
  }

  lemma MatchIsLink(c: SourceCluster, g: Cluster, n: Node)
    requires Mirrors(c, g)
    ensures (c.domain == n.domain && exists t | t in c.texts :: Similarity(t, n.text) >= SAME_TEXT) <==>
            exists m | m in g.rows :: SameOrigin(m, n)
  {
    if c.domain == n.domain && exists t | t in c.texts :: Similarity(t, n.text) >= SAME_TEXT {
      var t :| t in c.texts && Similarity(t, n.text) >= SAME_TEXT;
      assert SameOrigin(Node(c.domain, t), n);
    }
    if exists m | m in g.rows :: SameOrigin(m, n) {
      var m :| m in g.rows && SameOrigin(m, n);
      assert m.text in c.texts;
    }
  }

  /** The first cluster that takes the row, or the number of clusters. */
  method FindCluster(clusters: seq<SourceCluster>, ghost gs: seq<Cluster>, node: Node) returns (k: nat, matched: bool)
    requires Mirror(clusters, gs)
    ensures k <= |gs| && (matched <==> k < |gs|)
    ensures Place(SameOrigin, gs, node) ==
            if matched then gs[k := Cluster(gs[k].first, gs[k].rows + {node})] else gs + [Cluster(node, {node})]
    ensures matched ==> clusters[k].domain == node.domain
  {
    k := 0;
    matched := false;
    while k < |clusters|
      invariant k <= |clusters|
      invariant forall j | 0 <= j < k :: !exists m | m in gs[j].rows :: SameOrigin(m, node)
    {
      MatchIsLink(clusters[k], gs[k], node);
      matched := Matches(clusters[k], node.domain, node.text);
      if matched {
        PlaceAt(SameOrigin, gs, node, k);
        return;
      }
      k := k + 1;
    }
    matched := false;
    PlaceAt(SameOrigin, gs, node, k);
  }

  lemma MirrorJoin(clusters: seq<SourceCluster>, gs: seq<Cluster>, node: Node, k: nat)
    requires Mirror(clusters, gs) && k < |gs| && clusters[k].domain == node.domain
    ensures Mirror(clusters[k := SourceCluster(clusters[k].domain, clusters[k].texts + [node.text])],
                   gs[k := Cluster(gs[k].first, gs[k].rows + {node})])
  {
    assert Mirrors(clusters[k], gs[k]);
    var c := SourceCluster(clusters[k].domain, clusters[k].texts + [node.text]);
    assert Mirrors(c, Cluster(gs[k].first, gs[k].rows + {node}));
  }

  lemma MirrorOpen(clusters: seq<SourceCluster>, gs: seq<Cluster>, node: Node)
    requires Mirror(clusters, gs)
    ensures Mirror(clusters + [SourceCluster(node.domain, [node.text])], gs + [Cluster(node, {node})])
  {
    assert Mirrors(SourceCluster(node.domain, [node.text]), Cluster(node, {node}));
  }

  method AddRow(clusters: seq<SourceCluster>, ghost gs: seq<Cluster>, node: Node) returns (r: seq<SourceCluster>)
    requires Mirror(clusters, gs)
    ensures Mirror(r, Place(SameOrigin, gs, node))
  {
    var k, matched := FindCluster(clusters, gs, node);
    if matched {
      MirrorJoin(clusters, gs, node, k);
      r := clusters[k := SourceCluster(clusters[k].domain, clusters[k].texts + [node.text])];
    } else {
      MirrorOpen(clusters, gs, node);
      r := clusters + [SourceCluster(node.domain, [node.text])];
    }
  }

  method CountIndependentSources(names: Names, evidence: seq<SourceEvidence>) returns (count: nat)
    ensures count == Count(names, evidence)
  {
    var clusters: seq<SourceCluster> := [];
    ghost var nodes := Nodes(names, evidence);
    for i := 0 to |evidence|
      invariant Mirror(clusters, Clusters(SameOrigin, nodes[..i]))
    {
      assert nodes[..i + 1][..i] == nodes[..i];
      clusters := AddRow(clusters, Clusters(SameOrigin, nodes[..i]), NodeOf(names, evidence[i]));
    }
    assert nodes[..|evidence|] == nodes;
    return |clusters|;
  }

  /** `Place` puts the row into the first matching cluster, or behind the last one. */
  lemma {:induction false} PlaceAt(rel: Rel, gs: seq<Cluster>, n: Node, k: nat)
    requires k <= |gs|
    requires forall j | 0 <= j < k :: !exists m | m in gs[j].rows :: rel(m, n)
    requires k < |gs| ==> exists m | m in gs[k].rows :: rel(m, n)
    ensures Place(rel, gs, n) ==
            if k < |gs| then gs[k := Cluster(gs[k].first, gs[k].rows + {n})] else gs + [Cluster(n, {n})]
  {
    if k > 0 {
      PlaceAt(rel, gs[1..], n, k - 1);
    }
  }

  /** The number of connected components of "same domain, similarity at least 0.85". */
  ghost function Origins(names: Names, evidence: seq<SourceEvidence>): nat {
    |Components(SameOrigin, NodeSet(Nodes(names, evidence)))|
  }

  lemma CountBetweenOriginsAndRows(names: Names, evidence: seq<SourceEvidence>)
    ensures Origins(names, evidence) <= Count(names, evidence) <= |evidence|
  {
    SameOriginLaws();
    CountBounds(SameOrigin, Nodes(names, evidence));
  }

  lemma {:induction false} NodesMultiset(names: Names, order: seq<SourceEvidence>, evidence: seq<SourceEvidence>)
    requires multiset(order) == multiset(evidence)
    ensures NodeSet(Nodes(names, order)) == NodeSet(Nodes(names, evidence))
  {
    assert forall e :: e in order <==> e in multiset(order);
    assert forall e :: e in evidence <==> e in multiset(evidence);
    NodesOf(names, order);
    NodesOf(names, evidence);
  }

  lemma NodesOf(names: Names, evidence: seq<SourceEvidence>)
    ensures NodeSet(Nodes(names, evidence)) == set e | e in evidence :: NodeOf(names, e)
  {
    forall e | e in evidence ensures NodeOf(names, e) in Nodes(names, evidence) {
      var i :| 0 <= i < |evidence| && evidence[i] == e;
      assert Nodes(names, evidence)[i] == NodeOf(names, e);
    }
  }

  /** Where "same origin" is transitive on the evidence, the count is the number of
      origins and no reordering changes it. */
  lemma CountIsOriginsWhenTransitive(names: Names, evidence: seq<SourceEvidence>, order: seq<SourceEvidence>)
    requires TransitiveOn(SameOrigin, NodeSet(Nodes(names, evidence)))
    requires multiset(order) == multiset(evidence)
    ensures Count(names, order) == Origins(names, evidence)
  {
    SameOriginLaws();
    NodesMultiset(names, order, evidence);
    TransitiveCountIsComponents(SameOrigin, Nodes(names, order));
  }

  // ------------------------------------------------------------------
  // Confidence
  // ------------------------------------------------------------------

  function Ceiling(count: int): real {
    if count <= 1 then 0.5 else if count == 2 then 0.85 else 0.95
  }

  ghost predicate IsMax(m: real, xs: seq<real>) {
    m in xs && forall x | x in xs :: x <= m
  }

  method ComputeConfidence(count: int, confidences: seq<real>) returns (r: real)
    ensures confidences == [] ==> r == Ceiling(count)
    ensures confidences != [] ==>
              exists m | m in confidences :: IsMax(m, confidences) && r == if m < Ceiling(count) then m else Ceiling(count)
    ensures r == Confidence(count, confidences)
  {
    var ceiling := Ceiling(count);
    var perSourceMax := 0.95;
    if |confidences| > 0 {
      perSourceMax := confidences[0];
      for i := 1 to |confidences|
        invariant perSourceMax == Max(confidences[..i])
      {
        assert confidences[..i + 1][..i] == confidences[..i];
        if confidences[i] > perSourceMax {
          perSourceMax := confidences[i];
        }
      }
      assert confidences[..|confidences|] == confidences;
      MaxIsMax(confidences);
    }
    if perSourceMax < ceiling {
      return perSourceMax;
    }
    return ceiling;
  }

  function Max(xs: seq<real>): real
    requires xs != []
  {
    if |xs| == 1 then xs[0]
    else
      var m := Max(xs[..|xs| - 1]);
      if xs[|xs| - 1] > m then xs[|xs| - 1] else m
  }

  lemma {:induction false} MaxIsMax(xs: seq<real>)
    requires xs != []
    ensures IsMax(Max(xs), xs)
  {
    if |xs| > 1 {
      MaxIsMax(xs[..|xs| - 1]);
      assert xs == xs[..|xs| - 1] + [xs[|xs| - 1]];
    }
  }

  function Confidence(count: int, confidences: seq<real>): real {
    var m := if confidences == [] then 0.95 else Max(confidences);
    if m < Ceiling(count) then m else Ceiling(count)
  }

  function Confidences(evidence: seq<SourceEvidence>): (cs: seq<real>)
    ensures |cs| == |evidence|
  {
    seq(|evidence|, i requires 0 <= i < |evidence| => evidence[i].confidence)
  }

  /** What a pass writes for a statement with this evidence, in this order. */
  function Corroborated(names: Names, evidence: seq<SourceEvidence>): real {
    Confidence(Count(names, evidence), Confidences(evidence))
  }

  /** Evidence ordered behind all other evidence never lowers a confidence, and no
      confidence exceeds 0.95. */
  lemma AppendedEvidenceNeverLowers(names: Names, evidence: seq<SourceEvidence>, ev: SourceEvidence)
    requires evidence != []
    ensures Count(names, evidence) <= Count(names, evidence + [ev]) <= Count(names, evidence) + 1
    ensures Corroborated(names, evidence) <= Corroborated(names, evidence + [ev]) <= 0.95
  {
    AppendedCount(names, evidence, ev);
    var cs := Confidences(evidence);
    assert Confidences(evidence + [ev]) == cs + [ev.confidence];
    ConfidenceMonotone(Count(names, evidence), Count(names, evidence + [ev]), cs, ev.confidence);
  }

  lemma AppendedCount(names: Names, evidence: seq<SourceEvidence>, ev: SourceEvidence)
    ensures Count(names, evidence) <= Count(names, evidence + [ev]) <= Count(names, evidence) + 1
  {
    assert Nodes(names, evidence + [ev]) == Nodes(names, evidence) + [NodeOf(names, ev)];
    AppendedRow(SameOrigin, Nodes(names, evidence), NodeOf(names, ev));
  }

  /** One confidence more and a count no smaller. */
  lemma ConfidenceMonotone(count: int, count': int, cs: seq<real>, c: real)
    requires cs != [] && count <= count'
    ensures Confidence(count, cs) <= Confidence(count', cs + [c]) <= 0.95
  {
    assert (cs + [c])[..|cs|] == cs;
    assert Max(cs) <= Max(cs + [c]);
  }

  /** One row is one source: its confidence is at most 0.5. */
  lemma SingleEvidenceAtMostHalf(names: Names, ev: SourceEvidence)
    ensures Count(names, [ev]) == 1 && Corroborated(names, [ev]) <= 0.5
    ensures Corroborated(names, [ev]) == if ev.confidence < 0.5 then ev.confidence else 0.5
  {
    var n := NodeOf(names, ev);
    assert Nodes(names, [ev]) == [n];
    assert [n][..0] == [];
    assert Clusters(SameOrigin, [n]) == [Cluster(n, {n})];
  }

  // ------------------------------------------------------------------
  // Evidence in between
  // ------------------------------------------------------------------

  /** Rows come ordered by source id, so a new row can land between two old ones.  If
      it is close to both, and they are not close to each other, two sources become
      one and the confidence falls. */
  lemma InsertedEvidenceLowers(names: Names, a: SourceEvidence, b: SourceEvidence, c: SourceEvidence)
    requires SameOrigin(NodeOf(names, a), NodeOf(names, b)) && SameOrigin(NodeOf(names, b), NodeOf(names, c))
    requires !SameOrigin(NodeOf(names, a), NodeOf(names, c))
    requires a.confidence >= 0.85
    ensures Count(names, [a, c]) == 2 && Count(names, [a, b, c]) == 1
    ensures Corroborated(names, [a, c]) == 0.85 && Corroborated(names, [a, b, c]) == 0.5
  {
    TwoRows(names, a, c);
    ThreeRows(names, a, b, c);
    CeilingReached(2, Confidences([a, c]), 0);
    CeilingReached(1, Confidences([a, b, c]), 0);
  }

  lemma CeilingReached(count: int, confidences: seq<real>, i: nat)
    requires i < |confidences| && confidences[i] >= Ceiling(count)
    ensures Confidence(count, confidences) == Ceiling(count)
  {
    MaxIsMax(confidences);
    assert confidences[i] in confidences;
    assert Max(confidences) >= Ceiling(count);
  }

  /** Two rows count once exactly when they share the domain and nearly the text; the same
      text under another domain counts twice, and lifts the ceiling from 0.5 to 0.85. */
  lemma WireCopyCountsTwice(names: Names, a: SourceEvidence, b: SourceEvidence)
    ensures Count(names, [a, b]) == if SameOrigin(NodeOf(names, a), NodeOf(names, b)) then 1 else 2
    ensures NodeOf(names, a).domain != NodeOf(names, b).domain && a.confidence >= 0.85 ==>
              Corroborated(names, [a, b]) == 0.85
  {
    if SameOrigin(NodeOf(names, a), NodeOf(names, b)) {
      assert Nodes(names, [a, b]) == [NodeOf(names, a), NodeOf(names, b)];
      PairCluster(SameOrigin, NodeOf(names, a), NodeOf(names, b));
    } else {
      TwoRows(names, a, b);
      if a.confidence >= 0.85 { CeilingReached(2, Confidences([a, b]), 0); }
    }
  }

  lemma TwoRows(names: Names, a: SourceEvidence, c: SourceEvidence)
    requires !SameOrigin(NodeOf(names, a), NodeOf(names, c))
    ensures Count(names, [a, c]) == 2
  {
    var nodes := [NodeOf(names, a), NodeOf(names, c)];
    assert Nodes(names, [a, c]) == nodes;
    TwoClusters(SameOrigin, nodes[0], nodes[1]);
  }

  lemma ThreeRows(names: Names, a: SourceEvidence, b: SourceEvidence, c: SourceEvidence)
    requires SameOrigin(NodeOf(names, a), NodeOf(names, b)) && SameOrigin(NodeOf(names, b), NodeOf(names, c))
    ensures Count(names, [a, b, c]) == 1
  {
    var nodes := [NodeOf(names, a), NodeOf(names, b), NodeOf(names, c)];
    assert Nodes(names, [a, b, c]) == nodes;
    OneCluster(SameOrigin, nodes[0], nodes[1], nodes[2]);
  }

  lemma IsTrigram(s: string, i: nat, x: char, y: char, z: char)
    requires i + 3 <= |Padded(s)| && Padded(s)[i] == x && Padded(s)[i + 1] == y && Padded(s)[i + 2] == z
    ensures TrigramAt(Padded(s), i) == [x, y, z]
  {
  }

  lemma TrigramList(s: string, list: seq<string>)
    requires |list| == |s| + 2
    requires forall i | 0 <= i < |list| :: list[i] == TrigramAt(Padded(s), i)
    ensures Trigrams(s) == set t | t in list
  {
    forall t | t in Trigrams(s) ensures t in list {
      var i: nat :| i <= |Padded(s)| - 3 && t == TrigramAt(Padded(s), i);
      assert t == list[i];
    }
    forall t | t in list ensures t in Trigrams(s) {
      var i: nat :| i < |list| && t == list[i];
      assert t == TrigramAt(Padded(s), i);
    }
  }

  const SHORT: set<string> := {"  a", " ab", "abc", "bcd", "cd ", "d  "}
  const MIDDLE := SHORT + {"d a"}
  const LONG := MIDDLE + {"d b", " bc"}

  lemma Sizes()
    ensures |SHORT| == 6 && |MIDDLE| == 7 && |LONG| == 9
  {
    assert "d a" !in SHORT;
    assert "d b" !in MIDDLE && " bc" !in MIDDLE;
    assert |{"d b", " bc"}| == 2 && LONG == MIDDLE + {"d b"} + {" bc"};
  }

  lemma ShortText()
    ensures Trigrams("abcd") == SHORT
  {
    var list := ["  a", " ab", "abc", "bcd", "cd ", "d  "];
    assert Padded("abcd") == "  abcd  ";
    forall i | 0 <= i < |list| ensures list[i] == TrigramAt(Padded("abcd"), i) {
      IsTrigram("abcd", i, list[i][0], list[i][1], list[i][2]);
    }
    TrigramList("abcd", list);
    assert (set t | t in list) == SHORT;
  }

  lemma MiddleText()
    ensures Trigrams("abcd abcd") == MIDDLE
  {
    var list := ["  a", " ab", "abc", "bcd", "cd ", "d a", " ab", "abc", "bcd", "cd ", "d  "];
    assert Padded("abcd abcd") == "  abcd abcd  ";
    forall i | 0 <= i < |list| ensures list[i] == TrigramAt(Padded("abcd abcd"), i) {
      IsTrigram("abcd abcd", i, list[i][0], list[i][1], list[i][2]);
    }
    TrigramList("abcd abcd", list);
    assert (set t | t in list) == MIDDLE;
  }

  lemma LongText()
    ensures Trigrams("abcd abcd bcd") == LONG
  {
    var list := ["  a", " ab", "abc", "bcd", "cd ", "d a", " ab", "abc", "bcd", "cd ", "d b", " bc", "bcd", "cd ", "d  "];
    assert Padded("abcd abcd bcd") == "  abcd abcd bcd  ";
    forall i | 0 <= i < |list| ensures list[i] == TrigramAt(Padded("abcd abcd bcd"), i) {
      IsTrigram("abcd abcd bcd", i, list[i][0], list[i][1], list[i][2]);
    }
    TrigramList("abcd abcd bcd", list);
    assert (set t | t in list) == LONG;
  }

  lemma DiceOfSubset(a: set<string>, b: set<string>)
    requires a <= b && a != {}
    ensures Dice(a, b) == (2 * |a|) as real / (|a| + |b|) as real
  {
    assert a * b == a;
  }

  lemma DiceValues()
    ensures Dice(SHORT, MIDDLE) >= SAME_TEXT && Dice(MIDDLE, LONG) >= SAME_TEXT && Dice(SHORT, LONG) < SAME_TEXT
  {
    Sizes();
    DiceOfSubset(SHORT, MIDDLE);
    DiceOfSubset(MIDDLE, LONG);
    DiceOfSubset(SHORT, LONG);
  }

  /** Three texts of that kind. */
  lemma ChainOfTexts()
    ensures Similarity("abcd", "abcd abcd") >= SAME_TEXT
    ensures Similarity("abcd abcd", "abcd abcd bcd") >= SAME_TEXT
    ensures Similarity("abcd", "abcd abcd bcd") < SAME_TEXT
  {
    ShortText();
    MiddleText();
    LongText();
    DiceValues();
  }
}
