/** The property vocabulary: canonical slugs and the lookup of labels. */
module Vocabulary {
  import opened Text

  /** What this module needs of the Unicode tables. */
  ghost predicate Lawful(u: Unicode) {
    && (forall c :: u.lower(u.lower(c)) == u.lower(c))
    && (forall c :: IsSpace(u.lower(c)) <==> IsSpace(c))
    && (forall c | WordRune(u, c) :: !IsSpace(c))
    && !WordRune(u, '_') && u.lower('_') == '_'
  }

  function LowerText(u: Unicode, s: string): (r: string)
    ensures |r| == |s| && forall i | 0 <= i < |s| :: r[i] == u.lower(s[i])
  {
    seq(|s|, i requires 0 <= i < |s| => u.lower(s[i]))
  }

  function NormalizeLabel(u: Unicode, s: string): string {
    LowerText(u, TrimSpace(s))
  }

  // ------------------------------------------------------------------
  // normalizeSlug
  // ------------------------------------------------------------------

  /** Every run of other runes becomes one underscore; `after` says that one was just written. */
  function Underscored(u: Unicode, s: string, after: bool): string {
    if s == "" then ""
    else if WordRune(u, s[0]) then [s[0]] + Underscored(u, s[1..], false)
    else (if after then "" else "_") + Underscored(u, s[1..], true)
  }

  method UnderscoreRuns(u: Unicode, s: string) returns (b: string)
    ensures b == Underscored(u, s, false)
  {
    b := "";
    var lastUnderscore := false;
    for i := 0 to |s|
      invariant b + Underscored(u, s[i..], lastUnderscore) == Underscored(u, s, false)
    {
      var r := s[i];
      assert s[i..][1..] == s[i + 1..];
      ghost var rest := Underscored(u, s[i + 1..], !WordRune(u, r));
      if WordRune(u, r) {
        assert b + ([r] + rest) == b + [r] + rest;
        b := b + [r];
        lastUnderscore := false;
      } else {
        if !lastUnderscore {
          assert b + ("_" + rest) == b + "_" + rest;
          b := b + "_";
          lastUnderscore := true;
        } else {
          assert "" + rest == rest;
        }
      }
    }
    assert s[|s|..] == "";
    assert b + "" == b;
  }

  function TrimLeftUnderscores(s: string): string {
    if s != "" && s[0] == '_' then TrimLeftUnderscores(s[1..]) else s
  }

  function TrimRightUnderscores(s: string): string {
    if s != "" && s[|s| - 1] == '_' then TrimRightUnderscores(s[..|s| - 1]) else s
  }

  /** `strings.Trim(s, "_")` */
  function TrimUnderscores(s: string): string {
    TrimRightUnderscores(TrimLeftUnderscores(s))
  }

  function NormalizeSlug(u: Unicode, s: string): string {
    TrimUnderscores(Underscored(u, NormalizeLabel(u, s), false))
  }

  method ComputeSlug(u: Unicode, s: string) returns (slug: string)
    ensures slug == NormalizeSlug(u, s)
  {
    var b := UnderscoreRuns(u, NormalizeLabel(u, s));
    slug := TrimUnderscores(b);
  }

  /** Lower-case letters and digits, single underscores between them. */
  ghost predicate Inner(u: Unicode, s: string) {
    && (forall i | 0 <= i < |s| :: s[i] == '_' || WordRune(u, s[i]))
    && (forall i | 0 <= i < |s| :: u.lower(s[i]) == s[i])
    && (forall i | 0 < i < |s| :: !(s[i - 1] == '_' && s[i] == '_'))
  }

  ghost predicate SlugShape(u: Unicode, s: string) {
    Inner(u, s) && (s != "" ==> s[0] != '_' && s[|s| - 1] != '_')
  }

  lemma {:induction false} UnderscoredInner(u: Unicode, s: string, after: bool)
    requires Lawful(u) && forall i | 0 <= i < |s| :: u.lower(s[i]) == s[i]
    ensures Inner(u, Underscored(u, s, after))
    ensures after && Underscored(u, s, after) != "" ==> Underscored(u, s, after)[0] != '_'
  {
    if s != "" {
      UnderscoredInner(u, s[1..], !WordRune(u, s[0]));
    }
  }

  lemma {:induction false} TrimLeftInner(u: Unicode, s: string)
    requires Inner(u, s)
    ensures var r := TrimLeftUnderscores(s); Inner(u, r) && (r != "" ==> r[0] != '_')
  {
    if s != "" && s[0] == '_' {
      TrimLeftInner(u, s[1..]);
    }
  }

  lemma {:induction false} TrimRightInner(u: Unicode, s: string)
    requires Inner(u, s) && (s != "" ==> s[0] != '_')
    ensures SlugShape(u, TrimRightUnderscores(s))
  {
    if s != "" && s[|s| - 1] == '_' {
      TrimRightInner(u, s[..|s| - 1]);
    }
  }

  /** Every slug is lower-case letters and digits with single underscores between them. */
  lemma SlugHasShape(u: Unicode, s: string)
    requires Lawful(u)
    ensures SlugShape(u, NormalizeSlug(u, s))
  {
    var b := Underscored(u, NormalizeLabel(u, s), false);
    UnderscoredInner(u, NormalizeLabel(u, s), false);
    TrimLeftInner(u, b);
    TrimRightInner(u, TrimLeftUnderscores(b));
  }

  lemma InnerTail(u: Unicode, s: string)
    requires Inner(u, s) && s != ""
    ensures Inner(u, s[1..]) && (s[0] == '_' && |s| > 1 ==> s[1] != '_')
  {
    var t := s[1..];
    forall i | 0 < i < |t| ensures !(t[i - 1] == '_' && t[i] == '_') {
      var j := i + 1;
      assert t[i - 1] == s[j - 1] && t[i] == s[j];
    }
    if |s| > 1 {
      var j := 1;
      assert !(s[j - 1] == '_' && s[j] == '_');
    }
  }

  lemma {:induction false} InnerUnderscored(u: Unicode, s: string, after: bool)
    requires Lawful(u) && Inner(u, s) && (after && s != "" ==> s[0] != '_')
    ensures Underscored(u, s, after) == s
  {
    if s != "" {
      InnerTail(u, s);
      InnerUnderscored(u, s[1..], s[0] == '_');
      assert s == [s[0]] + s[1..];
    }
  }

  lemma LabelOfShape(u: Unicode, s: string)
    requires Lawful(u) && SlugShape(u, s)
    ensures NormalizeLabel(u, s) == s
  {
    assert !IsSpace('_');
    assert s != "" ==> !IsSpace(s[0]) && !IsSpace(s[|s| - 1]);
    assert TrimSpace(s) == s;
    assert LowerText(u, s) == s;
  }

  /** The shape is what `normalizeSlug` leaves alone; with `SlugHasShape`, it is idempotent. */
  lemma SlugFixedPoint(u: Unicode, s: string)
    requires Lawful(u)
    ensures NormalizeSlug(u, s) == s <==> SlugShape(u, s)
    ensures NormalizeSlug(u, NormalizeSlug(u, s)) == NormalizeSlug(u, s)
  {
    SlugHasShape(u, s);
    ShapeIsFixed(u, NormalizeSlug(u, s));
    if SlugShape(u, s) { ShapeIsFixed(u, s); }
  }

  lemma ShapeIsFixed(u: Unicode, s: string)
    requires Lawful(u) && SlugShape(u, s)
    ensures NormalizeSlug(u, s) == s
  {
    LabelOfShape(u, s);
    InnerUnderscored(u, s, false);
  }

  // ------------------------------------------------------------------
  // Resolve
  // ------------------------------------------------------------------

  datatype Property = Property(slug: string, title: string, valueType: string)

  type Catalog = map<string, Property>

  datatype Resolution = Resolution(property: Property, known: bool, proposals: seq<string>)

  function Resolve(u: Unicode, strict: bool, catalog: Catalog, name: string, valueType: string): Resolution {
    var normLabel := NormalizeLabel(u, name);
    if normLabel in catalog then Resolution(catalog[normLabel], true, [])
    else
      var slug := if NormalizeSlug(u, name) == "" then normLabel else NormalizeSlug(u, name);
      if strict then Resolution(Property(slug, name, valueType), false, [slug])
      else Resolution(Property(slug, name, valueType), true, [])
  }

  function SlugOf(u: Unicode, catalog: Catalog, name: string): string {
    Resolve(u, true, catalog, name, "").property.slug
  }

  /** The slug depends on neither mode nor value type. */
  lemma SlugInBothModes(u: Unicode, strict: bool, catalog: Catalog, name: string, valueType: string)
    ensures Resolve(u, strict, catalog, name, valueType).property.slug == SlugOf(u, catalog, name)
  {
  }

  /** A catalog whose entries resolve to themselves: the slug behind every key a label can
      have finds that slug, and a key in slug form names its own entry. */
  ghost predicate Closed(u: Unicode, catalog: Catalog) {
    && (forall k | k in catalog && NormalizeLabel(u, k) == k :: SlugOf(u, catalog, catalog[k].slug) == catalog[k].slug)
    && (forall k | k in catalog && k != "" && SlugShape(u, k) :: catalog[k].slug == k)
  }

  ghost predicate Canonical(u: Unicode, catalog: Catalog, name: string) {
    SlugOf(u, catalog, SlugOf(u, catalog, name)) == SlugOf(u, catalog, name)
  }

  lemma {:induction false} TrimLeftKeepsNonSpace(s: string)
    ensures var r := TrimLeft(s);
            |r| <= |s| && r == s[|s| - |r|..] && (r != "" ==> !IsSpace(r[0]))
  {
    if s != "" && IsSpace(s[0]) { TrimLeftKeepsNonSpace(s[1..]); }
  }

  lemma {:induction false} TrimRightKeepsNonSpace(s: string)
    ensures var r := TrimRight(s);
            |r| <= |s| && r == s[..|r|] && (r != "" ==> !IsSpace(r[|r| - 1]))
    ensures s != "" && !IsSpace(s[0]) ==> TrimRight(s) != ""
  {
    if s != "" && IsSpace(s[|s| - 1]) { TrimRightKeepsNonSpace(s[..|s| - 1]); }
  }

  lemma LabelIdempotent(u: Unicode, s: string)
    requires Lawful(u)
    ensures NormalizeLabel(u, NormalizeLabel(u, s)) == NormalizeLabel(u, s)
  {
    var t := TrimSpace(s);
    TrimLeftKeepsNonSpace(s);
    TrimRightKeepsNonSpace(TrimLeft(s));
    var l := LowerText(u, t);
    assert l != "" ==> !IsSpace(l[0]) && !IsSpace(l[|l| - 1]);
    assert TrimSpace(l) == l;
    assert LowerText(u, l) == l;
  }

  /** On a closed catalog every resolved slug resolves to itself. */
  lemma ClosedIsCanonical(u: Unicode, catalog: Catalog, name: string)
    requires Lawful(u) && Closed(u, catalog)
    ensures Canonical(u, catalog, name)
  {
    var l := NormalizeLabel(u, name);
    LabelIdempotent(u, name);
    if l !in catalog {
      var slug := NormalizeSlug(u, name);
      SlugHasShape(u, name);
      if slug == "" {
        BlankSlug(u, name);
      } else {
        LabelOfShape(u, slug);
        ShapeIsFixed(u, slug);
      }
    }
  }

  /** A label without letters and digits stays without them. */
  lemma BlankSlug(u: Unicode, s: string)
    requires Lawful(u) && NormalizeSlug(u, s) == ""
    ensures NormalizeSlug(u, NormalizeLabel(u, s)) == ""
  {
    LabelIdempotent(u, s);
  }

  function Underscores(n: nat): string {
    seq(n, i => '_')
  }

  lemma {:induction false} UnderscoredSuffix(u: Unicode, k: string, n: nat, after: bool)
    requires Lawful(u) && Inner(u, k) && (after && k != "" ==> k[0] != '_') && n > 0
    requires k != "" && k[|k| - 1] != '_'
    ensures Underscored(u, k + Underscores(n), after) == k + "_"
  {
    var s := k + Underscores(n);
    assert s[1..] == k[1..] + Underscores(n);
    if |k| == 1 {
      AllUnderscores(u, n, false);
      assert k[1..] + Underscores(n) == Underscores(n);
    } else {
      InnerTail(u, k);
      UnderscoredSuffix(u, k[1..], n, k[0] == '_');
      assert k == [k[0]] + k[1..];
    }
  }

  lemma {:induction false} AllUnderscores(u: Unicode, n: nat, after: bool)
    requires Lawful(u)
    ensures Underscored(u, Underscores(n), after) == if after || n == 0 then "" else "_"
  {
    if n > 0 {
      assert Underscores(n)[1..] == Underscores(n - 1);
      AllUnderscores(u, n - 1, true);
    }
  }

  /** A slug with underscores behind it is another label for the same slug. */
  lemma SuffixedLabel(u: Unicode, k: string, n: nat)
    requires Lawful(u) && SlugShape(u, k) && k != "" && n > 0
    ensures NormalizeLabel(u, k + Underscores(n)) == k + Underscores(n)
    ensures NormalizeSlug(u, k + Underscores(n)) == k
  {
    var s := k + Underscores(n);
    assert !IsSpace('_');
    assert !IsSpace(s[0]) && !IsSpace(s[|s| - 1]);
    assert TrimSpace(s) == s;
    assert LowerText(u, s) == s;
    UnderscoredSuffix(u, k, n, false);
    assert (k + "_")[..|k|] == k;
    assert TrimLeftUnderscores(k + "_") == k + "_";
    assert TrimRightUnderscores(k) == k;
  }

  lemma {:induction false} Longest(keys: set<string>) returns (m: nat)
    ensures forall k | k in keys :: |k| <= m
    decreases |keys|
  {
    m := 0;
    if k :| k in keys {
      m := Longest(keys - {k});
      m := if |k| > m then |k| else m;
    }
  }

  /** Resolving a resolved slug gives the same slug for every label exactly on the closed
      catalogs. */
  lemma CanonicalIffClosed(u: Unicode, catalog: Catalog)
    requires Lawful(u)
    ensures (forall name :: Canonical(u, catalog, name)) <==> Closed(u, catalog)
  {
    if Closed(u, catalog) {
      forall name ensures Canonical(u, catalog, name) {
        ClosedIsCanonical(u, catalog, name);
      }
    }
    if forall name :: Canonical(u, catalog, name) {
      forall k | k in catalog && NormalizeLabel(u, k) == k ensures SlugOf(u, catalog, catalog[k].slug) == catalog[k].slug {
        assert Canonical(u, catalog, k);
      }
      forall k | k in catalog && k != "" && SlugShape(u, k) ensures catalog[k].slug == k {
        var m := Longest(catalog.Keys);
        SuffixedLabel(u, k, m + 1);
        LabelOfShape(u, k);
        assert Canonical(u, catalog, k + Underscores(m + 1));
      }
    }
  }

  // ------------------------------------------------------------------
  // The default catalog
  // ------------------------------------------------------------------

  /** Every property under its normalised slug and its normalised label. */
  function Fill(u: Unicode, properties: seq<Property>): Catalog {
    if properties == [] then map[]
    else
      var p := properties[|properties| - 1];
      Fill(u, properties[..|properties| - 1])[NormalizeLabel(u, p.slug) := p][NormalizeLabel(u, p.title) := p]
  }

  method BuildCatalog(u: Unicode, properties: seq<Property>) returns (catalog: Catalog)
    ensures catalog == Fill(u, properties)
  {
    catalog := map[];
    for i := 0 to |properties|
      invariant catalog == Fill(u, properties[..i])
    {
      assert properties[..i + 1][..i] == properties[..i];
      var p := properties[i];
      catalog := catalog[NormalizeLabel(u, p.slug) := p];
      catalog := catalog[NormalizeLabel(u, p.title) := p];
    }
    assert properties[..|properties|] == properties;
  }

  /** Property `i`: its slug is a normalised label, its two keys are no other property's
      (`owner` tells whose a key is), and its label is not in slug form unless it is the slug. */
  ghost predicate Tidy(u: Unicode, owner: string -> int, i: int, p: Property) {
    && NormalizeLabel(u, p.slug) == p.slug
    && owner(p.slug) == i && owner(NormalizeLabel(u, p.title)) == i
    && (SlugShape(u, NormalizeLabel(u, p.title)) ==> NormalizeLabel(u, p.title) == p.slug)
  }

  /** Every key belongs to its owner, and every property so far is found by its slug. */
  ghost predicate Owned(u: Unicode, owner: string -> int, properties: seq<Property>, catalog: Catalog) {
    && (forall k | k in catalog ::
          0 <= owner(k) < |properties| && catalog[k] == properties[owner(k)] && IsKeyOf(u, k, catalog[k]))
    && (forall i | 0 <= i < |properties| :: properties[i].slug in catalog)
  }

  ghost predicate IsKeyOf(u: Unicode, k: string, p: Property) {
    k == p.slug || k == NormalizeLabel(u, p.title)
  }

  lemma {:induction false} FillKeys(u: Unicode, owner: string -> int, properties: seq<Property>)
    requires forall i | 0 <= i < |properties| :: Tidy(u, owner, i, properties[i])
    ensures Owned(u, owner, properties, Fill(u, properties))
  {
    if properties != [] {
      var n := |properties| - 1;
      FillKeys(u, owner, properties[..n]);
      assert Tidy(u, owner, n, properties[n]);
      OneMoreProperty(u, owner, properties[..n], Fill(u, properties[..n]), properties[n], properties[n].slug, NormalizeLabel(u, properties[n].title));
      assert properties == properties[..n] + [properties[n]];
    }
  }

  lemma OneMoreProperty(u: Unicode, owner: string -> int, properties: seq<Property>, catalog: Catalog, p: Property, a: string, b: string)
    requires Owned(u, owner, properties, catalog)
    requires owner(a) == owner(b) == |properties| && a == p.slug && IsKeyOf(u, b, p)
    ensures Owned(u, owner, properties + [p], catalog[a := p][b := p])
  {
  }

  lemma TidyIsClosed(u: Unicode, owner: string -> int, properties: seq<Property>)
    requires Lawful(u) && forall i | 0 <= i < |properties| :: Tidy(u, owner, i, properties[i])
    ensures Closed(u, Fill(u, properties))
  {
    FillKeys(u, owner, properties);
    var catalog := Fill(u, properties);
    forall k | k in catalog ensures SlugOf(u, catalog, catalog[k].slug) == catalog[k].slug {
      var i := owner(k);
      assert Tidy(u, owner, i, properties[i]);
      assert catalog[catalog[k].slug] == properties[i];
    }
    forall k | k in catalog && k != "" && SlugShape(u, k) ensures catalog[k].slug == k {
      assert Tidy(u, owner, owner(k), properties[owner(k)]);
    }
  }

  const DEFAULTS: seq<Property> := [
    Property("sec_cik", "SEC CIK", "string"),
    Property("sec_cusip", "SEC CUSIP", "string"),
    Property("sec_isin", "SEC ISIN", "string"),
    Property("usd_amount", "USD amount", "number"),
    Property("date", "Date", "date"),
    Property("org_name", "Organization name", "string"),
    Property("person_name", "Person name", "string"),
    Property("doi", "DOI", "string"),
    Property("clinicaltrials.gov_nct_id", "ClinicalTrials.gov NCT ID", "string"),
    Property("isbn_13", "ISBN-13", "string")
  ]

  ghost predicate AsciiLawful(u: Unicode) {
    Lawful(u) && AsciiTables(u)
  }

  /** `t` is `s` in lower case, ASCII and without a blank at either end. */
  predicate AsciiLabel(s: string, t: string) {
    && s != "" && |s| == |t| && !IsSpace(s[0]) && !IsSpace(s[|s| - 1])
    && forall i | 0 <= i < |s| :: (s[i] as int) < 128 && t[i] == AsciiLower(s[i])
  }

  lemma AsciiNormalized(u: Unicode, s: string, t: string)
    requires AsciiLawful(u) && AsciiLabel(s, t)
    ensures NormalizeLabel(u, s) == t
  {
    assert TrimSpace(s) == s;
    assert LowerText(u, s) == t;
  }

  /** Whose key a key of the default catalog is: length and first rune tell. */
  function DefaultOwner(k: string): int {
    if |k| == 3 then 7
    else if |k| == 4 then 4
    else if |k| == 7 then (if k[0] == 's' then 0 else 9)
    else if |k| == 8 then (if k[0] == 's' then 2 else 5)
    else if |k| == 9 then 1
    else if |k| == 10 then 3
    else if |k| == 11 then 6
    else if |k| == 17 then 5
    else if |k| == 25 then 8
    else -1
  }

  /** Lower-case ASCII letters and digits with single underscores between them. */
  predicate AsciiSlug(s: string) {
    && s != "" && s[0] != '_'
    && (forall i | 0 <= i < |s| :: (s[i] as int) < 128 && (s[i] == '_' || (AsciiWord(s[i]) && AsciiLower(s[i]) == s[i])))
    && (forall i | 0 <= i < |s| && s[i] == '_' :: i + 1 < |s| && s[i + 1] != '_')
  }

  /** `t` is the lowered title; when it is not the slug, its rune `odd` is in no slug. */
  predicate TidyAscii(i: int, slug: string, title: string, t: string, odd: nat) {
    && AsciiLabel(slug, slug) && AsciiLabel(title, t)
    && DefaultOwner(slug) == i && DefaultOwner(t) == i
    && (t == slug || (odd < |t| && t[odd] != '_' && !AsciiWord(t[odd])))
    && slug[|slug| - 1] != '_' && t[|t| - 1] != '_'
    && (i != 8 ==> AsciiSlug(slug))
  }

  lemma TidyEntry(u: Unicode, i: int, p: Property, t: string, odd: nat)
    requires AsciiLawful(u) && TidyAscii(i, p.slug, p.title, t, odd)
    ensures Tidy(u, DefaultOwner, i, p)
  {
    AsciiNormalized(u, p.slug, p.slug);
    AsciiNormalized(u, p.title, t);
    assert t == p.slug || !SlugShape(u, t);
  }

  lemma DefaultsTidy(u: Unicode)
    requires AsciiLawful(u)
    ensures forall i | 0 <= i < |DEFAULTS| :: Tidy(u, DefaultOwner, i, DEFAULTS[i])
  {
    forall i | 0 <= i < |DEFAULTS| ensures Tidy(u, DefaultOwner, i, DEFAULTS[i]) {
      var t, odd := DefaultTidyAscii(i);
      TidyEntry(u, i, DEFAULTS[i], t, odd);
    }
  }

  lemma CikEntry()
    ensures TidyAscii(0, "sec_cik", "SEC CIK", "sec cik", 3)
  {
  }

  lemma CusipEntry()
    ensures TidyAscii(1, "sec_cusip", "SEC CUSIP", "sec cusip", 3)
  {
  }

  lemma IsinEntry()
    ensures TidyAscii(2, "sec_isin", "SEC ISIN", "sec isin", 3)
  {
  }

  lemma AmountEntry()
    ensures TidyAscii(3, "usd_amount", "USD amount", "usd amount", 3)
  {
  }

  lemma DateEntry()
    ensures TidyAscii(4, "date", "Date", "date", 0)
  {
  }

  lemma OrganizationEntry()
    ensures TidyAscii(5, "org_name", "Organization name", "organization name", 12)
  {
  }

  lemma PersonEntry()
    ensures TidyAscii(6, "person_name", "Person name", "person name", 6)
  {
  }

  lemma DoiEntry()
    ensures TidyAscii(7, "doi", "DOI", "doi", 0)
  {
  }

  lemma TrialSlug()
    ensures AsciiLabel("clinicaltrials.gov_nct_id", "clinicaltrials.gov_nct_id")
  {
  }

  lemma TrialTitle()
    ensures AsciiLabel("ClinicalTrials.gov NCT ID", "clinicaltrials.gov nct id")
  {
  }

  lemma TrialEntry()
    ensures TidyAscii(8, "clinicaltrials.gov_nct_id", "ClinicalTrials.gov NCT ID", "clinicaltrials.gov nct id", 14)
  {
    TrialSlug();
    TrialTitle();
  }

  lemma BookEntry()
    ensures TidyAscii(9, "isbn_13", "ISBN-13", "isbn-13", 4)
  {
  }

  lemma DefaultTidyAscii(i: int) returns (t: string, odd: nat)
    requires 0 <= i < |DEFAULTS|
    ensures TidyAscii(i, DEFAULTS[i].slug, DEFAULTS[i].title, t, odd)
  {
    match i
    case 0 => CikEntry(); t, odd := "sec cik", 3;
    case 1 => CusipEntry(); t, odd := "sec cusip", 3;
    case 2 => IsinEntry(); t, odd := "sec isin", 3;
    case 3 => AmountEntry(); t, odd := "usd amount", 3;
    case 4 => DateEntry(); t, odd := "date", 0;
    case 5 => OrganizationEntry(); t, odd := "organization name", 12;
    case 6 => PersonEntry(); t, odd := "person name", 6;
    case 7 => DoiEntry(); t, odd := "doi", 0;
    case 8 => TrialEntry(); t, odd := "clinicaltrials.gov nct id", 14;
    case _ => BookEntry(); t, odd := "isbn-13", 4;
  }

  /** On the default catalog resolving is canonical: for every label, resolving the slug
      again, in either mode, gives that slug. */
  lemma DefaultIsCanonical(u: Unicode, strict: bool, name: string, valueType: string)
    requires AsciiLawful(u)
    ensures var catalog := Fill(u, DEFAULTS);
            var slug := Resolve(u, strict, catalog, name, valueType).property.slug;
            Resolve(u, strict, catalog, slug, valueType).property.slug == slug
  {
    DefaultsTidy(u);
    TidyIsClosed(u, DefaultOwner, DEFAULTS);
    ClosedIsCanonical(u, Fill(u, DEFAULTS), name);
    CanonicalInBothModes(u, strict, Fill(u, DEFAULTS), name, valueType);
  }

  lemma CanonicalInBothModes(u: Unicode, strict: bool, catalog: Catalog, name: string, valueType: string)
    requires Canonical(u, catalog, name)
    ensures var slug := Resolve(u, strict, catalog, name, valueType).property.slug;
            Resolve(u, strict, catalog, slug, valueType).property.slug == slug
  {
    SlugInBothModes(u, strict, catalog, name, valueType);
    SlugInBothModes(u, strict, catalog, SlugOf(u, catalog, name), valueType);
  }

  /** In strict mode two labels share a slug while one is known and the other is only
      proposed: what the extractor needs to pick a fact up on its second run only. */
  lemma KnownAndProposedShareSlug(u: Unicode, catalog: Catalog, k: string, valueType: string)
    requires Lawful(u) && k in catalog && catalog[k].slug == k && SlugShape(u, k) && k != "" && k + "_" !in catalog
    ensures var a, b := Resolve(u, true, catalog, k, valueType), Resolve(u, true, catalog, k + "_", valueType);
            a.known && !b.known && a.property.slug == b.property.slug == k
  {
    LabelOfShape(u, k);
    SuffixedLabel(u, k, 1);
    assert Underscores(1) == "_";
  }

  lemma AsciiSlugShape(u: Unicode, s: string)
    requires AsciiLawful(u) && AsciiSlug(s)
    ensures SlugShape(u, s)
  {
    forall i | 0 < i < |s| ensures !(s[i - 1] == '_' && s[i] == '_') {
      var j := i - 1;
      assert s[j] == '_' ==> s[j + 1] != '_';
    }
  }

  /** No key of the default catalog ends with an underscore. */
  lemma NoKeyEndsSo(u: Unicode, k: string)
    requires AsciiLawful(u) && k in Fill(u, DEFAULTS)
    ensures k != "" && k[|k| - 1] != '_'
  {
    DefaultsTidy(u);
    FillKeys(u, DefaultOwner, DEFAULTS);
    var i := DefaultOwner(k);
    assert IsKeyOf(u, k, DEFAULTS[i]);
    KeyEnds(u, i, DEFAULTS[i], k);
  }

  lemma KeyEnds(u: Unicode, i: int, p: Property, k: string)
    requires AsciiLawful(u) && 0 <= i < |DEFAULTS| && p == DEFAULTS[i] && IsKeyOf(u, k, p)
    ensures k != "" && k[|k| - 1] != '_'
  {
    var t, odd := DefaultTidyAscii(i);
    AsciiNormalized(u, p.title, t);
  }

  /** The slugs in slug form: all but `clinicaltrials.gov_nct_id`, number 8. */
  lemma DefaultSlugShape(u: Unicode, i: int)
    requires AsciiLawful(u) && 0 <= i < |DEFAULTS| && i != 8
    ensures SlugShape(u, DEFAULTS[i].slug) && DEFAULTS[i].slug != ""
  {
    var t, odd := DefaultTidyAscii(i);
    AsciiSlugShape(u, DEFAULTS[i].slug);
  }

  /** So it is for every property of the default catalog but the one with a dot in its slug:
      with an underscore behind it the slug is another label, only proposed. */
  lemma DefaultShareSlug(u: Unicode, i: int, valueType: string)
    requires AsciiLawful(u) && 0 <= i < |DEFAULTS| && i != 8
    ensures var catalog, k := Fill(u, DEFAULTS), DEFAULTS[i].slug;
            var a, b := Resolve(u, true, catalog, k, valueType), Resolve(u, true, catalog, k + "_", valueType);
            a.known && !b.known && a.property.slug == b.property.slug == k
  {
    var k := DEFAULTS[i].slug;
    DefaultFound(u, i);
    DefaultSlugShape(u, i);
    if k + "_" in Fill(u, DEFAULTS) { NoKeyEndsSo(u, k + "_"); }
    KnownAndProposedShareSlug(u, Fill(u, DEFAULTS), k, valueType);
  }

  lemma DefaultFound(u: Unicode, i: int)
    requires AsciiLawful(u) && 0 <= i < |DEFAULTS|
    ensures DEFAULTS[i].slug in Fill(u, DEFAULTS) && Fill(u, DEFAULTS)[DEFAULTS[i].slug] == DEFAULTS[i]
  {
    DefaultsTidy(u);
    FillKeys(u, DefaultOwner, DEFAULTS);
    assert Tidy(u, DefaultOwner, i, DEFAULTS[i]);
  }
}
