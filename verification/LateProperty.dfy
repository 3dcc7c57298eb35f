/** The extractor under the real vocabulary: a fact list that is not stored by one write. */
module LateProperty {
  import opened Utf8
  import opened Wrappers
  import opened Text
  import opened Excerpt
  import opened Store
  import opened Extraction
  import Vocabulary
  import Labels

  const VALUE_TYPES: set<string> := {"entity_ref", "string", "number", "date", "url"}

  /** `normalizeValueType` */
  function NormalizeValueType(u: Unicode, valueType: string): string {
    var t := Vocabulary.LowerText(u, TrimSpace(valueType));
    if t in VALUE_TYPES then t else "string"
  }

  /** One of the five value types, in any letter case and with white space around it, is taken;
      every other type is a string. */
  lemma ValueTypeTaken(u: Unicode, valueType: string)
    requires Vocabulary.AsciiLawful(u)
    ensures forall t | IsValueType(t) && Labels.SameLabel(u, valueType, t) :: NormalizeValueType(u, valueType) == t
    ensures (forall t | IsValueType(t) :: !Labels.SameLabel(u, valueType, t)) ==> NormalizeValueType(u, valueType) == "string"
  {
    forall t | IsValueType(t) && Labels.SameLabel(u, valueType, t) ensures NormalizeValueType(u, valueType) == t {
      LowerCaseType(u, t);
      Labels.SameLabelSameKey(u, valueType, t);
    }
    var t := Vocabulary.LowerText(u, TrimSpace(valueType));
    if t in VALUE_TYPES {
      LowerCaseType(u, t);
      Labels.SameKeySameLabel(u, valueType, t);
    }
  }

  ghost predicate IsValueType(t: string) {
    t == "entity_ref" || t == "string" || t == "number" || t == "date" || t == "url"
  }

  lemma LowerCaseType(u: Unicode, t: string)
    requires Vocabulary.AsciiLawful(u) && IsValueType(t)
    ensures t != "" && !IsSpace(t[0]) && !IsSpace(t[|t| - 1]) && Vocabulary.LowerText(u, t) == t
  {
    assert Vocabulary.AsciiLabel(t, t);
    assert Vocabulary.LowerText(u, t) == t;
  }

  /** What the default resolver in strict mode says about a label. */
  function StrictResolved(u: Unicode, name: string, valueType: string): Resolved {
    var r := Vocabulary.Resolve(u, true, Vocabulary.Fill(u, Vocabulary.DEFAULTS), name, valueType);
    Resolved(r.property.slug, NormalizeValueType(u, r.property.valueType), r.known)
  }

  /** A worker in strict mode over the default catalog. */
  ghost predicate StrictDefault(env: Env, u: Unicode) {
    env.strict && forall name, valueType :: env.resolve(name, valueType) == StrictResolved(u, name, valueType)
  }

  lemma SharedSlug(u: Unicode, env: Env, i: int, f: Fact, g: Fact)
    requires Vocabulary.AsciiLawful(u) && StrictDefault(env, u) && 0 <= i < |Vocabulary.DEFAULTS| && i != 8
    requires f.slug == Vocabulary.DEFAULTS[i].slug + "_" && g.slug == Vocabulary.DEFAULTS[i].slug
    ensures MayOnlyPropose(env, f) && Resolve(env, g).known
    ensures Resolve(env, f).slug == Resolve(env, g).slug == Vocabulary.DEFAULTS[i].slug
  {
    Vocabulary.DefaultShareSlug(u, i, f.valueType);
    Vocabulary.DefaultShareSlug(u, i, g.valueType);
  }

  /** Two accepted facts, the first labelled with a slug of the default catalog and an
      underscore behind it, the second with the slug: the first write stores the second fact
      only, writing the same list again stores the first. */
  lemma SlugIsPickedUpLate(u: Unicode, env: Env, i: int, t: Tables, source: Id, rawText: Bytes, f: Fact, g: Fact)
    requires Vocabulary.AsciiLawful(u) && StrictDefault(env, u) && 0 <= i < |Vocabulary.DEFAULTS| && i != 8
    requires f.slug == Vocabulary.DEFAULTS[i].slug + "_" && g.slug == Vocabulary.DEFAULTS[i].slug
    requires LookupProperty(t, Vocabulary.DEFAULTS[i].slug).None? && forall k :: k in t.statements ==> k.property < t.nextId
    requires Accepted(rawText, f) && Accepted(rawText, g) && Storable(env, f) && Storable(env, g)
    requires env.cast(Resolve(env, f).valueType, f.value) != env.cast(Resolve(env, g).valueType, g.value)
    ensures var first := WriteFacts(env, t, source, rawText, [f, g]);
            && first.Written? && first.accepted == 1
            && var second := WriteFacts(env, first.tables, source, rawText, [f, g]);
            second.Written? && second.accepted == 1 && |second.tables.evidence| == |t.evidence| + 2
  {
    SharedSlug(u, env, i, f, g);
    LatePropertyIsPickedUp(env, t, source, rawText, f, g);
  }

  /** `date_` and `date`, for a source of a store that has no such property yet. */
  lemma DateIsPickedUpLate(u: Unicode, env: Env, t: Tables, source: Id, rawText: Bytes, f: Fact, g: Fact)
    requires source in t.sources && t.sources[source].rawText == Some(rawText)
    requires LookupProperty(t, "date").None? && forall k :: k in t.statements ==> k.property < t.nextId
    requires Vocabulary.AsciiLawful(u) && StrictDefault(env, u) && f.slug == "date_" && g.slug == "date"
    requires Accepted(rawText, f) && Accepted(rawText, g) && Storable(env, f) && Storable(env, g)
    requires env.cast(Resolve(env, f).valueType, f.value) != env.cast(Resolve(env, g).valueType, g.value)
    ensures var first := WriteFacts(env, t, source, rawText, [f, g]);
            && first.Written? && first.accepted == 1
            && var second := WriteFacts(env, first.tables, source, rawText, [f, g]);
            second.Written? && second.accepted == 1 && |second.tables.evidence| == |t.evidence| + 2
  {
    DateLabels();
    SlugIsPickedUpLate(u, env, 4, t, source, rawText, f, g);
  }

  lemma DateLabels()
    ensures Vocabulary.DEFAULTS[4].slug == "date" && "date" + "_" == "date_"
  {
  }
}
