/**
 What a fact write stores, said over the fields of a fact and the columns of the tables:
 which entity a statement is about, which property and value it has, and which evidence
 row backs it.
 */
module Stored {
  import opened Utf8
  import opened Wrappers
  import opened Excerpt
  import opened Store
  import opened Extraction

  // ------------------------------------------------------------------
  // The key of a fact
  // ------------------------------------------------------------------

  /** The statement is about the entity of the fact's subject, or of "unknown subject"
      for a fact without one. */
  ghost predicate About(env: Env, t: Tables, f: Fact, subject: Id) {
    && (f.subject != "" ==> env.entityExtId(f.subject) in t.entities && t.entities[env.entityExtId(f.subject)] == subject)
    && (f.subject == "" ==> env.entityExtId("unknown subject") in t.entities && t.entities[env.entityExtId("unknown subject")] == subject)
  }

  /** The tenant's own property of that slug, or the global one when there is no own. */
  ghost predicate HasSlug(t: Tables, slug: string, property: Id) {
    if slug in t.properties then t.properties[slug] == property
    else slug in t.globalProperties && t.globalProperties[slug] == property
  }

  ghost predicate KeyFor(env: Env, t: Tables, f: Fact, k: StatementKey) {
    && About(env, t, f, k.subject)
    && HasSlug(t, env.resolve(f.slug, f.valueType).slug, k.property)
    && env.cast(env.resolve(f.slug, f.valueType).valueType, f.value) == Some(k.cell)
  }

  /** The fact's label may create its property, or the property is there. */
  ghost predicate FindsProperty(env: Env, t: Tables, f: Fact) {
    var r := env.resolve(f.slug, f.valueType);
    r.known || !env.strict || r.slug in t.properties || r.slug in t.globalProperties
  }

  /** The statement has the fact's confidence, 0.5 without one, and an evidence row with the
      fact's excerpt, offsets, method and that confidence. */
  ghost predicate BackedBy(t: Tables, k: StatementKey, source: Id, f: Fact) {
    var confidence := if f.confidence == None then 0.5 else f.confidence.value;
    && k in t.statements && t.statements[k].confidence == confidence
    && Evidence(t.statements[k].id, source, f.excerpt, f.start, f.end, f.extractionMethod, confidence) in t.evidence
  }

  lemma HasStatementKey(env: Env, t: Tables, f: Fact)
    requires HasStatement(env, t, f)
    ensures exists k :: k in t.statements && KeyFor(env, t, f, k)
  {
    var k := StatementKey(t.entities[SubjectExtId(env, f)], LookupProperty(t, Resolve(env, f).slug).value,
                          env.cast(Resolve(env, f).valueType, f.value).value);
    assert KeyFor(env, t, f, k);
  }

  lemma KeyStays(env: Env, t: Tables, t': Tables, f: Fact, k: StatementKey)
    requires KeyFor(env, t, f, k) && Extends(t, t')
    ensures KeyFor(env, t', f, k)
  {
  }

  lemma EvidenceStays(t: Tables, t': Tables, k: StatementKey, source: Id, f: Fact)
    requires BackedBy(t, k, source, f) && Adds(t, t')
    ensures BackedBy(t', k, source, f)
  {
  }

  // ------------------------------------------------------------------
  // One fact
  // ------------------------------------------------------------------

  lemma FoundIsStored(env: Env, t: Tables, source: Id, f: Fact)
    requires InsertFact(env, t, source, f).Done? && FindsProperty(env, t, f)
    ensures HasStatement(env, InsertFact(env, t, source, f).tables, f)
  {
    InsertSettles(env, t, source, f);
    var t' := InsertFact(env, t, source, f).tables;
    if LookupProperty(t, Resolve(env, f).slug).Some? {
      InsertFactAdds(env, t, source, f);
      LookupPersists(t, t', Resolve(env, f).slug);
    }
  }

  /** A fact without its property only leaves its subject and its slug among the proposals. */
  lemma NotFoundIsProposed(env: Env, t: Tables, source: Id, f: Fact)
    requires !FindsProperty(env, t, f)
    ensures var r := InsertFact(env, t, source, f);
            && r.Done? && !r.inserted
            && r.tables.statements == t.statements && r.tables.evidence == t.evidence && r.tables.properties == t.properties
            && r.tables.proposed == t.proposed + {env.resolve(f.slug, f.valueType).slug}
  {
  }

  lemma InsertedRow(env: Env, t: Tables, source: Id, subject: Id, property: Id, f: Fact, k: StatementKey)
    requires InsertStatement(env, t, source, subject, property, f).Done?
    requires k in InsertStatement(env, t, source, subject, property, f).tables.statements && k !in t.statements
    ensures var r := InsertStatement(env, t, source, subject, property, f);
            && r.inserted && k.subject == subject && k.property == property && BackedBy(r.tables, k, source, f)
            && env.cast(env.resolve(f.slug, f.valueType).valueType, f.value) == Some(k.cell)
            && r.tables.entities == t.entities && r.tables.properties == t.properties && r.tables.globalProperties == t.globalProperties
  {
    var r := InsertStatement(env, t, source, subject, property, f);
    assert r.tables.evidence[|t.evidence|] in r.tables.evidence;
  }

  lemma SubjectThere(env: Env, t: Tables, f: Fact)
    ensures var t2 := EnsureProperty(env, EnsureEntity(t, SubjectExtId(env, f)), f);
            && t2.statements == t.statements && SubjectExtId(env, f) in t2.entities
            && About(env, t2, f, t2.entities[SubjectExtId(env, f)])
  {
    var t1 := EnsureEntity(t, SubjectExtId(env, f));
    assert EnsureProperty(env, t1, f).entities == t1.entities && EnsureProperty(env, t1, f).statements == t.statements;
  }

  lemma InsertedKey(env: Env, t: Tables, source: Id, f: Fact, k: StatementKey)
    requires InsertFact(env, t, source, f).Done?
    requires k in InsertFact(env, t, source, f).tables.statements && k !in t.statements
    ensures var r := InsertFact(env, t, source, f);
            r.inserted && KeyFor(env, r.tables, f, k) && BackedBy(r.tables, k, source, f)
  {
    var t2 := EnsureProperty(env, EnsureEntity(t, SubjectExtId(env, f)), f);
    SubjectThere(env, t, f);
    var property := LookupProperty(t2, Resolve(env, f).slug);
    InsertedRow(env, t2, source, t2.entities[SubjectExtId(env, f)], property.value, f, k);
  }

  // ------------------------------------------------------------------
  // A list of facts
  // ------------------------------------------------------------------

  /** The tables that fact `i` of the list finds. */
  function FoundBy(env: Env, t: Tables, source: Id, rawText: Bytes, facts: seq<Fact>, i: nat): Tables
    requires i <= |facts| && WriteFacts(env, t, source, rawText, facts).Written?
  {
    PrefixWritten(env, t, source, rawText, facts, i);
    WriteFacts(env, t, source, rawText, facts[..i]).tables
  }

  lemma {:induction false} PrefixWritten(env: Env, t: Tables, source: Id, rawText: Bytes, facts: seq<Fact>, i: nat)
    requires i <= |facts| && WriteFacts(env, t, source, rawText, facts).Written?
    ensures WriteFacts(env, t, source, rawText, facts[..i]).Written?
    ensures Adds(WriteFacts(env, t, source, rawText, facts[..i]).tables, WriteFacts(env, t, source, rawText, facts).tables)
  {
    if i == |facts| {
      assert facts[..i] == facts;
    } else {
      var n := |facts| - 1;
      var less := facts[..n];
      PrefixWritten(env, t, source, rawText, less, i);
      assert less[..i] == facts[..i];
      LastAdds(env, t, source, rawText, facts);
      AddsTransitive(WriteFacts(env, t, source, rawText, facts[..i]).tables, WriteFacts(env, t, source, rawText, less).tables,
                     WriteFacts(env, t, source, rawText, facts).tables);
    }
  }

  lemma LastAdds(env: Env, t: Tables, source: Id, rawText: Bytes, facts: seq<Fact>)
    requires facts != [] && WriteFacts(env, t, source, rawText, facts).Written?
    ensures WriteFacts(env, t, source, rawText, facts[..|facts| - 1]).Written?
    ensures Adds(WriteFacts(env, t, source, rawText, facts[..|facts| - 1]).tables, WriteFacts(env, t, source, rawText, facts).tables)
  {
    var n := |facts| - 1;
    if Accepted(rawText, facts[n]) {
      InsertFactAdds(env, WriteFacts(env, t, source, rawText, facts[..n]).tables, source, facts[n]);
    }
  }

  /** After a write, each accepted fact that found its property has its statement: under the
      entity of its own subject, its own property and its own value. */
  lemma FactIsStored(env: Env, t: Tables, source: Id, rawText: Bytes, facts: seq<Fact>, i: nat)
    requires WriteFacts(env, t, source, rawText, facts).Written? && i < |facts|
    requires WorkerVerify(rawText, facts[i].excerpt, facts[i].start, facts[i].end)
    requires FindsProperty(env, FoundBy(env, t, source, rawText, facts, i), facts[i])
    ensures var t' := WriteFacts(env, t, source, rawText, facts).tables;
            exists k :: k in t'.statements && KeyFor(env, t', facts[i], k)
  {
    var before := FoundBy(env, t, source, rawText, facts, i);
    PrefixWritten(env, t, source, rawText, facts, i);
    PrefixWritten(env, t, source, rawText, facts, i + 1);
    assert facts[..i + 1][..i] == facts[..i] && Accepted(rawText, facts[i]);
    FoundIsStored(env, before, source, facts[i]);
    var after := InsertFact(env, before, source, facts[i]).tables;
    assert WriteFacts(env, t, source, rawText, facts[..i + 1]).tables == after;
    HasStatementKey(env, after, facts[i]);
    var k :| k in after.statements && KeyFor(env, after, facts[i], k);
    KeyStays(env, after, WriteFacts(env, t, source, rawText, facts).tables, facts[i], k);
  }

  /** The entity of a value is one of the tenant's. */
  ghost predicate RefersToEntity(t: Tables, k: StatementKey) {
    k.cell.EntityCell? ==> exists name :: name in t.entities && t.entities[name] == k.cell.entity
  }

  lemma NewReference(env: Env, t: Tables, source: Id, f: Fact, k: StatementKey)
    requires InsertFact(env, t, source, f).Done?
    requires k in InsertFact(env, t, source, f).tables.statements && k !in t.statements
    ensures RefersToEntity(InsertFact(env, t, source, f).tables, k)
  {
    var t2 := EnsureProperty(env, EnsureEntity(t, SubjectExtId(env, f)), f);
    SubjectThere(env, t, f);
    var property := LookupProperty(t2, Resolve(env, f).slug);
    InsertedRow(env, t2, source, t2.entities[SubjectExtId(env, f)], property.value, f, k);
    RowRefers(env, t2, source, t2.entities[SubjectExtId(env, f)], property.value, f, k);
  }

  lemma RowRefers(env: Env, t: Tables, source: Id, subject: Id, property: Id, f: Fact, k: StatementKey)
    requires InsertStatement(env, t, source, subject, property, f).Done?
    requires k in InsertStatement(env, t, source, subject, property, f).tables.statements && k !in t.statements
    ensures RefersToEntity(InsertStatement(env, t, source, subject, property, f).tables, k)
  {
    if k.cell.EntityCell? {
      assert k.cell.entity in t.entities.Values;
    }
  }

  /** Values that are entities refer to entities that are there. */
  lemma {:induction false} NewReferencesExist(env: Env, t: Tables, source: Id, rawText: Bytes, facts: seq<Fact>, k: StatementKey)
    requires WriteFacts(env, t, source, rawText, facts).Written?
    requires k in WriteFacts(env, t, source, rawText, facts).tables.statements && k !in t.statements
    ensures RefersToEntity(WriteFacts(env, t, source, rawText, facts).tables, k)
  {
    var n := |facts| - 1;
    var before := WriteFacts(env, t, source, rawText, facts[..n]).tables;
    LastAdds(env, t, source, rawText, facts);
    if k in before.statements {
      NewReferencesExist(env, t, source, rawText, facts[..n], k);
      if k.cell.EntityCell? {
        var name :| name in before.entities && before.entities[name] == k.cell.entity;
        assert name in WriteFacts(env, t, source, rawText, facts).tables.entities;
      }
    } else {
      NewReference(env, before, source, facts[n], k);
    }
  }

  /** Each new statement comes from an accepted fact of the list: it has that fact's subject,
      property, value and confidence, and an evidence row with what the fact says. */
  lemma {:induction false} NewStatementIsFact(env: Env, t: Tables, source: Id, rawText: Bytes, facts: seq<Fact>, k: StatementKey) returns (i: nat)
    requires WriteFacts(env, t, source, rawText, facts).Written?
    requires k in WriteFacts(env, t, source, rawText, facts).tables.statements && k !in t.statements
    ensures i < |facts| && WorkerVerify(rawText, facts[i].excerpt, facts[i].start, facts[i].end)
    ensures var t' := WriteFacts(env, t, source, rawText, facts).tables;
            KeyFor(env, t', facts[i], k) && BackedBy(t', k, source, facts[i])
  {
    var n := |facts| - 1;
    var before := WriteFacts(env, t, source, rawText, facts[..n]).tables;
    var after := WriteFacts(env, t, source, rawText, facts).tables;
    LastAdds(env, t, source, rawText, facts);
    if k in before.statements {
      i := NewStatementIsFact(env, t, source, rawText, facts[..n], k);
      KeyStays(env, before, after, facts[i], k);
      EvidenceStays(before, after, k, source, facts[i]);
    } else {
      i := n;
      InsertedKey(env, before, source, facts[n], k);
    }
  }

  // ------------------------------------------------------------------
  // When the transaction fails, when it marks the source
  // ------------------------------------------------------------------

  /** The column of the property's type cannot hold the value, or the confidence is none. */
  ghost predicate BadValue(env: Env, f: Fact) {
    || env.cast(env.resolve(f.slug, f.valueType).valueType, f.value) == None
    || (f.confidence != None && !(0.0 <= f.confidence.value <= 1.0))
  }

  /** The value refers to an entity that is not there. */
  ghost predicate Dangling(env: Env, t: Tables, f: Fact) {
    var cell := env.cast(env.resolve(f.slug, f.valueType).valueType, f.value);
    cell != None && cell.value.EntityCell? && cell.value.entity !in t.entities.Values
  }

  lemma BadFactFails(env: Env, t: Tables, source: Id, f: Fact)
    ensures FindsProperty(env, t, f) && BadValue(env, f) ==> InsertFact(env, t, source, f).Failed?
    ensures InsertFact(env, t, source, f).Failed? ==> FindsProperty(env, t, f) && (BadValue(env, f) || Dangling(env, t, f))
  {
    var t2 := EnsureProperty(env, EnsureEntity(t, SubjectExtId(env, f)), f);
    SubjectThere(env, t, f);
    EntitiesStay(t, SubjectExtId(env, f));
    PropertyThere(env, EnsureEntity(t, SubjectExtId(env, f)), f);
    BadRowFails(env, t2, source, t2.entities[SubjectExtId(env, f)], if FindsProperty(env, t, f) then LookupProperty(t2, Resolve(env, f).slug).value else 0, f);
  }

  lemma EntitiesStay(t: Tables, extId: string)
    ensures t.entities.Values <= EnsureEntity(t, extId).entities.Values
  {
    forall id | id in t.entities.Values ensures id in EnsureEntity(t, extId).entities.Values {
      var name :| name in t.entities && t.entities[name] == id;
      assert EnsureEntity(t, extId).entities[name] == id;
    }
  }

  lemma PropertyThere(env: Env, t: Tables, f: Fact)
    ensures var t2 := EnsureProperty(env, t, f);
            t2.entities == t.entities && (LookupProperty(t2, Resolve(env, f).slug).Some? <==> FindsProperty(env, t, f))
  {
  }

  lemma BadRowFails(env: Env, t: Tables, source: Id, subject: Id, property: Id, f: Fact)
    ensures BadValue(env, f) ==> InsertStatement(env, t, source, subject, property, f).Failed?
    ensures InsertStatement(env, t, source, subject, property, f).Failed? ==> BadValue(env, f) || Dangling(env, t, f)
  {
  }

  /** A write is undone when an accepted fact that finds its property cannot be stored, and
      for no other reason. */
  lemma {:induction false} AbortedBy(env: Env, t: Tables, source: Id, rawText: Bytes, facts: seq<Fact>) returns (i: nat)
    requires WriteFacts(env, t, source, rawText, facts).Aborted?
    ensures i < |facts| && WriteFacts(env, t, source, rawText, facts[..i]).Written?
    ensures var before, f := WriteFacts(env, t, source, rawText, facts[..i]).tables, facts[i];
            && WorkerVerify(rawText, f.excerpt, f.start, f.end)
            && FindsProperty(env, before, f) && (BadValue(env, f) || Dangling(env, before, f))
  {
    var n := |facts| - 1;
    if WriteFacts(env, t, source, rawText, facts[..n]).Aborted? {
      i := AbortedBy(env, t, source, rawText, facts[..n]);
      assert facts[..n][..i] == facts[..i];
    } else {
      i := n;
      BadFactFails(env, WriteFacts(env, t, source, rawText, facts[..n]).tables, source, facts[n]);
    }
  }

  lemma BadFactAborts(env: Env, t: Tables, source: Id, rawText: Bytes, facts: seq<Fact>, i: nat)
    requires i < |facts| && WriteFacts(env, t, source, rawText, facts[..i]).Written?
    requires WorkerVerify(rawText, facts[i].excerpt, facts[i].start, facts[i].end) && BadValue(env, facts[i])
    requires FindsProperty(env, WriteFacts(env, t, source, rawText, facts[..i]).tables, facts[i])
    ensures WriteFacts(env, t, source, rawText, facts).Aborted?
  {
    assert facts[..i + 1][..i] == facts[..i];
    BadFactFails(env, WriteFacts(env, t, source, rawText, facts[..i]).tables, source, facts[i]);
    WriteAborts(env, t, source, rawText, facts, i + 1);
  }

  /** The source is marked exactly when the write brought a new statement. */
  lemma MarkedIffNew(env: Env, t: Tables, source: Id, rawText: Bytes, facts: seq<Fact>)
    requires WriteExtracted(env, t, source, rawText, facts).Some?
    ensures var t' := WriteExtracted(env, t, source, rawText, facts).value;
            t'.sources == if source in t.sources && |t'.statements| > |t.statements|
                          then t.sources[source := t.sources[source].(status := Extracted)] else t.sources
  {
    AcceptedAreNew(env, t, source, rawText, facts);
    WriteFactsAdds(env, t, source, rawText, facts);
  }

  // ------------------------------------------------------------------
  // Different subjects
  // ------------------------------------------------------------------

  ghost predicate Injective<K(!new), V(!new)>(m: map<K, V>) {
    forall a, b | a in m && b in m && m[a] == m[b] :: a == b
  }

  /** Where labels have entities of their own, facts with different labels never share a
      statement. */
  lemma SubjectsApart(env: Env, t: Tables, f: Fact, g: Fact, k: StatementKey, l: StatementKey)
    requires Injective(t.entities) && forall a, b | env.entityExtId(a) == env.entityExtId(b) :: a == b
    requires f.subject != "" && g.subject != "" && f.subject != g.subject
    requires KeyFor(env, t, f, k) && KeyFor(env, t, g, l)
    ensures k != l
  {
  }
}
