/**
 Writing the same facts again.  The write transaction only ever adds rows, and a
 fact that has once found its property and its statement is never added twice.
 What can still change is a fact turned away for want of a property.
 */
module Extraction {
  import opened Utf8
  import opened Wrappers
  import opened Excerpt
  import opened Store

  // ------------------------------------------------------------------
  // The write transaction only adds
  // ------------------------------------------------------------------

  ghost predicate Submap<K, V>(m: map<K, V>, m': map<K, V>) {
    forall k :: k in m ==> k in m' && m'[k] == m[k]
  }

  /** `t'` keeps every row of `t` the write path looks at; a new property of the tenant
      never shadows a global one. */
  ghost predicate Extends(t: Tables, t': Tables) {
    && Submap(t.entities, t'.entities)
    && Submap(t.properties, t'.properties)
    && t'.globalProperties == t.globalProperties
    && (forall slug :: slug in t'.properties && slug !in t.properties ==> slug !in t.globalProperties)
    && t.proposed <= t'.proposed
    && (forall k :: k in t.statements ==> k in t'.statements && t'.statements[k].id == t.statements[k].id)
    && t.evidence <= t'.evidence
    && t.nextId <= t'.nextId
  }

  lemma ExtendsTransitive(a: Tables, b: Tables, c: Tables)
    requires Extends(a, b) && Extends(b, c)
    ensures Extends(a, c)
  {
  }

  lemma LookupPersists(t: Tables, t': Tables, slug: string)
    requires Extends(t, t') && LookupProperty(t, slug).Some?
    ensures LookupProperty(t', slug) == LookupProperty(t, slug)
  {
  }

  /** What one write transaction does before it marks the source. */
  ghost predicate Adds(t: Tables, t': Tables) {
    && Extends(t, t')
    && Submap(t.statements, t'.statements)
    && t'.sources == t.sources && t'.log == t.log
  }

  lemma AddsTransitive(a: Tables, b: Tables, c: Tables)
    requires Adds(a, b) && Adds(b, c)
    ensures Adds(a, c)
  {
    ExtendsTransitive(a, b, c);
  }

  lemma AddsAntisymmetric(a: Tables, b: Tables)
    requires Adds(a, b) && Adds(b, a)
    ensures a == b
  {
    assert a.entities.Keys == b.entities.Keys;
    assert a.properties.Keys == b.properties.Keys;
    assert a.statements.Keys == b.statements.Keys;
    assert a.entities == b.entities && a.properties == b.properties && a.statements == b.statements;
  }

  lemma EnsureEntityAdds(t: Tables, extId: string)
    ensures Adds(t, EnsureEntity(t, extId))
  {
  }

  lemma EnsurePropertyAdds(env: Env, t: Tables, f: Fact)
    ensures Adds(t, EnsureProperty(env, t, f))
  {
  }

  lemma InsertStatementAdds(env: Env, t: Tables, source: Id, subject: Id, property: Id, f: Fact)
    requires InsertStatement(env, t, source, subject, property, f).Done?
    ensures Adds(t, InsertStatement(env, t, source, subject, property, f).tables)
  {
  }

  lemma InsertFactAdds(env: Env, t: Tables, source: Id, f: Fact)
    requires InsertFact(env, t, source, f).Done?
    ensures Adds(t, InsertFact(env, t, source, f).tables)
  {
    var extId := SubjectExtId(env, f);
    var t1 := EnsureEntity(t, extId);
    var t2 := EnsureProperty(env, t1, f);
    EnsureEntityAdds(t, extId);
    EnsurePropertyAdds(env, t1, f);
    AddsTransitive(t, t1, t2);
    match LookupProperty(t2, Resolve(env, f).slug) {
      case None =>
      case Some(property) =>
        InsertStatementAdds(env, t2, source, t2.entities[extId], property, f);
        AddsTransitive(t, t2, InsertFact(env, t, source, f).tables);
    }
  }

  lemma InsertFactCounts(env: Env, t: Tables, source: Id, f: Fact)
    requires InsertFact(env, t, source, f).Done?
    ensures var r := InsertFact(env, t, source, f);
            var n := if r.inserted then 1 else 0;
            |r.tables.statements| == |t.statements| + n && |r.tables.evidence| == |t.evidence| + n
  {
  }

  /** The accepted facts are the new statements, and the new evidence rows. */
  lemma {:induction false} AcceptedAreNew(env: Env, t: Tables, source: Id, rawText: Bytes, facts: seq<Fact>)
    requires WriteFacts(env, t, source, rawText, facts).Written?
    ensures var w := WriteFacts(env, t, source, rawText, facts);
            |w.tables.statements| == |t.statements| + w.accepted && |w.tables.evidence| == |t.evidence| + w.accepted
  {
    if facts != [] {
      var n := |facts| - 1;
      AcceptedAreNew(env, t, source, rawText, facts[..n]);
      if Accepted(rawText, facts[n]) {
        InsertFactCounts(env, WriteFacts(env, t, source, rawText, facts[..n]).tables, source, facts[n]);
      }
    }
  }

  lemma {:induction false} WriteFactsAdds(env: Env, t: Tables, source: Id, rawText: Bytes, facts: seq<Fact>)
    requires WriteFacts(env, t, source, rawText, facts).Written?
    ensures Adds(t, WriteFacts(env, t, source, rawText, facts).tables)
  {
    if facts != [] {
      var n := |facts| - 1;
      var before := WriteFacts(env, t, source, rawText, facts[..n]).tables;
      WriteFactsAdds(env, t, source, rawText, facts[..n]);
      if Accepted(rawText, facts[n]) {
        InsertFactAdds(env, before, source, facts[n]);
        AddsTransitive(t, before, InsertFact(env, before, source, facts[n]).tables);
      }
    }
  }

  // ------------------------------------------------------------------
  // Settled facts
  // ------------------------------------------------------------------

  /** The statement this fact would insert is already there. */
  ghost predicate HasStatement(env: Env, t: Tables, f: Fact) {
    && SubjectExtId(env, f) in t.entities
    && LookupProperty(t, Resolve(env, f).slug).Some?
    && env.cast(Resolve(env, f).valueType, f.value).Some?
    && 0.0 <= Confidence(f) <= 1.0
    && StatementKey(t.entities[SubjectExtId(env, f)],
                    LookupProperty(t, Resolve(env, f).slug).value,
                    env.cast(Resolve(env, f).valueType, f.value).value) in t.statements
  }

  /** Nothing is left to do for this fact: its statement is there, or its label may
      not create the property it lacks and is already proposed. */
  ghost predicate Settled(env: Env, t: Tables, f: Fact) {
    if LookupProperty(t, Resolve(env, f).slug).Some? then HasStatement(env, t, f)
    else
      && SubjectExtId(env, f) in t.entities
      && MayOnlyPropose(env, f)
      && Resolve(env, f).slug in t.proposed
  }

  lemma InsertSettles(env: Env, t: Tables, source: Id, f: Fact)
    requires InsertFact(env, t, source, f).Done?
    ensures Settled(env, InsertFact(env, t, source, f).tables, f)
  {
  }

  lemma SettledIsNoOp(env: Env, t: Tables, source: Id, f: Fact)
    ensures Settled(env, t, f) <==> InsertFact(env, t, source, f) == Done(t, false)
  {
    var t1 := EnsureEntity(t, SubjectExtId(env, f));
    var t2 := EnsureProperty(env, t1, f);
    if Settled(env, t, f) {
      assert t1 == t;
      assert t.proposed + {Resolve(env, f).slug} == t.proposed || LookupProperty(t, Resolve(env, f).slug).Some?;
      assert t2 == t;
    }
    if InsertFact(env, t, source, f) == Done(t, false) {
      InsertSettles(env, t, source, f);
    }
  }

  /** A settled fact stays settled unless it waited for a property that has come. */
  lemma SettledPersists(env: Env, t: Tables, t': Tables, f: Fact)
    requires Settled(env, t, f) && Extends(t, t')
    requires LookupProperty(t, Resolve(env, f).slug).Some? || LookupProperty(t', Resolve(env, f).slug).None?
    ensures Settled(env, t', f)
  {
    if LookupProperty(t, Resolve(env, f).slug).Some? {
      LookupPersists(t, t', Resolve(env, f).slug);
    }
  }

  /** A fact list adds nothing exactly when each of its accepted facts is settled. */
  lemma {:induction false} NoOpIffSettled(env: Env, t: Tables, source: Id, rawText: Bytes, facts: seq<Fact>)
    ensures WriteFacts(env, t, source, rawText, facts) == Written(t, 0) <==>
            forall f :: f in facts && Accepted(rawText, f) ==> Settled(env, t, f)
  {
    if facts != [] {
      var n := |facts| - 1;
      var f := facts[n];
      var before := WriteFacts(env, t, source, rawText, facts[..n]);
      NoOpIffSettled(env, t, source, rawText, facts[..n]);
      SettledIsNoOp(env, t, source, f);
      assert forall g :: g in facts <==> g in facts[..n] || g == f;
      if WriteFacts(env, t, source, rawText, facts) == Written(t, 0) {
        WriteFactsAdds(env, t, source, rawText, facts[..n]);
        if Accepted(rawText, f) {
          InsertFactAdds(env, before.tables, source, f);
        }
        AddsAntisymmetric(t, before.tables);
      }
    }
  }

  /** After a write every accepted fact is settled, or waited for a property that a
      later fact of the list created. */
  lemma {:induction false} WriteSettles(env: Env, t: Tables, source: Id, rawText: Bytes, facts: seq<Fact>, f: Fact)
    requires WriteFacts(env, t, source, rawText, facts).Written?
    requires f in facts && Accepted(rawText, f)
    ensures var t' := WriteFacts(env, t, source, rawText, facts).tables;
            SettledOrLate(env, t', f)
  {
    var n := |facts| - 1;
    var before := WriteFacts(env, t, source, rawText, facts[..n]).tables;
    if f == facts[n] {
      InsertSettles(env, before, source, f);
    } else {
      WriteSettles(env, t, source, rawText, facts[..n], f);
      if Accepted(rawText, facts[n]) {
        InsertFactAdds(env, before, source, facts[n]);
        LatePersists(env, before, InsertFact(env, before, source, facts[n]).tables, f);
      }
    }
  }

  /** Settled, or turned away before its property came. */
  ghost predicate SettledOrLate(env: Env, t: Tables, f: Fact) {
    Settled(env, t, f) || (MayOnlyPropose(env, f) && LookupProperty(t, Resolve(env, f).slug).Some?)
  }

  lemma LatePersists(env: Env, t: Tables, t': Tables, f: Fact)
    requires SettledOrLate(env, t, f) && Extends(t, t')
    ensures SettledOrLate(env, t', f)
  {
    var slug := Resolve(env, f).slug;
    if LookupProperty(t, slug).Some? {
      LookupPersists(t, t', slug);
    }
    if Settled(env, t, f) && (LookupProperty(t, slug).Some? || LookupProperty(t', slug).None?) {
      SettledPersists(env, t, t', f);
    }
  }

  /** Writing a fact list again, then or at any later time, adds nothing exactly when
      every accepted fact whose label may not create its property either still lacks
      that property or already has its statement. */
  lemma RewriteIsNoOpIff(env: Env, t: Tables, later: Tables, source: Id, rawText: Bytes, facts: seq<Fact>)
    requires WriteFacts(env, t, source, rawText, facts).Written?
    requires Extends(WriteFacts(env, t, source, rawText, facts).tables, later)
    ensures WriteFacts(env, later, source, rawText, facts) == Written(later, 0) <==>
            forall f | f in facts && Accepted(rawText, f) && MayOnlyPropose(env, f) &&
              LookupProperty(later, Resolve(env, f).slug).Some? :: HasStatement(env, later, f)
  {
    NoOpIffSettled(env, later, source, rawText, facts);
    forall f | f in facts && Accepted(rawText, f) ensures SettledOrLate(env, later, f) {
      WriteSettles(env, t, source, rawText, facts, f);
      LatePersists(env, WriteFacts(env, t, source, rawText, facts).tables, later, f);
    }
  }

  /** In permissive mode, and for known labels, a rewrite never adds anything. */
  lemma KnownLabelsRewriteNothing(env: Env, t: Tables, later: Tables, source: Id, rawText: Bytes, facts: seq<Fact>)
    requires WriteFacts(env, t, source, rawText, facts).Written?
    requires Extends(WriteFacts(env, t, source, rawText, facts).tables, later)
    requires forall f :: f in facts ==> !MayOnlyPropose(env, f)
    ensures WriteExtracted(env, later, source, rawText, facts) == Some(later)
  {
    RewriteIsNoOpIff(env, t, later, source, rawText, facts);
  }

  // ------------------------------------------------------------------
  // Two writes always settle a list
  // ------------------------------------------------------------------

  lemma {:induction false} NoNewProperties(env: Env, t: Tables, source: Id, rawText: Bytes, facts: seq<Fact>)
    requires WriteFacts(env, t, source, rawText, facts).Written?
    requires forall f :: f in facts && Accepted(rawText, f) && !MayOnlyPropose(env, f) ==>
               LookupProperty(t, Resolve(env, f).slug).Some?
    ensures WriteFacts(env, t, source, rawText, facts).tables.properties == t.properties
  {
    if facts != [] {
      var n := |facts| - 1;
      NoNewProperties(env, t, source, rawText, facts[..n]);
      WriteFactsAdds(env, t, source, rawText, facts[..n]);
    }
  }

  /** Whatever the list and whatever the mode, the third write is a no-op. */
  lemma TwoWritesSettle(env: Env, t: Tables, source: Id, rawText: Bytes, facts: seq<Fact>)
    requires WriteFacts(env, t, source, rawText, facts).Written?
    requires WriteFacts(env, WriteFacts(env, t, source, rawText, facts).tables, source, rawText, facts).Written?
    ensures var t2 := WriteFacts(env, WriteFacts(env, t, source, rawText, facts).tables, source, rawText, facts).tables;
            WriteFacts(env, t2, source, rawText, facts) == Written(t2, 0)
  {
    var t1 := WriteFacts(env, t, source, rawText, facts).tables;
    var t2 := WriteFacts(env, t1, source, rawText, facts).tables;
    WriteFactsAdds(env, t1, source, rawText, facts);
    forall f | f in facts && Accepted(rawText, f) && !MayOnlyPropose(env, f)
      ensures LookupProperty(t1, Resolve(env, f).slug).Some?
    {
      WriteSettles(env, t, source, rawText, facts, f);
    }
    NoNewProperties(env, t1, source, rawText, facts);
    RewriteIsNoOpIff(env, t1, t2, source, rawText, facts);
    forall f | f in facts && Accepted(rawText, f) && MayOnlyPropose(env, f) && LookupProperty(t2, Resolve(env, f).slug).Some?
      ensures HasStatement(env, t2, f)
    {
      FoundPropertySettles(env, t1, source, rawText, facts, f);
    }
  }

  lemma StatementPersists(env: Env, t: Tables, t': Tables, f: Fact)
    requires HasStatement(env, t, f) && Extends(t, t')
    ensures HasStatement(env, t', f)
  {
    LookupPersists(t, t', Resolve(env, f).slug);
  }

  lemma FoundPropertyStored(env: Env, t: Tables, before: Tables, source: Id, f: Fact)
    requires LookupProperty(t, Resolve(env, f).slug).Some? && Extends(t, before) && InsertFact(env, before, source, f).Done?
    ensures HasStatement(env, InsertFact(env, before, source, f).tables, f)
  {
    LookupPersists(t, before, Resolve(env, f).slug);
    InsertFactAdds(env, before, source, f);
    LookupPersists(before, InsertFact(env, before, source, f).tables, Resolve(env, f).slug);
    InsertSettles(env, before, source, f);
  }

  /** A fact whose property is there when the transaction begins has its statement
      when it ends. */
  lemma {:induction false} FoundPropertySettles(env: Env, t: Tables, source: Id, rawText: Bytes, facts: seq<Fact>, f: Fact)
    requires WriteFacts(env, t, source, rawText, facts).Written?
    requires f in facts && Accepted(rawText, f) && LookupProperty(t, Resolve(env, f).slug).Some?
    ensures HasStatement(env, WriteFacts(env, t, source, rawText, facts).tables, f)
  {
    var n := |facts| - 1;
    var before := WriteFacts(env, t, source, rawText, facts[..n]).tables;
    var after := WriteFacts(env, t, source, rawText, facts).tables;
    if Accepted(rawText, facts[n]) {
      InsertFactAdds(env, before, source, facts[n]);
    }
    if f == facts[n] {
      WriteFactsAdds(env, t, source, rawText, facts[..n]);
      FoundPropertyStored(env, t, before, source, f);
    } else {
      FoundPropertySettles(env, t, source, rawText, facts[..n], f);
      StatementPersists(env, before, after, f);
    }
  }

  // ------------------------------------------------------------------
  // One write does not always do
  // ------------------------------------------------------------------

  /** A fact the database can take as text, number or date. */
  ghost predicate Storable(env: Env, f: Fact) {
    && 0.0 <= Confidence(f) <= 1.0
    && env.cast(Resolve(env, f).valueType, f.value).Some?
    && !env.cast(Resolve(env, f).valueType, f.value).value.EntityCell?
  }

  ghost predicate OnlyCell(t: Tables, property: Id, cell: Cell) {
    forall k :: k in t.statements && k.property == property ==> k.cell == cell
  }

  lemma ProposedOnly(env: Env, t: Tables, source: Id, f: Fact)
    requires MayOnlyPropose(env, f) && LookupProperty(t, Resolve(env, f).slug).None?
    ensures var r := InsertFact(env, t, source, f);
            && r.Done? && !r.inserted
            && r.tables.statements == t.statements && r.tables.evidence == t.evidence && r.tables.nextId >= t.nextId
            && LookupProperty(r.tables, Resolve(env, f).slug).None?
  {
  }

  lemma InsertedWithNewProperty(env: Env, t: Tables, source: Id, g: Fact)
    requires !MayOnlyPropose(env, g) && LookupProperty(t, Resolve(env, g).slug).None? && Storable(env, g)
    requires forall k :: k in t.statements ==> k.property < t.nextId
    ensures var r := InsertFact(env, t, source, g);
            && r.Done? && r.inserted && |r.tables.evidence| == |t.evidence| + 1
            && LookupProperty(r.tables, Resolve(env, g).slug).Some?
            && OnlyCell(r.tables, LookupProperty(r.tables, Resolve(env, g).slug).value,
                        env.cast(Resolve(env, g).valueType, g.value).value)
  {
    NewPropertyIsFresh(env, t, g);
  }

  lemma NewPropertyIsFresh(env: Env, t: Tables, g: Fact)
    requires !MayOnlyPropose(env, g) && LookupProperty(t, Resolve(env, g).slug).None?
    ensures var t2 := EnsureProperty(env, EnsureEntity(t, SubjectExtId(env, g)), g);
            && LookupProperty(t2, Resolve(env, g).slug).Some?
            && LookupProperty(t2, Resolve(env, g).slug).value >= t.nextId
            && t2.statements == t.statements
  {
  }

  lemma InsertedUnderProperty(env: Env, t: Tables, source: Id, f: Fact, cell: Cell)
    requires LookupProperty(t, Resolve(env, f).slug).Some? && Storable(env, f)
    requires OnlyCell(t, LookupProperty(t, Resolve(env, f).slug).value, cell)
    requires cell != env.cast(Resolve(env, f).valueType, f.value).value
    ensures var r := InsertFact(env, t, source, f);
            r.Done? && r.inserted && |r.tables.evidence| == |t.evidence| + 1
  {
    var t1 := EnsureEntity(t, SubjectExtId(env, f));
    assert EnsureProperty(env, t1, f) == t1;
  }

  lemma WriteTwo(env: Env, t: Tables, source: Id, rawText: Bytes, f: Fact, g: Fact)
    requires Accepted(rawText, f) && Accepted(rawText, g)
    requires InsertFact(env, t, source, f).Done?
    requires InsertFact(env, InsertFact(env, t, source, f).tables, source, g).Done?
    ensures var a := InsertFact(env, t, source, f);
            var b := InsertFact(env, a.tables, source, g);
            WriteFacts(env, t, source, rawText, [f, g]) ==
              Written(b.tables, (if a.inserted then 1 else 0) + (if b.inserted then 1 else 0))
  {
    assert [f, g][..1] == [f] && [f][..0] == [];
    assert WriteFacts(env, t, source, rawText, []) == Written(t, 0);
    assert WriteFacts(env, t, source, rawText, [f]).Written?;
  }

  /** The failing family: in strict mode an unknown label comes first, a known label
      with the same slug creates the property behind it, and the second write picks
      the first fact up. */
  lemma LatePropertyIsPickedUp(env: Env, t: Tables, source: Id, rawText: Bytes, f: Fact, g: Fact)
    requires MayOnlyPropose(env, f) && Resolve(env, g).known && Resolve(env, f).slug == Resolve(env, g).slug
    requires LookupProperty(t, Resolve(env, f).slug).None?
    requires Accepted(rawText, f) && Accepted(rawText, g)
    requires Storable(env, f) && Storable(env, g)
    requires env.cast(Resolve(env, f).valueType, f.value) != env.cast(Resolve(env, g).valueType, g.value)
    requires forall k :: k in t.statements ==> k.property < t.nextId
    ensures var first := WriteFacts(env, t, source, rawText, [f, g]);
            && first.Written? && first.accepted == 1
            && var second := WriteFacts(env, first.tables, source, rawText, [f, g]);
            second.Written? && second.accepted == 1 && |second.tables.evidence| == |t.evidence| + 2
  {
    ProposedOnly(env, t, source, f);
    var t1 := InsertFact(env, t, source, f).tables;
    InsertedWithNewProperty(env, t1, source, g);
    var t2 := InsertFact(env, t1, source, g).tables;
    WriteTwo(env, t, source, rawText, f, g);
    InsertedUnderProperty(env, t2, source, f, env.cast(Resolve(env, g).valueType, g.value).value);
    var t3 := InsertFact(env, t2, source, f).tables;
    InsertSettles(env, t1, source, g);
    InsertFactAdds(env, t2, source, f);
    SettledPersists(env, t2, t3, g);
    SettledIsNoOp(env, t3, source, g);
    WriteTwo(env, t2, source, rawText, f, g);
  }
}
