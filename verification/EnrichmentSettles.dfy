/** How many enrichment passes a document needs, read off its shape. */
module EnrichmentSettles {
  import opened Common
  import opened Json
  import opened SchemaExamples
  import opened AnnotationIndependence
  import opened RepairTermination
  import opened RepairOutcome
  import opened RepairDefaults
  import opened SchemaEnrichment
  import opened ReferenceCycles

  // ---------------------------------------------------------------- two passes

  /** Every model and every property schema of the document is ready: repair leaves what it makes unchanged. */
  ghost predicate ReadyDocument(c: Components) {
    forall m :: m in c ==> ReadyModel(m, c[m], c)
  }

  ghost predicate ReadyModel(model: string, s: Schema, c: Components) {
    s.Schema? ==>
      && Ready(Unchanged, Exactly(model), s, c)
      && (s.properties.Table? ==> forall e :: e in s.properties.entries ==> ReadyEntry(e, c))
  }

  ghost predicate ReadyEntry(e: Entry<Schema>, c: Components) {
    e.value.Schema? ==> Ready(Unchanged, Exactly(e.key), e.value, c)
  }

  /** Under a ready schema whatever repair makes of an example settles, in any document of the shape. */
  lemma RepairedUnchanged(n: string, ex: Value, s1: Schema, c1: Components, s: Schema, c: Components)
    requires s1.Schema? && SameShape(s1, s) && SameShapes(c1, c) && Repairable(ex, s1, c1)
    ensures s.Schema?
    ensures Ready(Unchanged, Exactly(n), s, c) ==> Meets(Unchanged, Exactly(n), Repair(n, ex, s1, c1), s1, c1)
  {
    ShapeDecides(n, ex, s1, c1, s, c);
    if Ready(Unchanged, Exactly(n), s, c) {
      ReadyMeets(Unchanged, Exactly(n), n, ex, s, c);
      UnchangedBySameShape(n, Repair(n, ex, s1, c1), s1, c1, s, c);
    }
  }

  /** Every example is there. */
  predicate Annotated(c: Components) {
    forall m :: m in c ==> AnnotatedModel(c[m])
  }

  predicate AnnotatedModel(s: Schema) {
    s.Schema? ==> s.example.Some? && (s.properties.Table? ==>
        forall e :: e in s.properties.entries ==> AnnotatedEntry(e))
  }

  predicate AnnotatedEntry(e: Entry<Schema>) {
    e.value.Schema? ==> e.value.example.Some?
  }

  /** The same apart from missing model examples, which enrichment does not add. */
  predicate PropertiesAnnotated(c: Components) {
    forall m :: m in c && c[m].Schema? && c[m].properties.Table? ==>
        forall e :: e in c[m].properties.entries ==> AnnotatedEntry(e)
  }

  /** Repair leaves unchanged what inference gives a property without an example. */
  ghost predicate InferredKept(c: Components) {
    forall m :: m in c ==> InferredKeptIn(c[m], c)
  }

  ghost predicate InferredKeptIn(s: Schema, c: Components) {
    s.Schema? && s.properties.Table? ==> forall e :: e in s.properties.entries ==> EntryInferredKept(e, c)
  }

  ghost predicate EntryInferredKept(e: Entry<Schema>, c: Components) {
    e.value.Schema? ==> Inferable(e.value, c) && Meets(Unchanged, Exactly(e.key), Infer(e.key, e.value, c), e.value, c)
  }

  /** A document of ready schemas settles when its examples are there, or repair keeps the inferred ones. */
  lemma ReadySettles(a: Components, c: Components)
    requires PassReturns(a) && SameShapes(a, c) && ReadyDocument(c) && (PropertiesAnnotated(a) || InferredKept(c))
    ensures Settles(a)
  {
    hide Ready, Meets, Repair, Infer;
    forall m | m in a ensures ModelSettles(m, a[m], a) {
      assert m in BareAll(a) && m in BareAll(c) && BareAll(a)[m] == BareAll(c)[m];
      assert ReadyModel(m, c[m], c) && (InferredKept(c) ==> InferredKeptIn(c[m], c));
      ReadyModelSettles(m, a[m], a, c[m], c);
    }
  }

  lemma ReadyModelSettles(model: string, s1: Schema, a: Components, s: Schema, c: Components)
    requires ModelReturns(s1, a) && SameShape(s1, s) && SameShapes(a, c) && ReadyModel(model, s, c)
    requires (s1.Schema? && s1.properties.Table? ==> forall e :: e in s1.properties.entries ==> AnnotatedEntry(e)) ||
        InferredKeptIn(s, c)
    ensures ModelSettles(model, s1, a)
  {
    hide Ready, Meets, Repair, Infer, Repairable, Inferable;
    if s1.Schema? {
      if s1.example.Some? {
        RepairedUnchanged(model, s1.example.value, s1, a, s, c);
      }
      if s1.properties.Table? {
        SameEntries(s1, s);
        forall i | 0 <= i < |s1.properties.entries| ensures EntrySettles(s1.properties.entries[i], a) {
          var e1, e := s1.properties.entries[i], s.properties.entries[i];
          assert (AnnotatedEntry(e1) || EntryInferredKept(e, c)) && EntryReturns(e1, a) && ReadyEntry(e, c);
          if e1.value.Schema? {
            if e1.value.example.Some? {
              RepairedUnchanged(e1.key, e1.value.example.value, e1.value, a, e.value, c);
            } else {
              ShapeDecides(e1.key, Null, e1.value, a, e.value, c);
              UnchangedBySameShape(e1.key, Infer(e.key, e.value, c), e1.value, a, e.value, c);
            }
          }
        }
      }
    }
  }

  /** Schemas of one shape list the same properties, with schemas of one shape. */
  lemma SameEntries(s1: Schema, s: Schema)
    requires s1.Schema? && SameShape(s1, s)
    ensures s.Schema? && (s1.properties.Table? <==> s.properties.Table?)
    ensures s1.properties.Table? ==>
      && |s1.properties.entries| == |s.properties.entries|
      && forall i :: 0 <= i < |s.properties.entries| ==>
           s1.properties.entries[i].key == s.properties.entries[i].key
           && SameShape(s1.properties.entries[i].value, s.properties.entries[i].value)
  {
    BareFields(s1);
    BareFields(s);
    hide Bare;
    if s1.properties.Table? {
      var b1, b := BareEntries(s1.properties.entries), BareEntries(s.properties.entries);
      assert b1 == b;
    }
  }

  /** On a document of ready schemas the third pass equals the second, provided the first two return. */
  lemma FixedAfterTwoPasses(c: Components)
    requires ReadyDocument(c) && PassReturns(c) && PassReturns(EnrichAll(c))
    ensures OnePassIsEnough(EnrichAll(c))
  {
    hide ModelReturns, EnrichModel, ReadyModel;
    EnrichAllSameShapes(c);
    EnrichedAnnotated(c);
    ReadySettles(EnrichAll(c), c);
    OnePassIff(EnrichAll(c));
  }

  lemma EnrichedAnnotated(c: Components)
    requires PassReturns(c)
    ensures PropertiesAnnotated(EnrichAll(c))
  {
    hide Infer, Repair, InferDescription;
    forall m, e | m in c && EnrichAll(c)[m].Schema? && EnrichAll(c)[m].properties.Table? &&
        e in EnrichAll(c)[m].properties.entries
      ensures AnnotatedEntry(e)
    {
      assert ModelReturns(c[m], c);
      var entries := c[m].properties.entries;
      assert EnrichAll(c)[m].properties.entries == EnrichEntries(m, entries, c);
      var i :| 0 <= i < |entries| && EnrichEntries(m, entries, c)[i] == e;
    }
  }

  // ---------------------------------------------------------------- one pass, for every document of a shape

  /** Repair comes to an end for every example of the document. */
  ghost predicate EndsDocument(c: Components) {
    forall m :: m in c ==> EndsModel(c[m], c)
  }

  ghost predicate EndsModel(s: Schema, c: Components) {
    s.Schema? ==> AlwaysEnds(s, c) && (s.properties.Table? ==>
        forall e :: e in s.properties.entries ==> EndsEntry(e, c))
  }

  ghost predicate EndsEntry(e: Entry<Schema>, c: Components) {
    e.value.Schema? ==> AlwaysEnds(e.value, c)
  }

  /** The recursive model of a tree is such a document, although it refers to itself. */
  lemma TreesEndDocument()
    ensures EndsDocument(TREES)
  {
    var id := BLANK.(kind := Some("string"));
    forall d: nat ensures EndsWithin(d, TREE, TREES) && EndsWithin(d, RefTo("Tree"), TREES) &&
        EndsWithin(d, id, TREES) {
      TreesEndWithin(d);
    }
    hide EndsWithin;
    assert TREES.Keys == {"Tree"} && TREES["Tree"] == TREE;
    forall e | e in TREE.properties.entries ensures EndsEntry(e, TREES) {
      assert e.value == id || e.value == RefTo("Tree");
    }
  }

  lemma EndsPassReturns(a: Components, c: Components)
    requires EndsDocument(c) && SameShapes(a, c) && (PropertiesAnnotated(a) || InferredKept(c))
    ensures PassReturns(a)
  {
    hide AlwaysEnds, AnnotatedEntry, InferredKeptIn;
    forall m | m in a ensures ModelReturns(a[m], a) {
      assert m in BareAll(a) && m in BareAll(c) && BareAll(a)[m] == BareAll(c)[m];
      assert EndsModel(c[m], c) && (InferredKept(c) ==> InferredKeptIn(c[m], c));
      EndsModelReturns(a[m], a, c[m], c);
    }
  }

  lemma EndsModelReturns(s1: Schema, a: Components, s: Schema, c: Components)
    requires SameShape(s1, s) && SameShapes(a, c) && EndsModel(s, c)
    requires (s1.Schema? && s1.properties.Table? ==> forall e :: e in s1.properties.entries ==> AnnotatedEntry(e)) ||
        InferredKeptIn(s, c)
    ensures ModelReturns(s1, a)
  {
    hide Inferable, RepairableAt, Resolve, AlwaysEnds, Meets, Infer;
    if s1.Schema? {
      if s1.example.Some? {
        EndsRepairable(s1.example.value, s1, a, s, c);
      }
      if s1.properties.Table? {
        SameEntries(s1, s);
        forall e1 | e1 in s1.properties.entries ensures EntryReturns(e1, a) {
          var i :| 0 <= i < |s1.properties.entries| && s1.properties.entries[i] == e1;
          var e := s.properties.entries[i];
          assert EndsEntry(e, c) && (AnnotatedEntry(e1) || EntryInferredKept(e, c));
          if e1.value.Schema? {
            if e1.value.example.Some? {
              EndsRepairable(e1.value.example.value, e1.value, a, e.value, c);
            } else {
              ShapeDecides("", Null, e1.value, a, e.value, c);
            }
          }
        }
      }
    }
  }

  lemma EndsRepairable(ex: Value, s1: Schema, a: Components, s: Schema, c: Components)
    requires s1.Schema? && SameShape(s1, s) && SameShapes(a, c)
    ensures s.Schema? && (AlwaysEnds(s, c) ==> Repairable(ex, s1, a))
  {
    ShapeDecides("", ex, s1, a, s, c);
    if AlwaysEnds(s, c) {
      TotalIff(s, c);
      assert RepairableAt(ex, Resolve(s, c), c);
    }
  }

  /** One pass is enough for every fully annotated document of the shape. */
  ghost predicate AnnotatedSettle(c: Components) {
    forall a :: SameShapes(a, c) && Annotated(a) ==> OnePassIsEnough(a)
  }

  /** Exactly when one pass is enough for every fully annotated document of a shape. */
  lemma AnnotatedSettleIff(c: Components)
    ensures AnnotatedSettle(c) <==> EndsDocument(c) && ReadyDocument(c)
  {
    hide AlwaysEnds, Ready;
    if EndsDocument(c) && ReadyDocument(c) {
      forall a | SameShapes(a, c) && Annotated(a) ensures OnePassIsEnough(a) {
        AnnotatedProperties(a);
        EndsPassReturns(a, c);
        ReadySettles(a, c);
        OnePassIff(a);
      }
    } else {
      var m :| m in c && !(EndsModel(c[m], c) && ReadyModel(m, c[m], c));
      UnsettledShape(c, m);
    }
  }

  lemma UnsettledShape(c: Components, m: string)
    requires m in c && !(EndsModel(c[m], c) && ReadyModel(m, c[m], c))
    ensures !AnnotatedSettle(c)
  {
    hide AlwaysEnds, Ready, AnnotatedSettle, Settled;
    var s := c[m];
    assert s.Schema?;
    if AlwaysEnds(s, c) && Ready(Unchanged, Exactly(m), s, c) {
      var e :| e in s.properties.entries && !(EndsEntry(e, c) && ReadyEntry(e, c));
      var i :| 0 <= i < |s.properties.entries| && s.properties.entries[i] == e;
      assert EndsEntry(e, c) ==> !ReadyEntry(e, c);
      var ex := UnsettledIn(e.key, e.value, c);
      UnsettledProperty(c, m, i, ex);
    } else {
      var ex := UnsettledIn(m, s, c);
      UnsettledModel(c, m, ex);
    }
  }

  lemma AnnotatedProperties(a: Components)
    requires Annotated(a)
    ensures PropertiesAnnotated(a)
  {
    forall m | m in a && a[m].Schema? && a[m].properties.Table?
        ensures forall e :: e in a[m].properties.entries ==> AnnotatedEntry(e) {
      assert AnnotatedModel(a[m]);
    }
  }

  // ---------------------------------------------------------------- a document of the shape that does not settle

  function FillEntry(e: Entry<Schema>): Entry<Schema> {
    if e.value.Schema? then Entry(e.key, e.value.(example := Some(Null))) else e
  }

  function FillModel(s: Schema): Schema {
    if !s.Schema? then s
    else if s.properties.NotATable? then s.(example := Some(Null))
    else
      var entries := s.properties.entries;
      s.(example := Some(Null), properties :=
          Table(seq(|entries|, i requires 0 <= i < |entries| => FillEntry(entries[i]))))
  }

  /** The document with every example overwritten. */
  function Fill(c: Components): Components {
    map m | m in c :: FillModel(c[m])
  }

  lemma FillModelShape(s: Schema)
    ensures SameShape(FillModel(s), s) && AnnotatedModel(FillModel(s))
  {
    if s.Schema? {
      AnnotatedSameShape(s, s.description, Some(Null));
      if s.properties.Table? {
        var r, filled := s.(example := Some(Null)), FillModel(s);
        forall i | 0 <= i < |s.properties.entries|
          ensures filled.properties.entries[i].key == s.properties.entries[i].key
          ensures SameShape(filled.properties.entries[i].value, s.properties.entries[i].value)
        {
          var e := s.properties.entries[i];
          if e.value.Schema? {
            AnnotatedSameShape(e.value, e.value.description, Some(Null));
          }
        }
        WithEntriesSameShape(r, filled.properties.entries);
      }
    }
  }

  lemma FillShape(c: Components)
    ensures SameShapes(Fill(c), c) && Annotated(Fill(c))
  {
    forall m | m in c ensures SameShape(Fill(c)[m], c[m]) && AnnotatedModel(Fill(c)[m]) {
      FillModelShape(c[m]);
    }
  }

  /** Repair of `ex` returns, and would leave alone what it returns. */
  ghost predicate Settled(n: string, ex: Value, s: Schema, c: Components)
    requires s.Schema?
  {
    Repairable(ex, s, c) && Meets(Unchanged, Exactly(n), Repair(n, ex, s, c), s, c)
  }

  /** Where repair may not end or a schema is not ready, some example is left unsettled by its repair. */
  lemma UnsettledIn(n: string, s: Schema, c: Components) returns (ex: Value)
    requires s.Schema? && !(AlwaysEnds(s, c) && Ready(Unchanged, Exactly(n), s, c))
    ensures !Settled(n, ex, s, c)
  {
    TotalIff(s, c);
    MeetsIffReady(Unchanged, n, s, c);
    hide Ready, Meets, Repair, RepairableAt, AlwaysEnds, Resolve;
    if !AlwaysEnds(s, c) {
      ex :| !RepairableAt(ex, Resolve(s, c), c);
      assert !Repairable(ex, s, c);
    } else {
      ex :| Repairable(ex, s, c) && !Meets(Unchanged, Exactly(n), Repair(n, ex, s, c), s, c);
    }
  }

  /** An example left unsettled in one document is so in every document of the shape. */
  lemma SettledBySameShape(n: string, ex: Value, s1: Schema, a: Components, s: Schema, c: Components)
    requires s.Schema? && SameShape(s1, s) && SameShapes(a, c)
    ensures s1.Schema? && (Settled(n, ex, s1, a) <==> Settled(n, ex, s, c))
  {
    ShapeDecides(n, ex, s, c, s1, a);
    if Repairable(ex, s, c) {
      UnchangedBySameShape(n, Repair(n, ex, s, c), s, c, s1, a);
    }
  }

  lemma UnsettledModel(c: Components, m: string, ex: Value)
    requires m in c && c[m].Schema? && !Settled(m, ex, c[m], c)
    ensures !AnnotatedSettle(c)
  {
    hide Ready, Meets, Repair, Repairable, Infer, Inferable;
    FillShape(c);
    var filled := Fill(c);
    var s := filled[m].(example := Some(ex));
    var a := filled[m := s];
    AnnotatedSameShape(filled[m], filled[m].description, Some(ex));
    assert AnnotatedModel(filled[m]) && AnnotatedModel(s);
    assert SameShape(s, c[m]);
    SettledBySameShape(m, ex, s, a, c[m], c);
    assert forall k :: k in a ==> AnnotatedModel(a[k]);
    UnsettledExample(a, m);
  }

  lemma UnsettledExample(a: Components, m: string)
    requires m in a && a[m].Schema? && a[m].example.Some? && !Settled(m, a[m].example.value, a[m], a)
    ensures !OnePassIsEnough(a)
  {
    hide Meets, Repair, Repairable;
    if PassReturns(a) {
      assert ModelReturns(a[m], a) && !ModelSettles(m, a[m], a);
      OnePassIff(a);
    }
  }

  lemma UnsettledProperty(c: Components, m: string, i: nat, ex: Value)
    requires HasEntry(c, m, i) && !Settled(c[m].properties.entries[i].key, ex, EntryAt(c, m, i), c)
    ensures !AnnotatedSettle(c)
  {
    hide Ready, Meets, Repair, Repairable, Infer, Inferable;
    var e := c[m].properties.entries[i];
    FillShape(c);
    var filled := Fill(c);
    var filledEntry := EntryAt(filled, m, i);
    assert filledEntry == e.value.(example := Some(Null));
    var p := filledEntry.(example := Some(ex));
    AnnotatedSameShape(filledEntry, p.description, p.example);
    WithEntrySameShapes(filled, m, i, p);
    var a := WithEntry(filled, m, i, p);
    WithEntryAnnotated(filled, m, i, p);
    AnnotatedSameShape(e.value, p.description, p.example);
    SettledBySameShape(e.key, ex, p, a, e.value, c);
    UnsettledEntry(a, m, i);
  }

  lemma WithEntryAnnotated(c: Components, m: string, i: nat, p: Schema)
    requires Annotated(c) && HasEntry(c, m, i) && p.Schema? && p.example.Some?
    ensures Annotated(WithEntry(c, m, i, p))
  {
    var a := WithEntry(c, m, i, p);
    forall k | k in a ensures AnnotatedModel(a[k]) {
      assert AnnotatedModel(c[k]);
    }
  }

  lemma UnsettledEntry(a: Components, m: string, i: nat)
    requires HasEntry(a, m, i)
    requires EntryReturns(a[m].properties.entries[i], a) ==> !EntrySettles(a[m].properties.entries[i], a)
    ensures !OnePassIsEnough(a)
  {
    hide EntryReturns, EntrySettles;
    if PassReturns(a) {
      assert ModelReturns(a[m], a) && !ModelSettles(m, a[m], a);
      OnePassIff(a);
    }
  }

  // ---------------------------------------------------------------- and for the others

  ghost predicate AllSettle(c: Components) {
    forall a :: SameShapes(a, c) ==> OnePassIsEnough(a)
  }

  /** Exactly when one pass is enough for every document of a shape, whatever its annotations. */
  lemma AllSettleIff(c: Components)
    ensures AllSettle(c) <==> EndsDocument(c) && ReadyDocument(c) && InferredKept(c)
  {
    AnnotatedSettleIff(c);
    if EndsDocument(c) && ReadyDocument(c) && InferredKept(c) {
      forall a | SameShapes(a, c) ensures OnePassIsEnough(a) {
        EndsPassReturns(a, c);
        ReadySettles(a, c);
        OnePassIff(a);
      }
    } else if !InferredKept(c) {
      var m :| m in c && !InferredKeptIn(c[m], c);
      var e :| e in c[m].properties.entries && !EntryInferredKept(e, c);
      var i :| 0 <= i < |c[m].properties.entries| && c[m].properties.entries[i] == e;
      NotKeptUnsettled(c, m, i);
    }
  }

  lemma NotKeptUnsettled(c: Components, m: string, i: nat)
    requires HasEntry(c, m, i) && !EntryInferredKept(c[m].properties.entries[i], c)
    ensures !AllSettle(c)
  {
    hide Meets, Infer, Inferable, Repair;
    var e := c[m].properties.entries[i];
    var p := e.value.(example := None);
    AnnotatedSameShape(e.value, p.description, None);
    WithEntrySameShapes(c, m, i, p);
    var a := WithEntry(c, m, i, p);
    ShapeDecides(e.key, Null, e.value, c, p, a);
    if Inferable(e.value, c) {
      UnchangedBySameShape(e.key, Infer(e.key, e.value, c), e.value, c, p, a);
    }
    UnsettledEntry(a, m, i);
  }

  // ---------------------------------------------------------------- conforming documents

  /** After two passes every property of a schema that makes examples conform has a conforming example, whatever stood
      there before. */
  lemma TwoPassesConform(c: Components, model: string, i: nat)
    requires PassReturns(c) && PassReturns(EnrichAll(c)) && HasEntry(c, model, i)
    ensures HasEntry(EnrichAll(EnrichAll(c)), model, i)
    ensures var e := c[model].properties.entries[i];
            var example := EntryAt(EnrichAll(EnrichAll(c)), model, i).example;
            example.Some? && (Ready(Conforming, Exactly(e.key), e.value, c) ==>
                Meets(Conforming, Exactly(e.key), example.value, e.value, c))
  {
    hide Infer, Repair, InferDescription, Ready, Meets, Inferable, Repairable;
    EnrichAllSameShapes(c);
    var c1 := EnrichAll(c);
    var e := c[model].properties.entries[i];
    assert ModelReturns(c[model], c) && EntryReturns(e, c);
    var e1 := c1[model].properties.entries[i];
    assert e1 == EnrichEntry(model, e, c);
    assert ModelReturns(c1[model], c1) && EntryReturns(e1, c1);
    assert EnrichAll(c1)[model].properties.entries[i] == EnrichEntry(model, e1, c1);
    var first := e1.value.example.value;
    AnnotatedSameShape(e.value, e1.value.description, e1.value.example);
    ShapeDecides(e.key, first, e1.value, c1, e.value, c);
    if Ready(Conforming, Exactly(e.key), e.value, c) {
      ReadyMeets(Conforming, Exactly(e.key), e.key, first, e.value, c);
    }
  }

  /** Documents that declare scalars as scalars are ready. */
  lemma WellDeclaredDocumentReady(c: Components)
    requires forall m :: m in c ==> WellDeclared(c[m])
    ensures ReadyDocument(c)
  {
    forall m | m in c ensures ReadyModel(m, c[m], c) {
      WellDeclaredModelReady(m, c[m], c);
    }
  }

  lemma WellDeclaredModelReady(model: string, s: Schema, c: Components)
    requires WellDeclared(s) && forall m :: m in c ==> WellDeclared(c[m])
    ensures ReadyModel(model, s, c)
  {
    hide ReadyWithin;
    if s.Schema? {
      PartsSmaller(s);
      forall d: nat ensures ReadyWithin(d, Unchanged, Exactly(model), s, c) {
        WellDeclaredIsReady(d, Exactly(model), s, c);
      }
      if s.properties.Table? {
        forall e | e in s.properties.entries && e.value.Schema? ensures Ready(Unchanged, Exactly(e.key), e.value, c) {
          assert IsPart(e.value, s);
          forall d: nat ensures ReadyWithin(d, Unchanged, Exactly(e.key), e.value, c) {
            WellDeclaredIsReady(d, Exactly(e.key), e.value, c);
          }
        }
      }
    }
  }

  // ---------------------------------------------------------------- a document that needs two passes

  /** A model whose one property is "null or an integer", without an example. */
  const NULLABLE: Schema := BLANK.(anyOf := [BLANK.(kind := Some("null")), BLANK.(kind := Some("integer"))])

  const NULLABLE_MODEL: Components := map["M" := BLANK.(properties := Table([Entry("n", NULLABLE)]))]

  /** The inferred example of the property is the one its name gives, and repair makes an integer of that. */
  lemma InferNullable(c: Components)
    ensures Inferable(NULLABLE, c) && Infer("n", NULLABLE, c) == NamedExample("n")
    ensures Resolve(NULLABLE, c) == NULLABLE.anyOf[1] && Inferable(NULLABLE.anyOf[1], c)
    ensures Infer("n", NULLABLE.anyOf[1], c).Int?
  {
    hide IntegerExample, ExampleByKey, UntypedExample, NamedExample, Snake;
    var first, second := BLANK.(kind := Some("null")), BLANK.(kind := Some("integer"));
    assert NULLABLE.anyOf == [first, second];
    assert InferReturns(1, first, c) && InferReturns(1, second, c);
    assert Continues(NULLABLE, c) == [first] && InferReturns(2, NULLABLE, c);
    assert Infer("n", first, c) == NamedExample("n");
    assert NULLABLE.anyOf[1..][0] == second;
    assert FirstNonNull(NULLABLE.anyOf) == FirstNonNull(NULLABLE.anyOf[1..]) == second;
  }

  /** Two passes are needed: inference follows the first alternative and repair the first that is not null, so
      the second pass changes what the first one wrote. */
  lemma OnePassIsNotEnough()
    ensures PassReturns(NULLABLE_MODEL) && PassReturns(EnrichAll(NULLABLE_MODEL)) && !OnePassIsEnough(NULLABLE_MODEL)
  {
    var c, e := NULLABLE_MODEL, Entry("n", NULLABLE);
    InferNullable(c);
    assert c["M"].properties.entries == [e];
    assert ModelReturns(c["M"], c);
    NullableNotKept(c);
    assert !EntrySettles(c["M"].properties.entries[0], c);
    UnsettledEntry(c, "M", 0);
    OnePassIff(c);
    NullableSecondPass();
  }

  lemma NullableNotKept(c: Components)
    ensures Inferable(NULLABLE, c) && !Meets(Unchanged, Exactly("n"), Infer("n", NULLABLE, c), NULLABLE, c)
  {
    InferNullable(c);
    var second, v := NULLABLE.anyOf[1], NamedExample("n");
    hide NamedExample, Infer, Resolve;
    assert Under("n", Exactly("n"));
    assert Violates(v, second);
  }

  lemma NullableSecondPass()
    ensures PassReturns(NULLABLE_MODEL) && PassReturns(EnrichAll(NULLABLE_MODEL))
  {
    var c, e := NULLABLE_MODEL, Entry("n", NULLABLE);
    InferNullable(c);
    assert c["M"].properties.entries == [e] && ModelReturns(c["M"], c);
    hide Infer, Repair, Inferable, Repairable, InferDescription, EntryReturns, EnrichEntry, SameShapes, SameShape;
    EnrichAllSameShapes(c);
    var c1 := EnrichAll(c);
    var e1 := EnrichEntry("M", e, c);
    assert EntryReturns(e, c);
    assert EnrichEntries("M", [e], c) == [e1];
    assert c1.Keys == {"M"} && c1["M"].example == None && c1["M"].properties.entries == [e1];
    NullableAgain(c1);
    assert ModelReturns(c1["M"], c1);
  }

  /** The example the first pass writes can be repaired. */
  lemma NullableAgain(c1: Components)
    requires PassReturns(NULLABLE_MODEL) && SameShapes(c1, NULLABLE_MODEL)
    requires EntryReturns(Entry("n", NULLABLE), NULLABLE_MODEL)
    ensures EntryReturns(EnrichEntry("M", Entry("n", NULLABLE), NULLABLE_MODEL), c1)
  {
    var c, e := NULLABLE_MODEL, Entry("n", NULLABLE);
    InferNullable(c);
    var second, v := NULLABLE.anyOf[1], NamedExample("n");
    hide Infer, Inferable, InferDescription, Resolve, NamedExample;
    var e1 := EnrichEntry("M", e, c);
    assert e1.value.example == Some(v);
    AnnotatedSameShape(NULLABLE, e1.value.description, e1.value.example);
    assert RepairAtReturns(0, v, second, c);
    ShapeDecides("n", v, NULLABLE, c, e1.value, c1);
  }
}
