/** The in-place component pass of the OpenAPI enrichment. */
module SchemaEnrichment {
  import opened Common
  import opened Json
  import opened SchemaExamples
  import opened AnnotationIndependence
  import opened RepairOutcome
  import Text

  // ---------------------------------------------------------------- descriptions

  function InferDescription(model: string, name: string, s: Schema): (d: string)
    requires s.Schema?
    ensures d != ""
  {
    var key, text := Snake(name), Humanize(name);
    if Text.EndsWith(key, "_id") then "Unique " + Text.Replace(key[..|key| - 3], '_', ' ') + " identifier."
    else if Text.Contains(key, "date") && s.format == Some("date") then "Business date for " + text + "."
    else if Text.Contains(key, "time") || s.format == Some("date-time") then "Timestamp for " + text + "."
    else if Text.Contains(key, "currency") then "ISO currency code for " + text + "."
    else if Text.Contains(key, "amount") || Text.Contains(key, "value") || Text.Contains(key, "pnl")
    then "Monetary value for " + text + "."
    else if Text.Contains(key, "quantity") then "Quantity value for " + text + "."
    else if Text.Contains(key, "rate") || Text.Contains(key, "price") then "Rate/price value for " + text + "."
    else if Text.Contains(key, "status") then "Current status for " + text + "."
    else Humanize(model) + " field: " + text + "."
  }

  // ---------------------------------------------------------------- what one pass writes

  function DescriptionOf(model: string, name: string, s: Schema): Value
    requires s.Schema?
  {
    if Truthy(s.description) then s.description else Str(InferDescription(model, name, s))
  }

  /** The example of a property is there to repair, or to infer, and that returns. */
  ghost predicate ExampleReturns(s: Schema, c: Components)
    requires s.Schema?
  {
    if s.example.None? then Inferable(s, c) else Repairable(s.example.value, s, c)
  }

  ghost predicate EntryReturns(e: Entry<Schema>, c: Components) {
    e.value.Schema? ==> ExampleReturns(e.value, c)
  }

  ghost predicate ModelReturns(s: Schema, c: Components) {
    s.Schema? ==>
      && (s.example.Some? ==> Repairable(s.example.value, s, c))
      && (s.properties.Table? ==> forall e :: e in s.properties.entries ==> EntryReturns(e, c))
  }

  /** A pass over the document comes to an end. */
  ghost predicate PassReturns(c: Components) {
    forall m :: m in c ==> ModelReturns(c[m], c)
  }

  function ExampleOf(name: string, s: Schema, c: Components): Value
    requires s.Schema? && ExampleReturns(s, c)
  {
    if s.example.None? then Infer(name, s, c) else Repair(name, s.example.value, s, c)
  }

  /** One property after one pass over the document `c`. */
  function EnrichEntry(model: string, e: Entry<Schema>, c: Components): Entry<Schema>
    requires EntryReturns(e, c)
  {
    if e.value.Schema? then
      Entry(e.key, e.value.(description := DescriptionOf(model, e.key, e.value),
          example := Some(ExampleOf(e.key, e.value, c))))
    else e
  }

  function EnrichEntries(model: string, entries: seq<Entry<Schema>>, c: Components): (r: seq<Entry<Schema>>)
    requires forall e :: e in entries ==> EntryReturns(e, c)
    ensures |r| == |entries| && forall i :: 0 <= i < |r| ==> r[i] == EnrichEntry(model, entries[i], c)
  {
    if entries == [] then []
    else
      assert entries == [entries[0]] + entries[1..];
      [EnrichEntry(model, entries[0], c)] + EnrichEntries(model, entries[1..], c)
  }

  function RepairModelExample(model: string, s: Schema, c: Components): (r: Schema)
    requires s.Schema? && (s.example.Some? ==> Repairable(s.example.value, s, c))
    ensures r.Schema? && r.properties == s.properties
  {
    if s.example.Some? then s.(example := Some(Repair(model, s.example.value, s, c))) else s
  }

  function EnrichModel(model: string, s: Schema, c: Components): Schema
    requires ModelReturns(s, c)
  {
    if !s.Schema? then s
    else
      var repaired := RepairModelExample(model, s, c);
      if repaired.properties.Table?
      then repaired.(properties := Table(EnrichEntries(model, repaired.properties.entries, c)))
      else repaired
  }

  /** One pass, every value computed from the document as it was before the pass: no order is mentioned. */
  function EnrichAll(c: Components): Components
    requires PassReturns(c)
  {
    map m | m in c :: EnrichModel(m, c[m], c)
  }

  // ---------------------------------------------------------------- the pass keeps every shape

  lemma WithEntriesSameShape(s: Schema, entries: seq<Entry<Schema>>)
    requires s.Schema? && s.properties.Table? && |entries| == |s.properties.entries|
    requires forall i :: 0 <= i < |entries| ==>
               entries[i].key == s.properties.entries[i].key &&
                   SameShape(entries[i].value, s.properties.entries[i].value)
    ensures SameShape(s.(properties := Table(entries)), s)
  {
  }

  lemma AnnotatedSameShape(s: Schema, description: Value, example: Option<Value>)
    requires s.Schema?
    ensures SameShape(s.(description := description, example := example), s)
  {
  }

  lemma EnrichEntrySameShape(model: string, e: Entry<Schema>, c: Components)
    requires EntryReturns(e, c)
    ensures var r := EnrichEntry(model, e, c);
            r.key == e.key && SameShape(r.value, e.value) && (!e.value.Schema? ==> r == e)
  {
    hide Infer, Repair, InferDescription;
    if e.value.Schema? {
      AnnotatedSameShape(e.value, DescriptionOf(model, e.key, e.value), Some(ExampleOf(e.key, e.value, c)));
    }
  }

  lemma EnrichModelSameShape(model: string, s: Schema, c: Components)
    requires ModelReturns(s, c)
    ensures SameShape(EnrichModel(model, s, c), s)
  {
    hide Infer, Repair, InferDescription, EnrichEntry, EntryReturns;
    if s.Schema? {
      var r := RepairModelExample(model, s, c);
      AnnotatedSameShape(s, s.description, r.example);
      if s.properties.Table? {
        var entries := s.properties.entries;
        var enriched := EnrichEntries(model, entries, c);
        forall i | 0 <= i < |entries|
          ensures enriched[i].key == entries[i].key && SameShape(enriched[i].value, entries[i].value)
        {
          EnrichEntrySameShape(model, entries[i], c);
        }
        WithEntriesSameShape(r, enriched);
      }
    }
  }

  lemma EnrichAllSameShapes(c: Components)
    requires PassReturns(c)
    ensures SameShapes(EnrichAll(c), c)
  {
    forall m | m in c ensures SameShape(EnrichAll(c)[m], c[m]) {
      EnrichModelSameShape(m, c[m], c);
    }
  }

  // ---------------------------------------------------------------- passes only see shapes

  lemma EnrichEntryBySameShapes(model: string, e: Entry<Schema>, a: Components, b: Components)
    requires EntryReturns(e, a) && SameShapes(a, b)
    ensures EntryReturns(e, b) && EnrichEntry(model, e, a) == EnrichEntry(model, e, b)
  {
    hide Infer, Repair, Inferable, Repairable, InferDescription;
    if e.value.Schema? {
      ShapeDecides(e.key, e.value.example.GetOr(Null), e.value, a, e.value, b);
    }
  }

  lemma EnrichModelBySameShapes(model: string, s: Schema, a: Components, b: Components)
    requires ModelReturns(s, a) && SameShapes(a, b)
    ensures ModelReturns(s, b) && EnrichModel(model, s, a) == EnrichModel(model, s, b)
  {
    hide Infer, Repair, Inferable, Repairable, InferDescription, EnrichEntry, EntryReturns;
    if s.Schema? {
      ShapeDecides(model, s.example.GetOr(Null), s, a, s, b);
      if s.properties.Table? {
        var entries := s.properties.entries;
        forall i | 0 <= i < |entries|
          ensures EntryReturns(entries[i], b) && EnrichEntry(model, entries[i], a) == EnrichEntry(model, entries[i], b)
        {
          EnrichEntryBySameShapes(model, entries[i], a, b);
        }
        assert EnrichEntries(model, entries, a) == EnrichEntries(model, entries, b);
      }
    }
  }

  /** Whether repair leaves an example unchanged is decided by the shape. */
  lemma UnchangedBySameShape(n: string, v: Value, s1: Schema, c1: Components, s2: Schema, c2: Components)
    requires s1.Schema? && SameShape(s1, s2) && SameShapes(c1, c2)
    ensures s2.Schema? && (Meets(Unchanged, Exactly(n), v, s1, c1) <==> Meets(Unchanged, Exactly(n), v, s2, c2))
  {
    ShapeDecides(n, v, s1, c1, s2, c2);
    UnchangedIff(n, v, s1, c1);
    UnchangedIff(n, v, s2, c2);
  }

  // ---------------------------------------------------------------- documents a pass leaves alone

  /** A property that needs nothing: described, and with an example that repair leaves unchanged. */
  ghost predicate EntryFinished(e: Entry<Schema>, c: Components) {
    e.value.Schema? ==>
      && Truthy(e.value.description) && e.value.example.Some?
      && Meets(Unchanged, Exactly(e.key), e.value.example.value, e.value, c)
  }

  ghost predicate ModelFinished(model: string, s: Schema, c: Components) {
    s.Schema? ==>
      && (s.example.Some? ==> Meets(Unchanged, Exactly(model), s.example.value, s, c))
      && (s.properties.Table? ==> forall i :: 0 <= i < |s.properties.entries| ==>
          EntryFinished(s.properties.entries[i], c))
  }

  ghost predicate Finished(c: Components) {
    forall m :: m in c ==> ModelFinished(m, c[m], c)
  }

  lemma EntryFixedIff(model: string, e: Entry<Schema>, c: Components)
    ensures EntryReturns(e, c) && EnrichEntry(model, e, c) == e <==> EntryFinished(e, c)
  {
    hide Infer, Repair, Inferable, Repairable, InferDescription, Meets;
    if e.value.Schema? {
      if e.value.example.Some? {
        UnchangedIff(e.key, e.value.example.value, e.value, c);
      }
    }
  }

  lemma ModelFixedIff(model: string, s: Schema, c: Components)
    ensures ModelReturns(s, c) && EnrichModel(model, s, c) == s <==> ModelFinished(model, s, c)
  {
    hide Infer, Repair, Inferable, Repairable, EnrichEntry, EntryReturns, EntryFinished, Meets;
    if s.Schema? {
      if s.example.Some? {
        UnchangedIff(model, s.example.value, s, c);
      }
      if s.properties.Table? {
        EntriesFixedIff(model, s.properties.entries, c);
      }
    }
  }

  lemma EntriesFixedIff(model: string, entries: seq<Entry<Schema>>, c: Components)
    ensures (forall e :: e in entries ==> EntryReturns(e, c)) && EnrichEntries(model, entries, c) == entries
       <==> forall i :: 0 <= i < |entries| ==> EntryFinished(entries[i], c)
  {
    hide EnrichEntry, EntryReturns, EntryFinished;
    forall i | 0 <= i < |entries|
      ensures EntryReturns(entries[i], c) && EnrichEntry(model, entries[i], c) == entries[i] <==>
          EntryFinished(entries[i], c)
    {
      EntryFixedIff(model, entries[i], c);
    }
    if forall i :: 0 <= i < |entries| ==> EntryFinished(entries[i], c) {
      assert forall e :: e in entries ==> EntryReturns(e, c);
      assert EnrichEntries(model, entries, c) == entries;
    } else if forall e :: e in entries ==> EntryReturns(e, c) {
      var i :| 0 <= i < |entries| && !EntryFinished(entries[i], c);
      assert EnrichEntries(model, entries, c)[i] != entries[i];
    }
  }

  /** Exactly the documents on which the pass returns and changes nothing. */
  lemma FixedIff(c: Components)
    ensures PassReturns(c) && EnrichAll(c) == c <==> Finished(c)
  {
    hide EnrichModel, ModelReturns, ModelFinished;
    forall m | m in c ensures ModelReturns(c[m], c) && EnrichModel(m, c[m], c) == c[m] <==> ModelFinished(m, c[m], c) {
      ModelFixedIff(m, c[m], c);
    }
    if PassReturns(c) {
      assert EnrichAll(c) == c <==> forall m :: m in c ==> EnrichModel(m, c[m], c) == c[m];
    }
  }

  // ---------------------------------------------------------------- when one pass is enough

  /** What the pass writes as example of a property, repair leaves unchanged. Where there was none, that is the inferred
      example. */
  ghost predicate EntrySettles(e: Entry<Schema>, c: Components)
    requires EntryReturns(e, c)
  {
    e.value.Schema? ==> Meets(Unchanged, Exactly(e.key), ExampleOf(e.key, e.value, c), e.value, c)
  }

  ghost predicate ModelSettles(model: string, s: Schema, c: Components)
    requires ModelReturns(s, c)
  {
    s.Schema? ==>
      && (s.example.Some? ==> Meets(Unchanged, Exactly(model), Repair(model, s.example.value, s, c), s, c))
      && (s.properties.Table? ==> forall i :: 0 <= i < |s.properties.entries| ==>
          EntrySettles(s.properties.entries[i], c))
  }

  ghost predicate Settles(c: Components)
    requires PassReturns(c)
  {
    forall m :: m in c ==> ModelSettles(m, c[m], c)
  }

  /** A second pass returns and changes nothing. */
  ghost predicate OnePassIsEnough(c: Components) {
    PassReturns(c) && PassReturns(EnrichAll(c)) && EnrichAll(EnrichAll(c)) == EnrichAll(c)
  }

  /** Exactly when one pass is enough: each example that the pass writes is one that repair leaves unchanged. */
  lemma OnePassIff(c: Components)
    requires PassReturns(c)
    ensures OnePassIsEnough(c) <==> Settles(c)
  {
    hide EnrichModel, ModelReturns, ModelFinished, ModelSettles;
    FixedIff(EnrichAll(c));
    EnrichAllSameShapes(c);
    forall m | m in c ensures ModelFinished(m, EnrichAll(c)[m], EnrichAll(c)) <==> ModelSettles(m, c[m], c) {
      ModelSettlesIff(m, c[m], c, EnrichAll(c));
    }
  }

  lemma EntrySettlesIff(model: string, e: Entry<Schema>, c: Components, c1: Components)
    requires EntryReturns(e, c) && SameShapes(c1, c)
    ensures EntryFinished(EnrichEntry(model, e, c), c1) <==> EntrySettles(e, c)
  {
    hide Infer, Repair, Inferable, Repairable, InferDescription, Meets;
    if e.value.Schema? {
      var once := EnrichEntry(model, e, c);
      AnnotatedSameShape(e.value, once.value.description, once.value.example);
      UnchangedBySameShape(e.key, once.value.example.value, once.value, c1, e.value, c);
    }
  }

  lemma ModelSettlesIff(model: string, s: Schema, c: Components, c1: Components)
    requires ModelReturns(s, c) && SameShapes(c1, c)
    ensures ModelFinished(model, EnrichModel(model, s, c), c1) <==> ModelSettles(model, s, c)
  {
    hide Infer, Repair, Inferable, Repairable, EnrichEntry, EntryReturns, EntryFinished, EntrySettles, Meets,
         SameShapes;
    if s.Schema? {
      var once := EnrichModel(model, s, c);
      EnrichModelSameShape(model, s, c);
      if s.example.Some? {
        UnchangedBySameShape(model, once.example.value, once, c1, s, c);
      }
      if s.properties.Table? {
        forall i | 0 <= i < |s.properties.entries|
          ensures EntryFinished(once.properties.entries[i], c1) <==> EntrySettles(s.properties.entries[i], c)
        {
          EntrySettlesIff(model, s.properties.entries[i], c, c1);
        }
      }
    }
  }

  // ---------------------------------------------------------------- the gate's field metadata

  predicate HasEntry(c: Components, model: string, i: nat) {
    && model in c && c[model].Schema? && c[model].properties.Table?
    && i < |c[model].properties.entries| && c[model].properties.entries[i].value.Schema?
  }

  function EntryAt(c: Components, model: string, i: nat): (s: Schema)
    requires HasEntry(c, model, i)
    ensures s.Schema?
  {
    c[model].properties.entries[i].value
  }

  /** `_missing_schema_field_metadata`: what the quality gate reports for one property that is not `$ref` only. */
  function MissingFieldMetadata(s: Schema, hasExamples: bool): seq<string>
    requires s.Schema?
  {
    (if Truthy(s.description) then [] else ["description"])
    + (if s.example.Some? || hasExamples then [] else ["example"])
  }

  /** After one pass no component property of any document lacks a description or an example. */
  lemma NoFieldGapsAfterEnrichment(c: Components, model: string, i: nat, hasExamples: bool)
    requires PassReturns(c) && HasEntry(c, model, i)
    ensures HasEntry(EnrichAll(c), model, i)
    ensures MissingFieldMetadata(EntryAt(EnrichAll(c), model, i), hasExamples) == []
  {
    hide Infer, Repair, InferDescription;
    var e := c[model].properties.entries[i];
    assert ModelReturns(c[model], c) && EntryReturns(e, c);
    assert EnrichAll(c)[model].properties.entries[i] == EnrichEntry(model, e, c);
  }

  // ---------------------------------------------------------------- progress of the loops

  /** The document with the schema of property `i` of `model` replaced. */
  function WithEntry(c: Components, model: string, i: nat, s: Schema): Components
    requires HasEntry(c, model, i)
  {
    var entries := c[model].properties.entries;
    c[model := c[model].(properties := Table(entries[i := Entry(entries[i].key, s)]))]
  }

  lemma WithEntryUnchanged(c: Components, model: string, i: nat, s: Schema)
    requires HasEntry(c, model, i) && s == EntryAt(c, model, i)
    ensures WithEntry(c, model, i, s) == c
  {
    var entries := c[model].properties.entries;
    assert entries[i := Entry(entries[i].key, s)] == entries;
  }

  lemma WithEntryTwice(c: Components, model: string, i: nat, s: Schema, t: Schema)
    requires HasEntry(c, model, i) && s.Schema?
    ensures HasEntry(WithEntry(c, model, i, s), model, i)
    ensures WithEntry(WithEntry(c, model, i, s), model, i, t) == WithEntry(c, model, i, t)
  {
    var entries := c[model].properties.entries;
    var key := entries[i].key;
    assert entries[i := Entry(key, s)][i := Entry(key, t)] == entries[i := Entry(key, t)];
  }

  lemma WithEntrySameShapes(c: Components, model: string, i: nat, s: Schema)
    requires HasEntry(c, model, i) && SameShape(s, EntryAt(c, model, i))
    ensures SameShapes(WithEntry(c, model, i, s), c)
  {
    var d := WithEntry(c, model, i, s);
    WithEntriesSameShape(c[model], d[model].properties.entries);
  }

  /** Models in `done` are enriched from `before`; the others are as before. */
  ghost predicate Progress(before: Components, now: Components, done: set<string>)
    requires PassReturns(before)
  {
    && now.Keys == before.Keys
    && forall m :: m in before ==> now[m] == (if m in done then EnrichModel(m, before[m], before) else before[m])
  }

  lemma ProgressKeepsShapes(before: Components, now: Components, done: set<string>)
    requires PassReturns(before) && Progress(before, now, done)
    ensures SameShapes(now, before) && now.Keys == before.Keys
  {
    hide EnrichModel, ModelReturns;
    forall m | m in before ensures SameShape(now[m], before[m]) {
      EnrichModelSameShape(m, before[m], before);
    }
  }

  lemma ProgressStep(before: Components, now: Components, done: set<string>, model: string)
    requires PassReturns(before) && Progress(before, now, done) && model in before && model !in done
    ensures ModelReturns(now[model], now)
    ensures Progress(before, now[model := EnrichModel(model, now[model], now)], done + {model})
  {
    hide EnrichModel, ModelReturns;
    ProgressKeepsShapes(before, now, done);
    EnrichModelBySameShapes(model, before[model], before, now);
  }

  ghost predicate EntriesReturn(entries: seq<Entry<Schema>>, c: Components) {
    forall e :: e in entries ==> EntryReturns(e, c)
  }

  /** The first `n` entries are enriched from `before`; the others are as before. */
  ghost predicate EntryProgress(model: string, before: Components, was: seq<Entry<Schema>>, now: seq<Entry<Schema>>,
                                n: nat)
    requires EntriesReturn(was, before)
  {
    && |now| == |was|
    && forall j :: 0 <= j < |was| ==> now[j] == (if j < n then EnrichEntry(model, was[j], before) else was[j])
  }

  /** `model` has its first `n` properties enriched from `before`, and is otherwise `repaired`. */
  ghost predicate ModelProgress(before: Components, model: string, repaired: Schema, now: Components, n: nat) {
    && model in before && SameShape(repaired, before[model]) && repaired.Schema? && repaired.properties.Table?
    && EntriesReturn(repaired.properties.entries, before)
    && model in now && now[model].Schema? && now[model].properties.Table?
    && now == before[model := repaired.(properties := now[model].properties)]
    && EntryProgress(model, before, repaired.properties.entries, now[model].properties.entries, n)
  }

  lemma ModelProgressKeepsShapes(before: Components, model: string, repaired: Schema, now: Components, n: nat)
    requires ModelProgress(before, model, repaired, now, n)
    ensures SameShapes(now, before)
  {
    hide EnrichEntry, EntryReturns;
    var was, entries := repaired.properties.entries, now[model].properties.entries;
    forall i | 0 <= i < |was|
      ensures entries[i].key == was[i].key && SameShape(entries[i].value, was[i].value)
    {
      EnrichEntrySameShape(model, was[i], before);
    }
    WithEntriesSameShape(repaired, entries);
  }

  lemma ModelProgressStep(before: Components, model: string, repaired: Schema, now: Components, n: nat,
                          next: Components)
    requires ModelProgress(before, model, repaired, now, n) && n < |repaired.properties.entries|
    requires EntryReturns(now[model].properties.entries[n], now)
    requires if HasEntry(now, model, n)
             then next == WithEntry(now, model, n, EnrichEntry(model, now[model].properties.entries[n], now).value)
             else next == now
    ensures ModelProgress(before, model, repaired, next, n + 1)
  {
    var was := repaired.properties.entries;
    var e := was[n];
    ModelProgressKeepsShapes(before, model, repaired, now, n);
    hide EnrichEntry, SameShape, SameShapes, EntryReturns;
    EnrichEntrySameShape(model, e, before);
    EnrichEntryBySameShapes(model, e, before, now);
    if HasEntry(now, model, n) {
      assert next[model] == repaired.(properties := next[model].properties);
    }
  }

  /** The next property can be enriched in the document as it is by now. */
  lemma NextEntryReturns(before: Components, model: string, repaired: Schema, now: Components, n: nat)
    requires ModelProgress(before, model, repaired, now, n) && n < |repaired.properties.entries|
    ensures EntryReturns(now[model].properties.entries[n], now)
  {
    hide EnrichEntry, EntryReturns;
    ModelProgressKeepsShapes(before, model, repaired, now, n);
    EnrichEntryBySameShapes(model, repaired.properties.entries[n], before, now);
  }

  lemma ModelProgressDone(before: Components, model: string, repaired: Schema, now: Components)
    requires repaired.Schema? && repaired.properties.Table?
    requires ModelProgress(before, model, repaired, now, |repaired.properties.entries|)
    requires before[model].Schema? && ModelReturns(before[model], before)
    requires repaired == RepairModelExample(model, before[model], before)
    ensures now == before[model := EnrichModel(model, before[model], before)]
  {
    hide EnrichEntry, Repair, EntryReturns;
    assert now[model].properties.entries == EnrichEntries(model, repaired.properties.entries, before);
  }

  // ---------------------------------------------------------------- the loops

  /** `components["schemas"]` of the document being enriched. */
  class ComponentStore {
    var schemas: Components

    constructor (initial: Components)
      ensures schemas == initial
    {
      schemas := initial;
    }

    method EnsurePropertyDescription(model: string, i: nat)
      requires HasEntry(schemas, model, i)
      modifies this
      ensures var e := old(schemas[model].properties.entries[i]);
              schemas == WithEntry(old(schemas), model, i,
                  e.value.(description := DescriptionOf(model, e.key, e.value)))
    {
      hide InferDescription;
      var e := schemas[model].properties.entries[i];
      if Truthy(e.value.description) {
        WithEntryUnchanged(schemas, model, i, e.value.(description := DescriptionOf(model, e.key, e.value)));
      } else {
        schemas := WithEntry(schemas, model, i, e.value.(description := Str(InferDescription(model, e.key, e.value))));
      }
    }

    method EnsurePropertyExample(model: string, i: nat)
      requires HasEntry(schemas, model, i) && EntryReturns(schemas[model].properties.entries[i], schemas)
      modifies this
      ensures var e := old(schemas[model].properties.entries[i]);
              schemas == WithEntry(old(schemas), model, i,
                  e.value.(example := Some(ExampleOf(e.key, e.value, old(schemas)))))
    {
      hide Infer, Repair;
      var e := schemas[model].properties.entries[i];
      if e.value.example.None? {
        schemas := WithEntry(schemas, model, i, e.value.(example := Some(Infer(e.key, e.value, schemas))));
        return;
      }
      schemas := WithEntry(schemas, model, i,
          e.value.(example := Some(Repair(e.key, e.value.example.value, e.value, schemas))));
    }

    /** The two writes of the property loop. The second reads a document the first has already changed. */
    method EnsureProperty(model: string, i: nat)
      requires HasEntry(schemas, model, i) && EntryReturns(schemas[model].properties.entries[i], schemas)
      modifies this
      ensures schemas == WithEntry(old(schemas), model, i,
                                   EnrichEntry(model, old(schemas[model].properties.entries[i]), old(schemas)).value)
    {
      hide Infer, Repair, Inferable, Repairable, InferDescription;
      ghost var before := schemas;
      ghost var e := schemas[model].properties.entries[i];
      EnsurePropertyDescription(model, i);
      ghost var described := EntryAt(schemas, model, i);
      AnnotatedSameShape(e.value, described.description, described.example);
      WithEntrySameShapes(before, model, i, described);
      ShapeDecides(e.key, e.value.example.GetOr(Null), described, schemas, e.value, before);
      EnsurePropertyExample(model, i);
      WithEntryTwice(before, model, i, described, EnrichEntry(model, e, before).value);
    }

    /** `_ensure_model_example_documentation`. */
    method EnsureModelExample(model: string)
      requires model in schemas && schemas[model].Schema? && ModelReturns(schemas[model], schemas)
      modifies this
      ensures schemas == old(schemas)[model := RepairModelExample(model, old(schemas[model]), old(schemas))]
    {
      hide Repair;
      if schemas[model].example.Some? {
        var example := Repair(model, schemas[model].example.value, schemas[model], schemas);
        schemas := schemas[model := schemas[model].(example := Some(example))];
      }
    }

    /** The body of the model loop of `_ensure_schema_documentation`. */
    method EnsureModel(model: string)
      requires model in schemas && schemas[model].Schema? && ModelReturns(schemas[model], schemas)
      modifies this
      ensures schemas == old(schemas)[model := EnrichModel(model, old(schemas[model]), old(schemas))]
    {
      hide Infer, Repair, EnrichEntry, EnrichEntries, EntryReturns;
      ghost var before := schemas;
      EnsureModelExample(model);
      ghost var repaired := schemas[model];
      AnnotatedSameShape(before[model], repaired.description, repaired.example);
      if !schemas[model].properties.Table? {
        return;
      }
      var n := |schemas[model].properties.entries|;
      for i := 0 to n
        invariant ModelProgress(before, model, repaired, schemas, i)
      {
        ghost var now := schemas;
        NextEntryReturns(before, model, repaired, schemas, i);
        if schemas[model].properties.entries[i].value.Schema? {
          EnsureProperty(model, i);
        }
        ModelProgressStep(before, model, repaired, now, i, schemas);
      }
      ModelProgressDone(before, model, repaired, schemas);
    }

    /** `_ensure_schema_documentation`. Whatever order the models are visited in, and although every model is
        rewritten while later ones still read it, the result is the pass computed from the document as it was. */
    method EnsureSchemaDocumentation(order: seq<string>)
      requires PassReturns(schemas)
      requires forall m :: m in order <==> m in schemas
      requires forall i, j :: 0 <= i < j < |order| ==> order[i] != order[j]
      modifies this
      ensures schemas == EnrichAll(old(schemas))
    {
      ghost var before := schemas;
      ghost var done: set<string> := {};
      assert Progress(before, schemas, done);
      hide EnrichModel, EnrichAll, SameShapes, PassReturns, ModelReturns, Progress;
      for k := 0 to |order|
        invariant forall j :: 0 <= j < |order| ==> (order[j] in done <==> j < k)
        invariant Progress(before, schemas, done)
      {
        var model := order[k];
        ghost var now := schemas;
        ProgressKeepsShapes(before, schemas, done);
        ProgressStep(before, now, done, model);
        if schemas[model].Schema? {
          EnsureModel(model);
        }
        done := done + {model};
      }
    }
  }
}
