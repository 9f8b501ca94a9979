/** Inference and repair read no key that enrichment writes: descriptions and examples never matter, so that
    documents of one shape are inferred and repaired alike. */
module AnnotationIndependence {
  import opened Common
  import opened Json
  import opened SchemaExamples

  /** `s` without any description or example, at any depth. */
  function Bare(s: Schema): (r: Schema)
    ensures r.Schema? <==> s.Schema?
  {
    match s
    case NotASchema => NotASchema
    case Schema(_, _, _, allOf, anyOf, oneOf, _, items, properties, _, additional, _, _, _, _, _, _) =>
      s.(allOf := BareSeq(allOf),
         anyOf := BareSeq(anyOf),
         oneOf := BareSeq(oneOf),
         items := if items.Some? then Some(Bare(items.value)) else None,
         properties := BareTable(properties),
         additional := Bare(additional),
         description := Null,
         example := None)
  }

  function BareSeq(schemas: seq<Schema>): (r: seq<Schema>)
    ensures |r| == |schemas| && forall i :: 0 <= i < |r| ==> r[i] == Bare(schemas[i])
  {
    if schemas == [] then [] else [Bare(schemas[0])] + BareSeq(schemas[1..])
  }

  function BareTable(t: PropertyTable): (r: PropertyTable)
    ensures r.Table? <==> t.Table?
  {
    match t
    case NotATable => NotATable
    case Table(entries) => Table(BareEntries(entries))
  }

  function BareEntries(entries: seq<Entry<Schema>>): (r: seq<Entry<Schema>>)
    ensures |r| == |entries|
    ensures forall i :: 0 <= i < |r| ==> r[i].key == entries[i].key && r[i].value == Bare(entries[i].value)
  {
    if entries == [] then []
    else
      assert entries[0] == Entry(entries[0].key, entries[0].value);
      [Entry(entries[0].key, Bare(entries[0].value))] + BareEntries(entries[1..])
  }

  function BareAll(c: Components): Components {
    map m | m in c :: Bare(c[m])
  }

  /** The schemas and components differ in descriptions and examples only. */
  ghost predicate SameShape(a: Schema, b: Schema) {
    Bare(a) == Bare(b)
  }

  ghost predicate SameShapes(a: Components, b: Components) {
    BareAll(a) == BareAll(b)
  }

  lemma {:induction false} BareFind(entries: seq<Entry<Schema>>, key: string)
    ensures Find(BareEntries(entries), key)
        == (if Find(entries, key).Some? then Some(Bare(Find(entries, key).value)) else None)
  {
    if entries != [] && entries[0].key != key {
      BareFind(entries[1..], key);
    }
  }

  lemma PropertyBare(t: Schema, key: string)
    requires t.Schema? && t.properties.Table?
    ensures Property(Bare(t), key) == Bare(Property(t, key))
  {
    BareFind(t.properties.entries, key);
  }

  // ---------------------------------------------------------------- inference

  lemma {:induction false} DeclaredBare(names: seq<string>, s: Schema)
    requires s.Schema? && s.properties.Table?
    ensures |Declared(names, Bare(s))| == |Declared(names, s)|
    ensures forall i :: 0 <= i < |Declared(names, s)| ==> Declared(names, Bare(s))[i] == Bare(Declared(names, s)[i])
  {
    if names != [] {
      DeclaredBare(names[..|names| - 1], s);
      PropertyBare(s, names[|names| - 1]);
    }
  }

  lemma BareFields(s: Schema)
    requires s.Schema?
    ensures var b := Bare(s);
            && b.Schema? && b.constant == s.constant && b.enumeration == s.enumeration && b.ref == s.ref &&
                b.kind == s.kind
            && b.allOf == BareSeq(s.allOf) && b.anyOf == BareSeq(s.anyOf) && b.oneOf == BareSeq(s.oneOf)
            && b.items == (if s.items.Some? then Some(Bare(s.items.value)) else None) &&
                b.additional == Bare(s.additional)
            && b.properties == BareTable(s.properties)
  {
  }

  lemma SameTurn(s: Schema, c: Components)
    requires s.Schema?
    ensures HasDefault(Bare(s)) == HasDefault(s) && RefersToModel(Bare(s), BareAll(c)) == RefersToModel(s, c)
    ensures FirstAlternative(Bare(s)) == Bare(FirstAlternative(s))
    ensures RefersToModel(s, c) ==> var name := RefName(s.ref.value).value; BareAll(c)[name] == Bare(c[name])
  {
    assert Bare(NotASchema) == NotASchema;
    hide RefName, Bare, BareSeq, BareTable;
    BareFields(s);
  }

  lemma ReferencedBare(model: Schema)
    requires model.Schema? && model.properties.Table?
    ensures SelectedNames(Bare(model)) == SelectedNames(model)
    ensures var selected, bare := Declared(SelectedNames(model), model), Declared(SelectedNames(model), Bare(model));
            |bare| == |selected| && forall i :: 0 <= i < |bare| ==> bare[i] == Bare(selected[i])
  {
    DeclaredBare(SelectedNames(model), model);
    assert SelectedNames(Bare(model)) == SelectedNames(model);
  }

  ghost predicate BareOf(bare: seq<Schema>, schemas: seq<Schema>) {
    |bare| == |schemas| && forall i :: 0 <= i < |schemas| ==> bare[i] == Bare(schemas[i])
  }

  /** Inference goes the same way. */
  lemma ContinuesBare(s: Schema, c: Components)
    requires s.Schema?
    ensures BareOf(Continues(Bare(s), BareAll(c)), Continues(s, c))
  {
    hide HasDefault, FirstAlternative, Bare, BareAll, BareSeq, BareTable, RefName, RefersToModel, Declared,
         SelectedNames;
    SameTurn(s, c);
    BareFields(s);
    if !HasDefault(s) && RefersToModel(s, c) {
      ContinuesReferencedBare(s, c);
    }
  }

  lemma ContinuesReferencedBare(s: Schema, c: Components)
    requires s.Schema? && !HasDefault(s) && RefersToModel(s, c)
    ensures BareOf(Continues(Bare(s), BareAll(c)), Continues(s, c))
  {
    SameTurn(s, c);
    BareFields(s);
    hide HasDefault, FirstAlternative, Bare, BareAll, SelectedNames, Declared;
    var model := c[RefName(s.ref.value).value];
    BareFields(model);
    hide RefName;
    if model.properties.Table? {
      ReferencedBare(model);
    }
  }

  lemma {:induction false} InferReturnsBare(d: nat, s: Schema, c: Components)
    requires s.Schema?
    ensures InferReturns(d, Bare(s), BareAll(c)) <==> InferReturns(d, s, c)
  {
    if d > 0 {
      ContinuesBare(s, c);
      var next, bare := Continues(s, c), Continues(Bare(s), BareAll(c));
      forall i | 0 <= i < |next|
        ensures InferReturns(d - 1, bare[i], BareAll(c)) <==> InferReturns(d - 1, next[i], c)
      {
        InferReturnsBare(d - 1, next[i], c);
      }
      hide Continues;
      if forall p :: p in next ==> InferReturns(d - 1, p, c) {
        forall p | p in bare ensures InferReturns(d - 1, p, BareAll(c)) {
          var i :| 0 <= i < |bare| && bare[i] == p;
          assert next[i] in next;
        }
      } else {
        var i :| 0 <= i < |next| && !InferReturns(d - 1, next[i], c);
        assert bare[i] in bare;
      }
    }
  }

  lemma InferableBare(s: Schema, c: Components)
    requires s.Schema?
    ensures Inferable(Bare(s), BareAll(c)) <==> Inferable(s, c)
  {
    forall d: nat ensures InferReturns(d, Bare(s), BareAll(c)) <==> InferReturns(d, s, c) {
      InferReturnsBare(d, s, c);
    }
  }

  lemma {:induction false} InferBare(name: string, s: Schema, c: Components)
    requires s.Schema? && Inferable(s, c)
    ensures Inferable(Bare(s), BareAll(c)) && Infer(name, Bare(s), BareAll(c)) == Infer(name, s, c)
    decreases InferDepth(s, c), 2
  {
    InferableBare(s, c);
    SameTurn(s, c);
    hide Inferable, InferTyped, InferReferenced, RefersToModel;
    if HasDefault(s) {
    } else if RefersToModel(s, c) {
      InferReferencedBare(s, c);
    } else if FirstAlternative(s).Schema? {
      ContinuesShallower(s, c, FirstAlternative(s));
      InferBare(name, FirstAlternative(s), c);
    } else {
      InferTypedBare(name, s, c);
    }
  }

  lemma {:induction false} InferReferencedBare(s: Schema, c: Components)
    requires s.Schema? && Inferable(s, c) && !HasDefault(s) && RefersToModel(s, c)
    ensures Inferable(Bare(s), BareAll(c)) && InferReferenced(Bare(s), BareAll(c)) == InferReferenced(s, c)
    decreases InferDepth(s, c), 1
  {
    InferableBare(s, c);
    SameTurn(s, c);
    var name := RefName(s.ref.value).value;
    var model := c[name];
    hide SelectedNames, Declared, Infer, Inferable, AllInferable, PropertyExamples;
    if model.properties.Table? {
      SelectedShallower(s, c);
      ReferencedBare(model);
      PropertyExamplesBare(SelectedNames(model), model, c);
    } else {
      ContinuesShallower(s, c, model);
      InferBare(name, model, c);
    }
  }

  lemma {:induction false} InferTypedBare(name: string, s: Schema, c: Components)
    requires s.Schema? && Inferable(s, c) && !HasDefault(s) && !RefersToModel(s, c) && FirstAlternative(s) == NotASchema
    ensures Inferable(Bare(s), BareAll(c)) && InferTyped(name, Bare(s), BareAll(c)) == InferTyped(name, s, c)
    decreases InferDepth(s, c), 1
  {
    InferableBare(s, c);
    if s.kind == Some("array") {
      if s.items.Some? && s.items.value.Schema? {
        ContinuesShallower(s, c, s.items.value);
        InferBare(name + "_item", s.items.value, c);
      }
    } else if s.kind == Some("object") {
      if s.additional.Schema? {
        ContinuesShallower(s, c, s.additional);
        InferBare(name + "_value", s.additional, c);
      }
    } else {
      assert ScalarExample(name, Bare(s)) == ScalarExample(name, s);
    }
  }

  lemma {:induction false} PropertyExamplesBare(names: seq<string>, s: Schema, c: Components)
    requires s.Schema? && s.properties.Table? && AllInferable(Declared(names, s), c)
    ensures AllInferable(Declared(names, Bare(s)), BareAll(c))
    ensures PropertyExamples(names, Bare(s), BareAll(c)) == PropertyExamples(names, s, c)
    decreases InferDepths(Declared(names, s), c), 0, |names|
  {
    AllInferableBare(names, s, c);
    if names != [] {
      var init, last := names[..|names| - 1], names[|names| - 1];
      DeclaredShallower(names, s, c);
      PropertyExamplesBare(init, s, c);
      PropertyBare(s, last);
      if Property(s, last).Schema? {
        InferBare(last, Property(s, last), c);
      }
    }
  }

  lemma AllInferableBare(names: seq<string>, s: Schema, c: Components)
    requires s.Schema? && s.properties.Table? && AllInferable(Declared(names, s), c)
    ensures AllInferable(Declared(names, Bare(s)), BareAll(c))
  {
    DeclaredBare(names, s);
    var declared, bare := Declared(names, s), Declared(names, Bare(s));
    forall p | p in bare ensures Inferable(p, BareAll(c)) {
      var i :| 0 <= i < |bare| && bare[i] == p;
      InferableBare(declared[i], c);
    }
  }

  // ---------------------------------------------------------------- repair

  lemma {:induction false} FirstNonNullBare(alternatives: seq<Schema>, bare: seq<Schema>)
    requires |bare| == |alternatives| && forall i :: 0 <= i < |bare| ==> bare[i] == Bare(alternatives[i])
    ensures FirstNonNull(bare) == Bare(FirstNonNull(alternatives))
  {
    if alternatives != [] {
      FirstNonNullBare(alternatives[1..], bare[1..]);
    }
  }

  lemma {:induction false} ResolveBare(s: Schema, c: Components)
    requires s.Schema?
    ensures Resolve(Bare(s), BareAll(c)) == Bare(Resolve(s, c))
    decreases s
  {
    FirstNonNullBare(s.allOf, Bare(s).allOf);
    FirstNonNullBare(s.anyOf, Bare(s).anyOf);
    FirstNonNullBare(s.oneOf, Bare(s).oneOf);
    assert Candidate(Bare(s)) == Bare(Candidate(s));
    if Candidate(s).Schema? {
      PartsSmaller(s);
      ResolveBare(Candidate(s), c);
    }
  }

  lemma {:induction false} AddMissingBare(entries: seq<Entry<Value>>, required: seq<string>, t: Schema, c: Components)
    requires t.Schema? && t.properties.Table? && AddsInferable(entries, required, t, c)
    ensures AddsInferable(entries, required, Bare(t), BareAll(c))
    ensures AddMissing(entries, required, Bare(t), BareAll(c)) == AddMissing(entries, required, t, c)
    decreases |required|
  {
    AddsInferableBare(entries, required, t, c);
    hide Infer, Inferable;
    if required != [] {
      var last := required[|required| - 1];
      AddMissingBare(entries, required[..|required| - 1], t, c);
      PropertyBare(t, last);
      if !HasKey(entries, last) && Property(t, last).Schema? {
        InferBare(last, Property(t, last), c);
      }
    }
  }

  lemma AddsInferableBare(entries: seq<Entry<Value>>, required: seq<string>, t: Schema, c: Components)
    requires t.Schema? && t.properties.Table?
    ensures AddsInferable(entries, required, Bare(t), BareAll(c)) <==> AddsInferable(entries, required, t, c)
  {
    forall k
      ensures Property(Bare(t), k) == Bare(Property(t, k))
      ensures Property(t, k).Schema? ==> (Inferable(Property(Bare(t), k), BareAll(c)) <==> Inferable(Property(t, k), c))
    {
      PropertyBare(t, k);
      if Property(t, k).Schema? {
        InferableBare(Property(t, k), c);
      }
    }
    hide Inferable, Property;
  }

  lemma {:induction false} RepairReturnsBare(d: nat, ex: Value, s: Schema, c: Components)
    requires s.Schema?
    ensures RepairReturns(d, ex, Bare(s), BareAll(c)) <==> RepairReturns(d, ex, s, c)
    decreases d, 1
  {
    ResolveBare(s, c);
    RepairAtReturnsBare(d, ex, Resolve(s, c), c);
  }

  lemma SameBranch(ex: Value, t: Schema)
    requires t.Schema?
    ensures var b := Bare(t);
            && BranchOf(ex, b) == BranchOf(ex, t) && Violates(ex, b) == Violates(ex, t) && b.required == t.required
            && (t.items.Some? ==> b.items == Some(Bare(t.items.value))) && b.additional == Bare(t.additional)
            && (b.properties.Table? <==> t.properties.Table?) &&
                (BranchOf(ex, t) == Properties ==> ex.Obj? && t.properties.Table?)
  {
  }

  lemma {:induction false} RepairAtReturnsBare(d: nat, ex: Value, t: Schema, c: Components)
    requires t.Schema?
    ensures RepairAtReturns(d, ex, Bare(t), BareAll(c)) <==> RepairAtReturns(d, ex, t, c)
    decreases d, 0
  {
    SameBranch(ex, t);
    hide BranchOf, Bare, RepairAtReturns;
    match BranchOf(ex, t)
    case Items => ItemsBranchBare(d, ex, t, c);
    case Properties => PropertiesBranchBare(d, ex, t, c);
    case Additional => AdditionalBranchBare(d, ex, t, c);
    case Scalar => ScalarBranchBare(d, ex, t, c);
  }

  lemma ScalarBranchBare(d: nat, ex: Value, t: Schema, c: Components)
    requires t.Schema? && BranchOf(ex, t) == Scalar
    ensures RepairAtReturns(d, ex, Bare(t), BareAll(c)) <==> RepairAtReturns(d, ex, t, c)
  {
    SameBranch(ex, t);
    InferableBare(t, c);
    hide Bare, Inferable, Violates;
  }

  lemma {:induction false} ItemsBranchBare(d: nat, ex: Value, t: Schema, c: Components)
    requires t.Schema? && BranchOf(ex, t) == Items
    ensures RepairAtReturns(d, ex, Bare(t), BareAll(c)) <==> RepairAtReturns(d, ex, t, c)
    decreases d - 1, 3
  {
    hide Bare, ItemsReturn, Violates;
    SameBranch(ex, t);
    if d > 0 {
      ItemsReturnBare(d - 1, ex.items, t.items.value, c);
    }
  }

  lemma {:induction false} AdditionalBranchBare(d: nat, ex: Value, t: Schema, c: Components)
    requires t.Schema? && BranchOf(ex, t) == Additional
    ensures RepairAtReturns(d, ex, Bare(t), BareAll(c)) <==> RepairAtReturns(d, ex, t, c)
    decreases d - 1, 3
  {
    hide Bare, EntriesReturn, Violates;
    SameBranch(ex, t);
    if d > 0 {
      EntriesReturnBare(d - 1, ex.entries, t.additional, c);
    }
  }

  lemma {:induction false} PropertiesBranchBare(d: nat, ex: Value, t: Schema, c: Components)
    requires t.Schema? && t.properties.Table? && ex.Obj? && BranchOf(ex, t) == Properties
    ensures RepairAtReturns(d, ex, Bare(t), BareAll(c)) <==> RepairAtReturns(d, ex, t, c)
    decreases d - 1, 3
  {
    hide RepairAtReturns, AddsInferable, DeclaredReturn, AddMissing, Infer, Bare, BranchOf, BareAll, HasKey;
    SameBranch(ex, t);
    AddsInferableBare(ex.entries, t.required, t, c);
    PropertiesBranchUnfolds(d, ex, t, c);
    PropertiesBranchUnfolds(d, ex, Bare(t), BareAll(c));
    if d > 0 && AddsInferable(ex.entries, t.required, t, c) {
      AddMissingBare(ex.entries, t.required, t, c);
      DeclaredReturnBare(d - 1, AddMissing(ex.entries, t.required, t, c), t, c);
    }
  }

  lemma PropertiesBranchUnfolds(d: nat, ex: Value, t: Schema, c: Components)
    requires t.Schema? && BranchOf(ex, t) == Properties
    ensures RepairAtReturns(d, ex, t, c) <==>
      AddsInferable(ex.entries, t.required, t, c) && d > 0 &&
          DeclaredReturn(d - 1, AddMissing(ex.entries, t.required, t, c), t, c)
  {
    hide AddsInferable, DeclaredReturn, AddMissing, Infer;
  }

  lemma {:induction false} ItemsReturnBare(d: nat, items: seq<Value>, s: Schema, c: Components)
    requires s.Schema?
    ensures ItemsReturn(d, items, Bare(s), BareAll(c)) <==> ItemsReturn(d, items, s, c)
    decreases d, 2
  {
    hide RepairReturns;
    forall v | v in items ensures RepairReturns(d, v, Bare(s), BareAll(c)) <==> RepairReturns(d, v, s, c) {
      RepairReturnsBare(d, v, s, c);
    }
  }

  lemma {:induction false} EntriesReturnBare(d: nat, entries: seq<Entry<Value>>, s: Schema, c: Components)
    requires s.Schema?
    ensures EntriesReturn(d, entries, Bare(s), BareAll(c)) <==> EntriesReturn(d, entries, s, c)
    decreases d, 2
  {
    hide RepairReturns;
    forall e | e in entries ensures RepairReturns(d, e.value, Bare(s), BareAll(c)) <==>
        RepairReturns(d, e.value, s, c) {
      RepairReturnsBare(d, e.value, s, c);
    }
  }

  lemma {:induction false} DeclaredReturnBare(d: nat, entries: seq<Entry<Value>>, t: Schema, c: Components)
    requires t.Schema? && t.properties.Table?
    ensures DeclaredReturn(d, entries, Bare(t), BareAll(c)) <==> DeclaredReturn(d, entries, t, c)
    decreases d, 2
  {
    hide RepairReturns;
    forall e | e in entries
      ensures Property(Bare(t), e.key) == Bare(Property(t, e.key))
      ensures Property(t, e.key).Schema? ==>
        (RepairReturns(d, e.value, Property(Bare(t), e.key), BareAll(c)) <==>
            RepairReturns(d, e.value, Property(t, e.key), c))
    {
      PropertyBare(t, e.key);
      if Property(t, e.key).Schema? {
        RepairReturnsBare(d, e.value, Property(t, e.key), c);
      }
    }
    hide Property;
  }

  lemma RepairableAtBare(ex: Value, t: Schema, c: Components)
    requires t.Schema?
    ensures RepairableAt(ex, Bare(t), BareAll(c)) <==> RepairableAt(ex, t, c)
  {
    forall d: nat ensures RepairAtReturns(d, ex, Bare(t), BareAll(c)) <==> RepairAtReturns(d, ex, t, c) {
      RepairAtReturnsBare(d, ex, t, c);
    }
  }

  lemma {:induction false} RepairBare(name: string, ex: Value, s: Schema, c: Components)
    requires s.Schema? && Repairable(ex, s, c)
    ensures Repairable(ex, Bare(s), BareAll(c)) && Repair(name, ex, Bare(s), BareAll(c)) == Repair(name, ex, s, c)
    decreases RepairDepth(ex, Resolve(s, c), c), 3
  {
    ResolveBare(s, c);
    RepairAtBare(name, ex, Resolve(s, c), c);
  }

  lemma {:induction false} RepairAtBare(name: string, ex: Value, t: Schema, c: Components)
    requires t.Schema? && RepairableAt(ex, t, c)
    ensures RepairableAt(ex, Bare(t), BareAll(c)) && RepairAt(name, ex, Bare(t), BareAll(c)) == RepairAt(name, ex, t, c)
    decreases RepairDepth(ex, t, c), 2
  {
    hide Infer, Inferable, RepairAtReturns, RepairableAt, Resolve, Bare, Violates;
    RepairableAtBare(ex, t, c);
    SameBranch(ex, t);
    var r, bare := RepairAt(name, ex, t, c), RepairAt(name, ex, Bare(t), BareAll(c));
    match BranchOf(ex, t)
    case Items =>
      forall i | 0 <= i < |ex.items| ensures bare.items[i] == r.items[i] {
        VisitsShallower(ex, t, c, ex.items[i], t.items.value);
        RepairBare(name + "_item", ex.items[i], t.items.value, c);
      }
      assert bare.items == r.items;
    case Properties =>
      RepairPropertiesBare(name, ex, t, c);
    case Additional =>
      forall i | 0 <= i < |ex.entries| ensures bare.entries[i] == r.entries[i] {
        VisitsShallower(ex, t, c, ex.entries[i].value, t.additional);
        RepairBare(ex.entries[i].key, ex.entries[i].value, t.additional, c);
      }
      assert bare.entries == r.entries;
    case Scalar =>
      if Violates(ex, t) {
        ReplacedInferable(ex, t, c);
        InferBare(name, t, c);
      }
  }

  lemma {:induction false} RepairPropertiesBare(name: string, ex: Value, t: Schema, c: Components)
    requires t.Schema? && RepairableAt(ex, t, c) && RepairableAt(ex, Bare(t), BareAll(c))
    requires BranchOf(ex, t) == Properties
    ensures RepairAt(name, ex, Bare(t), BareAll(c)) == RepairAt(name, ex, t, c)
    decreases RepairDepth(ex, t, c), 1
  {
    hide Infer, Inferable, RepairAtReturns, RepairableAt;
    RepairAtProperties(name, ex, t, c);
    RepairAtProperties(name, ex, Bare(t), BareAll(c));
    AddMissingBare(ex.entries, t.required, t, c);
    var full := AddMissing(ex.entries, t.required, t, c);
    var r, bare := RepairExisting(full, t, c), RepairExisting(full, Bare(t), BareAll(c));
    forall i | 0 <= i < |full| ensures bare[i] == r[i] {
      PropertyBare(t, full[i].key);
      if Property(t, full[i].key).Schema? {
        VisitsShallower(ex, t, c, full[i].value, Property(t, full[i].key));
        RepairBare(full[i].key, full[i].value, Property(t, full[i].key), c);
      }
    }
    assert bare == r;
  }

  // ---------------------------------------------------------------- non-interference

  /** Schemas of the same shape have the same inferred example and the same repair of every example, whatever
      descriptions and examples the document holds, and both return for the same schemas and examples. */
  lemma ShapeDecides(name: string, ex: Value, s1: Schema, c1: Components, s2: Schema, c2: Components)
    requires s1.Schema? && SameShape(s1, s2) && SameShapes(c1, c2)
    ensures s2.Schema? && (Inferable(s1, c1) <==> Inferable(s2, c2))
    ensures (Repairable(ex, s1, c1) <==> Repairable(ex, s2, c2))
    ensures Inferable(s1, c1) ==> Infer(name, s1, c1) == Infer(name, s2, c2)
    ensures Repairable(ex, s1, c1) ==> Repair(name, ex, s1, c1) == Repair(name, ex, s2, c2)
  {
    InferableBare(s1, c1);
    InferableBare(s2, c2);
    RepairableBare(ex, s1, c1);
    RepairableBare(ex, s2, c2);
    if Inferable(s1, c1) {
      InferBare(name, s1, c1);
      InferBare(name, s2, c2);
    }
    if Repairable(ex, s1, c1) {
      RepairBare(name, ex, s1, c1);
      RepairBare(name, ex, s2, c2);
    }
  }

  lemma RepairableBare(ex: Value, s: Schema, c: Components)
    requires s.Schema?
    ensures Repairable(ex, Bare(s), BareAll(c)) <==> Repairable(ex, s, c)
  {
    ResolveBare(s, c);
    RepairableAtBare(ex, Resolve(s, c), c);
  }
}
