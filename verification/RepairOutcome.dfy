/** What repaired examples are like: which ones repair leaves unchanged, and which conform to the rules. */
module RepairOutcome {
  import opened Common
  import opened Json
  import opened SchemaExamples
  import opened RepairTermination
  import Text

  // ---------------------------------------------------------------- demands on an example

  /** An example is to be one that repair leaves unchanged, or one that conforms to the rules. */
  datatype Demand = Unchanged | Conforming

  /** The names an example may stand under: one, or under `additionalProperties` every key, with a suffix for items. */
  datatype Names = Exactly(name: string) | Any(suffix: string)

  predicate Under(n: string, names: Names) {
    match names
    case Exactly(name) => n == name
    case Any(suffix) => Text.EndsWith(n, suffix)
  }

  function ItemNames(names: Names): Names {
    match names
    case Exactly(name) => Exactly(name + "_item")
    case Any(suffix) => Any(suffix + "_item")
  }

  /** The demand at every depth of `v`, by recursion on `v`. It mentions no repair: required properties that are
      declared are there, and where a scalar rule is violated, the value is the inferred one under each of the names,
      which repair puts back. Conforming examples violate none. */
  ghost predicate Meets(demand: Demand, names: Names, v: Value, s: Schema, c: Components)
    requires s.Schema?
    decreases v, 1
  {
    MeetsAt(demand, names, v, Resolve(s, c), c)
  }

  ghost predicate MeetsAt(demand: Demand, names: Names, v: Value, t: Schema, c: Components)
    requires t.Schema?
    decreases v, 0
  {
    match BranchOf(v, t)
    case Items => forall i :: 0 <= i < |v.items| ==> Meets(demand, ItemNames(names), v.items[i], t.items.value, c)
    case Properties =>
      && (forall k :: k in t.required && Property(t, k).Schema? ==> HasKey(v.entries, k))
      && (forall i :: 0 <= i < |v.entries| && Property(t, v.entries[i].key).Schema? ==>
            Meets(demand, Exactly(v.entries[i].key), v.entries[i].value, Property(t, v.entries[i].key), c))
    case Additional =>
      forall i :: 0 <= i < |v.entries| ==> Meets(demand, Exactly(v.entries[i].key), v.entries[i].value, t.additional, c)
    case Scalar => Violates(v, t) ==> demand == Unchanged && IsDefault(names, v, t, c)
  }

  /** Inference under each of the names gives `v`. */
  ghost predicate IsDefault(names: Names, v: Value, t: Schema, c: Components)
    requires t.Schema?
  {
    Inferable(t, c) && forall n :: Under(n, names) ==> Infer(n, t, c) == v
  }

  lemma {:induction false} ConformingIsUnchanged(names: Names, v: Value, s: Schema, c: Components)
    requires s.Schema? && Meets(Conforming, names, v, s, c)
    ensures Meets(Unchanged, names, v, s, c)
    decreases v
  {
    var t := Resolve(s, c);
    match BranchOf(v, t)
    case Items =>
      forall i | 0 <= i < |v.items| ensures Meets(Unchanged, ItemNames(names), v.items[i], t.items.value, c) {
        ConformingIsUnchanged(ItemNames(names), v.items[i], t.items.value, c);
      }
    case Properties =>
      forall i | 0 <= i < |v.entries| && Property(t, v.entries[i].key).Schema?
        ensures Meets(Unchanged, Exactly(v.entries[i].key), v.entries[i].value, Property(t, v.entries[i].key), c)
      {
        assert v.entries[i] < v;
        ConformingIsUnchanged(Exactly(v.entries[i].key), v.entries[i].value, Property(t, v.entries[i].key), c);
      }
    case Additional =>
      forall i | 0 <= i < |v.entries|
        ensures Meets(Unchanged, Exactly(v.entries[i].key), v.entries[i].value, t.additional, c)
      {
        ConformingIsUnchanged(Exactly(v.entries[i].key), v.entries[i].value, t.additional, c);
      }
    case Scalar =>
  }

  // ---------------------------------------------------------------- the fixed points of repair

  lemma {:induction false} MetIsFixed(n: string, v: Value, t: Schema, c: Components)
    requires t.Schema? && MeetsAt(Unchanged, Exactly(n), v, t, c)
    ensures RepairableAt(v, t, c) && RepairAt(n, v, t, c) == v
    decreases v, 1
  {
    hide Resolve, Infer, Inferable, AddMissing;
    match BranchOf(v, t)
    case Items =>
      forall i | 0 <= i < |v.items|
        ensures Repairable(v.items[i], t.items.value, c)
        ensures Repair(n + "_item", v.items[i], t.items.value, c) == v.items[i]
      {
        MetHere(n + "_item", v.items[i], t.items.value, c);
      }
      RepairableFromVisits(v, t, c);
      assert RepairAt(n, v, t, c).items == v.items;
    case Properties =>
      MetPropertiesFixed(n, v, t, c);
    case Additional =>
      forall i | 0 <= i < |v.entries|
        ensures Repairable(v.entries[i].value, t.additional, c)
        ensures Repair(v.entries[i].key, v.entries[i].value, t.additional, c) == v.entries[i].value
      {
        MetHere(v.entries[i].key, v.entries[i].value, t.additional, c);
      }
      RepairableFromVisits(v, t, c);
      assert RepairAt(n, v, t, c).entries == v.entries;
    case Scalar =>
      assert RepairAtReturns(0, v, t, c);
      assert Under(n, Exactly(n));
  }

  lemma {:induction false} MetPropertiesFixed(n: string, v: Value, t: Schema, c: Components)
    requires t.Schema? && MeetsAt(Unchanged, Exactly(n), v, t, c) && BranchOf(v, t) == Properties
    ensures RepairableAt(v, t, c) && RepairAt(n, v, t, c) == v
    decreases v, 0
  {
    hide Resolve, Infer, Inferable, AddMissing, Repairable;
    AddMissingNothing(v.entries, t.required, t, c);
    forall i | 0 <= i < |v.entries| && Property(t, v.entries[i].key).Schema?
      ensures Repairable(v.entries[i].value, Property(t, v.entries[i].key), c)
      ensures Repair(v.entries[i].key, v.entries[i].value, Property(t, v.entries[i].key), c) == v.entries[i].value
    {
      var e := v.entries[i];
      assert e < v;
      MetHere(e.key, e.value, Property(t, e.key), c);
    }
    RepairableFromVisits(v, t, c);
    RepairAtProperties(n, v, t, c);
    assert RepairExisting(v.entries, t, c) == v.entries;
  }

  lemma {:induction false} MetHere(n: string, v: Value, s: Schema, c: Components)
    requires s.Schema? && Meets(Unchanged, Exactly(n), v, s, c)
    ensures Repairable(v, s, c) && Repair(n, v, s, c) == v
    decreases v, 2
  {
    MetIsFixed(n, v, Resolve(s, c), c);
  }

  lemma {:induction false} FixedIsMet(n: string, v: Value, t: Schema, c: Components)
    requires t.Schema? && RepairableAt(v, t, c) && RepairAt(n, v, t, c) == v
    ensures MeetsAt(Unchanged, Exactly(n), v, t, c)
    decreases v, 1
  {
    hide Resolve, Infer, Inferable, AddMissing;
    match BranchOf(v, t)
    case Items =>
      forall i | 0 <= i < |v.items| ensures Meets(Unchanged, Exactly(n + "_item"), v.items[i], t.items.value, c) {
        VisitsShallower(v, t, c, v.items[i], t.items.value);
        assert RepairAt(n, v, t, c).items[i] == v.items[i];
        FixedHere(n + "_item", v.items[i], t.items.value, c);
      }
    case Properties =>
      FixedPropertiesMet(n, v, t, c);
    case Additional =>
      forall i | 0 <= i < |v.entries|
        ensures Meets(Unchanged, Exactly(v.entries[i].key), v.entries[i].value, t.additional, c)
      {
        var e := v.entries[i];
        VisitsShallower(v, t, c, e.value, t.additional);
        assert RepairAt(n, v, t, c).entries[i] == e;
        FixedHere(e.key, e.value, t.additional, c);
      }
    case Scalar =>
  }

  lemma {:induction false} FixedPropertiesMet(n: string, v: Value, t: Schema, c: Components)
    requires t.Schema? && RepairableAt(v, t, c) && RepairAt(n, v, t, c) == v && BranchOf(v, t) == Properties
    ensures MeetsAt(Unchanged, Exactly(n), v, t, c)
    decreases v, 0
  {
    hide Resolve, Infer, Inferable, AddMissing;
    RepairAtProperties(n, v, t, c);
    var full := AddMissing(v.entries, t.required, t, c);
    AddMissingComplete(v.entries, t.required, t, c);
    assert |full| == |v.entries| && v.entries <= full;
    assert full == v.entries;
    forall i | 0 <= i < |v.entries| && Property(t, v.entries[i].key).Schema?
      ensures Meets(Unchanged, Exactly(v.entries[i].key), v.entries[i].value, Property(t, v.entries[i].key), c)
    {
      var e := v.entries[i];
      assert e < v;
      assert RepairExisting(full, t, c)[i] == RepairEntry(e, t, c) == e;
      FixedHere(e.key, e.value, Property(t, e.key), c);
    }
  }

  lemma {:induction false} FixedHere(n: string, v: Value, s: Schema, c: Components)
    requires s.Schema? && Repairable(v, s, c) && Repair(n, v, s, c) == v
    ensures Meets(Unchanged, Exactly(n), v, s, c)
    decreases v, 2
  {
    FixedIsMet(n, v, Resolve(s, c), c);
  }

  /** The demand is exact: it holds of the values that repair returns for and leaves as they are. */
  lemma UnchangedIff(n: string, v: Value, s: Schema, c: Components)
    requires s.Schema?
    ensures Meets(Unchanged, Exactly(n), v, s, c) <==> Repairable(v, s, c) && Repair(n, v, s, c) == v
  {
    if Meets(Unchanged, Exactly(n), v, s, c) {
      MetHere(n, v, s, c);
    } else if Repairable(v, s, c) && Repair(n, v, s, c) == v {
      FixedHere(n, v, s, c);
    }
  }

  // ---------------------------------------------------------------- demands on a schema

  /** What repair falls back to under `t` meets the demand. A constant, an enum value or a referenced model is the same
      under every name, so that the names matter for it only where it violates a scalar rule. */
  ghost predicate DefaultMeets(demand: Demand, names: Names, t: Schema, c: Components)
    requires t.Schema? && Inferable(t, c)
  {
    if HasDefault(t) || RefersToModel(t, c) then MeetsAt(demand, names, Infer("", t, c), t, c)
    else forall n :: Under(n, names) ==> MeetsAt(demand, Exactly(n), Infer(n, t, c), t, c)
  }

  /** A check on the schema alone, down to depth `d`: wherever repair may put the inferred example, that example meets
      the demand. */
  ghost predicate ReadyWithin(d: nat, demand: Demand, names: Names, s: Schema, c: Components)
    requires s.Schema?
    decreases d, 1
  {
    ReadyAt(d, demand, names, Resolve(s, c), c)
  }

  ghost predicate ReadyAt(d: nat, demand: Demand, names: Names, t: Schema, c: Components)
    requires t.Schema?
    decreases d, 0
  {
    && (Replaces(t) && Inferable(t, c) ==> DefaultMeets(demand, names, t, c))
    && (d > 0 ==> ReadyInside(d, demand, names, t, c))
  }

  /** The other required properties can be filled, so that some object with `key` can be repaired. */
  ghost predicate OthersFill(key: string, t: Schema, c: Components)
    requires t.Schema? && t.properties.Table?
  {
    forall k :: k in t.required && k != key && Property(t, k).Schema? ==> Fills(Property(t, k), c)
  }

  ghost predicate ReadyInside(d: nat, demand: Demand, names: Names, t: Schema, c: Components)
    requires t.Schema? && d > 0
    decreases d - 1, 2
  {
    && (t.kind == Some("array") && t.items.Some? && t.items.value.Schema? ==>
          ReadyWithin(d - 1, demand, ItemNames(names), t.items.value, c))
    && (t.properties.Table? ==>
          forall key :: Property(t, key).Schema? && OthersFill(key, t, c) ==>
            ReadyWithin(d - 1, demand, Exactly(key), Property(t, key), c))
    && (!t.properties.Table? && t.kind == Some("object") && t.additional.Schema? ==>
          ReadyWithin(d - 1, demand, Any(""), t.additional, c))
  }

  /** The check at every depth. Schemas may refer to each other in cycles. */
  ghost predicate Ready(demand: Demand, names: Names, s: Schema, c: Components)
    requires s.Schema?
  {
    forall d: nat :: ReadyWithin(d, demand, names, s, c)
  }

  lemma ItemNamesUnder(names: Names, m: string)
    ensures Under(m, ItemNames(names)) <==> exists n :: Under(n, names) && m == n + "_item"
  {
    match names
    case Exactly(name) =>
      assert Under(name, names);
    case Any(suffix) =>
      if Under(m, ItemNames(names)) {
        var n, tail := m[..|m| - 5], m[|m| - |suffix| - 5..];
        assert tail == suffix + "_item";
        assert m[|m| - 5..] == tail[|suffix|..] == "_item";
        assert m == n + "_item";
        assert n[|n| - |suffix|..] == tail[..|suffix|] == suffix;
        assert Under(n, names);
      }
      forall n | Under(n, names) && m == n + "_item" ensures Under(m, ItemNames(names)) {
        assert m[|m| - |suffix| - 5..] == n[|n| - |suffix|..] + "_item";
      }
  }

  lemma SomeName(names: Names) returns (n: string)
    ensures Under(n, names)
  {
    n := match names case Exactly(name) => name case Any(suffix) => suffix;
  }

  /** The demand under several names is the demand under each of them. */
  lemma {:induction false} MeetsEachIff(demand: Demand, names: Names, v: Value, t: Schema, c: Components)
    requires t.Schema?
    ensures MeetsAt(demand, names, v, t, c) <==> forall n :: Under(n, names) ==> MeetsAt(demand, Exactly(n), v, t, c)
    decreases v
  {
    var some := SomeName(names);
    hide Violates, IsDefault, Infer, Resolve;
    match BranchOf(v, t)
    case Items =>
      MeetsEachItemIff(demand, names, v, t, c);
    case Properties =>
      assert forall n :: MeetsAt(demand, Exactly(n), v, t, c) == MeetsAt(demand, names, v, t, c);
    case Additional =>
      assert forall n :: MeetsAt(demand, Exactly(n), v, t, c) == MeetsAt(demand, names, v, t, c);
    case Scalar =>
      MeetsEachScalarIff(demand, names, v, t, c);
  }

  lemma MeetsEachScalarIff(demand: Demand, names: Names, v: Value, t: Schema, c: Components)
    requires t.Schema? && BranchOf(v, t) == Scalar
    ensures MeetsAt(demand, names, v, t, c) <==> forall n :: Under(n, names) ==> MeetsAt(demand, Exactly(n), v, t, c)
  {
    hide Infer, Inferable, Violates;
    var some := SomeName(names);
    forall n
      ensures MeetsAt(demand, Exactly(n), v, t, c) <==>
        (Violates(v, t) ==> demand == Unchanged && Inferable(t, c) && Infer(n, t, c) == v)
    {
      assert Under(n, Exactly(n));
    }
    assert MeetsAt(demand, names, v, t, c) <==> (Violates(v, t) ==> demand == Unchanged && IsDefault(names, v, t, c));
    hide MeetsAt;
  }

  lemma {:induction false} MeetsEachItemIff(demand: Demand, names: Names, v: Value, t: Schema, c: Components)
    requires t.Schema? && BranchOf(v, t) == Items
    ensures MeetsAt(demand, names, v, t, c) <==> forall n :: Under(n, names) ==> MeetsAt(demand, Exactly(n), v, t, c)
    decreases v, 0
  {
    var p := t.items.value;
    forall i | 0 <= i < |v.items|
      ensures Meets(demand, ItemNames(names), v.items[i], p, c)
         <==> forall n :: Under(n, names) ==> Meets(demand, Exactly(n + "_item"), v.items[i], p, c)
    {
      MeetsEachIff(demand, ItemNames(names), v.items[i], Resolve(p, c), c);
      hide MeetsAt, Resolve;
      forall m ensures Under(m, ItemNames(names)) <==> exists n :: Under(n, names) && m == n + "_item" {
        ItemNamesUnder(names, m);
      }
      forall n | Under(n, names) ensures Under(n + "_item", ItemNames(names)) {
        ItemNamesUnder(names, n + "_item");
      }
    }
    hide Resolve;
    forall n | Under(n, names)
      ensures MeetsAt(demand, Exactly(n), v, t, c) <==>
          forall i :: 0 <= i < |v.items| ==> Meets(demand, Exactly(n + "_item"), v.items[i], p, c)
    {
      assert ItemNames(Exactly(n)) == Exactly(n + "_item");
    }
  }

  // ---------------------------------------------------------------- a ready schema is enough

  lemma {:induction false} ReadyMeets(demand: Demand, names: Names, n: string, ex: Value, s: Schema, c: Components)
    requires s.Schema? && Ready(demand, names, s, c) && Under(n, names) && Repairable(ex, s, c)
    ensures Meets(demand, Exactly(n), Repair(n, ex, s, c), s, c)
    decreases RepairDepth(ex, Resolve(s, c), c), 3
  {
    forall d: nat ensures ReadyAt(d, demand, names, Resolve(s, c), c) {
      assert ReadyWithin(d, demand, names, s, c);
    }
    ReadyAtMeets(demand, names, n, ex, Resolve(s, c), c);
  }

  lemma {:induction false} ReadyAtMeets(demand: Demand, names: Names, n: string, ex: Value, t: Schema, c: Components)
    requires t.Schema? && (forall d: nat :: ReadyAt(d, demand, names, t, c)) && Under(n, names)
    requires RepairableAt(ex, t, c)
    ensures MeetsAt(demand, Exactly(n), RepairAt(n, ex, t, c), t, c)
    decreases RepairDepth(ex, t, c), 2
  {
    hide Resolve, Infer, Inferable, AddMissing, RepairAtReturns;
    var r := RepairAt(n, ex, t, c);
    match BranchOf(ex, t)
    case Items =>
      ItemNamesUnder(names, n + "_item");
      ReadyInsideAlways(demand, names, t, c);
      forall i | 0 <= i < |r.items| ensures Meets(demand, Exactly(n + "_item"), r.items[i], t.items.value, c) {
        VisitsShallower(ex, t, c, ex.items[i], t.items.value);
        ReadyMeets(demand, ItemNames(names), n + "_item", ex.items[i], t.items.value, c);
      }
    case Properties =>
      ReadyPropertiesMeet(demand, names, n, ex, t, c);
    case Additional =>
      ReadyInsideAlways(demand, names, t, c);
      forall i | 0 <= i < |r.entries|
        ensures Meets(demand, Exactly(r.entries[i].key), r.entries[i].value, t.additional, c)
      {
        var e := ex.entries[i];
        VisitsShallower(ex, t, c, e.value, t.additional);
        ReadyMeets(demand, Any(""), e.key, e.value, t.additional, c);
      }
    case Scalar =>
      if Violates(ex, t) {
        assert ReadyAt(0, demand, names, t, c);
        ReplacedInferable(ex, t, c);
        DefaultMeetsName(demand, names, n, t, c);
      }
  }

  lemma ReadyInsideAlways(demand: Demand, names: Names, t: Schema, c: Components)
    requires t.Schema? && forall d: nat :: ReadyAt(d, demand, names, t, c)
    ensures t.kind == Some("array") && t.items.Some? && t.items.value.Schema? ==>
        Ready(demand, ItemNames(names), t.items.value, c)
    ensures t.properties.Table? ==>
      forall key :: Property(t, key).Schema? && OthersFill(key, t, c) ==>
          Ready(demand, Exactly(key), Property(t, key), c)
    ensures !t.properties.Table? && t.kind == Some("object") && t.additional.Schema? ==>
        Ready(demand, Any(""), t.additional, c)
  {
    forall d: nat ensures ReadyParts(d, demand, names, t, c) {
      ReadyInsideAt(d, demand, names, t, c);
    }
    hide ReadyAt, ReadyWithin;
    if t.properties.Table? {
      forall key, d: nat | Property(t, key).Schema? && OthersFill(key, t, c)
        ensures ReadyWithin(d, demand, Exactly(key), Property(t, key), c) {
        assert ReadyParts(d, demand, names, t, c);
      }
    }
    forall d: nat | t.kind == Some("array") && t.items.Some? && t.items.value.Schema?
      ensures ReadyWithin(d, demand, ItemNames(names), t.items.value, c)
    {
      assert ReadyParts(d, demand, names, t, c);
    }
    forall d: nat | !t.properties.Table? && t.kind == Some("object") && t.additional.Schema?
      ensures ReadyWithin(d, demand, Any(""), t.additional, c)
    {
      assert ReadyParts(d, demand, names, t, c);
    }
  }

  /** What `ReadyInside` says at depth `d + 1`, by the depth of the parts. */
  ghost predicate ReadyParts(d: nat, demand: Demand, names: Names, t: Schema, c: Components)
    requires t.Schema?
  {
    && (t.kind == Some("array") && t.items.Some? && t.items.value.Schema? ==>
        ReadyWithin(d, demand, ItemNames(names), t.items.value, c))
    && (t.properties.Table? ==>
          forall key :: Property(t, key).Schema? && OthersFill(key, t, c) ==>
            ReadyWithin(d, demand, Exactly(key), Property(t, key), c))
    && (!t.properties.Table? && t.kind == Some("object") && t.additional.Schema? ==>
        ReadyWithin(d, demand, Any(""), t.additional, c))
  }

  lemma ReadyInsideAt(d: nat, demand: Demand, names: Names, t: Schema, c: Components)
    requires t.Schema? && ReadyAt(d + 1, demand, names, t, c)
    ensures ReadyParts(d, demand, names, t, c)
  {
    hide ReadyWithin, DefaultMeets;
    assert ReadyInside(d + 1, demand, names, t, c);
  }

  lemma DefaultMeetsName(demand: Demand, names: Names, n: string, t: Schema, c: Components)
    requires t.Schema? && Inferable(t, c) && DefaultMeets(demand, names, t, c) && Under(n, names)
    ensures MeetsAt(demand, Exactly(n), Infer(n, t, c), t, c)
  {
    if HasDefault(t) || RefersToModel(t, c) {
      assert Infer("", t, c) == Infer(n, t, c);
      hide MeetsAt;
      MeetsEachIff(demand, names, Infer("", t, c), t, c);
    }
  }

  lemma {:induction false} ReadyPropertiesMeet(demand: Demand, names: Names, n: string, ex: Value, t: Schema,
                                               c: Components)
    requires t.Schema? && (forall d: nat :: ReadyAt(d, demand, names, t, c)) && RepairableAt(ex, t, c)
    requires BranchOf(ex, t) == Properties
    ensures MeetsAt(demand, Exactly(n), RepairAt(n, ex, t, c), t, c)
    decreases RepairDepth(ex, t, c), 1
  {
    hide Resolve, Infer, Inferable, AddMissing, RepairAtReturns;
    RepairAtProperties(n, ex, t, c);
    ReadyInsideAlways(demand, names, t, c);
    AddMissingComplete(ex.entries, t.required, t, c);
    var full := AddMissing(ex.entries, t.required, t, c);
    var r := RepairExisting(full, t, c);
    forall k | k in t.required && Property(t, k).Schema? ensures HasKey(r, k) {
    }
    forall i | 0 <= i < |r| && Property(t, r[i].key).Schema?
      ensures Meets(demand, Exactly(r[i].key), r[i].value, Property(t, r[i].key), c)
    {
      var e := full[i];
      assert r[i] == RepairEntry(e, t, c);
      VisitsShallower(ex, t, c, e.value, Property(t, e.key));
      CompleteFills(full, t, c);
      ReadyMeets(demand, Exactly(e.key), e.key, e.value, Property(t, e.key), c);
    }
  }

  /** Whatever can be repaired has an example for each required property. */
  lemma CompleteFills(full: seq<Entry<Value>>, t: Schema, c: Components)
    requires t.Schema? && t.properties.Table? && EntriesRepairable(full, t, c)
    requires forall k :: k in t.required && Property(t, k).Schema? ==> HasKey(full, k)
    ensures forall key :: OthersFill(key, t, c)
  {
    hide Repairable, Fills;
    forall k | k in t.required && Property(t, k).Schema? ensures Fills(Property(t, k), c) {
      var i :| 0 <= i < |full| && full[i].key == k;
      assert Repairable(full[i].value, Property(t, k), c);
      FillsIff(Property(t, k), c);
    }
  }

  // ---------------------------------------------------------------- and necessary

  lemma DefaultFails(demand: Demand, names: Names, t: Schema, c: Components) returns (n: string)
    requires t.Schema? && Inferable(t, c) && !DefaultMeets(demand, names, t, c)
    ensures Under(n, names) && !MeetsAt(demand, Exactly(n), Infer(n, t, c), t, c)
  {
    if HasDefault(t) || RefersToModel(t, c) {
      MeetsEachIff(demand, names, Infer("", t, c), t, c);
      hide MeetsAt;
      n :| Under(n, names) && !MeetsAt(demand, Exactly(n), Infer("", t, c), t, c);
      assert Infer(n, t, c) == Infer("", t, c);
    } else {
      n :| Under(n, names) && !MeetsAt(demand, Exactly(n), Infer(n, t, c), t, c);
    }
  }

  /** `ex` can be repaired, and fails the demand when it is. */
  ghost predicate Fails(demand: Demand, n: string, ex: Value, t: Schema, c: Components)
    requires t.Schema?
  {
    RepairableAt(ex, t, c) && !MeetsAt(demand, Exactly(n), RepairAt(n, ex, t, c), t, c)
  }

  /** On a schema that is not ready some example, under some of the names, is repaired to one that fails the demand. */
  lemma {:induction false} UnreadyFails(d: nat, demand: Demand, names: Names, t: Schema, c: Components)
        returns (n: string, ex: Value)
    requires t.Schema? && !ReadyAt(d, demand, names, t, c)
    ensures Under(n, names) && Fails(demand, n, ex, t, c)
    decreases d, 1
  {
    hide Fails, Infer, DefaultMeets, ReadyWithin;
    if Replaces(t) && Inferable(t, c) && !DefaultMeets(demand, names, t, c) {
      n, ex := UnreadyDefaultFails(demand, names, t, c);
    } else if t.kind == Some("array") && t.items.Some? && t.items.value.Schema?
              && !ReadyWithin(d - 1, demand, ItemNames(names), t.items.value, c) {
      n, ex := UnreadyItemFails(d, demand, names, t, c);
    } else {
      n := SomeName(names);
      if t.properties.Table? {
        var key :| Property(t, key).Schema? && OthersFill(key, t, c)
                   && !ReadyWithin(d - 1, demand, Exactly(key), Property(t, key), c);
        ex := UnreadyPropertyFails(d, demand, n, key, t, c);
      } else {
        ex := UnreadyAdditionalFails(d, demand, n, t, c);
      }
    }
  }

  lemma UnreadyDefaultFails(demand: Demand, names: Names, t: Schema, c: Components) returns (n: string, ex: Value)
    requires t.Schema? && Replaces(t) && Inferable(t, c) && !DefaultMeets(demand, names, t, c)
    ensures Under(n, names) && Fails(demand, n, ex, t, c)
  {
    n := DefaultFails(demand, names, t, c);
    ex := ReplacedExample(t);
    ScalarRepairable(ex, t, c);
    assert RepairAt(n, ex, t, c) == Infer(n, t, c);
  }

  lemma {:induction false} UnreadyItemFails(d: nat, demand: Demand, names: Names, t: Schema, c: Components)
        returns (n: string, ex: Value)
    requires t.Schema? && t.kind == Some("array") && t.items.Some? && t.items.value.Schema? && d > 0
    requires !ReadyWithin(d - 1, demand, ItemNames(names), t.items.value, c)
    ensures Under(n, names) && Fails(demand, n, ex, t, c)
    decreases d, 0
  {
    hide Fails, Infer, ReadyAt, Resolve;
    var m, item := UnreadyFails(d - 1, demand, ItemNames(names), Resolve(t.items.value, c), c);
    ItemNamesUnder(names, m);
    n :| Under(n, names) && m == n + "_item";
    ex := Arr([item]);
    ItemFails(demand, n, item, t, c);
  }

  lemma {:induction false} UnreadyPropertyFails(d: nat, demand: Demand, n: string, key: string, t: Schema,
                                                c: Components) returns (ex: Value)
    requires t.Schema? && t.properties.Table? && Property(t, key).Schema? && OthersFill(key, t, c) && d > 0
    requires !ReadyWithin(d - 1, demand, Exactly(key), Property(t, key), c)
    ensures Fails(demand, n, ex, t, c)
    decreases d, 0
  {
    hide Fails, Infer, ReadyAt, Resolve;
    var m, value := UnreadyFails(d - 1, demand, Exactly(key), Resolve(Property(t, key), c), c);
    ex := PropertyFails(demand, n, key, value, t, c);
  }

  lemma {:induction false} UnreadyAdditionalFails(d: nat, demand: Demand, n: string, t: Schema, c: Components)
        returns (ex: Value)
    requires t.Schema? && !t.properties.Table? && t.kind == Some("object") && t.additional.Schema? && d > 0
    requires !ReadyWithin(d - 1, demand, Any(""), t.additional, c)
    ensures Fails(demand, n, ex, t, c)
    decreases d, 0
  {
    hide Fails, Infer, ReadyAt, Resolve;
    var key, value := UnreadyFails(d - 1, demand, Any(""), Resolve(t.additional, c), c);
    ex := Obj([Entry(key, value)]);
    AdditionalFails(demand, n, key, value, t, c);
  }

  lemma ItemFails(demand: Demand, n: string, item: Value, t: Schema, c: Components)
    requires t.Schema? && t.kind == Some("array") && t.items.Some? && t.items.value.Schema?
    requires Fails(demand, n + "_item", item, Resolve(t.items.value, c), c)
    ensures Fails(demand, n, Arr([item]), t, c)
  {
    hide Resolve, Infer, RepairAtReturns, RepairableAt;
    RepairableFromVisits(Arr([item]), t, c);
    var r := RepairAt(n, Arr([item]), t, c);
    assert r.items[0] == Repair(n + "_item", item, t.items.value, c);
    assert !Meets(demand, ItemNames(Exactly(n)), r.items[0], t.items.value, c);
  }

  lemma AdditionalFails(demand: Demand, n: string, key: string, value: Value, t: Schema, c: Components)
    requires t.Schema? && !t.properties.Table? && t.kind == Some("object") && t.additional.Schema?
    requires Fails(demand, key, value, Resolve(t.additional, c), c)
    ensures Fails(demand, n, Obj([Entry(key, value)]), t, c)
  {
    hide Resolve, Infer, RepairAtReturns, RepairableAt;
    RepairableFromVisits(Obj([Entry(key, value)]), t, c);
    var r := RepairAt(n, Obj([Entry(key, value)]), t, c);
    assert r.entries[0] == Entry(key, Repair(key, value, t.additional, c));
    assert !Meets(demand, Exactly(key), r.entries[0].value, t.additional, c);
  }

  /** The failing value in an object whose other required properties are filled. */
  lemma PropertyFails(demand: Demand, n: string, key: string, value: Value, t: Schema, c: Components)
        returns (ex: Value)
    requires t.Schema? && t.properties.Table? && Property(t, key).Schema? && OthersFill(key, t, c)
    requires Fails(demand, key, value, Resolve(Property(t, key), c), c)
    ensures Fails(demand, n, ex, t, c)
  {
    hide Resolve, Infer, Inferable, RepairAtReturns, RepairableAt, AddMissing, Fills;
    var e := Entry(key, value);
    assert [e][0].key == key;
    forall k | k in t.required && !HasKey([e], k) && Property(t, k).Schema? ensures HasExample(Property(t, k), c) {
      FillsIff(Property(t, k), c);
    }
    assert Repairable(value, Property(t, key), c);
    var full := FillRequired([e], t.required, t, c);
    ex := Obj(full);
    ObjectRepairable(full, t, c);
    RepairAtProperties(n, ex, t, c);
    var r := RepairExisting(full, t, c);
    assert full[0] == e;
    assert r[0] == RepairEntry(e, t, c) == Entry(key, Repair(key, value, Property(t, key), c));
    assert !Meets(demand, Exactly(key), r[0].value, Property(t, key), c);
  }

  // ---------------------------------------------------------------- the exact conditions

  /** Every example for which repair returns comes out as demanded. */
  ghost predicate AlwaysMeets(demand: Demand, name: string, s: Schema, c: Components)
    requires s.Schema?
  {
    forall ex :: Repairable(ex, s, c) ==> Meets(demand, Exactly(name), Repair(name, ex, s, c), s, c)
  }

  /** Each example comes out as demanded exactly when the schema is ready. */
  lemma MeetsIffReady(demand: Demand, name: string, s: Schema, c: Components)
    requires s.Schema?
    ensures AlwaysMeets(demand, name, s, c) <==> Ready(demand, Exactly(name), s, c)
  {
    if Ready(demand, Exactly(name), s, c) {
      forall ex | Repairable(ex, s, c) ensures Meets(demand, Exactly(name), Repair(name, ex, s, c), s, c) {
        ReadyMeets(demand, Exactly(name), name, ex, s, c);
      }
    } else {
      var d: nat :| !ReadyWithin(d, demand, Exactly(name), s, c);
      var n, ex := UnreadyFails(d, demand, Exactly(name), Resolve(s, c), c);
      assert Repairable(ex, s, c) && !Meets(demand, Exactly(name), Repair(name, ex, s, c), s, c);
    }
  }

  /** Repairing the repaired example returns and changes nothing. */
  ghost predicate Stable(name: string, ex: Value, s: Schema, c: Components)
    requires s.Schema? && Repairable(ex, s, c)
  {
    var once := Repair(name, ex, s, c);
    Repairable(once, s, c) && Repair(name, once, s, c) == once
  }

  ghost predicate Idempotent(name: string, s: Schema, c: Components)
    requires s.Schema?
  {
    forall ex :: Repairable(ex, s, c) ==> Stable(name, ex, s, c)
  }

  /** Exactly when repair is idempotent. */
  lemma IdempotentIffReady(name: string, s: Schema, c: Components)
    requires s.Schema?
    ensures Idempotent(name, s, c) <==> Ready(Unchanged, Exactly(name), s, c)
  {
    MeetsIffReady(Unchanged, name, s, c);
    hide Ready, Meets, Repair, Repairable, Stable;
    forall ex | Repairable(ex, s, c)
      ensures Stable(name, ex, s, c) <==> Meets(Unchanged, Exactly(name), Repair(name, ex, s, c), s, c)
    {
      StableIff(name, ex, s, c);
    }
  }

  lemma StableIff(name: string, ex: Value, s: Schema, c: Components)
    requires s.Schema? && Repairable(ex, s, c)
    ensures Stable(name, ex, s, c) <==> Meets(Unchanged, Exactly(name), Repair(name, ex, s, c), s, c)
  {
    UnchangedIff(name, Repair(name, ex, s, c), s, c);
  }

  /** On a ready schema repair is idempotent wherever it returns. */
  lemma ReadyIsStable(name: string, ex: Value, s: Schema, c: Components)
    requires s.Schema? && Ready(Unchanged, Exactly(name), s, c) && Repairable(ex, s, c)
    ensures Stable(name, ex, s, c)
  {
    ReadyMeets(Unchanged, Exactly(name), name, ex, s, c);
    StableIff(name, ex, s, c);
  }

  /** Where every example comes out conforming, repair is idempotent and its fixed points are the conforming
      examples. */
  lemma ConformingFixedPoints(name: string, ex: Value, s: Schema, c: Components)
    requires s.Schema? && Ready(Conforming, Exactly(name), s, c) && Repairable(ex, s, c)
    ensures Stable(name, ex, s, c)
    ensures Repair(name, ex, s, c) == ex <==> Meets(Conforming, Exactly(name), ex, s, c)
  {
    var once := Repair(name, ex, s, c);
    ReadyMeets(Conforming, Exactly(name), name, ex, s, c);
    ConformingIsUnchanged(Exactly(name), once, s, c);
    UnchangedIff(name, once, s, c);
    if Meets(Conforming, Exactly(name), ex, s, c) {
      ConformingIsUnchanged(Exactly(name), ex, s, c);
      UnchangedIff(name, ex, s, c);
    }
  }
}
