/** Which schemas are ready: what inference puts where repair replaces an example or adds one. */
module RepairDefaults {
  import opened Common
  import opened Json
  import opened SchemaExamples
  import opened RepairTermination
  import opened RepairOutcome
  import Text

  // ---------------------------------------------------------------- well-declared documents

  predicate IsScalar(v: Value) {
    !v.Arr? && !v.Obj?
  }

  /** The value repair falls back to is declared to be a scalar: a scalar `const`, else a scalar first `enum`
      value, else a scalar type that no reference or composite overrides. */
  predicate ScalarDefault(t: Schema)
    requires t.Schema?
  {
    if t.constant != Null then IsScalar(t.constant)
    else if t.enumeration != [] && t.enumeration[0] != Null then IsScalar(t.enumeration[0])
    else (
      && t.ref.None? && t.allOf == [] && t.anyOf == [] && t.oneOf == []
      && (t.kind == Some("string") || t.kind == Some("integer")))
  }

  /** Every schema inside `s` that repair may replace an example under has a scalar default. */
  ghost predicate WellDeclared(s: Schema) {
    s.Schema? ==>
      && (Replaces(s) ==> ScalarDefault(s))
      && forall p | IsPart(p, s) :: (PartsSmaller(s); WellDeclared(p))
  }

  lemma {:induction false} ResolveWellDeclared(s: Schema, c: Components)
    requires s.Schema? && WellDeclared(s) && forall m :: m in c ==> WellDeclared(c[m])
    ensures WellDeclared(Resolve(s, c))
    decreases s
  {
    if s.ref.Some? && Referent(s.ref.value) in c && c[Referent(s.ref.value)].Schema? {
    } else if Candidate(s).Schema? {
      PartsSmaller(s);
      assert IsPart(Candidate(s), s);
      ResolveWellDeclared(Candidate(s), c);
    }
  }

  /** Repair leaves a scalar default as it is, under every name. */
  lemma ScalarDefaultUnchanged(names: Names, t: Schema, c: Components)
    requires t.Schema? && Inferable(t, c) && ScalarDefault(t)
    ensures DefaultMeets(Unchanged, names, t, c)
  {
    forall n ensures IsScalar(Infer(n, t, c)) {
      if !HasDefault(t) {
        assert IsScalar(InferTyped(n, t, c));
      }
    }
  }

  /** Documents whose `const` and `enum` values are scalars wherever a scalar is declared repair idempotently. */
  lemma {:induction false} WellDeclaredIsReady(d: nat, names: Names, s: Schema, c: Components)
    requires s.Schema? && WellDeclared(s) && forall m :: m in c ==> WellDeclared(c[m])
    ensures ReadyWithin(d, Unchanged, names, s, c)
    decreases d, 1
  {
    ResolveWellDeclared(s, c);
    WellDeclaredIsReadyAt(d, names, Resolve(s, c), c);
  }

  lemma {:induction false} WellDeclaredIsReadyAt(d: nat, names: Names, t: Schema, c: Components)
    requires t.Schema? && WellDeclared(t) && forall m :: m in c ==> WellDeclared(c[m])
    ensures ReadyAt(d, Unchanged, names, t, c)
    decreases d, 0
  {
    hide Resolve, Infer, Inferable, DefaultMeets, ReadyWithin;
    PartsSmaller(t);
    if Replaces(t) && Inferable(t, c) {
      ScalarDefaultUnchanged(names, t, c);
    }
    if d > 0 {
      if t.items.Some? && t.items.value.Schema? {
        assert IsPart(t.items.value, t);
        WellDeclaredIsReady(d - 1, ItemNames(names), t.items.value, c);
      }
      if t.properties.Table? {
        forall key | Property(t, key).Schema? ensures ReadyWithin(d - 1, Unchanged, Exactly(key), Property(t, key), c) {
          WellDeclaredIsReady(d - 1, Exactly(key), Property(t, key), c);
        }
      }
      if t.additional.Schema? {
        assert IsPart(t.additional, t);
        WellDeclaredIsReady(d - 1, Any(""), t.additional, c);
      }
      assert ReadyInside(d, Unchanged, names, t, c);
    }
  }

  // ---------------------------------------------------------------- a schema that is not ready

  const BLANK: Schema := Schema(Null, [], None, [], [], [], None, None, NotATable, [], NotASchema, None, None, None,
      None, Null, None)

  /** An array of strings whose only enum value is an array of integers. */
  const MISTYPED_ENUM: Schema :=
    BLANK.(kind := Some("array"), enumeration := [Arr([Int(1)])], items := Some(BLANK.(kind := Some("string"))))

  /** Repair is not idempotent on every document: a scalar becomes the enum's array, and then its items change. */
  lemma MistypedEnumRepairsTwice(name: string, c: Components)
    ensures Repairable(Str(""), MISTYPED_ENUM, c) && !Stable(name, Str(""), MISTYPED_ENUM, c)
  {
    var s := MISTYPED_ENUM;
    assert !InEnum(Str(""), s.enumeration);
    assert Continues(s, c) == [] && InferReturns(1, s, c);
    assert RepairAtReturns(0, Str(""), s, c);
    assert Repair(name, Str(""), s, c) == Arr([Int(1)]);
    IntegerItemNotKept(name, c);
    StableIff(name, Str(""), s, c);
  }

  lemma IntegerItemNotKept(name: string, c: Components)
    ensures !Meets(Unchanged, Exactly(name), Arr([Int(1)]), MISTYPED_ENUM, c)
  {
    var v, s, items := Arr([Int(1)]), MISTYPED_ENUM, MISTYPED_ENUM.items.value;
    IntegerNotString(name + "_item", items, c);
    assert Resolve(s, c) == s && BranchOf(v, s) == Items && s.items.value == items;
    hide Meets, Resolve, Infer;
    assert !Meets(Unchanged, ItemNames(Exactly(name)), v.items[0], items, c);
    assert !MeetsAt(Unchanged, Exactly(name), v, s, c);
    assert Meets(Unchanged, Exactly(name), v, s, c) == MeetsAt(Unchanged, Exactly(name), v, Resolve(s, c), c) by {
      MeetsIsAt(Unchanged, Exactly(name), v, s, c);
    }
  }

  lemma MeetsIsAt(demand: Demand, names: Names, v: Value, s: Schema, c: Components)
    requires s.Schema?
    ensures Meets(demand, names, v, s, c) == MeetsAt(demand, names, v, Resolve(s, c), c)
  {
    hide MeetsAt, Resolve;
  }

  lemma IntegerNotString(name: string, s: Schema, c: Components)
    requires s == BLANK.(kind := Some("string"))
    ensures !Meets(Unchanged, Exactly(name), Int(1), s, c)
  {
    hide StringExample;
    assert Continues(s, c) == [] && InferReturns(1, s, c) && Resolve(s, c) == s;
    assert Under(name, Exactly(name));
    assert Infer(name, s, c).Str?;
    assert !MeetsAt(Unchanged, Exactly(name), Int(1), s, c);
  }

  // ---------------------------------------------------------------- scalars

  /** Exactly when the inferred integer respects the declared maximum. A maximum of at most 10 fails only below the
      minimum, or negative and fractional; a larger one fails only for names about hours, below 24. */
  lemma IntegerExampleFitsIff(name: string, s: Schema)
    requires s.Schema? && s.maximum.Some?
    ensures IntegerExample(name, s) as real <= s.maximum.value <==>
      var key, maximum := Snake(name), s.maximum.value;
      if maximum <= 10.0 then
        && (if s.minimum.Some? then Truncate(s.minimum.value) else 1) as real <= maximum
        && (maximum >= 0.0 || maximum == maximum.Floor as real)
      else (Text.Contains(key, "ttl") || Text.Contains(key, "hours")) ==> maximum >= 24.0
  {
    hide Snake, Text.Contains;
    BoundedFitsIff(if s.minimum.Some? then Truncate(s.minimum.value) else 1, s.maximum.value);
  }

  lemma BoundedFitsIff(lower: int, maximum: real)
    ensures Bounded(lower, Truncate(maximum)) as real <= maximum
       <==> lower as real <= maximum && (maximum >= 0.0 || maximum == maximum.Floor as real)
  {
    var upper := Truncate(maximum);
    TruncateFitsIff(maximum);
    var capped := if upper < 5 then upper else 5;
    assert capped as real <= maximum <==> upper as real <= maximum;
  }

  function Bounded(lower: int, upper: int): int {
    var capped := if upper < 5 then upper else 5;
    if lower > capped then lower else capped
  }

  lemma TruncateFitsIff(r: real)
    ensures Truncate(r) as real <= r <==> r >= 0.0 || r == r.Floor as real
    ensures r < 0.0 ==> Truncate(r) <= 0
  {
    if r < 0.0 {
      var up := (-r).Floor;
      assert (-up) as real == -(up as real);
      if r == r.Floor as real {
        WholeFloor(-r.Floor);
        assert (-r.Floor) as real == -r;
      } else if up as real == -r {
        WholeFloor(-up);
      }
    }
  }

  lemma WholeFloor(n: int)
    ensures (n as real).Floor == n
  {
  }

  /** A plain scalar schema: nothing but a type and bounds decides its example. */
  predicate PlainScalar(t: Schema)
    requires t.Schema?
  {
    && t.constant == Null && t.enumeration == [] && t.ref.None? && t.allOf == [] && t.anyOf == [] && t.oneOf == []
    && t.properties == NotATable && (t.kind == Some("string") || t.kind == Some("integer"))
  }

  /** A plain scalar schema makes every example conform exactly when its type is string, or its maximum is one the
      inferred integer meets. */
  lemma PlainScalarReadyIff(name: string, t: Schema, c: Components)
    requires t.Schema? && PlainScalar(t)
    ensures Ready(Conforming, Exactly(name), t, c) <==>
      (t.kind == Some("integer") && t.maximum.Some? ==> IntegerExample(name, t) as real <= t.maximum.value)
  {
    hide Snake, IntegerExample, StringExample;
    assert Resolve(t, c) == t && Continues(t, c) == [] && InferReturns(1, t, c);
    PlainDefaultIff(name, t, c);
    hide DefaultMeets, Resolve, Continues;
    forall d: nat ensures ReadyWithin(d, Conforming, Exactly(name), t, c) <==>
        DefaultMeets(Conforming, Exactly(name), t, c) {
      assert Replaces(t) && (d > 0 ==> ReadyInside(d, Conforming, Exactly(name), t, c));
    }
    assert ReadyWithin(0, Conforming, Exactly(name), t, c) <==> DefaultMeets(Conforming, Exactly(name), t, c);
    hide ReadyWithin;
  }

  lemma PlainDefaultIff(name: string, t: Schema, c: Components)
    requires t.Schema? && PlainScalar(t) && Inferable(t, c)
    ensures DefaultMeets(Conforming, Exactly(name), t, c) <==>
      (t.kind == Some("integer") && t.maximum.Some? ==> IntegerExample(name, t) as real <= t.maximum.value)
  {
    hide Snake, IntegerExample, StringExample;
    assert Infer(name, t, c) == ScalarExample(name, t);
    assert Under(name, Exactly(name));
  }

  function IntegerUpTo(minimum: Option<real>, maximum: real): Schema {
    BLANK.(kind := Some("integer"), minimum := minimum, maximum := Some(maximum))
  }

  /** An integer of at most zero, without a minimum: the inferred example is one. */
  lemma ZeroMaximumBreaks(name: string, c: Components)
    ensures !Ready(Conforming, Exactly(name), IntegerUpTo(None, 0.0), c)
    ensures !AlwaysMeets(Conforming, name, IntegerUpTo(None, 0.0), c)
  {
    IntegerUpToBreaks(name, None, 0.0, c);
  }

  /** An integer between -5 and -3.5: the maximum is truncated to -3, which exceeds it. */
  lemma FractionalMaximumBreaks(name: string, c: Components)
    ensures !AlwaysMeets(Conforming, name, IntegerUpTo(Some(-5.0), -3.5), c)
  {
    assert (-3.5).Floor == -4;
    IntegerUpToBreaks(name, Some(-5.0), -3.5, c);
  }

  /** A number of hours of at most 12: the inferred example is 24. */
  lemma HoursMaximumBreaks(c: Components)
    ensures !AlwaysMeets(Conforming, "hours", IntegerUpTo(None, 12.0), c)
  {
    assert Snake("hours") == "hours" && Text.OccursAt("hours", "hours", 0);
    IntegerUpToBreaks("hours", None, 12.0, c);
  }

  lemma IntegerUpToBreaks(name: string, minimum: Option<real>, maximum: real, c: Components)
    requires IntegerExample(name, IntegerUpTo(minimum, maximum)) as real > maximum
    ensures !Ready(Conforming, Exactly(name), IntegerUpTo(minimum, maximum), c)
    ensures !AlwaysMeets(Conforming, name, IntegerUpTo(minimum, maximum), c)
  {
    var t := IntegerUpTo(minimum, maximum);
    hide IntegerExample;
    PlainScalarReadyIff(name, t, c);
    MeetsIffReady(Conforming, name, t, c);
  }

  // ---------------------------------------------------------------- inferred objects

  /** The inferred object holds exactly the selected names that are declared, each once and with its own inferred
      value. */
  lemma {:induction false} PropertyExamplesAre(names: seq<string>, s: Schema, c: Components)
    requires s.Schema? && s.properties.Table? && AllInferable(Declared(names, s), c)
    ensures DistinctKeys(PropertyExamples(names, s, c))
    ensures forall k :: Find(PropertyExamples(names, s, c), k)
                     == if k in names && Property(s, k).Schema? then Some(Infer(k, Property(s, k), c)) else None
    decreases |names|
  {
    hide Infer, Inferable, AllInferable, Declared, Property, Put;
    if names != [] {
      var init, last := names[..|names| - 1], names[|names| - 1];
      DeclaredShallower(names, s, c);
      PropertyExamplesAre(init, s, c);
      if Property(s, last).Schema? {
        PutThenFind(PropertyExamples(init, s, c), last, Infer(last, Property(s, last), c));
      }
      SnocIn(names);
      hide DistinctKeys, Find;
    }
  }

  lemma SnocIn(names: seq<string>)
    requires names != []
    ensures forall k :: k in names <==> k in names[..|names| - 1] || k == names[|names| - 1]
  {
  }

  /** The example inferred for an object model conforms when those of its selected properties do: the required ones, or
      else the first three. */
  lemma ModelExampleConforms(model: string, s: Schema, c: Components)
    requires s.Schema? && s.properties.Table? && AllInferable(Declared(SelectedNames(s), s), c)
    requires exists k :: k in SelectedNames(s) && Property(s, k).Schema?
    requires forall k :: k in SelectedNames(s) && Property(s, k).Schema? ==>
      Meets(Conforming, Exactly(k), Infer(k, Property(s, k), c), Property(s, k), c)
    ensures MeetsAt(Conforming, Exactly(model), Obj(ObjectExample(model, s, c)), s, c)
  {
    hide Meets, MeetsAt, Infer, Inferable, AllInferable, PropertyExamples, Find, Property, Declared, HasKey;
    var names := SelectedNames(s);
    var example := PropertyExamples(names, s, c);
    PropertyExamplesAre(names, s, c);
    var declared :| declared in names && Property(s, declared).Schema?;
    assert Find(example, declared).Some?;
    assert example != [] && ObjectExample(model, s, c) == example;
    forall k | k in s.required && Property(s, k).Schema? ensures HasKey(example, k) {
      assert Find(example, k).Some?;
    }
    forall i | 0 <= i < |example| && Property(s, example[i].key).Schema?
      ensures Meets(Conforming, Exactly(example[i].key), example[i].value, Property(s, example[i].key), c)
    {
      FindAt(example, i);
    }
    ObjectMeets(Conforming, Exactly(model), example, s, c);
  }

  lemma ObjectMeets(demand: Demand, names: Names, entries: seq<Entry<Value>>, t: Schema, c: Components)
    requires t.Schema? && t.properties.Table?
    requires forall k :: k in t.required && Property(t, k).Schema? ==> HasKey(entries, k)
    requires forall i :: 0 <= i < |entries| && Property(t, entries[i].key).Schema? ==>
      Meets(demand, Exactly(entries[i].key), entries[i].value, Property(t, entries[i].key), c)
    ensures MeetsAt(demand, names, Obj(entries), t, c)
  {
    hide Meets, Property, HasKey;
  }
}
