/** Example inference and repair over JSON schemas (`src/api/openapi_enrichment.py`). */
module SchemaExamples {
  import opened Common
  import opened Json
  import Text

  /** A schema dictionary. A key whose value has the wrong type behaves as an absent key, except for `items`,
      where an absent key and a value that is not a dictionary differ. `NotASchema` is a value that is not
      a dictionary. Keys no function here reads are left out. */
  datatype Schema =
    | NotASchema
    | Schema(
        constant: Value,
        enumeration: seq<Value>,
        ref: Option<string>,
        allOf: seq<Schema>,
        anyOf: seq<Schema>,
        oneOf: seq<Schema>,
        kind: Option<string>,
        items: Option<Schema>,
        properties: PropertyTable,
        required: seq<string>,
        additional: Schema,
        maximum: Option<real>,
        minimum: Option<real>,
        pattern: Option<string>,
        format: Option<string>,
        description: Value,
        example: Option<Value>)

  /** The value of `properties`, when it is a dictionary. */
  datatype PropertyTable = NotATable | Table(entries: seq<Entry<Schema>>)

  /** `components["schemas"]`. */
  type Components = map<string, Schema>

  // ---------------------------------------------------------------- names

  function Snake(value: string): string {
    Text.Lower(Text.Replace(Text.Replace(Text.Camel(value), '-', '_'), ' ', '_'))
  }

  function Humanize(key: string): string {
    Text.Strip(Text.Replace(Snake(key), '_', ' '))
  }

  function RefName(ref: string): Option<string> {
    var prefix := "#/components/schemas/";
    if prefix <= ref then Some(ref[|prefix|..]) else None
  }

  // ---------------------------------------------------------------- scalar defaults

  /** `_STRING_EXAMPLE_BY_KEY`. */
  function TextByKey(key: string): Option<string> {
    match key
    case "portfolio_id" => Some("PB_SG_GLOBAL_BAL_001")
    case "proposal_id" => Some("pp_001")
    case "proposal_run_id" => Some("pr_001")
    case "operation_id" => Some("pop_001")
    case "consumer_system" => Some("lotus-gateway")
    case "tenant_id" => Some("default")
    case "policy_version" => Some("advisory.v1")
    case "source_service" => Some("lotus-advise")
    case "contract_version" => Some("v1")
    case "generated_at" => Some("2026-03-02T10:30:00Z")
    case "as_of_date" => Some("2026-03-02")
    case "created_at" => Some("2026-03-02T10:30:00Z")
    case "currency" => Some("USD")
    case "base_currency" => Some("USD")
    case "status" => Some("READY")
    case "workflow_key" => Some("advisory_proposal_lifecycle")
    case "instrument_id" => Some("EQ_US_AAPL")
    case "request_hash" => Some("sha256:example_hash")
    case "idempotency_key" => Some("proposal-create-idem-001")
    case "correlation_id" => Some("corr_proposal_001")
    case _ => None
  }

  function ExampleByKey(key: string): Option<Value> {
    if TextByKey(key).Some? then Some(Str(TextByKey(key).value))
    else if key == "version_no" then Some(Int(1))
    else if key == "quantity" then Some(Num(100.0))
    else if key == "price" then Some(Num(182.35))
    else if key == "rate" then Some(Num(1.3524))
    else if key == "amount" then Some(Num(125000.5))
    else None
  }

  /** Python's `int()` on a number. */
  function Truncate(r: real): int {
    if r < 0.0 then -((-r).Floor) else r.Floor
  }

  function IntegerExample(name: string, s: Schema): int
    requires s.Schema?
  {
    var key := Snake(name);
    if s.maximum.Some? && s.maximum.value <= 10.0 then
      var lower := if s.minimum.Some? then Truncate(s.minimum.value) else 1;
      var upper := Truncate(s.maximum.value);
      var capped := if upper < 5 then upper else 5;
      if lower > capped then lower else capped
    else if Text.Contains(key, "ttl") || Text.Contains(key, "hours") then 24
    else if Text.Contains(key, "version") then 1
    else 10
  }

  function NumberExample(name: string): real {
    var key := Snake(name);
    if Text.Contains(key, "weight") then 0.125
    else if Text.Contains(key, "price") || Text.Contains(key, "rate") then 1.2345
    else if Text.Contains(key, "quantity") then 100.0
    else if Text.Contains(key, "pnl") || Text.Contains(key, "amount") || Text.Contains(key, "value") then 125000.5
    else 10.5
  }

  function StringExample(name: string, s: Schema): string
    requires s.Schema?
  {
    var key := Snake(name);
    if s.pattern.Some? && Text.Contains(s.pattern.value, "\\d*\\.?\\d*") then "0.125"
    else if s.format == Some("date") then "2026-03-02"
    else if s.format == Some("date-time") then "2026-03-02T10:30:00Z"
    else if TextByKey(key).Some? then TextByKey(key).value
    else if Text.EndsWith(key, "_id") then Text.Upper(key[..|key| - 3]) + "_001"
    else if Text.Contains(key, "date") then "2026-03-02"
    else if Text.Contains(key, "time") || Text.Contains(key, "timestamp") then "2026-03-02T10:30:00Z"
    else if Text.Contains(key, "status") then "ACTIVE"
    else if Text.Contains(key, "currency") then "USD"
    else "example_" + key
  }

  /** The example of a scalar type; `Null` for every other type. */
  function ScalarExample(name: string, s: Schema): Value
    requires s.Schema?
  {
    if s.kind == Some("boolean") then Bool(true)
    else if s.kind == Some("integer") then Int(IntegerExample(name, s))
    else if s.kind == Some("number") then Num(NumberExample(name))
    else if s.kind == Some("string") then Str(StringExample(name, s))
    else Null
  }

  function UntypedExample(name: string): string {
    var key := Snake(name);
    if Text.EndsWith(key, "_id") then Text.Upper(key[..|key| - 3]) + "_001" else key + "_example"
  }

  // ---------------------------------------------------------------- parts

  /** `p` is a direct sub-schema of `s` that inference or repair may descend into. */
  predicate IsPart(p: Schema, s: Schema)
    requires s.Schema?
  {
    || p in s.allOf || p in s.anyOf || p in s.oneOf
    || s.items == Some(p) || p == s.additional || p in PropertySchemas(s.properties)
  }

  function PropertySchemas(t: PropertyTable): (schemas: seq<Schema>)
    ensures t.Table? ==> |schemas| == |t.entries|
    ensures t.Table? ==> forall i :: 0 <= i < |t.entries| ==> schemas[i] == t.entries[i].value
    ensures t.Table? ==> forall e :: e in t.entries ==> e.value in schemas
  {
    match t
    case NotATable => []
    case Table(entries) => seq(|entries|, i requires 0 <= i < |entries| => entries[i].value)
  }

  lemma PartsSmaller(s: Schema)
    requires s.Schema?
    ensures forall p :: IsPart(p, s) ==> p < s
  {
  }

  function Property(t: Schema, key: string): (p: Schema)
    requires t.Schema? && t.properties.Table?
    ensures p.Schema? ==> Entry(key, p) in t.properties.entries && IsPart(p, t)
  {
    Find(t.properties.entries, key).GetOr(NotASchema)
  }

  // ---------------------------------------------------------------- where inference goes

  /** `_resolved_ref_model`: the reference names a component. */
  predicate RefersToModel(s: Schema, c: Components)
    requires s.Schema?
  {
    s.ref.Some? && RefName(s.ref.value).Some? && RefName(s.ref.value).value in c &&
        c[RefName(s.ref.value).value].Schema?
  }

  function SelectedNames(s: Schema): seq<string>
    requires s.Schema? && s.properties.Table?
  {
    if s.required != [] then s.required
    else
      var entries := s.properties.entries;
      var n := if |entries| < 3 then |entries| else 3;
      seq(n, i requires 0 <= i < n => entries[i].key)
  }

  /** The schemas declared under `names`. */
  function Declared(names: seq<string>, s: Schema): (schemas: seq<Schema>)
    requires s.Schema? && s.properties.Table?
    ensures forall p :: p in schemas ==> p.Schema?
    ensures forall k :: k in names && Property(s, k).Schema? ==> Property(s, k) in schemas
    ensures forall p :: p in schemas ==> exists k :: k in names && Property(s, k) == p
  {
    if names == [] then []
    else
      var last := names[|names| - 1];
      assert names == names[..|names| - 1] + [last];
      Declared(names[..|names| - 1], s) + (if Property(s, last).Schema? then [Property(s, last)] else [])
  }

  /** The first alternative of the first composite whose first alternative is a schema. */
  function FirstAlternative(s: Schema): Schema
    requires s.Schema?
  {
    if s.allOf != [] && s.allOf[0].Schema? then s.allOf[0]
    else if s.anyOf != [] && s.anyOf[0].Schema? then s.anyOf[0]
    else if s.oneOf != [] && s.oneOf[0].Schema? then s.oneOf[0]
    else NotASchema
  }

  /** A constant or an enum value decides the example. */
  predicate HasDefault(s: Schema)
    requires s.Schema?
  {
    s.constant != Null || (s.enumeration != [] && s.enumeration[0] != Null)
  }

  /** The schemas that inference goes on with from `s`. */
  function Continues(s: Schema, c: Components): (next: seq<Schema>)
    requires s.Schema?
    ensures forall p :: p in next ==> p.Schema?
  {
    if HasDefault(s) then []
    else if RefersToModel(s, c) then
      var model := c[RefName(s.ref.value).value];
      if model.properties.Table? then Declared(SelectedNames(model), model) else [model]
    else if FirstAlternative(s).Schema? then [FirstAlternative(s)]
    else if s.kind == Some("array") && s.items.Some? && s.items.value.Schema? then [s.items.value]
    else if s.kind == Some("object") && s.additional.Schema? then [s.additional]
    else []
  }

  /** Inference from `s` makes at most `d` nested calls. */
  ghost predicate InferReturns(d: nat, s: Schema, c: Components)
    requires s.Schema?
  {
    d > 0 && forall p :: p in Continues(s, c) ==> InferReturns(d - 1, p, c)
  }

  /** Inference from `s` comes to an end. Only the schemas it visits count: a cycle elsewhere does no harm. */
  ghost predicate Inferable(s: Schema, c: Components)
    requires s.Schema?
  {
    exists d: nat :: InferReturns(d, s, c)
  }

  lemma {:induction false} InferReturnsMore(d: nat, e: nat, s: Schema, c: Components)
    requires s.Schema? && InferReturns(d, s, c) && d <= e
    ensures InferReturns(e, s, c)
  {
    forall p | p in Continues(s, c) ensures InferReturns(e - 1, p, c) {
      InferReturnsMore(d - 1, e - 1, p, c);
    }
  }

  /** The least number with a property that `d` has. */
  ghost function Least(p: nat -> bool, d: nat): (l: nat)
    requires p(d)
    ensures p(l) && forall e: nat :: e < l ==> !p(e)
    decreases d
  {
    if e: nat :| e < d && p(e) then Least(p, e) else d
  }

  ghost function InferDepth(s: Schema, c: Components): (d: nat)
    requires s.Schema? && Inferable(s, c)
    ensures InferReturns(d, s, c) && forall e: nat :: e < d ==> !InferReturns(e, s, c)
  {
    var d: nat :| InferReturns(d, s, c);
    var p := (n: nat) => InferReturns(n, s, c);
    var least := Least(p, d);
    assert forall e: nat :: e < least && InferReturns(e, s, c) ==> p(e);
    least
  }

  lemma ContinuesShallower(s: Schema, c: Components, p: Schema)
    requires s.Schema? && Inferable(s, c) && p in Continues(s, c)
    ensures Inferable(p, c) && InferDepth(p, c) < InferDepth(s, c)
  {
    assert InferReturns(InferDepth(s, c) - 1, p, c);
  }

  ghost predicate AllInferable(schemas: seq<Schema>, c: Components)
    requires forall p :: p in schemas ==> p.Schema?
  {
    forall p :: p in schemas ==> Inferable(p, c)
  }

  /** More than the depth of each of the schemas. */
  ghost function InferDepths(schemas: seq<Schema>, c: Components): (d: nat)
    requires (forall p :: p in schemas ==> p.Schema?) && AllInferable(schemas, c)
    ensures forall p :: p in schemas ==> InferDepth(p, c) < d
    ensures d == 0 || exists p :: p in schemas && d == InferDepth(p, c) + 1
  {
    if schemas == [] then 0
    else
      assert schemas == [schemas[0]] + schemas[1..];
      var rest := InferDepths(schemas[1..], c);
      if InferDepth(schemas[0], c) < rest then rest else InferDepth(schemas[0], c) + 1
  }

  // ---------------------------------------------------------------- inference

  /** `_infer_example`. No step yields `None`, so none of the checks for it between the steps of the original falls
      through. */
  function Infer(name: string, s: Schema, c: Components): (v: Value)
    requires s.Schema? && Inferable(s, c)
    ensures v != Null
    decreases InferDepth(s, c), 2
  {
    if s.constant != Null then s.constant
    else if s.enumeration != [] && s.enumeration[0] != Null then s.enumeration[0]
    else if RefersToModel(s, c) then InferReferenced(s, c)
    else if FirstAlternative(s).Schema? then
      ContinuesShallower(s, c, FirstAlternative(s));
      Infer(name, FirstAlternative(s), c)
    else InferTyped(name, s, c)
  }

  /** `_infer_ref_example`, when the reference names a component. */
  function InferReferenced(s: Schema, c: Components): (v: Value)
    requires s.Schema? && Inferable(s, c) && !HasDefault(s) && RefersToModel(s, c)
    ensures v != Null
    decreases InferDepth(s, c), 1
  {
    var name := RefName(s.ref.value).value;
    var model := c[name];
    if model.properties.Table? then
      SelectedShallower(s, c);
      Obj(ObjectExample(name, model, c))
    else
      ContinuesShallower(s, c, model);
      Infer(name, model, c)
  }

  lemma SelectedShallower(s: Schema, c: Components)
    requires s.Schema? && Inferable(s, c) && !HasDefault(s) && RefersToModel(s, c)
    requires c[RefName(s.ref.value).value].properties.Table?
    ensures var selected := Continues(s, c);
            AllInferable(selected, c) && InferDepths(selected, c) <= InferDepth(s, c)
  {
    var selected := Continues(s, c);
    forall p | p in selected ensures Inferable(p, c) && InferDepth(p, c) < InferDepth(s, c) {
      ContinuesShallower(s, c, p);
    }
  }

  /** The example of a type, or of the name alone. */
  function InferTyped(name: string, s: Schema, c: Components): (v: Value)
    requires s.Schema? && Inferable(s, c) && !HasDefault(s) && !RefersToModel(s, c) && FirstAlternative(s) == NotASchema
    ensures v != Null
    decreases InferDepth(s, c), 1
  {
    if s.kind == Some("array") then
      (if s.items.None? then Arr([NamedExample(name + "_item")])
       else if s.items.value.Schema? then ContinuesShallower(s, c,
           s.items.value); Arr([Infer(name + "_item", s.items.value, c)])
       else Arr([Str("example_" + Snake(name) + "_item")]))
    else if s.kind == Some("object") then
      (if s.additional.Schema? then
         ContinuesShallower(s, c, s.additional);
         var key := Snake(name);
         var exampleKey := if Text.Contains(key, "ccy") || Text.Contains(key, "currency") then "USD" else "sample_key";
         Obj([Entry(exampleKey, Infer(name + "_value", s.additional, c))])
       else Obj([Entry("key", Str("sample_text"))]))
    else if ScalarExample(name, s) != Null then ScalarExample(name, s)
    else NamedExample(name)
  }

  /** The example of a schema that says nothing, from the name alone. */
  function NamedExample(name: string): (v: Value)
    ensures v != Null
  {
    ExampleByKey(Snake(name)).GetOr(Str(UntypedExample(name)))
  }

  /** `_example_for_object_schema`, for a schema with properties. */
  function ObjectExample(model: string, s: Schema, c: Components): seq<Entry<Value>>
    requires s.Schema? && s.properties.Table? && AllInferable(Declared(SelectedNames(s), s), c)
    decreases InferDepths(Declared(SelectedNames(s), s), c), 0, |SelectedNames(s)| + 1
  {
    var example := PropertyExamples(SelectedNames(s), s, c);
    if example != [] then example else [Entry("key", Str(Snake(model)))]
  }

  lemma DeclaredShallower(names: seq<string>, s: Schema, c: Components)
    requires s.Schema? && s.properties.Table? && AllInferable(Declared(names, s), c) && names != []
    ensures var init, last := names[..|names| - 1], Property(s, names[|names| - 1]);
            && AllInferable(Declared(init, s), c) &&
                InferDepths(Declared(init, s), c) <= InferDepths(Declared(names, s), c)
            && (last.Schema? ==> Inferable(last, c) && InferDepth(last, c) < InferDepths(Declared(names, s), c))
  {
    hide InferDepth, Inferable, Property;
    var init := Declared(names[..|names| - 1], s);
    assert forall p :: p in init ==> p in Declared(names, s);
  }

  function PropertyExamples(names: seq<string>, s: Schema, c: Components): seq<Entry<Value>>
    requires s.Schema? && s.properties.Table? && AllInferable(Declared(names, s), c)
    decreases InferDepths(Declared(names, s), c), 0, |names|
  {
    if names == [] then []
    else
      var init, last := names[..|names| - 1], names[|names| - 1];
      DeclaredShallower(names, s, c);
      var before := PropertyExamples(init, s, c);
      if Property(s, last).Schema? then Put(before, last, Infer(last, Property(s, last), c)) else before
  }

  // ---------------------------------------------------------------- repair

  /** The component a reference is looked up under. */
  function Referent(ref: string): string {
    RefName(ref).GetOr("")
  }

  /** `_resolved_example_schema`. */
  function Resolve(s: Schema, c: Components): (r: Schema)
    requires s.Schema?
    ensures r.Schema?
    decreases s
  {
    if s.ref.Some? && Referent(s.ref.value) in c && c[Referent(s.ref.value)].Schema? then c[Referent(s.ref.value)]
    else
      PartsSmaller(s);
      var candidate := Candidate(s);
      if candidate.Schema? then Resolve(candidate, c) else s
  }

  /** The first alternative of the first composite that is a schema and not `null`, if any. */
  function Candidate(s: Schema): (r: Schema)
    requires s.Schema?
    ensures r.Schema? ==> r in s.allOf || r in s.anyOf || r in s.oneOf
  {
    if FirstNonNull(s.allOf).Schema? then FirstNonNull(s.allOf)
    else if FirstNonNull(s.anyOf).Schema? then FirstNonNull(s.anyOf)
    else FirstNonNull(s.oneOf)
  }

  function FirstNonNull(alternatives: seq<Schema>): (r: Schema)
    ensures r.Schema? ==> r in alternatives
  {
    if alternatives == [] then NotASchema
    else if alternatives[0].Schema? && alternatives[0].kind != Some("null") then alternatives[0]
    else FirstNonNull(alternatives[1..])
  }

  predicate InEnum(v: Value, values: seq<Value>) {
    exists i :: 0 <= i < |values| && Equal(v, values[i])
  }

  /** The three scalar violations. */
  predicate Violates(ex: Value, t: Schema)
    requires t.Schema?
  {
    || (t.enumeration != [] && !InEnum(ex, t.enumeration))
    || (t.kind == Some("string") && !ex.Str?)
    || (t.kind == Some("integer") && !ex.Int? && !ex.Bool?)
    || (t.kind == Some("integer") && (ex.Int? || ex.Bool?) && t.maximum.Some? && NumberOf(ex) > t.maximum.value)
  }

  /** How repair treats an example under a resolved schema. */
  datatype Branch = Items | Properties | Additional | Scalar

  function BranchOf(ex: Value, t: Schema): Branch
    requires t.Schema?
  {
    if t.kind == Some("array") && ex.Arr? && t.items.Some? && t.items.value.Schema? then Items
    else if t.properties.Table? && ex.Obj? then Properties
    else if t.kind == Some("object") && ex.Obj? && t.additional.Schema? then Additional
    else Scalar
  }

  /** Inference returns for the required properties that repair has to add. */
  ghost predicate AddsInferable(entries: seq<Entry<Value>>, required: seq<string>, t: Schema, c: Components)
    requires t.Schema? && t.properties.Table?
  {
    forall k :: k in required && !HasKey(entries, k) && Property(t, k).Schema? ==> Inferable(Property(t, k), c)
  }

  /** `_add_missing_required_examples`. */
  function AddMissing(entries: seq<Entry<Value>>, required: seq<string>, t: Schema, c: Components)
        : (r: seq<Entry<Value>>)
    requires t.Schema? && t.properties.Table? && AddsInferable(entries, required, t, c)
    ensures entries <= r
    decreases |required|
  {
    if required == [] then entries
    else
      var last := required[|required| - 1];
      var before := AddMissing(entries, required[..|required| - 1], t, c);
      if HasKey(before, last) || !Property(t, last).Schema? then before
      else
        assert forall i :: 0 <= i < |entries| ==> before[i] == entries[i];
        before + [Entry(last, Infer(last, Property(t, last), c))]
  }

  /** Repair of `ex` makes at most `d` nested calls. What it adds it also repairs, so an added value counts as well. */
  ghost predicate RepairReturns(d: nat, ex: Value, s: Schema, c: Components)
    requires s.Schema?
    decreases d, 1
  {
    RepairAtReturns(d, ex, Resolve(s, c), c)
  }

  ghost predicate RepairAtReturns(d: nat, ex: Value, t: Schema, c: Components)
    requires t.Schema?
    decreases d, 0
  {
    match BranchOf(ex, t)
    case Items => d > 0 && ItemsReturn(d - 1, ex.items, t.items.value, c)
    case Properties =>
      AddsInferable(ex.entries, t.required, t, c) && d > 0 &&
          DeclaredReturn(d - 1, AddMissing(ex.entries, t.required, t, c), t, c)
    case Additional => d > 0 && EntriesReturn(d - 1, ex.entries, t.additional, c)
    case Scalar => Violates(ex, t) ==> Inferable(t, c)
  }

  ghost predicate ItemsReturn(d: nat, items: seq<Value>, s: Schema, c: Components)
    requires s.Schema?
    decreases d, 2
  {
    forall v :: v in items ==> RepairReturns(d, v, s, c)
  }

  ghost predicate DeclaredReturn(d: nat, entries: seq<Entry<Value>>, t: Schema, c: Components)
    requires t.Schema? && t.properties.Table?
    decreases d, 2
  {
    forall e :: e in entries && Property(t, e.key).Schema? ==> RepairReturns(d, e.value, Property(t, e.key), c)
  }

  ghost predicate EntriesReturn(d: nat, entries: seq<Entry<Value>>, s: Schema, c: Components)
    requires s.Schema?
    decreases d, 2
  {
    forall e :: e in entries ==> RepairReturns(d, e.value, s, c)
  }

  /** Repair of `ex` comes to an end. */
  ghost predicate Repairable(ex: Value, s: Schema, c: Components)
    requires s.Schema?
  {
    RepairableAt(ex, Resolve(s, c), c)
  }

  ghost predicate RepairableAt(ex: Value, t: Schema, c: Components)
    requires t.Schema?
  {
    exists d: nat :: RepairAtReturns(d, ex, t, c)
  }

  ghost function RepairDepth(ex: Value, t: Schema, c: Components): (d: nat)
    requires t.Schema? && RepairableAt(ex, t, c)
    ensures RepairAtReturns(d, ex, t, c) && forall e: nat :: e < d ==> !RepairAtReturns(e, ex, t, c)
  {
    var d: nat :| RepairAtReturns(d, ex, t, c);
    var p := (n: nat) => RepairAtReturns(n, ex, t, c);
    var least := Least(p, d);
    assert forall e: nat :: e < least && RepairAtReturns(e, ex, t, c) ==> p(e);
    least
  }

  /** A value repair descends to, with the schema it stands under. */
  ghost predicate Visits(ex: Value, t: Schema, c: Components, v: Value, p: Schema)
    requires t.Schema?
  {
    match BranchOf(ex, t)
    case Items => p == t.items.value && v in ex.items
    case Properties =>
      && AddsInferable(ex.entries, t.required, t, c)
      && exists e :: e in AddMissing(ex.entries, t.required, t, c) && Property(t, e.key) == p && p.Schema? &&
          e.value == v
    case Additional => p == t.additional && exists e :: e in ex.entries && e.value == v
    case Scalar => false
  }

  lemma VisitsShallower(ex: Value, t: Schema, c: Components, v: Value, p: Schema)
    requires t.Schema? && RepairableAt(ex, t, c) && Visits(ex, t, c, v, p)
    ensures p.Schema? && Repairable(v, p, c) && RepairDepth(v, Resolve(p, c), c) < RepairDepth(ex, t, c)
  {
    hide Visits, RepairAtReturns;
    VisitReturns(RepairDepth(ex, t, c), ex, t, c, v, p);
  }

  lemma VisitReturns(d: nat, ex: Value, t: Schema, c: Components, v: Value, p: Schema)
    requires t.Schema? && RepairAtReturns(d, ex, t, c) && Visits(ex, t, c, v, p)
    ensures p.Schema? && d > 0 && RepairAtReturns(d - 1, v, Resolve(p, c), c)
  {
    hide Resolve, Inferable, AddMissing, Infer;
    if BranchOf(ex, t) == Properties {
      var e :| e in AddMissing(ex.entries, t.required, t, c) && Property(t, e.key) == p && p.Schema? && e.value == v;
      assert RepairReturns(d - 1, e.value, Property(t, e.key), c);
    } else {
      assert RepairReturns(d - 1, v, p, c);
    }
  }

  /** `_repair_example_against_schema`. */
  function Repair(name: string, ex: Value, s: Schema, c: Components): Value
    requires s.Schema? && Repairable(ex, s, c)
    decreases RepairDepth(ex, Resolve(s, c), c), 3
  {
    RepairAt(name, ex, Resolve(s, c), c)
  }

  /** Repair against a schema already resolved. */
  function RepairAt(name: string, ex: Value, t: Schema, c: Components): Value
    requires t.Schema? && RepairableAt(ex, t, c)
    decreases RepairDepth(ex, t, c), 2
  {
    match BranchOf(ex, t)
    case Items =>
      Arr(seq(|ex.items|, i requires 0 <= i < |ex.items| =>
        (VisitsShallower(ex, t, c, ex.items[i], t.items.value); Repair(name + "_item", ex.items[i], t.items.value, c))))
    case Properties =>
      var full := AddMissing(ex.entries, t.required, t, c);
      Obj(seq(|full|, i requires 0 <= i < |full| =>
        if Property(t, full[i].key).Schema? then
          (VisitsShallower(ex, t, c, full[i].value, Property(t, full[i].key));
           Entry(full[i].key, Repair(full[i].key, full[i].value, Property(t, full[i].key), c)))
        else full[i]))
    case Additional =>
      Obj(seq(|ex.entries|, i requires 0 <= i < |ex.entries| =>
        (VisitsShallower(ex, t, c, ex.entries[i].value, t.additional);
         Entry(ex.entries[i].key, Repair(ex.entries[i].key, ex.entries[i].value, t.additional, c)))))
    case Scalar => if Violates(ex, t) then Infer(name, t, c) else ex
  }

  /** Where repair returns and replaces an example, inference returns. */
  lemma ReplacedInferable(ex: Value, t: Schema, c: Components)
    requires t.Schema? && RepairableAt(ex, t, c) && BranchOf(ex, t) == Scalar && Violates(ex, t)
    ensures Inferable(t, c)
  {
    var d: nat :| RepairAtReturns(d, ex, t, c);
  }

  /** The object's values are all repairable where they are declared. */
  ghost predicate EntriesRepairable(entries: seq<Entry<Value>>, t: Schema, c: Components)
    requires t.Schema? && t.properties.Table?
  {
    forall e :: e in entries && Property(t, e.key).Schema? ==> Repairable(e.value, Property(t, e.key), c)
  }

  function RepairEntry(e: Entry<Value>, t: Schema, c: Components): (r: Entry<Value>)
    requires t.Schema? && t.properties.Table? && EntriesRepairable([e], t, c)
    ensures r.key == e.key
  {
    if Property(t, e.key).Schema? then
      assert e in [e];
      Entry(e.key, Repair(e.key, e.value, Property(t, e.key), c))
    else e
  }

  /** `_repair_existing_property_examples`. */
  function RepairExisting(entries: seq<Entry<Value>>, t: Schema, c: Components): (r: seq<Entry<Value>>)
    requires t.Schema? && t.properties.Table? && EntriesRepairable(entries, t, c)
    ensures |r| == |entries| && forall i :: 0 <= i < |r| ==> r[i].key == entries[i].key
    ensures forall i :: 0 <= i < |r| ==> EntriesRepairable([entries[i]], t, c) && r[i] == RepairEntry(entries[i], t, c)
  {
    seq(|entries|, i requires 0 <= i < |entries| => RepairEntry(entries[i], t, c))
  }

  lemma RepairAtProperties(name: string, ex: Value, t: Schema, c: Components)
    requires t.Schema? && RepairableAt(ex, t, c) && BranchOf(ex, t) == Properties
    ensures AddsInferable(ex.entries, t.required, t, c)
    ensures var full := AddMissing(ex.entries, t.required, t, c);
            EntriesRepairable(full, t, c) && RepairAt(name, ex, t, c) == Obj(RepairExisting(full, t, c))
  {
    hide Resolve, Inferable, Infer, AddMissing, Repairable;
    var full := AddMissing(ex.entries, t.required, t, c);
    forall e | e in full && Property(t, e.key).Schema? ensures Repairable(e.value, Property(t, e.key), c) {
      VisitsShallower(ex, t, c, e.value, Property(t, e.key));
    }
    assert RepairAt(name, ex, t, c).entries == RepairExisting(full, t, c);
  }

  // ---------------------------------------------------------------- the object repair loops

  /** `_repair_object_properties_example`, over a copy of the example it is given. */
  method RepairObjectExample(example: seq<Entry<Value>>, t: Schema, c: Components, ghost name: string)
      returns (repaired: seq<Entry<Value>>)
    requires t.Schema? && t.properties.Table? && RepairableAt(Obj(example), t, c)
    ensures Obj(repaired) == RepairAt(name, Obj(example), t, c)
  {
    RepairAtProperties(name, Obj(example), t, c);
    repaired := AddMissingRequiredExamples(example, t, c);
    repaired := RepairExistingPropertyExamples(repaired, t, c);
  }

  method AddMissingRequiredExamples(example: seq<Entry<Value>>, t: Schema, c: Components)
        returns (repaired: seq<Entry<Value>>)
    requires t.Schema? && t.properties.Table? && AddsInferable(example, t.required, t, c)
    ensures repaired == AddMissing(example, t.required, t, c)
  {
    hide Infer, Inferable;
    repaired := example;
    for i := 0 to |t.required|
      invariant AddsInferable(example, t.required[..i], t, c) && repaired == AddMissing(example, t.required[..i], t, c)
    {
      var key := t.required[i];
      assert t.required[..i + 1][..i] == t.required[..i];
      if HasKey(repaired, key) {
        continue;
      }
      if Property(t, key).Schema? {
        assert !HasKey(example, key);
        repaired := repaired + [Entry(key, Infer(key, Property(t, key), c))];
      }
    }
    assert t.required[..|t.required|] == t.required;
  }

  method RepairExistingPropertyExamples(example: seq<Entry<Value>>, t: Schema, c: Components)
        returns (repaired: seq<Entry<Value>>)
    requires t.Schema? && t.properties.Table? && EntriesRepairable(example, t, c)
    ensures repaired == RepairExisting(example, t, c)
  {
    hide Repair, Repairable;
    repaired := example;
    for i := 0 to |example|
      invariant |repaired| == |example|
      invariant forall j :: 0 <= j < |example| ==> repaired[j] == if j < i then RepairExisting(example, t, c)[j]
          else example[j]
    {
      var e := example[i];
      assert RepairExisting(example, t, c)[i] == RepairEntry(e, t, c);
      if Property(t, e.key).Schema? {
        repaired := repaired[i := Entry(e.key, Repair(e.key, e.value, Property(t, e.key), c))];
      }
    }
  }
}
