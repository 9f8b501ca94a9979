/** The fields of an endpoint and the inventory built from them (`scripts/api_vocabulary_inventory.py`). */
module ApiFields {
  import opened Common
  import opened Json
  import opened ApiVocabulary

  /** The keys of a schema dictionary that extraction reads. `NotASchema` is a value that is not a dictionary. */
  datatype Schema =
    | NotASchema
    | Schema(ref: Option<string>, kind: Option<string>, anyOf: seq<Schema>, oneOf: seq<Schema>,
             properties: seq<Entry<Schema>>, items: Option<Schema>)

  type Components = map<string, Schema>

  const EMPTY := Schema(None, None, [], [], [], None)

  /** `ref.rsplit("/", 1)[-1]`. */
  function LastPart(ref: string): string {
    if '/' in ref then LastPart(ref[1..]) else ref
  }

  /** `_resolve_schema`: one reference is followed, and only one. */
  function Resolve(s: Schema, c: Components): (r: Schema)
    requires s.Schema?
    ensures r.Schema?
  {
    if s.ref.None? then s
    else
      var name := LastPart(s.ref.value);
      if name in c && c[name].Schema? then c[name] else EMPTY
  }

  function FirstVariant(variants: seq<Schema>): (variant: Option<Schema>)
    ensures variant.Some? ==> variant.value.Schema?
  {
    if variants == [] then None
    else if variants[0].Schema? && variants[0].kind != Some("null") then Some(variants[0])
    else FirstVariant(variants[1..])
  }

  /** `_schema_type`. */
  function TypeName(s: Schema): string
    requires s.Schema?
  {
    var variant := FirstVariant(s.anyOf).GetOr(FirstVariant(s.oneOf).GetOr(s));
    if variant.ref.Some? then LastPart(variant.ref.value)
    else variant.kind.GetOr("object")
  }

  /** `_iter_nested_field_schemas`: what is extracted below a property, and what its name gains. */
  function Nested(property: Schema, c: Components): Option<(Schema, string)>
    requires property.Schema?
  {
    var resolved := Resolve(property, c);
    if resolved.kind == Some("object") || property.ref.Some? then Some((property, ""))
    else if resolved.kind == Some("array") && resolved.items.Some? && resolved.items.value.Schema?
    then Some((resolved.items.value, "[]"))
    else None
  }

  // ---------------------------------------------------------------- paths, the reference for extraction

  /** `path` lists the position of a property, then the position of a property nested in that one, and so on. It
      needs no measure on references, so it is defined on cyclic documents as well. */
  predicate IsPath(s: Schema, c: Components, path: seq<nat>)
    requires s.Schema?
    decreases |path|
  {
    path != [] &&
    var properties := Resolve(s, c).properties;
    path[0] < |properties| && properties[path[0]].value.Schema? && (
      |path| == 1 ||
      var nested := Nested(properties[path[0]].value, c);
      nested.Some? && nested.value.0.Schema? && IsPath(nested.value.0, c, path[1..]))
  }

  function FieldName(prefix: string, property: string): string {
    if prefix == "" then property else prefix + "." + property
  }

  function FieldAt(s: Schema, c: Components, prefix: string, location: string, path: seq<nat>): Field
    requires s.Schema? && IsPath(s, c, path)
    decreases |path|
  {
    var property := Resolve(s, c).properties[path[0]];
    if |path| == 1 then FieldOf(prefix, property.key, location, TypeName(property.value))
    else
      var nested := Nested(property.value, c).value;
      FieldAt(nested.0, c, FieldName(prefix, property.key) + nested.1, location, path[1..])
  }

  /** The fields are those of the paths, one field for each path. */
  ghost predicate Matches(fields: seq<Field>, paths: seq<seq<nat>>, s: Schema, c: Components, prefix: string,
                          location: string)
    requires s.Schema?
  {
    && |fields| == |paths|
    && forall i :: 0 <= i < |paths| ==> IsPath(s, c, paths[i]) && fields[i] == FieldAt(s, c, prefix, location, paths[i])
  }

  /** `paths` are all the paths into `s`, each once, and the fields are theirs. */
  ghost predicate ExtractedBy(fields: seq<Field>, paths: seq<seq<nat>>, s: Schema, c: Components, prefix: string,
                              location: string)
    requires s.Schema?
  {
    Matches(fields, paths, s, c, prefix, location) && NoneTwice(paths) &&
        forall path :: path in paths <==> IsPath(s, c, path)
  }

  ghost predicate NoneTwice(paths: seq<seq<nat>>) {
    forall i, j :: 0 <= i < j < |paths| ==> paths[i] != paths[j]
  }

  // ---------------------------------------------------------------- when extraction comes to an end

  /** Property `k` of a resolved schema has something extracted below it. */
  predicate HasNested(properties: seq<Entry<Schema>>, k: int, c: Components) {
    0 <= k < |properties| && properties[k].value.Schema? && Nested(properties[k].value, c).Some?
  }

  function NestedAt(properties: seq<Entry<Schema>>, k: int, c: Components): (s: Schema)
    requires HasNested(properties, k, c)
    ensures s.Schema?
  {
    Nested(properties[k].value, c).value.0
  }

  /** Extraction from `s` makes at most `d` nested calls. */
  ghost predicate ExtractReturns(d: nat, s: Schema, c: Components)
    requires s.Schema?
  {
    var properties := Resolve(s, c).properties;
    d > 0 && forall k :: HasNested(properties, k, c) ==> ExtractReturns(d - 1, NestedAt(properties, k, c), c)
  }

  ghost predicate Extractable(s: Schema, c: Components)
    requires s.Schema?
  {
    exists d: nat :: ExtractReturns(d, s, c)
  }

  ghost predicate PathsWithin(s: Schema, c: Components, n: nat)
    requires s.Schema?
  {
    forall path :: IsPath(s, c, path) ==> |path| <= n
  }

  /** Extraction comes to an end exactly when the property paths of the schema are of bounded length. */
  lemma ExtractableIff(s: Schema, c: Components)
    requires s.Schema?
    ensures Extractable(s, c) <==> exists n: nat :: PathsWithin(s, c, n)
  {
    if d: nat :| ExtractReturns(d, s, c) {
      ReturnsBound(d, s, c);
    }
    if n: nat :| PathsWithin(s, c, n) {
      BoundReturns(n, s, c);
    }
  }

  lemma {:induction false} ReturnsBound(d: nat, s: Schema, c: Components)
    requires s.Schema? && ExtractReturns(d, s, c)
    ensures PathsWithin(s, c, d)
  {
    hide Nested;
    var properties := Resolve(s, c).properties;
    forall path | IsPath(s, c, path) ensures |path| <= d {
      if |path| > 1 {
        assert HasNested(properties, path[0], c);
        ReturnsBound(d - 1, NestedAt(properties, path[0], c), c);
        assert IsPath(NestedAt(properties, path[0], c), c, path[1..]);
      }
    }
  }

  lemma {:induction false} BoundReturns(n: nat, s: Schema, c: Components)
    requires s.Schema? && PathsWithin(s, c, n)
    ensures ExtractReturns(n + 1, s, c)
    decreases n
  {
    hide Nested;
    var properties := Resolve(s, c).properties;
    forall k | HasNested(properties, k, c) ensures ExtractReturns(n, NestedAt(properties, k, c), c) {
      assert IsPath(s, c, [k]);
      forall path | IsPath(NestedAt(properties, k, c), c, path) ensures |path| <= n - 1 {
        assert ([k] + path)[1..] == path;
        assert IsPath(s, c, [k] + path);
      }
      BoundReturns(n - 1, NestedAt(properties, k, c), c);
    }
  }

  // ---------------------------------------------------------------- extraction

  /** `_extract_fields`. Every path of the schema gives one field, and there is no other field. */
  method ExtractFields(s: Schema, c: Components, prefix: string, location: string, ghost d: nat)
      returns (fields: seq<Field>)
    requires s.Schema? && ExtractReturns(d, s, c)
    ensures exists paths :: ExtractedBy(fields, paths, s, c, prefix, location)
    decreases d
  {
    fields := [];
    ghost var paths: seq<seq<nat>> := [];
    var resolved := Resolve(s, c);
    for k := 0 to |resolved.properties|
      invariant SoFar(fields, paths, s, c, prefix, location, k)
    {
      hide *;
      var property := resolved.properties[k];
      if property.value.Schema? {
        var below: seq<Field> := [];
        ghost var belowPaths: seq<seq<nat>> := [];
        var name := FieldName(prefix, property.key);
        var nested := Nested(property.value, c);
        if nested.Some? {
          assert HasNested(resolved.properties, k, c);
          below := ExtractFields(nested.value.0, c, name + nested.value.1, location, d - 1);
          belowPaths :| ExtractedBy(below, belowPaths, nested.value.0, c, name + nested.value.1, location);
        }
        PropertyFields(s, c, prefix, location, k, below, belowPaths);
        SoFarMore(fields, paths, s, c, prefix, location, k, below, belowPaths);
        fields := fields + ([FieldOf(prefix, property.key, location, TypeName(property.value))] + below);
        paths := paths + ([[k]] + Under(k, belowPaths));
      }
    }
    assert ExtractedBy(fields, paths, s, c, prefix, location);
  }

  /** The fields of the first `k` properties. */
  ghost predicate SoFar(fields: seq<Field>, paths: seq<seq<nat>>, s: Schema, c: Components, prefix: string,
                        location: string, k: nat)
    requires s.Schema?
  {
    && Matches(fields, paths, s, c, prefix, location) && NoneTwice(paths)
    && forall path :: path in paths <==> IsPath(s, c, path) && BeginsBelow(path, k)
  }

  lemma SoFarMore(fields: seq<Field>, paths: seq<seq<nat>>, s: Schema, c: Components, prefix: string, location: string,
                  k: nat, below: seq<Field>, belowPaths: seq<seq<nat>>)
    requires s.Schema? && SoFar(fields, paths, s, c, prefix, location, k)
    requires k < |Resolve(s, c).properties| && Resolve(s, c).properties[k].value.Schema?
    requires Covers(s, c, k, belowPaths)
    requires var e := Resolve(s, c).properties[k];
      Matches([FieldOf(prefix, e.key, location, TypeName(e.value))] + below, [[k]] + Under(k, belowPaths), s, c, prefix,
          location)
    ensures var e := Resolve(s, c).properties[k];
      SoFar(fields + ([FieldOf(prefix, e.key, location, TypeName(e.value))] + below),
          paths + ([[k]] + Under(k, belowPaths)), s, c, prefix, location, k + 1)
  {
    var mine := [[k]] + Under(k, belowPaths);
    var e := Resolve(s, c).properties[k];
    PropertyPaths(s, c, k, belowPaths);
    hide Covers, Resolve, IsPath, FieldAt, FieldOf, TypeName, Under, NoneTwice, Matches, Nested;
    MatchesAppend(fields, paths, [FieldOf(prefix, e.key, location, TypeName(e.value))] + below, mine, s, c, prefix,
        location);
    NoneTwiceAppend(paths, mine);
    assert forall path :: path in paths + mine <==> path in paths || path in mine;
  }

  lemma MatchesAppend(a: seq<Field>, aPaths: seq<seq<nat>>, b: seq<Field>, bPaths: seq<seq<nat>>,
                      s: Schema, c: Components, prefix: string, location: string)
    requires s.Schema? && Matches(a, aPaths, s, c, prefix, location) && Matches(b, bPaths, s, c, prefix, location)
    ensures Matches(a + b, aPaths + bPaths, s, c, prefix, location)
  {
  }

  lemma NoneTwiceAppend(a: seq<seq<nat>>, b: seq<seq<nat>>)
    requires NoneTwice(a) && NoneTwice(b) && forall path :: path in a ==> path !in b
    ensures NoneTwice(a + b)
  {
    forall i, j | 0 <= i < j < |a + b|
      ensures (a + b)[i] != (a + b)[j]
    {
      if i < |a| <= j {
        assert a[i] in a && b[j - |a|] in b;
      }
    }
  }

  predicate BeginsBelow(path: seq<nat>, k: nat) {
    path != [] && path[0] < k
  }

  ghost function Under(k: nat, paths: seq<seq<nat>>): seq<seq<nat>> {
    seq(|paths|, i requires 0 <= i < |paths| => [k] + paths[i])
  }

  /** What is extracted below property `k` covers the paths that begin at it. */
  ghost predicate Covers(s: Schema, c: Components, k: nat, paths: seq<seq<nat>>)
    requires s.Schema? && k < |Resolve(s, c).properties| && Resolve(s, c).properties[k].value.Schema?
  {
    var nested := Nested(Resolve(s, c).properties[k].value, c);
    if nested.None? then paths == []
    else nested.value.0.Schema? && NoneTwice(paths) && forall path :: path in paths <==> IsPath(nested.value.0, c, path)
  }

  lemma PropertyPaths(s: Schema, c: Components, k: nat, paths: seq<seq<nat>>)
    requires s.Schema? && k < |Resolve(s, c).properties| && Resolve(s, c).properties[k].value.Schema?
    requires Covers(s, c, k, paths)
    ensures forall path :: path in [[k]] + Under(k, paths) <==> IsPath(s, c, path) && path[0] == k
    ensures NoneTwice([[k]] + Under(k, paths))
  {
    hide Resolve, Nested, NoneTwice;
    var mine := [[k]] + Under(k, paths);
    forall path ensures path in mine <==> IsPath(s, c, path) && path[0] == k {
      PathUnder(k, paths, path);
    }
    UnderNoneTwice(k, paths);
  }

  /** The paths that begin at property `k`: the property itself, and those below it. */
  lemma PathUnder(k: nat, paths: seq<seq<nat>>, path: seq<nat>)
    ensures path in [[k]] + Under(k, paths) <==> path == [k] || (path != [] && path[0] == k && path[1..] in paths)
  {
    var mine := [[k]] + Under(k, paths);
    if path in mine && path != [k] {
      var i :| 0 <= i < |mine| && mine[i] == path;
      assert path == [k] + paths[i - 1] && path[1..] == paths[i - 1];
    }
    if path == [k] {
      assert mine[0] == path;
    } else if path != [] && path[0] == k && path[1..] in paths {
      var i :| 0 <= i < |paths| && paths[i] == path[1..];
      assert path == [k] + paths[i] == mine[i + 1];
    }
  }

  lemma UnderNoneTwice(k: nat, paths: seq<seq<nat>>)
    requires NoneTwice(paths) && [] !in paths
    ensures NoneTwice([[k]] + Under(k, paths))
  {
    var mine := [[k]] + Under(k, paths);
    forall i, j | 0 <= i < j < |mine|
      ensures mine[i] != mine[j]
    {
      assert mine[j][1..] == paths[j - 1] && paths[j - 1] in paths;
      if i > 0 {
        assert mine[i][1..] == paths[i - 1];
      }
    }
  }

  lemma PropertyFields(s: Schema, c: Components, prefix: string, location: string, k: nat, below: seq<Field>,
                       paths: seq<seq<nat>>)
    requires s.Schema? && k < |Resolve(s, c).properties| && Resolve(s, c).properties[k].value.Schema?
    requires Covers(s, c, k, paths)
    requires
      var e := Resolve(s, c).properties[k];
      var nested := Nested(e.value, c);
      if nested.None? then below == []
      else Matches(below, paths, nested.value.0, c, FieldName(prefix, e.key) + nested.value.1, location)
    ensures
      var e := Resolve(s, c).properties[k];
      Matches([FieldOf(prefix, e.key, location, TypeName(e.value))] + below, [[k]] + Under(k, paths), s, c, prefix,
          location)
  {
    hide Resolve, Nested, TypeName, FieldOf;
    PropertyPaths(s, c, k, paths);
    var e := Resolve(s, c).properties[k];
    var fields, mine := [FieldOf(prefix, e.key, location, TypeName(e.value))] + below, [[k]] + Under(k, paths);
    assert |fields| == |mine|;
    forall i | 0 <= i < |mine|
      ensures IsPath(s, c, mine[i]) && fields[i] == FieldAt(s, c, prefix, location, mine[i])
    {
      assert mine[i] in mine;
      if i > 0 {
        assert mine[i] == [k] + paths[i - 1] && mine[i][1..] == paths[i - 1] && fields[i] == below[i - 1];
        assert IsPath(Nested(e.value, c).value.0, c, paths[i - 1]);
        assert |mine[i]| > 1;
      }
    }
  }

  // ---------------------------------------------------------------- the inventory

  datatype Parameter = Parameter(name: string, location: string, schema: Schema)

  /** An operation: its parameters, and the schemas of its JSON request body and of its first successful response. */
  datatype Operation = Operation(parameters: seq<Parameter>, request: Option<Schema>, response: Option<Schema>)

  datatype Endpoint = Endpoint(request: seq<Field>, response: seq<Field>)

  /** A control is kept as the id it refers to. */
  datatype Inventory = Inventory(endpoints: seq<Endpoint>, controls: seq<string>, catalog: map<string, Attribute>)

  function ParameterField(p: Parameter): Field {
    FieldOf("", p.name, p.location, TypeName(if p.schema.Schema? then p.schema else EMPTY))
  }

  function ParameterFields(parameters: seq<Parameter>): seq<Field> {
    seq(|parameters|, i requires 0 <= i < |parameters| => ParameterField(parameters[i]))
  }

  /** The fields are exactly those of the paths into a body schema, one for each path. */
  ghost predicate IsExtraction(fields: seq<Field>, body: Option<Schema>, c: Components) {
    if body.None? || body.value.NotASchema? then fields == []
    else exists paths :: ExtractedBy(fields, paths, body.value, c, "", "body")
  }

  ghost predicate IsEndpointOf(e: Endpoint, op: Operation, c: Components) {
    && |op.parameters| <= |e.request| && e.request[..|op.parameters|] == ParameterFields(op.parameters)
    && IsExtraction(e.request[|op.parameters|..], op.request, c)
    && IsExtraction(e.response, op.response, c)
  }

  function AllFields(endpoints: seq<Endpoint>): seq<Field> {
    if endpoints == [] then []
    else
      var last := endpoints[|endpoints| - 1];
      AllFields(endpoints[..|endpoints| - 1]) + (last.request + last.response)
  }

  function ParameterIds(parameters: seq<Parameter>): seq<string> {
    seq(|parameters|, i requires 0 <= i < |parameters| => SemanticId(parameters[i].name))
  }

  function ControlIds(ops: seq<Operation>): seq<string> {
    if ops == [] then [] else ControlIds(ops[..|ops| - 1]) + ParameterIds(ops[|ops| - 1].parameters)
  }

  /** Extraction returns on a body that is a schema. */
  ghost predicate BodyReturns(body: Option<Schema>, c: Components) {
    body.Some? && body.value.Schema? ==> Extractable(body.value, c)
  }

  method ExtractBody(body: Option<Schema>, c: Components) returns (fields: seq<Field>)
    requires BodyReturns(body, c)
    ensures IsExtraction(fields, body, c)
  {
    if body.None? || body.value.NotASchema? {
      return [];
    }
    ghost var d: nat :| ExtractReturns(d, body.value, c);
    fields := ExtractFields(body.value, c, "", "body", d);
  }

  /** The endpoints, controls and catalog of `build_inventory`. */
  method BuildInventory(ops: seq<Operation>, c: Components) returns (inventory: Inventory)
    requires forall op :: op in ops ==> BodyReturns(op.request, c) && BodyReturns(op.response, c)
    ensures |inventory.endpoints| == |ops|
    ensures forall i :: 0 <= i < |ops| ==> IsEndpointOf(inventory.endpoints[i], ops[i], c)
    ensures Describes(inventory.catalog, AllFields(inventory.endpoints))
    ensures inventory.controls == ControlIds(ops)
  {
    var catalog := new Catalog();
    var endpoints: seq<Endpoint>, controls: seq<string> := [], [];
    for i := 0 to |ops|
      invariant |endpoints| == i
      invariant forall k :: 0 <= k < i ==> IsEndpointOf(endpoints[k], ops[k], c)
      invariant Describes(catalog.entries, AllFields(endpoints))
      invariant controls == ControlIds(ops[..i])
    {
      hide Describes, IsExtraction, Extracted, ParameterField, BodyReturns;
      var body := ExtractBody(ops[i].request, c);
      var response := ExtractBody(ops[i].response, c);
      var endpoint := Endpoint(ParameterFields(ops[i].parameters) + body, response);
      assert endpoint.request[..|ops[i].parameters|] == ParameterFields(ops[i].parameters);
      assert endpoint.request[|ops[i].parameters|..] == body;
      EndpointFieldsExtracted(endpoint, ops[i], c);
      catalog.Record(endpoint.request + endpoint.response, AllFields(endpoints));
      assert (endpoints + [endpoint])[..i] == endpoints;
      assert ops[..i + 1][..i] == ops[..i];
      endpoints := endpoints + [endpoint];
      controls := controls + ParameterIds(ops[i].parameters);
    }
    assert ops[..|ops|] == ops;
    inventory := Inventory(endpoints, controls, catalog.entries);
  }

  lemma {:induction false} FieldAtExtracted(s: Schema, c: Components, prefix: string, location: string, path: seq<nat>)
    requires s.Schema? && IsPath(s, c, path)
    ensures Extracted(FieldAt(s, c, prefix, location, path))
    decreases |path|
  {
    hide TypeName, Resolve, Nested, SemanticId;
    var property := Resolve(s, c).properties[path[0]];
    if |path| == 1 {
      assert FieldAt(s, c, prefix, location, path) == FieldOf(prefix, property.key, location, TypeName(property.value));
    } else {
      var nested := Nested(property.value, c).value;
      FieldAtExtracted(nested.0, c, FieldName(prefix, property.key) + nested.1, location, path[1..]);
    }
  }

  lemma ExtractionExtracted(fields: seq<Field>, body: Option<Schema>, c: Components)
    requires IsExtraction(fields, body, c)
    ensures forall f :: f in fields ==> Extracted(f)
  {
    hide FieldAt, IsPath, Extracted;
    if body.Some? && body.value.Schema? {
      var paths :| ExtractedBy(fields, paths, body.value, c, "", "body");
      forall i | 0 <= i < |fields| ensures Extracted(fields[i]) {
        FieldAtExtracted(body.value, c, "", "body", paths[i]);
      }
    }
  }

  lemma EndpointFieldsExtracted(e: Endpoint, op: Operation, c: Components)
    requires IsEndpointOf(e, op, c)
    ensures forall f :: f in e.request + e.response ==> Extracted(f)
  {
    hide IsExtraction, TypeName, SemanticId;
    ExtractionExtracted(e.request[|op.parameters|..], op.request, c);
    ExtractionExtracted(e.response, op.response, c);
    forall i | 0 <= i < |e.request|
      ensures Extracted(e.request[i])
    {
      if i < |op.parameters| {
        var p := op.parameters[i];
        assert e.request[i] == e.request[..|op.parameters|][i] == ParameterField(p);
        assert ParameterField(p) == FieldOf("", p.name, p.location, ParameterField(p).type_);
      } else {
        assert e.request[i] == e.request[|op.parameters|..][i - |op.parameters|];
      }
    }
  }

  // ---------------------------------------------------------------- references resolve

  lemma {:induction false} EndpointFieldsIn(endpoints: seq<Endpoint>, i: nat)
    requires i < |endpoints|
    ensures forall f :: f in endpoints[i].request + endpoints[i].response ==> f in AllFields(endpoints)
  {
    if i < |endpoints| - 1 {
      EndpointFieldsIn(endpoints[..|endpoints| - 1], i);
    }
  }

  lemma {:induction false} ControlHasField(ops: seq<Operation>, endpoints: seq<Endpoint>, c: Components, id: string)
      returns (f: Field)
    requires |endpoints| == |ops| && forall i :: 0 <= i < |ops| ==> IsEndpointOf(endpoints[i], ops[i], c)
    requires id in ControlIds(ops)
    ensures f in AllFields(endpoints) && f.semanticId == id
  {
    hide IsExtraction, TypeName, SemanticId;
    var n := |ops| - 1;
    if id in ControlIds(ops[..n]) {
      f := ControlHasField(ops[..n], endpoints[..n], c, id);
    } else {
      var j :| 0 <= j < |ops[n].parameters| && id == ParameterIds(ops[n].parameters)[j];
      assert IsEndpointOf(endpoints[n], ops[n], c);
      f := endpoints[n].request[j];
      assert f == endpoints[n].request[..|ops[n].parameters|][j] == ParameterField(ops[n].parameters[j]);
    }
  }

  /** In a built inventory every reference of an endpoint field and of a
      control names exactly one entry of the listed catalog. */
  lemma ReferencesNameOneEntry(inventory: Inventory, ops: seq<Operation>, c: Components, attributes: seq<Attribute>,
                               id: string)
      returns (k: nat)
    requires |inventory.endpoints| == |ops| &&
        forall i :: 0 <= i < |ops| ==> IsEndpointOf(inventory.endpoints[i], ops[i], c)
    requires Describes(inventory.catalog, AllFields(inventory.endpoints)) && inventory.controls == ControlIds(ops)
    requires Lists(attributes, inventory.catalog)
    requires id in inventory.controls ||
      exists i, f :: 0 <= i < |ops| && f in inventory.endpoints[i].request + inventory.endpoints[i].response &&
          f.semanticId == id
    ensures k < |attributes| && attributes[k].semanticId == id && id == ID_PREFIX + attributes[k].canonicalTerm
    ensures forall j :: 0 <= j < |attributes| && attributes[j].semanticId == id ==> j == k
  {
    hide IsEndpointOf, SemanticId;
    var f: Field;
    if id in inventory.controls {
      f := ControlHasField(ops, inventory.endpoints, c, id);
    } else {
      var i, g :| 0 <= i < |ops| && g in inventory.endpoints[i].request + inventory.endpoints[i].response &&
          g.semanticId == id;
      EndpointFieldsIn(inventory.endpoints, i);
      f := g;
    }
    k := ReferencesResolve(inventory.catalog, AllFields(inventory.endpoints), attributes, f);
    assert WellNamed(id, inventory.catalog[id]);
    assert attributes[k] in attributes;
  }
}
