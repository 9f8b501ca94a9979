/** The field references an endpoint lists, and the check that they repeat nothing of the attribute catalog. */
module EndpointRecords {
  import opened Common
  import opened Json
  import opened ApiVocabulary
  import opened ApiFields

  type Dictionary = seq<Entry<Value>>

  /** What extraction records of a field. A parameter has neither description nor example, a property has both. */
  function FieldRecord(f: Field, required: bool, metadata: Option<(string, Value)>): Dictionary {
    [Entry("name", Str(f.name)), Entry("location", Str(f.location)), Entry("required", Bool(required)),
     Entry("type", Str(f.type_)), Entry("semanticId", Str(f.semanticId)),
     Entry("attributeRef", Str("#/attributeCatalog/" + f.semanticId))]
    + (match metadata
       case None => []
       case Some((description, example)) => [Entry("description", Str(description)), Entry("example", example)])
  }

  // ---------------------------------------------------------------- the reference

  const REFERENCE_KEYS: seq<string> := ["name", "location", "required", "type", "semanticId", "attributeRef"]

  /** The entries of a dictionary under the given keys; `None` when one of them is not there. */
  function Picked(record: Dictionary, keys: seq<string>): Option<Dictionary> {
    if keys == [] then Some([])
    else
      var first, rest := Find(record, keys[0]), Picked(record, keys[1..]);
      if first.None? || rest.None? then None else Some([Entry(keys[0], first.value)] + rest.value)
  }

  /** `_endpoint_field_ref`. */
  function Reference(record: Dictionary): Option<Dictionary> {
    Picked(record, REFERENCE_KEYS)
  }

  lemma {:induction false} PickedFinds(record: Dictionary, keys: seq<string>, k: string)
    requires Picked(record, keys).Some?
    ensures Find(Picked(record, keys).value, k) == if k in keys then Find(record, k) else None
    ensures k in keys ==> Find(record, k).Some?
  {
    if keys != [] {
      assert keys == [keys[0]] + keys[1..];
      PickedFinds(record, keys[1..], k);
      assert Picked(record, keys).value[1..] == Picked(record, keys[1..]).value;
    }
  }

  lemma {:induction false} AllPicked(record: Dictionary, keys: seq<string>)
    requires forall k :: k in keys ==> Find(record, k).Some?
    ensures Picked(record, keys).Some?
  {
    if keys != [] {
      assert keys == [keys[0]] + keys[1..];
      AllPicked(record, keys[1..]);
    }
  }

  // ---------------------------------------------------------------- the check

  const FORBIDDEN: seq<string> := ["description", "example", "canonicalTerm", "preferredName"]

  datatype ReferenceError = Duplicates(key: string) | NoSemanticId | NoAttributeRef

  function Duplicated(keys: seq<string>, reference: Dictionary): seq<ReferenceError> {
    if keys == [] then []
    else (if HasKey(reference, keys[0]) then [Duplicates(keys[0])] else []) + Duplicated(keys[1..], reference)
  }

  function ReferenceErrors(reference: Dictionary): seq<ReferenceError> {
    Duplicated(FORBIDDEN, reference)
    + (if Truthy(Find(reference, "semanticId").GetOr(Null)) then [] else [NoSemanticId])
    + (if Truthy(Find(reference, "attributeRef").GetOr(Null)) then [] else [NoAttributeRef])
  }

  /** `_validate_endpoint_field_ref`. */
  method ValidateReference(reference: Dictionary) returns (errors: seq<ReferenceError>)
    ensures errors == ReferenceErrors(reference)
  {
    hide Duplicated, Find, FORBIDDEN;
    errors := FindDuplicated(FORBIDDEN, reference);
    if !Truthy(Find(reference, "semanticId").GetOr(Null)) {
      errors := errors + [NoSemanticId];
    }
    if !Truthy(Find(reference, "attributeRef").GetOr(Null)) {
      errors := errors + [NoAttributeRef];
    }
  }

  method FindDuplicated(keys: seq<string>, reference: Dictionary) returns (errors: seq<ReferenceError>)
    ensures errors == Duplicated(keys, reference)
  {
    errors := [];
    for i := 0 to |keys|
      invariant errors + Duplicated(keys[i..], reference) == Duplicated(keys, reference)
    {
      assert keys[i..][1..] == keys[i + 1..];
      if HasKey(reference, keys[i]) {
        errors := errors + [Duplicates(keys[i])];
      }
    }
  }

  function AllErrors(references: seq<Dictionary>): seq<ReferenceError> {
    if references == [] then [] else ReferenceErrors(references[0]) + AllErrors(references[1..])
  }

  /** `_validate_endpoint_field_refs`, over the fields of all endpoints. */
  method ValidateReferences(references: seq<Dictionary>) returns (errors: seq<ReferenceError>)
    ensures errors == AllErrors(references)
  {
    hide ReferenceErrors;
    errors := [];
    for i := 0 to |references|
      invariant errors + AllErrors(references[i..]) == AllErrors(references)
    {
      assert references[i..][1..] == references[i + 1..];
      var found := ValidateReference(references[i]);
      errors := errors + found;
    }
  }

  lemma {:induction false} DuplicatedNone(keys: seq<string>, reference: Dictionary)
    ensures Duplicated(keys, reference) == [] <==> forall k :: k in keys ==> !HasKey(reference, k)
  {
    if keys != [] {
      assert keys == [keys[0]] + keys[1..];
      DuplicatedNone(keys[1..], reference);
    }
  }

  // ---------------------------------------------------------------- what is built passes

  /** Whatever the record holds, its reference never repeats metadata, and fails the check exactly when the record
      lacks an id or a reference. */
  lemma ReferencePassesIff(record: Dictionary)
    requires Reference(record).Some?
    ensures forall k :: k in FORBIDDEN ==> Duplicates(k) !in ReferenceErrors(Reference(record).value)
    ensures ReferenceErrors(Reference(record).value) == [] <==>
      Truthy(Find(record, "semanticId").GetOr(Null)) && Truthy(Find(record, "attributeRef").GetOr(Null))
  {
    hide Picked, Find, HasKey, Duplicated;
    var reference := Reference(record).value;
    forall k | k in FORBIDDEN ensures !HasKey(reference, k) {
      PickedFinds(record, REFERENCE_KEYS, k);
      ForbiddenNotPicked(k);
    }
    DuplicatedNone(FORBIDDEN, reference);
    assert "semanticId" == REFERENCE_KEYS[4] && "attributeRef" == REFERENCE_KEYS[5];
    PickedFinds(record, REFERENCE_KEYS, "semanticId");
    PickedFinds(record, REFERENCE_KEYS, "attributeRef");
  }

  lemma ForbiddenNotPicked(k: string)
    requires k in FORBIDDEN
    ensures k !in REFERENCE_KEYS
  {
    assert k[0] == 'd' || k[0] == 'e' || k[0] == 'c' || k[0] == 'p';
    assert forall r :: r in REFERENCE_KEYS ==>
        r[0] == 'n' || r[0] == 'l' || r[0] == 'r' || r[0] == 't' || r[0] == 's' || r[0] == 'a';
  }

  lemma RecordHasKeys(f: Field, required: bool, metadata: Option<(string, Value)>)
    ensures var record := FieldRecord(f, required, metadata);
            && (forall k :: k in REFERENCE_KEYS ==> Find(record, k).Some?)
            && Find(record, "semanticId") == Some(Str(f.semanticId))
            && Find(record, "attributeRef") == Some(Str("#/attributeCatalog/" + f.semanticId))
  {
    var record := FieldRecord(f, required, metadata);
    forall i | 0 <= i < |REFERENCE_KEYS| ensures HasKey(record, REFERENCE_KEYS[i]) {
      assert record[i].key == REFERENCE_KEYS[i];
    }
    FirstFound(record, 4);
    FirstFound(record, 5);
  }

  lemma {:induction false} FirstFound(entries: Dictionary, i: nat)
    requires i < |entries| && forall j :: 0 <= j < i ==> entries[j].key != entries[i].key
    ensures Find(entries, entries[i].key) == Some(entries[i].value)
  {
    if i > 0 {
      FirstFound(entries[1..], i - 1);
    }
  }

  /** The references of a built inventory all pass, whatever descriptions and examples their fields carry. */
  lemma BuiltReferencesPass(inventory: Inventory, ops: seq<Operation>, c: Components, i: nat, f: Field,
                            required: bool, metadata: Option<(string, Value)>)
    requires |inventory.endpoints| == |ops| && i < |ops| && IsEndpointOf(inventory.endpoints[i], ops[i], c)
    requires f in inventory.endpoints[i].request + inventory.endpoints[i].response
    ensures Reference(FieldRecord(f, required, metadata)).Some?
    ensures ReferenceErrors(Reference(FieldRecord(f, required, metadata)).value) == []
  {
    hide FieldRecord, Picked, Find, IsEndpointOf, CanonicalTerm;
    var record := FieldRecord(f, required, metadata);
    RecordHasKeys(f, required, metadata);
    AllPicked(record, REFERENCE_KEYS);
    EndpointFieldsExtracted(inventory.endpoints[i], ops[i], c);
    ExtractedTerm(f);
    assert f.semanticId[0] == 'l';
    ReferencePassesIff(record);
  }
}
