/** The API vocabulary: the attribute catalog built from endpoint fields, and the checks it is meant to pass. */
module ApiVocabulary {
  import opened Common
  import Text

  // ---------------------------------------------------------------- canonical terms

  function StripUnderscores(s: string): string
    decreases |s|
  {
    if s != "" && s[0] == '_' then StripUnderscores(s[1..])
    else if s != "" && s[|s| - 1] == '_' then StripUnderscores(s[..|s| - 1])
    else s
  }

  function SnakeCase(value: string): string {
    var spaced := Text.Replace(Text.Replace(Text.Replace(Text.Camel(value), '-', '_'), ' ', '_'), '.', '_');
    Text.Lower(StripUnderscores(spaced))
  }

  /** `name.split(".")[-1]`. */
  function LastSegment(name: string): string {
    if '.' in name then LastSegment(name[1..]) else name
  }

  /** `replace("[]", "")`. */
  function DropBrackets(s: string): string {
    if |s| >= 2 && s[0] == '[' && s[1] == ']' then DropBrackets(s[2..])
    else if s == "" then ""
    else [s[0]] + DropBrackets(s[1..])
  }

  predicate IsLegacy(term: string) {
    term == "cif_id" || term == "booking_center"
  }

  function Modern(term: string): string {
    if term == "cif_id" then "client_id" else if term == "booking_center" then "booking_center_code" else term
  }

  function CanonicalTerm(name: string): string {
    Modern(SnakeCase(DropBrackets(LastSegment(name))))
  }

  const ID_PREFIX := "lotus."

  function SemanticId(name: string): string {
    ID_PREFIX + CanonicalTerm(name)
  }

  /** The path in front of a property does not change its term. */
  lemma {:induction false} TermIgnoresPrefix(prefix: string, name: string)
    ensures CanonicalTerm(prefix + "." + name) == CanonicalTerm(name)
  {
    LastSegmentOf(prefix, name);
  }

  lemma {:induction false} LastSegmentOf(prefix: string, name: string)
    ensures LastSegment(prefix + "." + name) == LastSegment(name)
  {
    var whole := prefix + "." + name;
    assert whole[|prefix|] == '.';
    if prefix == "" {
      assert whole[1..] == name;
    } else {
      assert whole[1..] == prefix[1..] + "." + name;
      LastSegmentOf(prefix[1..], name);
    }
  }

  lemma NeverLegacy(name: string)
    ensures !IsLegacy(CanonicalTerm(name))
  {
  }

  // ---------------------------------------------------------------- fields and catalog

  /** A field as extraction records it: its full name, and the id of its own property name. */
  datatype Field = Field(name: string, location: string, type_: string, semanticId: string)

  /** A parameter (empty prefix) or a property under `prefix`. */
  function FieldOf(prefix: string, property: string, location: string, type_: string): Field {
    Field(if prefix == "" then property else prefix + "." + property, location, type_, SemanticId(property))
  }

  ghost predicate Extracted(f: Field) {
    exists prefix, property :: f == FieldOf(prefix, property, f.location, f.type_)
  }

  lemma ExtractedTerm(f: Field)
    requires Extracted(f)
    ensures f.semanticId == ID_PREFIX + CanonicalTerm(f.name)
  {
    var prefix, property :| f == FieldOf(prefix, property, f.location, f.type_);
    if prefix != "" {
      TermIgnoresPrefix(prefix, property);
    }
  }

  datatype Attribute = Attribute(semanticId: string, canonicalTerm: string, preferredName: string,
                                 locations: seq<string>, observedTypes: seq<string>)

  /** What a catalog says of the fields it was built from: one entry for each id and no other, under its own id, with
      exactly the locations and types of its fields, each once. */
  ghost predicate Describes(catalog: map<string, Attribute>, fields: seq<Field>) {
    && (forall id :: id in catalog <==> exists f :: f in fields && f.semanticId == id)
    && (forall id :: id in catalog ==> WellNamed(id, catalog[id]) && Observes(catalog[id], id, fields))
  }

  ghost predicate Observes(a: Attribute, id: string, fields: seq<Field>) {
    && (forall l :: l in a.locations <==> exists f :: f in fields && f.semanticId == id && f.location == l)
    && (forall t :: t in a.observedTypes <==> exists f :: f in fields && f.semanticId == id && f.type_ == t)
  }

  predicate WellNamed(id: string, a: Attribute) {
    && a.semanticId == id && id == ID_PREFIX + a.canonicalTerm
    && a.preferredName == a.canonicalTerm && !IsLegacy(a.canonicalTerm)
    && Distinct(a.locations) && Distinct(a.observedTypes)
  }

  function With(items: seq<string>, item: string): seq<string> {
    if item in items then items else items + [item]
  }

  /** `attribute_catalog_map`, filled endpoint by endpoint. */
  class Catalog {
    var entries: map<string, Attribute>

    constructor ()
      ensures entries == map[]
    {
      entries := map[];
    }

    /** `_record_attribute_fields`, after `before` was recorded. */
    method Record(fields: seq<Field>, ghost before: seq<Field>)
      requires Describes(entries, before) && forall f :: f in fields ==> Extracted(f)
      modifies this
      ensures Describes(entries, before + fields)
    {
      assert before + fields[..0] == before;
      for i := 0 to |fields|
        invariant Describes(entries, before + fields[..i])
      {
        hide Describes;
        ghost var was := entries;
        var f := fields[i];
        if f.semanticId !in entries {
          var term := CanonicalTerm(f.name);
          entries := entries[f.semanticId := Attribute(f.semanticId, term, term, [f.location], [f.type_])];
        } else {
          var a := entries[f.semanticId];
          entries := entries[f.semanticId := a.(locations := With(a.locations, f.location),
                                                observedTypes := With(a.observedTypes, f.type_))];
        }
        RecordStep(was, before + fields[..i], f, entries);
        assert before + fields[..i] + [f] == before + fields[..i + 1];
      }
      assert fields[..|fields|] == fields;
    }
  }

  function Recorded(catalog: map<string, Attribute>, f: Field): map<string, Attribute> {
    if f.semanticId !in catalog then
      catalog[f.semanticId := Attribute(f.semanticId, CanonicalTerm(f.name), CanonicalTerm(f.name), [f.location],
          [f.type_])]
    else
      var a := catalog[f.semanticId];
      catalog[f.semanticId := a.(locations := With(a.locations, f.location),
          observedTypes := With(a.observedTypes, f.type_))]
  }

  lemma ObservesOther(a: Attribute, id: string, fields: seq<Field>, f: Field)
    requires Observes(a, id, fields) && id != f.semanticId
    ensures Observes(a, id, fields + [f])
  {
  }

  lemma ObservesMore(a: Attribute, id: string, fields: seq<Field>, f: Field)
    requires Observes(a, id, fields) && id == f.semanticId && Distinct(a.locations) && Distinct(a.observedTypes)
    ensures var b := a.(locations := With(a.locations, f.location), observedTypes := With(a.observedTypes, f.type_));
            Observes(b, id, fields + [f]) && Distinct(b.locations) && Distinct(b.observedTypes)
  {
  }

  lemma ObservesFirst(fields: seq<Field>, f: Field)
    requires forall g :: g in fields ==> g.semanticId != f.semanticId
    ensures Observes(Attribute(f.semanticId, CanonicalTerm(f.name), CanonicalTerm(f.name), [f.location], [f.type_]),
        f.semanticId, fields + [f])
    ensures Distinct([f.location]) && Distinct([f.type_])
  {
  }

  lemma RecordStep(catalog: map<string, Attribute>, fields: seq<Field>, f: Field, next: map<string, Attribute>)
    requires Describes(catalog, fields) && Extracted(f) && next == Recorded(catalog, f)
    ensures Describes(next, fields + [f])
  {
    hide CanonicalTerm, IsLegacy, Extracted, With, Distinct, Observes;
    ExtractedTerm(f);
    NeverLegacy(f.name);
    forall id | id in next
      ensures WellNamed(id, next[id]) && Observes(next[id], id, fields + [f])
    {
      if id != f.semanticId {
        ObservesOther(catalog[id], id, fields, f);
      } else if id in catalog {
        ObservesMore(catalog[id], id, fields, f);
        assert WellNamed(id, catalog[id]);
      } else {
        ObservesFirst(fields, f);
      }
    }
  }

  // ---------------------------------------------------------------- the checks

  datatype Error = MissingId | DuplicateId(id: string) | NameMismatch(id: string) | NotSnakeCase(id: string)
      | LegacyTerm(id: string)

  predicate IsSnakeCase(s: string) {
    s != "" && 'a' <= s[0] <= 'z' && forall i :: 0 <= i < |s| ==>
        'a' <= s[i] <= 'z' || '0' <= s[i] <= '9' || s[i] == '_'
  }

  /** The identity checks of `_validate_attribute_catalog`, in catalog order. */
  method ValidateCatalog(attributes: seq<Attribute>) returns (errors: seq<Error>)
    ensures forall e :: e in errors <==> exists k :: 0 <= k < |attributes| && IsError(e, attributes, k)
  {
    errors := [];
    var seen: set<string> := {};
    for k := 0 to |attributes|
      invariant forall id :: id in seen <==> id != "" && exists j :: 0 <= j < k && attributes[j].semanticId == id
      invariant forall e :: e in errors <==> exists j :: 0 <= j < k && IsError(e, attributes, j)
    {
      var found := IdentityErrors(attributes[k], seen);
      assert forall e :: e in found <==> IsError(e, attributes, k) by {
        IdentityErrorsAre(attributes, k, seen);
      }
      hide IsError;
      assert forall e :: (exists j :: 0 <= j < k + 1 && IsError(e, attributes, j)) <==>
          (exists j :: 0 <= j < k && IsError(e, attributes, j)) || IsError(e, attributes, k);
      errors := errors + found;
      if attributes[k].semanticId != "" {
        seen := seen + {attributes[k].semanticId};
      }
    }
  }

  /** `_validate_attribute_identity`. */
  function IdentityErrors(a: Attribute, seen: set<string>): seq<Error> {
    if a.semanticId == "" then [MissingId]
    else
      (if a.semanticId in seen then [DuplicateId(a.semanticId)] else [])
      + (if a.canonicalTerm != a.preferredName then [NameMismatch(a.semanticId)] else [])
      + (if !IsSnakeCase(a.canonicalTerm) then [NotSnakeCase(a.semanticId)] else [])
      + (if IsLegacy(a.canonicalTerm) then [LegacyTerm(a.semanticId)] else [])
  }

  lemma IdentityErrorsAre(attributes: seq<Attribute>, k: nat, seen: set<string>)
    requires k < |attributes|
    requires forall id :: id in seen <==> id != "" && exists j :: 0 <= j < k && attributes[j].semanticId == id
    ensures forall e :: e in IdentityErrors(attributes[k], seen) <==> IsError(e, attributes, k)
  {
    hide IsSnakeCase, IsLegacy;
  }

  predicate IsError(e: Error, attributes: seq<Attribute>, k: nat)
    requires k < |attributes|
  {
    var a := attributes[k];
    match e
    case MissingId => a.semanticId == ""
    case DuplicateId(id) => id != "" && a.semanticId == id && exists j :: 0 <= j < k && attributes[j].semanticId == id
    case NameMismatch(id) => id != "" && a.semanticId == id && a.canonicalTerm != a.preferredName
    case NotSnakeCase(id) => id != "" && a.semanticId == id && !IsSnakeCase(a.canonicalTerm)
    case LegacyTerm(id) => id != "" && a.semanticId == id && IsLegacy(a.canonicalTerm)
  }

  /** The catalog values listed under distinct ids, in whatever order. */
  ghost predicate Lists(attributes: seq<Attribute>, catalog: map<string, Attribute>) {
    && (forall a :: a in attributes <==> a.semanticId in catalog && catalog[a.semanticId] == a)
    && (forall i, j :: 0 <= i < j < |attributes| ==> attributes[i].semanticId != attributes[j].semanticId)
  }

  /** A built catalog can only fail the snake-case check: it has no missing or repeated id, no disagreement between
      canonical and preferred name, and no legacy term. */
  lemma BuiltCatalogErrors(catalog: map<string, Attribute>, fields: seq<Field>, attributes: seq<Attribute>, e: Error,
                           k: nat)
    requires Describes(catalog, fields) && Lists(attributes, catalog)
    requires k < |attributes| && IsError(e, attributes, k)
    ensures e.NotSnakeCase? && !IsSnakeCase(attributes[k].canonicalTerm)
  {
  }

  /** The entry of a field carries the canonical term of the field's name. */
  lemma EntryTerm(catalog: map<string, Attribute>, fields: seq<Field>, f: Field)
    requires Describes(catalog, fields) && f in fields && Extracted(f)
    ensures f.semanticId in catalog && catalog[f.semanticId].canonicalTerm == CanonicalTerm(f.name)
  {
    hide CanonicalTerm;
    ExtractedTerm(f);
    var term := catalog[f.semanticId].canonicalTerm;
    assert WellNamed(f.semanticId, catalog[f.semanticId]);
    assert (ID_PREFIX + term)[|ID_PREFIX|..] == term;
    assert (ID_PREFIX + CanonicalTerm(f.name))[|ID_PREFIX|..] == CanonicalTerm(f.name);
  }

  /** Exactly when a built catalog passes: every field has a name whose canonical term is in snake case. */
  lemma BuiltCatalogPassesIff(catalog: map<string, Attribute>, fields: seq<Field>, attributes: seq<Attribute>)
    requires Describes(catalog, fields) && Lists(attributes, catalog) && forall f :: f in fields ==> Extracted(f)
    ensures (forall e, k :: 0 <= k < |attributes| ==> !IsError(e, attributes, k))
       <==> forall f :: f in fields ==> IsSnakeCase(CanonicalTerm(f.name))
  {
    hide CanonicalTerm, IsSnakeCase, Extracted;
    if forall f :: f in fields ==> IsSnakeCase(CanonicalTerm(f.name)) {
      forall e, k | 0 <= k < |attributes| ensures !IsError(e, attributes, k) {
        if IsError(e, attributes, k) {
          BuiltCatalogErrors(catalog, fields, attributes, e, k);
          assert attributes[k] in attributes;
          var f :| f in fields && f.semanticId == attributes[k].semanticId;
          EntryTerm(catalog, fields, f);
        }
      }
    } else {
      var f :| f in fields && !IsSnakeCase(CanonicalTerm(f.name));
      EntryTerm(catalog, fields, f);
      var k := ReferencesResolve(catalog, fields, attributes, f);
      assert attributes[k] in attributes;
      assert ID_PREFIX[0] == 'l' && WellNamed(f.semanticId, catalog[f.semanticId]);
      assert IsError(NotSnakeCase(f.semanticId), attributes, k);
    }
  }

  /** A property named by a digit is one whose term is not in snake case. */
  lemma DigitIsNotSnakeCase()
    ensures !IsSnakeCase(CanonicalTerm("1"))
  {
    assert LastSegment("1") == "1" && DropBrackets("1") == "1" by {
      assert DropBrackets("") == "" && "1"[1..] == "";
    }
    assert Text.Camel("1") == "1";
    assert StripUnderscores("1") == "1";
    assert SnakeCase("1") == "1";
  }

  /** Every field's reference resolves to exactly one catalog entry, which knows the field's place and type. */
  lemma ReferencesResolve(catalog: map<string, Attribute>, fields: seq<Field>, attributes: seq<Attribute>, f: Field)
      returns (k: nat)
    requires Describes(catalog, fields) && Lists(attributes, catalog) && f in fields
    ensures k < |attributes| && attributes[k].semanticId == f.semanticId
    ensures forall j :: 0 <= j < |attributes| && attributes[j].semanticId == f.semanticId ==> j == k
    ensures f.location in attributes[k].locations && f.type_ in attributes[k].observedTypes
  {
    var a := catalog[f.semanticId];
    assert WellNamed(f.semanticId, a);
    assert a in attributes;
    k :| 0 <= k < |attributes| && attributes[k] == a;
  }
}
