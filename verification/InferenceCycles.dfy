/** What has to come back for inference, or for the additions of repair, never to end. */
module InferenceCycles {
  import opened Common
  import opened Json
  import opened SchemaExamples
  import opened RepairTermination
  import opened Descent

  // ---------------------------------------------------------------- the schemas inside a document

  function Parts(s: Schema): (parts: seq<Schema>)
    requires s.Schema?
    ensures forall p :: p in parts <==> IsPart(p, s)
  {
    s.allOf + s.anyOf + s.oneOf + [s.additional] + PropertySchemas(s.properties) +
        (if s.items.Some? then [s.items.value] else [])
  }

  /** `s` and every schema inside it, without following references. */
  ghost function Inside(s: Schema): (all: set<Schema>)
    ensures s in all
  {
    if !s.Schema? then {s} else {s} + set part, p | part in Parts(s) && part < s && p in Inside(part) :: p
  }

  lemma PartInside(s: Schema, part: Schema, p: Schema)
    requires s.Schema? && IsPart(part, s) && p in Inside(part)
    ensures p in Inside(s)
  {
    PartsSmaller(s);
  }

  lemma {:induction false} InsideTransitive(s: Schema, p: Schema, q: Schema)
    requires p in Inside(s) && q in Inside(p)
    ensures q in Inside(s)
    decreases s
  {
    if p != s {
      var part :| part in Parts(s) && part < s && p in Inside(part);
      InsideTransitive(part, p, q);
      PartInside(s, part, q);
    }
  }

  /** Everything inside `s` and inside the components. */
  ghost function Universe(s: Schema, c: Components): set<Schema> {
    Inside(s) + set m, p | m in c && p in Inside(c[m]) :: p
  }

  lemma PartInUniverse(x: Schema, p: Schema, s: Schema, c: Components)
    requires x in Universe(s, c) && x.Schema? && IsPart(p, x)
    ensures p in Universe(s, c)
  {
    PartInside(x, p, p);
    if x in Inside(s) {
      InsideTransitive(s, x, p);
    } else {
      var m :| m in c && x in Inside(c[m]);
      InsideTransitive(c[m], x, p);
    }
  }

  lemma ComponentInUniverse(m: string, s: Schema, c: Components)
    requires m in c
    ensures c[m] in Universe(s, c)
  {
    assert c[m] in Inside(c[m]);
    hide Inside;
  }

  // ---------------------------------------------------------------- exactly when inference ends

  ghost function InferSteps(c: Components): (Schema, Schema) -> bool {
    (s: Schema, p: Schema) => s.Schema? && p in Continues(s, c)
  }

  /** Inference comes to an end exactly when, following what it follows, no schema comes back. */
  lemma InferableIffNoCycle(s: Schema, c: Components)
    requires s.Schema?
    ensures Inferable(s, c) <==> !ComesBack(s, InferSteps(c))
  {
    hide InferReturns, Ends, Continues;
    if d: nat :| InferReturns(d, s, c) {
      InferPositive(d, s, c);
      InferIsEnds(d - 1, s, c);
    }
    if EndsAtLast(s, Anything, InferSteps(c)) {
      var d: nat :| Ends(d, s, Anything, InferSteps(c));
      InferIsEnds(d, s, c);
    }
    forall p, q | p in Universe(s, c) && InferSteps(c)(p, q) ensures q in Universe(s, c) {
      InferStepInside(p, q, s, c);
    }
    EndsIff(s, Anything, InferSteps(c), Universe(s, c));
  }

  lemma InferPositive(d: nat, s: Schema, c: Components)
    requires s.Schema? && InferReturns(d, s, c)
    ensures d > 0
  {
  }

  lemma {:induction false} InferIsEnds(d: nat, s: Schema, c: Components)
    requires s.Schema?
    ensures InferReturns(d + 1, s, c) <==> Ends(d, s, Anything, InferSteps(c))
  {
    hide Continues;
    forall p | p in Continues(s, c)
      ensures InferSteps(c)(s, p) && (d > 0 ==> (InferReturns(d, p, c) <==> Ends(d - 1, p, Anything, InferSteps(c))))
    {
      if d > 0 {
        InferIsEnds(d - 1, p, c);
      }
    }
  }

  lemma InferStepInside(p: Schema, q: Schema, s: Schema, c: Components)
    requires p in Universe(s, c) && p.Schema? && q in Continues(p, c)
    ensures q in Universe(s, c)
  {
    if RefersToModel(p, c) && !HasDefault(p) {
      var m := RefName(p.ref.value).value;
      ComponentInUniverse(m, s, c);
      if c[m].properties.Table? {
        var k :| k in SelectedNames(c[m]) && Property(c[m], k) == q;
        PartInUniverse(c[m], q, s, c);
      }
    } else {
      assert IsPart(q, p);
      PartInUniverse(p, q, s, c);
    }
  }

  // ---------------------------------------------------------------- exactly when the additions end

  /** A required property whose example is added. */
  datatype Needed = Needed(key: string, schema: Schema)

  ghost predicate InferredHere(n: Needed, c: Components) {
    n.schema.Schema? && Inferable(n.schema, c) && Supplied(Infer(n.key, n.schema, c), n.schema, c)
  }

  ghost function Inferred(c: Components): Needed -> bool {
    n => InferredHere(n, c)
  }

  /** What the example added for `a` lacks is added next. */
  ghost function AddSteps(c: Components): (Needed, Needed) -> bool {
    (a: Needed, b: Needed) => InferredHere(a, c) && Lacks(Infer(a.key, a.schema, c), a.schema, c, b.key, b.schema)
  }

  /** The chains of additions that start with a property end exactly when no property comes back among those added, and
      inference supplies each of them. */
  lemma ChainEndsIffNoCycle(k: string, p: Schema, c: Components)
    ensures ChainEnds(k, p, c) <==>
      !ComesBack(Needed(k, p), AddSteps(c)) && AllReached(Needed(k, p), Inferred(c), AddSteps(c))
  {
    hide Chains, Ends, Lacks, InferredHere;
    var start := Needed(k, p);
    if ChainEnds(k, p, c) {
      var n: nat :| Chains(n, k, p, c);
      ChainsIsEnds(n, start, c);
    }
    if EndsAtLast(start, Inferred(c), AddSteps(c)) {
      var n: nat :| Ends(n, start, Inferred(c), AddSteps(c));
      EndsSchema(n, start, c);
      ChainsIsEnds(n, start, c);
    }
    var universe := {start} + DeclaredIn(Universe(p, c));
    forall a, b | a in universe && AddSteps(c)(a, b) ensures b in universe {
      AddStepInside(a, b, p, c);
    }
    EndsIff(start, Inferred(c), AddSteps(c), universe);
  }

  lemma EndsSchema(n: nat, a: Needed, c: Components)
    requires Ends(n, a, Inferred(c), AddSteps(c))
    ensures a.schema.Schema?
  {
  }

  lemma {:induction false} ChainsIsEnds(n: nat, a: Needed, c: Components)
    requires a.schema.Schema?
    ensures Chains(n, a.key, a.schema, c) <==> Ends(n, a, Inferred(c), AddSteps(c))
  {
    hide Lacks, Supplied, Infer, Inferable;
    if Chains(n, a.key, a.schema, c) {
      forall b | AddSteps(c)(a, b) ensures n > 0 && Ends(n - 1, b, Inferred(c), AddSteps(c)) {
        assert Lacks(Infer(a.key, a.schema, c), a.schema, c, b.key, b.schema);
        assert n > 0 && b.schema.Schema? && Chains(n - 1, b.key, b.schema, c);
        ChainsIsEnds(n - 1, b, c);
      }
    } else if Ends(n, a, Inferred(c), AddSteps(c)) {
      forall j, q | Lacks(Infer(a.key, a.schema, c), a.schema, c, j, q)
          ensures n > 0 && q.Schema? && Chains(n - 1, j, q, c) {
        assert AddSteps(c)(a, Needed(j, q));
        EndsSchema(n - 1, Needed(j, q), c);
        ChainsIsEnds(n - 1, Needed(j, q), c);
      }
    }
  }

  ghost function DeclaredIn(schemas: set<Schema>): set<Needed> {
    set t, e | t in schemas && t.Schema? && t.properties.Table? && e in t.properties.entries :: Needed(e.key, e.value)
  }

  lemma AddStepInside(a: Needed, b: Needed, p: Schema, c: Components)
    requires a.schema == p || a in DeclaredIn(Universe(p, c))
    requires AddSteps(c)(a, b)
    ensures b in DeclaredIn(Universe(p, c))
  {
    hide Lacks, Infer, Inferable, Supplied;
    assert a.schema in Universe(p, c) by {
      if a in DeclaredIn(Universe(p, c)) {
        var t, e :| t in Universe(p, c) && t.Schema? && t.properties.Table? && e in t.properties.entries &&
            a == Needed(e.key, e.value);
        var i :| 0 <= i < |t.properties.entries| && t.properties.entries[i] == e;
        assert PropertySchemas(t.properties)[i] == e.value;
        PartInUniverse(t, e.value, p, c);
      }
    }
    assert InferredHere(a, c);
    LackDeclared(Infer(a.key, a.schema, c), a.schema, p, c, b);
  }

  /** What a value lacks is declared somewhere in the document. */
  lemma {:induction false} LackDeclared(v: Value, x: Schema, s: Schema, c: Components, b: Needed)
    requires x in Universe(s, c) && x.Schema? && Lacks(v, x, c, b.key, b.schema)
    ensures b in DeclaredIn(Universe(s, c))
    decreases v
  {
    hide Resolve, Universe;
    ResolveInUniverse(x, s, c);
    var t := Resolve(x, c);
    match BranchOf(v, t)
    case Items =>
      var i :| 0 <= i < |v.items| && Lacks(v.items[i], t.items.value, c, b.key, b.schema);
      PartInUniverse(t, t.items.value, s, c);
      LackDeclared(v.items[i], t.items.value, s, c, b);
    case Additional =>
      var i :| 0 <= i < |v.entries| && LacksIn(v.entries[i], t.additional, c, b.key, b.schema);
      assert v.entries[i] < v;
      PartInUniverse(t, t.additional, s, c);
      LackDeclared(v.entries[i].value, t.additional, s, c, b);
    case Properties =>
      if i :| 0 <= i < |v.entries| && LacksIn(v.entries[i], Property(t, v.entries[i].key), c, b.key, b.schema) {
        var p := Property(t, v.entries[i].key);
        assert v.entries[i] < v;
        PartInUniverse(t, p, s, c);
        LackDeclared(v.entries[i].value, p, s, c, b);
      } else {
        assert Entry(b.key, b.schema) in t.properties.entries;
      }
    case Scalar =>
  }

  lemma {:induction false} ResolveInUniverse(x: Schema, s: Schema, c: Components)
    requires x in Universe(s, c) && x.Schema?
    ensures Resolve(x, c) in Universe(s, c)
    decreases x
  {
    hide Universe;
    if x.ref.Some? && Referent(x.ref.value) in c && c[Referent(x.ref.value)].Schema? {
      ComponentInUniverse(Referent(x.ref.value), s, c);
    } else if Candidate(x).Schema? {
      PartsSmaller(x);
      PartInUniverse(x, Candidate(x), s, c);
      ResolveInUniverse(Candidate(x), s, c);
    }
  }
}
