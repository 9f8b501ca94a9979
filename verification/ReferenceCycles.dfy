/** On which documents inference and repair come to an end, although nothing guards them against reference cycles. */
module ReferenceCycles {
  import opened Common
  import opened Json
  import opened SchemaExamples
  import opened RepairTermination
  import opened RepairOutcome
  import opened RepairDefaults

  // ---------------------------------------------------------------- exactly when repair always returns

  /** What has to end at `t` itself: inference where an example may be replaced, and the chains of additions that the
      required properties start. */
  ghost predicate EndsHere(t: Schema, c: Components)
    requires t.Schema?
  {
    && (Replaces(t) ==> Inferable(t, c))
    && (t.properties.Table? ==> forall k :: k in t.required && Property(t, k).Schema? ==>
        ChainEnds(k, Property(t, k), c))
  }

  /** The schemas repair may descend to from `t`. */
  ghost predicate DescendsTo(t: Schema, p: Schema)
    requires t.Schema?
  {
    && p.Schema?
    && (|| (t.kind == Some("array") && t.items == Some(p))
        || (t.properties.Table? && exists key :: Property(t, key) == p)
        || (!t.properties.Table? && t.kind == Some("object") && t.additional == p))
  }

  ghost predicate EndsWithin(d: nat, s: Schema, c: Components)
    requires s.Schema?
  {
    var t := Resolve(s, c);
    EndsHere(t, c) && (d > 0 ==> forall p :: DescendsTo(t, p) ==> EndsWithin(d - 1, p, c))
  }

  /** Everything that has to end does, wherever repair may descend to. */
  ghost predicate AlwaysEnds(s: Schema, c: Components)
    requires s.Schema?
  {
    forall d: nat :: EndsWithin(d, s, c)
  }

  /** Repair returns for every example exactly when, wherever it may descend to, inference returns for the examples it
      replaces and no endless chain of additions starts with a required property. */
  lemma TotalIff(s: Schema, c: Components)
    requires s.Schema?
    ensures Total(s, c) <==> AlwaysEnds(s, c)
  {
    if Total(s, c) {
      forall d: nat ensures EndsWithin(d, s, c) {
        TotalEnds(d, s, c);
      }
    } else if AlwaysEnds(s, c) {
      forall ex ensures RepairableAt(ex, Resolve(s, c), c) {
        EndsSupplied(ex, s, c);
        forall k, p | Lacks(ex, s, c, k, p) ensures ChainEnds(k, p, c) {
          EndsLacks(ex, s, c, k, p);
        }
        RepairableIff(ex, s, c);
      }
    }
  }

  lemma {:induction false} TotalEnds(d: nat, s: Schema, c: Components)
    requires s.Schema? && Total(s, c)
    ensures EndsWithin(d, s, c)
  {
    hide Resolve, Infer, Inferable, RepairAtReturns, ChainEnds;
    var t := Resolve(s, c);
    if Replaces(t) {
      var ex := ReplacedExample(t);
      ReplacedInferable(ex, t, c);
    }
    if t.properties.Table? {
      forall k | k in t.required && Property(t, k).Schema? ensures ChainEnds(k, Property(t, k), c) {
        assert !HasKey(Obj([]).entries, k);
        assert Lacks(Obj([]), s, c, k, Property(t, k));
        RepairableIff(Obj([]), s, c);
      }
    }
    if d > 0 {
      forall p | DescendsTo(t, p) ensures EndsWithin(d - 1, p, c) {
        TotalDescends(t, p, c);
        TotalEnds(d - 1, p, c);
      }
    }
  }

  lemma TotalItems(t: Schema, c: Components)
    requires t.Schema? && TotalAt(t, c) && t.kind == Some("array") && t.items.Some? && t.items.value.Schema?
    ensures Total(t.items.value, c)
  {
    hide Resolve, RepairAtReturns;
    forall v ensures RepairableAt(v, Resolve(t.items.value, c), c) {
      assert Visits(Arr([v]), t, c, v, t.items.value);
      VisitsShallower(Arr([v]), t, c, v, t.items.value);
    }
  }

  lemma TotalProperty(t: Schema, key: string, c: Components)
    requires t.Schema? && TotalAt(t, c) && t.properties.Table? && Property(t, key).Schema?
    ensures Total(Property(t, key), c)
  {
    hide Resolve, RepairAtReturns, AddMissing;
    forall v ensures RepairableAt(v, Resolve(Property(t, key), c), c) {
      var e := Entry(key, v);
      var ex := Obj([e]);
      RepairAtProperties("", ex, t, c);
      var full := AddMissing(ex.entries, t.required, t, c);
      assert full[0] == e;
      assert Visits(ex, t, c, v, Property(t, key));
      VisitsShallower(ex, t, c, v, Property(t, key));
    }
  }

  lemma TotalAdditional(t: Schema, c: Components)
    requires t.Schema? && TotalAt(t, c) && !t.properties.Table? && t.kind == Some("object") && t.additional.Schema?
    ensures Total(t.additional, c)
  {
    hide Resolve, RepairAtReturns;
    forall v ensures RepairableAt(v, Resolve(t.additional, c), c) {
      var e := Entry("", v);
      assert e in Obj([e]).entries;
      assert Visits(Obj([e]), t, c, v, t.additional);
      VisitsShallower(Obj([e]), t, c, v, t.additional);
    }
  }

  lemma TotalDescends(t: Schema, p: Schema, c: Components)
    requires t.Schema? && TotalAt(t, c) && DescendsTo(t, p)
    ensures Total(p, c)
  {
    hide Resolve, Total, TotalAt;
    if t.kind == Some("array") && t.items == Some(p) {
      TotalItems(t, c);
    } else if t.properties.Table? && exists key :: Property(t, key) == p {
      var key :| Property(t, key) == p;
      TotalProperty(t, key, c);
    } else {
      TotalAdditional(t, c);
    }
  }

  lemma EndsInside(s: Schema, p: Schema, c: Components)
    requires s.Schema? && AlwaysEnds(s, c) && DescendsTo(Resolve(s, c), p)
    ensures AlwaysEnds(p, c)
  {
    forall d: nat ensures EndsWithin(d, p, c) {
      assert EndsWithin(d + 1, s, c);
    }
  }

  lemma {:induction false} EndsSupplied(v: Value, s: Schema, c: Components)
    requires s.Schema? && AlwaysEnds(s, c)
    ensures Supplied(v, s, c)
    decreases v
  {
    hide Resolve, Infer, Inferable, Chains;
    var t := Resolve(s, c);
    assert EndsWithin(0, s, c);
    forall p | DescendsTo(t, p) ensures AlwaysEnds(p, c) {
      EndsInside(s, p, c);
    }
    match BranchOf(v, t)
    case Items =>
      forall i | 0 <= i < |v.items| ensures Supplied(v.items[i], t.items.value, c) {
        EndsSupplied(v.items[i], t.items.value, c);
      }
    case Properties =>
      forall k | k in t.required && Property(t, k).Schema? ensures Inferable(Property(t, k), c) {
        var n: nat :| Chains(n, k, Property(t, k), c);
        ChainsInferable(n, k, Property(t, k), c);
      }
      forall i | 0 <= i < |v.entries| ensures SuppliedIn(v.entries[i], Property(t, v.entries[i].key), c) {
        assert v.entries[i] < v;
        if Property(t, v.entries[i].key).Schema? {
          EndsSupplied(v.entries[i].value, Property(t, v.entries[i].key), c);
        }
      }
    case Additional =>
      forall i | 0 <= i < |v.entries| ensures SuppliedIn(v.entries[i], t.additional, c) {
        assert v.entries[i] < v;
        EndsSupplied(v.entries[i].value, t.additional, c);
      }
    case Scalar =>
  }

  lemma {:induction false} EndsLacks(v: Value, s: Schema, c: Components, k: string, p: Schema)
    requires s.Schema? && AlwaysEnds(s, c) && Lacks(v, s, c, k, p)
    ensures ChainEnds(k, p, c)
    decreases v
  {
    hide Resolve, ChainEnds;
    var t := Resolve(s, c);
    assert EndsWithin(0, s, c);
    forall q | DescendsTo(t, q) ensures AlwaysEnds(q, c) {
      EndsInside(s, q, c);
    }
    if BranchOf(v, t) == Items {
      var i :| 0 <= i < |v.items| && Lacks(v.items[i], t.items.value, c, k, p);
      EndsLacks(v.items[i], t.items.value, c, k, p);
    } else if BranchOf(v, t) == Additional {
      var i :| 0 <= i < |v.entries| && LacksIn(v.entries[i], t.additional, c, k, p);
      assert v.entries[i] < v;
      EndsLacks(v.entries[i].value, t.additional, c, k, p);
    } else if exists i :: 0 <= i < |v.entries| && LacksIn(v.entries[i], Property(t, v.entries[i].key), c, k, p) {
      var i :| 0 <= i < |v.entries| && LacksIn(v.entries[i], Property(t, v.entries[i].key), c, k, p);
      assert v.entries[i] < v;
      EndsLacks(v.entries[i].value, Property(t, v.entries[i].key), c, k, p);
    }
  }

  /** A value visited in an object is one of its own, or an inferred one that was added. */
  lemma VisitedProperty(ex: Value, t: Schema, c: Components, v: Value, p: Schema)
    requires t.Schema? && BranchOf(ex, t) == Properties && Visits(ex, t, c, v, p)
    ensures p.Schema? && DescendsTo(t, p)
    ensures v < ex || exists k :: k in t.required && Property(t, k) == p && Inferable(p, c) && v == Infer(k, p, c)
  {
    hide Infer, Inferable, AddMissing;
    var e :| e in AddMissing(ex.entries, t.required, t, c) && Property(t, e.key) == p && p.Schema? && e.value == v;
    AddedWhere(ex.entries, t.required, t, c, e);
    if e in ex.entries {
      assert e == Entry(e.key, e.value) && v < ex;
    }
  }

  // ---------------------------------------------------------------- acyclic documents

  /** Every reference inside `s` leads to a component of rank below `n`. */
  ghost predicate Below(s: Schema, rank: map<string, nat>, n: nat) {
    s.Schema? ==>
      && (s.ref.Some? && Referent(s.ref.value) in rank ==> rank[Referent(s.ref.value)] < n)
      && forall p | IsPart(p, s) :: (PartsSmaller(s); Below(p, rank, n))
  }

  ghost predicate Ranked(c: Components, rank: map<string, nat>) {
    rank.Keys == c.Keys && forall m :: m in c ==> Below(c[m], rank, rank[m])
  }

  /** The reference graph of the components has no cycle at all. */
  ghost predicate Acyclic(c: Components) {
    exists rank :: Ranked(c, rank)
  }

  lemma {:induction false} BelowInferable(s: Schema, c: Components, rank: map<string, nat>, n: nat)
    requires s.Schema? && Ranked(c, rank) && Below(s, rank, n)
    ensures Inferable(s, c)
    decreases n, s
  {
    forall p | p in Continues(s, c) ensures Inferable(p, c) {
      ContinuesBelow(s, c, rank, n, p);
      if RefersToModel(s, c) && !HasDefault(s) {
        BelowInferable(p, c, rank, rank[RefName(s.ref.value).value]);
      } else {
        BelowInferable(p, c, rank, n);
      }
    }
    var d := OneInferBound(Continues(s, c), c);
    assert InferReturns(d + 1, s, c);
  }

  lemma ContinuesBelow(s: Schema, c: Components, rank: map<string, nat>, n: nat, p: Schema)
    requires s.Schema? && Ranked(c, rank) && Below(s, rank, n) && p in Continues(s, c)
    ensures if RefersToModel(s, c) && !HasDefault(s)
            then var m := RefName(s.ref.value).value; m in rank && rank[m] < n && Below(p, rank, rank[m])
            else p < s && Below(p, rank, n)
  {
    PartsSmaller(s);
    if RefersToModel(s, c) && !HasDefault(s) {
      var m := RefName(s.ref.value).value;
      assert Referent(s.ref.value) == m && Below(c[m], rank, rank[m]);
      if c[m].properties.Table? {
        var k :| k in SelectedNames(c[m]) && Property(c[m], k) == p;
        assert IsPart(p, c[m]);
      }
    } else {
      assert IsPart(p, s);
    }
  }

  lemma {:induction false} OneInferBound(ps: seq<Schema>, c: Components) returns (d: nat)
    requires forall p :: p in ps ==> p.Schema? && Inferable(p, c)
    ensures forall p :: p in ps ==> InferReturns(d, p, c)
  {
    if ps == [] {
      d := 0;
    } else {
      assert ps == [ps[0]] + ps[1..];
      var rest := OneInferBound(ps[1..], c);
      var first := InferDepth(ps[0], c);
      d := if first < rest then rest else first;
      forall p | p in ps ensures InferReturns(d, p, c) {
        InferReturnsMore(if p == ps[0] then first else rest, d, p, c);
      }
    }
  }

  lemma {:induction false} BelowTotal(s: Schema, c: Components, rank: map<string, nat>, n: nat)
    requires s.Schema? && Ranked(c, rank) && Below(s, rank, n)
    ensures Total(s, c)
    decreases n, s
  {
    var t, m := ResolveBelow(s, c, rank, n);
    PartsSmaller(t);
    BelowInferable(t, c, rank, m);
    forall p | DescendsTo(t, p) ensures Inferable(p, c) && Total(p, c) {
      assert IsPart(p, t);
      BelowInferable(p, c, rank, m);
      BelowTotal(p, c, rank, m);
    }
    forall ex ensures RepairableAt(ex, t, c) {
      PartsTotal(ex, t, c);
    }
  }

  lemma {:induction false} ResolveBelow(s: Schema, c: Components, rank: map<string, nat>, n: nat)
        returns (t: Schema, m: nat)
    requires s.Schema? && Ranked(c, rank) && Below(s, rank, n)
    ensures t == Resolve(s, c) && Below(t, rank, m) && (m < n || (m == n && (t == s || t < s)))
    decreases s
  {
    if s.ref.Some? && Referent(s.ref.value) in c && c[Referent(s.ref.value)].Schema? {
      t, m := c[Referent(s.ref.value)], rank[Referent(s.ref.value)];
    } else if Candidate(s).Schema? {
      PartsSmaller(s);
      assert IsPart(Candidate(s), s);
      t, m := ResolveBelow(Candidate(s), c, rank, n);
    } else {
      t, m := s, n;
    }
  }

  lemma PartsTotal(ex: Value, t: Schema, c: Components)
    requires t.Schema? && Inferable(t, c) && forall p :: DescendsTo(t, p) ==> Inferable(p, c) && Total(p, c)
    ensures RepairableAt(ex, t, c)
  {
    hide Resolve, Infer, Inferable;
    if BranchOf(ex, t) == Scalar {
      assert RepairAtReturns(0, ex, t, c);
    } else {
      if BranchOf(ex, t) == Properties {
        forall k | Property(t, k).Schema? ensures Inferable(Property(t, k), c) {
          assert DescendsTo(t, Property(t, k));
        }
      }
      forall v, p | Visits(ex, t, c, v, p) ensures p.Schema? && Repairable(v, p, c) {
        if BranchOf(ex, t) == Properties {
          VisitedProperty(ex, t, c, v, p);
        }
        assert DescendsTo(t, p);
      }
      RepairableFromVisits(ex, t, c);
    }
  }

  /** Without reference cycles inference and repair return for every schema and every example. */
  lemma AcyclicReturns(c: Components, s: Schema)
    requires Acyclic(c) && s.Schema?
    ensures (forall m :: m in c && c[m].Schema? ==> Inferable(c[m], c) && Total(c[m], c))
    ensures (exists m :: m in c && c[m].Schema? && IsPart(s, c[m])) ==> Inferable(s, c) && Total(s, c)
  {
    var rank :| Ranked(c, rank);
    forall m | m in c && c[m].Schema?
      ensures Inferable(c[m], c) && Total(c[m], c) && (IsPart(s, c[m]) ==> Inferable(s, c) && Total(s, c))
    {
      BelowInferable(c[m], c, rank, rank[m]);
      BelowTotal(c[m], c, rank, rank[m]);
      if IsPart(s, c[m]) {
        BelowInferable(s, c, rank, rank[m]);
        BelowTotal(s, c, rank, rank[m]);
      }
    }
  }

  // ---------------------------------------------------------------- cycles that do no harm, and one that does

  function RefTo(model: string): Schema {
    BLANK.(ref := Some("#/components/schemas/" + model))
  }

  /** A model that refers to itself through an optional property. */
  const TREE: Schema :=
    BLANK.(properties := Table([Entry("id", BLANK.(kind := Some("string"))), Entry("parent", RefTo("Tree"))]),
        required := ["id"])

  const TREES: Components := map["Tree" := TREE]

  lemma TreesNotAcyclic()
    ensures !Acyclic(TREES)
  {
    forall rank ensures !Ranked(TREES, rank) {
      if Ranked(TREES, rank) {
        assert Below(TREES["Tree"], rank, rank["Tree"]);
        assert TREE.properties.entries[1].value == RefTo("Tree");
        assert IsPart(RefTo("Tree"), TREE);
      }
    }
  }

  /** Inference and repair return on the recursive model, for every example. */
  lemma TreesReturn()
    ensures Inferable(TREE, TREES) && Inferable(RefTo("Tree"), TREES) && Total(TREE, TREES)
    ensures Total(RefTo("Tree"), TREES)
  {
    var id := BLANK.(kind := Some("string"));
    assert InferReturns(1, id, TREES) && InferReturns(1, TREE, TREES);
    assert Property(TREE, "id") == id;
    assert Declared(["id"], TREE) == [id] by {
      assert Declared([], TREE) == [];
    }
    assert Continues(RefTo("Tree"), TREES) == [id];
    assert InferReturns(2, RefTo("Tree"), TREES);
    forall d: nat ensures EndsWithin(d, TREE, TREES) && EndsWithin(d, RefTo("Tree"), TREES) {
      TreesEndWithin(d);
    }
    TotalIff(TREE, TREES);
    TotalIff(RefTo("Tree"), TREES);
  }

  lemma {:induction false} TreesEndWithin(d: nat)
    ensures EndsWithin(d, TREE, TREES) && EndsWithin(d, RefTo("Tree"), TREES)
    ensures EndsWithin(d, BLANK.(kind := Some("string")), TREES)
  {
    var id := BLANK.(kind := Some("string"));
    assert Resolve(TREE, TREES) == TREE && Resolve(RefTo("Tree"), TREES) == TREE && Resolve(id, TREES) == id;
    assert InferReturns(1, id, TREES);
    assert Property(TREE, "id") == id;
    assert Chains(0, "id", id, TREES) && ChainEnds("id", id, TREES);
    assert EndsHere(TREE, TREES) && EndsHere(id, TREES);
    if d > 0 {
      TreesEndWithin(d - 1);
      forall p | DescendsTo(TREE, p) ensures EndsWithin(d - 1, p, TREES) {
        var key :| Property(TREE, key) == p;
        assert Entry(key, p) in TREE.properties.entries;
      }
    }
  }

  /** The cycle that does harm is one inference does not see: the first alternative is a constant of type null, which
      repair passes over, so that every value it adds lacks the property it was added for. */
  const HIDDEN: Schema :=
    BLANK.(properties := Table([Entry("next",
        BLANK.(anyOf := [BLANK.(kind := Some("null"), constant := Obj([])), RefTo("Hidden")]))]),
           required := ["next"])

  const HIDDENS: Components := map["Hidden" := HIDDEN]

  /** Inference returns everywhere, and yet repair of the empty object does not: the chain of additions that starts with
      `next` has no end, so not every example can be repaired. */
  lemma HiddenNeverReturns()
    ensures Inferable(HIDDEN, HIDDENS) && forall s :: IsPart(s, HIDDEN) && s.Schema? ==> Inferable(s, HIDDENS)
    ensures !ChainEnds("next", HIDDEN.properties.entries[0].value, HIDDENS)
    ensures !Repairable(Obj([]), HIDDEN, HIDDENS)
  {
    var next := HIDDEN.properties.entries[0].value;
    HiddenInfers();
    assert InferReturns(1, HIDDEN, HIDDENS);
    forall s | IsPart(s, HIDDEN) && s.Schema? ensures s == next {
    }
    forall n: nat ensures !Chains(n, "next", next, HIDDENS) {
      HiddenChain(n);
    }
    assert Resolve(HIDDEN, HIDDENS) == HIDDEN && Property(HIDDEN, "next") == next && !HasKey(Obj([]).entries, "next");
    assert Lacks(Obj([]), HIDDEN, HIDDENS, "next", next);
    RepairableIff(Obj([]), HIDDEN, HIDDENS);
  }

  lemma HiddenInfers()
    ensures var next := HIDDEN.properties.entries[0].value;
            Inferable(next, HIDDENS) && Infer("next", next, HIDDENS) == Obj([])
  {
    var next := HIDDEN.properties.entries[0].value;
    var none := next.anyOf[0];
    assert InferReturns(1, none, HIDDENS);
    assert FirstAlternative(next) == none && HasDefault(none);
    assert Continues(next, HIDDENS) == [none];
    assert InferReturns(2, next, HIDDENS);
  }

  lemma {:induction false} HiddenChain(n: nat)
    ensures !Chains(n, "next", HIDDEN.properties.entries[0].value, HIDDENS)
  {
    var next := HIDDEN.properties.entries[0].value;
    HiddenInfers();
    assert next.anyOf[1..][0] == RefTo("Hidden");
    assert Resolve(RefTo("Hidden"), HIDDENS) == HIDDEN;
    assert FirstNonNull(next.anyOf) == FirstNonNull(next.anyOf[1..]) == RefTo("Hidden");
    assert Candidate(next) == RefTo("Hidden") && Resolve(next, HIDDENS) == HIDDEN;
    assert Property(HIDDEN, "next") == next && !HasKey(Obj([]).entries, "next");
    assert Lacks(Obj([]), next, HIDDENS, "next", next);
    if n > 0 {
      HiddenChain(n - 1);
    }
  }
}
