/** On which documents field extraction comes to an end, although nothing guards it against reference cycles. */
module ExtractionTermination {
  import opened Common
  import opened Json
  import opened ApiFields
  import opened Descent

  // ---------------------------------------------------------------- exactly when extraction ends

  /** Extraction from `s` extracts from `p` next. */
  ghost predicate LeadsTo(s: Schema, p: Schema, c: Components) {
    s.Schema? && exists k :: HasNested(Resolve(s, c).properties, k, c) && NestedAt(Resolve(s, c).properties, k, c) == p
  }

  ghost function Steps(c: Components): (Schema, Schema) -> bool {
    (s, p) => LeadsTo(s, p, c)
  }

  /** Extraction comes to an end exactly when, following what it follows, no schema comes back. */
  lemma ExtractableIffNoCycle(s: Schema, c: Components)
    requires s.Schema?
    ensures Extractable(s, c) <==> !ComesBack(s, Steps(c))
  {
    hide ExtractReturns, Ends, LeadsTo;
    if d: nat :| ExtractReturns(d, s, c) {
      ReturnsPositive(d, s, c);
      ReturnsIsEnds(d - 1, s, c);
    }
    if EndsAtLast(s, Anything, Steps(c)) {
      var d: nat :| Ends(d, s, Anything, Steps(c));
      ReturnsIsEnds(d, s, c);
    }
    forall p, q | p in Universe(s, c) && Steps(c)(p, q) ensures q in Universe(s, c) {
      StepInside(p, q, s, c);
    }
    EndsIff(s, Anything, Steps(c), Universe(s, c));
  }

  lemma ReturnsPositive(d: nat, s: Schema, c: Components)
    requires s.Schema? && ExtractReturns(d, s, c)
    ensures d > 0
  {
  }

  lemma {:induction false} ReturnsIsEnds(d: nat, s: Schema, c: Components)
    requires s.Schema?
    ensures ExtractReturns(d + 1, s, c) <==> Ends(d, s, Anything, Steps(c))
  {
    hide Nested, Resolve;
    var properties := Resolve(s, c).properties;
    forall k | HasNested(properties, k, c)
      ensures Steps(c)(s, NestedAt(properties, k, c))
      ensures d > 0 ==> (ExtractReturns(d, NestedAt(properties, k, c), c) <==>
          Ends(d - 1, NestedAt(properties, k, c), Anything, Steps(c)))
    {
      if d > 0 {
        ReturnsIsEnds(d - 1, NestedAt(properties, k, c), c);
      }
    }
  }

  // ---------------------------------------------------------------- the schemas inside a document

  /** The schemas inside `s` that extraction may get to without following a reference. */
  function Inside(s: Schema): (all: set<Schema>)
    ensures s in all
  {
    if !s.Schema? then {s} else {s} + InsideAll(s.properties) + (if s.items.Some? then Inside(s.items.value) else {})
  }

  function InsideAll(entries: seq<Entry<Schema>>): (all: set<Schema>)
    ensures forall e, p :: e in entries && p in Inside(e.value) ==> p in all
    ensures forall p :: p in all ==> exists e :: e in entries && p in Inside(e.value)
  {
    if entries == [] then {}
    else
      assert entries == [entries[0]] + entries[1..];
      Inside(entries[0].value) + InsideAll(entries[1..])
  }

  /** Everything inside `s` and inside the components. */
  ghost function Universe(s: Schema, c: Components): set<Schema> {
    Inside(s) + set m, p | m in c && p in Inside(c[m]) :: p
  }

  /** What is inside a schema inside `s` is inside `s`. */
  lemma {:induction false} InsideTransitive(s: Schema, p: Schema, q: Schema)
    requires p in Inside(s) && q in Inside(p)
    ensures q in Inside(s)
    decreases s
  {
    if p != s {
      if s.items.Some? && p in Inside(s.items.value) {
        InsideTransitive(s.items.value, p, q);
      } else {
        var e :| e in s.properties && p in Inside(e.value);
        InsideTransitive(e.value, p, q);
      }
    }
  }

  lemma StepInside(p: Schema, q: Schema, s: Schema, c: Components)
    requires p in Universe(s, c) && LeadsTo(p, q, c)
    ensures q in Universe(s, c)
  {
    NestedInside(p, q, c);
    var t := Resolve(p, c);
    if t == p {
      if p in Inside(s) {
        InsideTransitive(s, p, q);
      } else {
        var m :| m in c && p in Inside(c[m]);
        InsideTransitive(c[m], p, q);
      }
    }
  }

  /** Extraction gets to a property of the resolved schema, or to the items of one. */
  lemma NestedInside(p: Schema, q: Schema, c: Components)
    requires LeadsTo(p, q, c)
    ensures var t := Resolve(p, c); q in Inside(t) && q < t && (t == p || exists m :: m in c && t == c[m])
  {
    var t := Resolve(p, c);
    var k :| HasNested(t.properties, k, c) && NestedAt(t.properties, k, c) == q;
    var e := t.properties[k];
    assert e in t.properties && e.value < t;
    if q != e.value {
      assert e.value.ref.None? && Resolve(e.value, c) == e.value && e.value.items == Some(q);
      assert q in Inside(e.value);
    }
  }

  // ---------------------------------------------------------------- acyclic documents

  /** Every reference that extraction may find inside `s` leads to a component of rank below `n`. */
  predicate Below(s: Schema, rank: map<string, nat>, n: nat) {
    s.Schema? ==>
      && (s.ref.Some? && LastPart(s.ref.value) in rank ==> rank[LastPart(s.ref.value)] < n)
      && (forall e :: e in s.properties ==> Below(e.value, rank, n))
      && (s.items.Some? ==> Below(s.items.value, rank, n))
  }

  ghost predicate Ranked(c: Components, rank: map<string, nat>) {
    rank.Keys == c.Keys && forall m :: m in c ==> Below(c[m], rank, rank[m])
  }

  ghost predicate Acyclic(c: Components) {
    exists rank :: Ranked(c, rank)
  }

  /** Where the components do not refer to each other in a cycle, extraction ends on every schema. */
  lemma AcyclicExtractable(s: Schema, c: Components)
    requires s.Schema? && Acyclic(c)
    ensures Extractable(s, c)
  {
    var rank :| Ranked(c, rank);
    var n := Bound(rank);
    AllBelow(s, rank, n);
    BelowExtractable(s, c, rank, n);
  }

  lemma {:induction false} BelowExtractable(s: Schema, c: Components, rank: map<string, nat>, n: nat)
    requires s.Schema? && Ranked(c, rank) && Below(s, rank, n)
    ensures Extractable(s, c)
    decreases n, s
  {
    var t := Resolve(s, c);
    forall k | HasNested(t.properties, k, c) ensures Extractable(NestedAt(t.properties, k, c), c) {
      var q := NestedAt(t.properties, k, c);
      NestedInside(s, q, c);
      if t == s {
        BelowInside(s, q, rank, n);
        BelowExtractable(q, c, rank, n);
      } else {
        var m := LastPart(s.ref.value);
        BelowInside(t, q, rank, rank[m]);
        BelowExtractable(q, c, rank, rank[m]);
      }
    }
    var d := OneBound(t.properties, c, |t.properties|);
    assert ExtractReturns(d + 1, s, c);
  }

  lemma {:induction false} BelowInside(s: Schema, q: Schema, rank: map<string, nat>, n: nat)
    requires Below(s, rank, n) && q in Inside(s)
    ensures Below(q, rank, n)
    decreases s
  {
    if q != s {
      if s.items.Some? && q in Inside(s.items.value) {
        BelowInside(s.items.value, q, rank, n);
      } else {
        var e :| e in s.properties && q in Inside(e.value);
        BelowInside(e.value, q, rank, n);
      }
    }
  }

  lemma {:induction false} OneBound(properties: seq<Entry<Schema>>, c: Components, n: nat) returns (d: nat)
    requires forall k :: HasNested(properties, k, c) ==> Extractable(NestedAt(properties, k, c), c)
    ensures forall k :: k < n && HasNested(properties, k, c) ==> ExtractReturns(d, NestedAt(properties, k, c), c)
  {
    hide Nested, ExtractReturns;
    if n == 0 {
      d := 0;
    } else {
      var rest := OneBound(properties, c, n - 1);
      d := rest;
      if HasNested(properties, n - 1, c) {
        var e: nat :| ExtractReturns(e, NestedAt(properties, n - 1, c), c);
        d := if e < rest then rest else e;
        ReturnsMore(e, d, NestedAt(properties, n - 1, c), c);
      }
      forall k | k < n - 1 && HasNested(properties, k, c) ensures ExtractReturns(d, NestedAt(properties, k, c), c) {
        ReturnsMore(rest, d, NestedAt(properties, k, c), c);
      }
    }
  }

  lemma {:induction false} ReturnsMore(d: nat, e: nat, s: Schema, c: Components)
    requires s.Schema? && ExtractReturns(d, s, c) && d <= e
    ensures ExtractReturns(e, s, c)
  {
    var properties := Resolve(s, c).properties;
    forall k | HasNested(properties, k, c) ensures ExtractReturns(e - 1, NestedAt(properties, k, c), c) {
      ReturnsMore(d - 1, e - 1, NestedAt(properties, k, c), c);
    }
  }

  lemma AcyclicBodyReturns(body: Option<Schema>, c: Components)
    requires Acyclic(c)
    ensures BodyReturns(body, c)
  {
    if body.Some? && body.value.Schema? {
      AcyclicExtractable(body.value, c);
    }
  }

  lemma {:induction false} Bound(rank: map<string, nat>) returns (n: nat)
    ensures forall m :: m in rank ==> rank[m] < n
    decreases |rank|
  {
    if rank == map[] {
      n := 0;
    } else {
      var some :| some in rank;
      var rest := Bound(rank - {some});
      n := if rest <= rank[some] then rank[some] + 1 else rest;
      assert forall m :: m in rank ==> m == some || m in rank - {some};
    }
  }

  lemma {:induction false} AllBelow(s: Schema, rank: map<string, nat>, n: nat)
    requires forall m :: m in rank ==> rank[m] < n
    ensures Below(s, rank, n)
  {
    if s.Schema? {
      forall e | e in s.properties ensures Below(e.value, rank, n) {
        AllBelow(e.value, rank, n);
      }
      if s.items.Some? {
        AllBelow(s.items.value, rank, n);
      }
    }
  }

  // ---------------------------------------------------------------- a component that refers to itself

  const TO_NODE: Schema := EMPTY.(ref := Some("#/components/schemas/Node"))

  const NODES: Components := map["Node" := EMPTY.(properties := [Entry("next", TO_NODE)])]

  /** A list node: its one property is a reference to the node itself. */
  lemma SelfReferenceNeverEnds()
    ensures ComesBack(TO_NODE, Steps(NODES)) && !Extractable(TO_NODE, NODES)
  {
    hide LastPart, ExtractReturns;
    LastPartNode();
    var node := NODES["Node"];
    assert Resolve(TO_NODE, NODES) == node && node.properties[0].value == TO_NODE;
    assert HasNested(node.properties, 0, NODES) && NestedAt(node.properties, 0, NODES) == TO_NODE;
    var chain := [TO_NODE, TO_NODE];
    assert LeadsTo(TO_NODE, TO_NODE, NODES) && IsChain(chain, Steps(NODES)) && chain[0] == chain[1] && Repeats(chain);
    ExtractableIffNoCycle(TO_NODE, NODES);
  }

  lemma LastPartNode()
    ensures LastPart("#/components/schemas/Node") == "Node"
  {
    LastPartAfter("#/components/schemas", "Node");
    assert "#/components/schemas" + "/" + "Node" == "#/components/schemas/Node";
  }

  lemma {:induction false} LastPartAfter(prefix: string, name: string)
    requires '/' !in name
    ensures LastPart(prefix + "/" + name) == name
  {
    var whole := prefix + "/" + name;
    assert whole[|prefix|] == '/';
    if prefix == "" {
      assert whole[1..] == name;
    } else {
      assert whole[1..] == prefix[1..] + "/" + name;
      LastPartAfter(prefix[1..], name);
    }
  }
}
