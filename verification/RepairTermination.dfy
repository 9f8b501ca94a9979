/** When the repair of an example comes to an end, although nothing guards it against reference cycles. */
module RepairTermination {
  import opened Common
  import opened Json
  import opened SchemaExamples

  // ---------------------------------------------------------------- one bound for finitely many repairs

  lemma {:induction false} RepairReturnsMore(d: nat, e: nat, ex: Value, s: Schema, c: Components)
    requires s.Schema? && RepairReturns(d, ex, s, c) && d <= e
    ensures RepairReturns(e, ex, s, c)
    decreases d
  {
    hide Resolve, Infer, Inferable, AddMissing;
    var t := Resolve(s, c);
    match BranchOf(ex, t)
    case Items =>
      assert ItemsReturn(d - 1, ex.items, t.items.value, c);
      forall v | v in ex.items ensures RepairReturns(e - 1, v, t.items.value, c) {
        RepairReturnsMore(d - 1, e - 1, v, t.items.value, c);
      }
      assert ItemsReturn(e - 1, ex.items, t.items.value, c);
    case Properties =>
      assert DeclaredReturn(d - 1, AddMissing(ex.entries, t.required, t, c), t, c);
      forall x | x in AddMissing(ex.entries, t.required, t, c) && Property(t, x.key).Schema?
        ensures RepairReturns(e - 1, x.value, Property(t, x.key), c)
      {
        RepairReturnsMore(d - 1, e - 1, x.value, Property(t, x.key), c);
      }
      assert DeclaredReturn(e - 1, AddMissing(ex.entries, t.required, t, c), t, c);
    case Additional =>
      assert EntriesReturn(d - 1, ex.entries, t.additional, c);
      forall x | x in ex.entries ensures RepairReturns(e - 1, x.value, t.additional, c) {
        RepairReturnsMore(d - 1, e - 1, x.value, t.additional, c);
      }
      assert EntriesReturn(e - 1, ex.entries, t.additional, c);
    case Scalar =>
  }

  /** One bound for finitely many repairs. */
  lemma {:induction false} OneBound(vs: seq<Value>, ps: seq<Schema>, c: Components) returns (d: nat)
    requires |vs| == |ps| && forall i :: 0 <= i < |vs| ==> ps[i].Schema? && Repairable(vs[i], ps[i], c)
    ensures forall i :: 0 <= i < |vs| ==> RepairReturns(d, vs[i], ps[i], c)
  {
    hide Resolve, RepairAtReturns;
    if vs == [] {
      d := 0;
    } else {
      var rest := OneBound(vs[1..], ps[1..], c);
      var first: nat :| RepairAtReturns(first, vs[0], Resolve(ps[0], c), c);
      d := if first < rest then rest else first;
      forall i | 0 <= i < |vs| ensures RepairReturns(d, vs[i], ps[i], c) {
        if i == 0 {
          assert RepairReturns(first, vs[0], ps[0], c);
          RepairReturnsMore(first, d, vs[0], ps[0], c);
        } else {
          assert RepairReturns(rest, vs[1..][i - 1], ps[1..][i - 1], c);
          RepairReturnsMore(rest, d, vs[i], ps[i], c);
        }
      }
    }
  }

  /** Repair returns when inference returns for what it adds, and repair returns for whatever it visits. */
  lemma RepairableFromVisits(ex: Value, t: Schema, c: Components)
    requires t.Schema? && BranchOf(ex, t) != Scalar
    requires BranchOf(ex, t) == Properties ==> AddsInferable(ex.entries, t.required, t, c)
    requires forall v, p :: Visits(ex, t, c, v, p) ==> p.Schema? && Repairable(v, p, c)
    ensures RepairableAt(ex, t, c)
  {
    hide Resolve, Infer, Inferable, AddMissing, Repairable;
    match BranchOf(ex, t)
    case Items => RepairableItems(ex, t, c);
    case Properties => RepairableProperties(ex, t, c);
    case Additional => RepairableAdditional(ex, t, c);
  }

  lemma RepairableItems(ex: Value, t: Schema, c: Components)
    requires t.Schema? && BranchOf(ex, t) == Items
    requires forall v, p :: Visits(ex, t, c, v, p) ==> p.Schema? && Repairable(v, p, c)
    ensures RepairableAt(ex, t, c)
  {
    hide Resolve, Repairable;
    forall i | 0 <= i < |ex.items| ensures Repairable(ex.items[i], t.items.value, c) {
      assert Visits(ex, t, c, ex.items[i], t.items.value);
    }
    var d := OneBound(ex.items, seq(|ex.items|, i => t.items.value), c);
    forall v | v in ex.items ensures RepairReturns(d, v, t.items.value, c) {
      var i :| 0 <= i < |ex.items| && ex.items[i] == v;
    }
    assert RepairAtReturns(d + 1, ex, t, c);
  }

  lemma RepairableAdditional(ex: Value, t: Schema, c: Components)
    requires t.Schema? && BranchOf(ex, t) == Additional
    requires forall v, p :: Visits(ex, t, c, v, p) ==> p.Schema? && Repairable(v, p, c)
    ensures RepairableAt(ex, t, c)
  {
    hide Resolve, Repairable;
    var vs := seq(|ex.entries|, i requires 0 <= i < |ex.entries| => ex.entries[i].value);
    forall i | 0 <= i < |vs| ensures Repairable(vs[i], t.additional, c) {
      assert Visits(ex, t, c, vs[i], t.additional);
    }
    var d := OneBound(vs, seq(|vs|, i => t.additional), c);
    forall e | e in ex.entries ensures RepairReturns(d, e.value, t.additional, c) {
      var i :| 0 <= i < |ex.entries| && ex.entries[i] == e;
      assert vs[i] == e.value;
    }
    assert RepairAtReturns(d + 1, ex, t, c);
  }

  lemma RepairableProperties(ex: Value, t: Schema, c: Components)
    requires t.Schema? && BranchOf(ex, t) == Properties && AddsInferable(ex.entries, t.required, t, c)
    requires forall v, p :: Visits(ex, t, c, v, p) ==> p.Schema? && Repairable(v, p, c)
    ensures RepairableAt(ex, t, c)
  {
    hide Resolve, Infer, Inferable, AddMissing, Repairable;
    var full := AddMissing(ex.entries, t.required, t, c);
    var d := OneBoundDeclared(full, ex, t, c);
    assert RepairAtReturns(d + 1, ex, t, c);
  }

  lemma {:induction false} OneBoundDeclared(entries: seq<Entry<Value>>, ex: Value, t: Schema, c: Components)
        returns (d: nat)
    requires t.Schema? && BranchOf(ex, t) == Properties && AddsInferable(ex.entries, t.required, t, c)
    requires forall v, p :: Visits(ex, t, c, v, p) ==> p.Schema? && Repairable(v, p, c)
    requires forall e :: e in entries ==> e in AddMissing(ex.entries, t.required, t, c)
    ensures forall e :: e in entries && Property(t, e.key).Schema? ==> RepairReturns(d, e.value, Property(t, e.key), c)
  {
    hide Resolve, Infer, Inferable, AddMissing, Repairable;
    if entries == [] {
      d := 0;
    } else {
      var first := entries[0];
      assert entries == [first] + entries[1..];
      var rest := OneBoundDeclared(entries[1..], ex, t, c);
      d := rest;
      if Property(t, first.key).Schema? {
        assert Visits(ex, t, c, first.value, Property(t, first.key));
        var one := OneBound([first.value], [Property(t, first.key)], c);
        assert RepairReturns(one, [first.value][0], [Property(t, first.key)][0], c);
        d := if one < rest then rest else one;
        RepairReturnsMore(one, d, first.value, Property(t, first.key), c);
      }
      forall e | e in entries[1..] && Property(t, e.key).Schema?
          ensures RepairReturns(d, e.value, Property(t, e.key), c) {
        RepairReturnsMore(rest, d, e.value, Property(t, e.key), c);
      }
    }
  }

  // ---------------------------------------------------------------- adding what is missing

  /** Adding the missing required keys leaves nothing to add. */
  lemma {:induction false} AddMissingComplete(entries: seq<Entry<Value>>, required: seq<string>, t: Schema,
                                              c: Components)
    requires t.Schema? && t.properties.Table? && AddsInferable(entries, required, t, c)
    ensures forall k :: k in required && Property(t, k).Schema? ==> HasKey(AddMissing(entries, required, t, c), k)
  {
    hide Infer, Inferable;
    if required != [] {
      var last := required[|required| - 1];
      var init := required[..|required| - 1];
      AddMissingComplete(entries, init, t, c);
      var before, after := AddMissing(entries, init, t, c), AddMissing(entries, required, t, c);
      assert required == init + [last];
      forall k | k in required && Property(t, k).Schema?
        ensures HasKey(after, k)
      {
        if HasKey(before, k) {
          var i :| 0 <= i < |before| && before[i].key == k;
          assert after[i].key == k;
        } else {
          assert k == last;
          assert after[|before|].key == k;
        }
      }
    }
  }

  lemma {:induction false} AddMissingNothing(entries: seq<Entry<Value>>, required: seq<string>, t: Schema,
                                             c: Components)
    requires t.Schema? && t.properties.Table?
    requires forall k :: k in required && Property(t, k).Schema? ==> HasKey(entries, k)
    ensures AddsInferable(entries, required, t, c) && AddMissing(entries, required, t, c) == entries
  {
    hide Infer, Inferable;
    if required != [] {
      var last := required[|required| - 1];
      assert last in required;
      AddMissingNothing(entries, required[..|required| - 1], t, c);
    }
  }

  ghost predicate IsAdded(entries: seq<Entry<Value>>, required: seq<string>, t: Schema, c: Components, e: Entry<Value>)
    requires t.Schema? && t.properties.Table? && AddsInferable(entries, required, t, c)
  {
    e.key in required && !HasKey(entries, e.key) && Property(t, e.key).Schema? &&
        e.value == Infer(e.key, Property(t, e.key), c)
  }

  lemma {:induction false} AddedWhere(entries: seq<Entry<Value>>, required: seq<string>, t: Schema, c: Components,
                                      e: Entry<Value>)
    requires t.Schema? && t.properties.Table? && AddsInferable(entries, required, t, c)
    ensures e in AddMissing(entries, required, t, c) <==> e in entries || IsAdded(entries, required, t, c, e)
  {
    hide Infer, Inferable, Property;
    if required != [] {
      var init, last := required[..|required| - 1], required[|required| - 1];
      assert forall k :: k in required <==> k in init || k == last;
      AddedWhere(entries, init, t, c, e);
      var before := AddMissing(entries, init, t, c);
      if HasKey(before, last) && !HasKey(entries, last) {
        var i :| 0 <= i < |before| && before[i].key == last;
        AddedWhere(entries, init, t, c, before[i]);
      }
      KeysKept(entries, before);
    }
  }

  lemma KeysKept(entries: seq<Entry<Value>>, more: seq<Entry<Value>>)
    requires entries <= more
    ensures forall k :: HasKey(entries, k) ==> HasKey(more, k)
  {
    forall k | HasKey(entries, k) ensures HasKey(more, k) {
      var i :| 0 <= i < |entries| && entries[i].key == k;
      assert more[i].key == k;
    }
  }

  // ---------------------------------------------------------------- exactly when repair returns

  /** Somewhere inside `v` an object lacks the required property `k`, which is declared with schema `p`. */
  ghost predicate Lacks(v: Value, s: Schema, c: Components, k: string, p: Schema)
    requires s.Schema?
    decreases v
  {
    var t := Resolve(s, c);
    match BranchOf(v, t)
    case Items => exists i :: 0 <= i < |v.items| && Lacks(v.items[i], t.items.value, c, k, p)
    case Properties =>
      || (k in t.required && !HasKey(v.entries, k) && Property(t, k) == p && p.Schema?)
      || (exists i :: 0 <= i < |v.entries| && LacksIn(v.entries[i], Property(t, v.entries[i].key), c, k, p))
    case Additional => exists i :: 0 <= i < |v.entries| && LacksIn(v.entries[i], t.additional, c, k, p)
    case Scalar => false
  }

  ghost predicate LacksIn(e: Entry<Value>, s: Schema, c: Components, k: string, p: Schema)
    decreases e
  {
    s.Schema? && Lacks(e.value, s, c, k, p)
  }

  /** Inference returns wherever a value inside `v` is missing or violates a scalar rule. */
  ghost predicate Supplied(v: Value, s: Schema, c: Components)
    requires s.Schema?
    decreases v
  {
    var t := Resolve(s, c);
    match BranchOf(v, t)
    case Items => forall i :: 0 <= i < |v.items| ==> Supplied(v.items[i], t.items.value, c)
    case Properties =>
      && AddsInferable(v.entries, t.required, t, c)
      && (forall i :: 0 <= i < |v.entries| ==> SuppliedIn(v.entries[i], Property(t, v.entries[i].key), c))
    case Additional => forall i :: 0 <= i < |v.entries| ==> SuppliedIn(v.entries[i], t.additional, c)
    case Scalar => Violates(v, t) ==> Inferable(t, c)
  }

  ghost predicate SuppliedIn(e: Entry<Value>, s: Schema, c: Components)
    decreases e
  {
    s.Schema? ==> Supplied(e.value, s, c)
  }

  /** The example inferred for `k` may lack properties, whose examples may lack properties in turn: at most `n`
      times. */
  ghost predicate Chains(n: nat, k: string, p: Schema, c: Components)
    requires p.Schema?
  {
    && Inferable(p, c) && Supplied(Infer(k, p, c), p, c)
    && forall j, q | Lacks(Infer(k, p, c), p, c, j, q) :: n > 0 && q.Schema? && Chains(n - 1, j, q, c)
  }

  /** No endless chain of additions starts with `k`. */
  ghost predicate ChainEnds(k: string, p: Schema, c: Components) {
    p.Schema? && exists n: nat :: Chains(n, k, p, c)
  }

  lemma ChainsInferable(n: nat, k: string, p: Schema, c: Components)
    requires p.Schema? && Chains(n, k, p, c)
    ensures Inferable(p, c)
  {
  }

  /** Repair of an example returns exactly when inference supplies what is missing or wrong in it, and no endless chain
      of additions starts with a property it lacks. */
  lemma RepairableIff(v: Value, s: Schema, c: Components)
    requires s.Schema?
    ensures Repairable(v, s, c) <==> Supplied(v, s, c) && forall k, p :: Lacks(v, s, c, k, p) ==> ChainEnds(k, p, c)
  {
    hide Resolve, Infer, Inferable, Lacks, Supplied, Chains;
    if Repairable(v, s, c) {
      var d: nat :| RepairAtReturns(d, v, Resolve(s, c), c);
      assert RepairReturns(d, v, s, c);
      ReturnsSupplied(d, v, s, c);
      forall k, p | Lacks(v, s, c, k, p) ensures ChainEnds(k, p, c) {
        LackReturns(d, v, s, c, k, p);
        ReturnsChains(d - 1, k, p, c);
      }
    } else if Supplied(v, s, c) && forall k, p :: Lacks(v, s, c, k, p) ==> ChainEnds(k, p, c) {
      forall k, p | Lacks(v, s, c, k, p) ensures p.Schema? && Inferable(p, c) && Repairable(Infer(k, p, c), p, c) {
        assert ChainEnds(k, p, c);
        var n: nat :| Chains(n, k, p, c);
        ChainsInferable(n, k, p, c);
        ChainsReturn(n, k, p, c);
      }
      SuppliedReturns(v, s, c);
    }
  }

  /** Where repair returns it visits each value inside, the one added for a lacking property among them. */
  lemma {:induction false} LackReturns(d: nat, v: Value, s: Schema, c: Components, k: string, p: Schema)
    requires s.Schema? && RepairReturns(d, v, s, c) && Lacks(v, s, c, k, p)
    ensures p.Schema? && Inferable(p, c) && d > 0 && RepairReturns(d - 1, Infer(k, p, c), p, c)
    decreases v, 0
  {
    hide Resolve, Infer, Inferable, RepairAtReturns;
    var t := Resolve(s, c);
    if BranchOf(v, t) == Items {
      var i :| 0 <= i < |v.items| && Lacks(v.items[i], t.items.value, c, k, p);
      LackVisited(d, v, t, c, v.items[i], t.items.value, k, p);
    } else if BranchOf(v, t) == Additional {
      var i :| 0 <= i < |v.entries| && LacksIn(v.entries[i], t.additional, c, k, p);
      assert v.entries[i] < v;
      LackVisited(d, v, t, c, v.entries[i].value, t.additional, k, p);
    } else if exists i :: 0 <= i < |v.entries| && LacksIn(v.entries[i], Property(t, v.entries[i].key), c, k, p) {
      var i :| 0 <= i < |v.entries| && LacksIn(v.entries[i], Property(t, v.entries[i].key), c, k, p);
      assert v.entries[i] < v;
      PropertiesAdd(d, v, t, c);
      assert v.entries[i] in AddMissing(v.entries, t.required, t, c);
      LackVisited(d, v, t, c, v.entries[i].value, Property(t, v.entries[i].key), k, p);
    } else {
      PropertiesAdd(d, v, t, c);
      var e := Entry(k, Infer(k, p, c));
      AddedWhere(v.entries, t.required, t, c, e);
      VisitReturns(d, v, t, c, e.value, p);
      assert RepairReturns(d - 1, e.value, p, c);
    }
  }

  lemma PropertiesAdd(d: nat, v: Value, t: Schema, c: Components)
    requires t.Schema? && RepairAtReturns(d, v, t, c) && BranchOf(v, t) == Properties
    ensures AddsInferable(v.entries, t.required, t, c)
  {
  }

  lemma {:induction false} LackVisited(d: nat, v: Value, t: Schema, c: Components, w: Value, q: Schema, k: string,
                                       p: Schema)
    requires t.Schema? && RepairAtReturns(d, v, t, c) && Visits(v, t, c, w, q) && w < v && q.Schema?
    requires Lacks(w, q, c, k, p)
    ensures p.Schema? && Inferable(p, c) && d > 0 && RepairReturns(d - 1, Infer(k, p, c), p, c)
    decreases w, 1
  {
    hide Resolve, Infer, Inferable, RepairAtReturns, Visits, Lacks;
    VisitReturns(d, v, t, c, w, q);
    assert RepairReturns(d - 1, w, q, c);
    LackReturns(d - 1, w, q, c, k, p);
    RepairReturnsMore(d - 2, d - 1, Infer(k, p, c), p, c);
  }

  lemma {:induction false} ReturnsSupplied(d: nat, v: Value, s: Schema, c: Components)
    requires s.Schema? && RepairReturns(d, v, s, c)
    ensures Supplied(v, s, c)
    decreases v
  {
    hide Resolve, Infer, Inferable, RepairAtReturns, AddMissing;
    var t := Resolve(s, c);
    forall w, p | Visits(v, t, c, w, p) && w < v ensures p.Schema? && Supplied(w, p, c) {
      VisitReturns(d, v, t, c, w, p);
      assert RepairReturns(d - 1, w, p, c);
      ReturnsSupplied(d - 1, w, p, c);
    }
    match BranchOf(v, t)
    case Items =>
      assert forall i :: 0 <= i < |v.items| ==> Visits(v, t, c, v.items[i], t.items.value);
    case Properties =>
      PropertiesAdd(d, v, t, c);
      forall i | 0 <= i < |v.entries| ensures SuppliedIn(v.entries[i], Property(t, v.entries[i].key), c) {
        assert v.entries[i] < v && v.entries[i] in AddMissing(v.entries, t.required, t, c);
        assert Property(t, v.entries[i].key).Schema? ==>
            Visits(v, t, c, v.entries[i].value, Property(t, v.entries[i].key));
      }
    case Additional =>
      forall i | 0 <= i < |v.entries| ensures SuppliedIn(v.entries[i], t.additional, c) {
        assert v.entries[i] < v && Visits(v, t, c, v.entries[i].value, t.additional);
      }
    case Scalar =>
      if Violates(v, t) {
        ScalarReturns(d, v, t, c);
      }
  }

  lemma ScalarReturns(d: nat, v: Value, t: Schema, c: Components)
    requires t.Schema? && RepairAtReturns(d, v, t, c) && BranchOf(v, t) == Scalar && Violates(v, t)
    ensures Inferable(t, c)
  {
  }

  lemma {:induction false} ReturnsChains(d: nat, k: string, p: Schema, c: Components)
    requires p.Schema? && Inferable(p, c) && RepairReturns(d, Infer(k, p, c), p, c)
    ensures Chains(d, k, p, c)
  {
    hide Infer, Inferable, Lacks, Supplied, RepairReturns;
    ReturnsSupplied(d, Infer(k, p, c), p, c);
    forall j, q | Lacks(Infer(k, p, c), p, c, j, q) ensures d > 0 && q.Schema? && Chains(d - 1, j, q, c) {
      LackReturns(d, Infer(k, p, c), p, c, j, q);
      ReturnsChains(d - 1, j, q, c);
    }
  }

  lemma {:induction false} ChainsReturn(n: nat, k: string, p: Schema, c: Components)
    requires p.Schema? && Chains(n, k, p, c)
    ensures Repairable(Infer(k, p, c), p, c)
  {
    hide Infer, Inferable, Lacks, Supplied, Repairable;
    forall j, q | Lacks(Infer(k, p, c), p, c, j, q)
        ensures q.Schema? && Inferable(q, c) && Repairable(Infer(j, q, c), q, c) {
      ChainsReturn(n - 1, j, q, c);
    }
    SuppliedReturns(Infer(k, p, c), p, c);
  }

  /** Repair returns when inference supplies what is needed, and repair returns for whatever is added. */
  lemma {:induction false} SuppliedReturns(v: Value, s: Schema, c: Components)
    requires s.Schema? && Supplied(v, s, c)
    requires forall k, p :: Lacks(v, s, c, k, p) ==> p.Schema? && Inferable(p, c) && Repairable(Infer(k, p, c), p, c)
    ensures Repairable(v, s, c)
    decreases v, 1
  {
    hide Resolve, Infer, Inferable;
    var t := Resolve(s, c);
    match BranchOf(v, t)
    case Scalar =>
      assert RepairAtReturns(0, v, t, c);
    case Items =>
      forall i | 0 <= i < |v.items| ensures Repairable(v.items[i], t.items.value, c) {
        assert forall k, p :: Lacks(v.items[i], t.items.value, c, k, p) ==> Lacks(v, s, c, k, p);
        SuppliedReturns(v.items[i], t.items.value, c);
      }
      RepairableFromVisits(v, t, c);
    case Properties =>
      SuppliedPropertiesReturn(v, s, c);
    case Additional =>
      forall i | 0 <= i < |v.entries| ensures Repairable(v.entries[i].value, t.additional, c) {
        assert v.entries[i] < v && SuppliedIn(v.entries[i], t.additional, c);
        forall k, p | Lacks(v.entries[i].value, t.additional, c, k, p) ensures Lacks(v, s, c, k, p) {
          assert LacksIn(v.entries[i], t.additional, c, k, p);
        }
        SuppliedReturns(v.entries[i].value, t.additional, c);
      }
      RepairableFromVisits(v, t, c);
  }

  lemma {:induction false} SuppliedPropertiesReturn(v: Value, s: Schema, c: Components)
    requires s.Schema? && Supplied(v, s, c) && BranchOf(v, Resolve(s, c)) == Properties
    requires forall k, p :: Lacks(v, s, c, k, p) ==> p.Schema? && Inferable(p, c) && Repairable(Infer(k, p, c), p, c)
    ensures Repairable(v, s, c)
    decreases v, 0
  {
    hide Resolve, Infer, Inferable, AddMissing;
    var t := Resolve(s, c);
    forall w, p | Visits(v, t, c, w, p) ensures p.Schema? && Repairable(w, p, c) {
      var e :| e in AddMissing(v.entries, t.required, t, c) && Property(t, e.key) == p && p.Schema? && e.value == w;
      AddedWhere(v.entries, t.required, t, c, e);
      if e in v.entries {
        var i :| 0 <= i < |v.entries| && v.entries[i] == e;
        assert e < v && SuppliedIn(v.entries[i], p, c);
        forall k, q | Lacks(w, p, c, k, q) ensures Lacks(v, s, c, k, q) {
          assert LacksIn(v.entries[i], p, c, k, q);
        }
        SuppliedReturns(w, p, c);
      } else {
        assert Lacks(v, s, c, e.key, p);
      }
    }
    RepairableFromVisits(v, t, c);
  }

  // ---------------------------------------------------------------- schemas under which some example can be repaired

  /** Some example violates the scalar rules of `t`, so that repair replaces it by the inferred one. */
  predicate Replaces(t: Schema)
    requires t.Schema?
  {
    t.enumeration != [] || t.kind == Some("string") || t.kind == Some("integer")
  }

  /** A string no member of `values` equals. */
  function Fresh(values: seq<Value>): (s: string)
    ensures |s| > 0 && forall i :: 0 <= i < |values| && values[i].Str? ==> |values[i].s| < |s|
  {
    if values == [] then "x"
    else
      var rest := Fresh(values[1..]);
      var longer := rest + (if values[0].Str? then values[0].s else "");
      assert forall i :: 0 < i < |values| ==> values[i] == values[1..][i - 1];
      assert |rest| > 0;
      longer
  }

  /** An example that repair replaces by the inferred one. */
  lemma ReplacedExample(t: Schema) returns (ex: Value)
    requires t.Schema? && Replaces(t)
    ensures BranchOf(ex, t) == Scalar && Violates(ex, t)
  {
    if t.enumeration != [] {
      ex := Str(Fresh(t.enumeration));
      assert !InEnum(ex, t.enumeration);
    } else if t.kind == Some("string") {
      ex := Bool(true);
    } else {
      ex := Str("");
    }
  }

  /** Some scalar obeys the rules of `t`, or inference replaces it. */
  ghost predicate FillsHere(t: Schema, c: Components)
    requires t.Schema?
  {
    Inferable(t, c) || exists v :: BranchOf(v, t) == Scalar && !Violates(v, t)
  }

  /** An example can be built for `s`: a scalar, or an object with an example for each required property, nested at most
      `n` times. */
  ghost predicate FillsWithin(n: nat, s: Schema, c: Components)
    requires s.Schema?
  {
    var t := Resolve(s, c);
    || FillsHere(t, c)
    || (t.properties.Table? && n > 0
        && forall k :: k in t.required && Property(t, k).Schema? ==> FillsWithin(n - 1, Property(t, k), c))
  }

  ghost predicate Fills(s: Schema, c: Components)
    requires s.Schema?
  {
    exists n: nat :: FillsWithin(n, s, c)
  }

  ghost predicate HasExample(s: Schema, c: Components)
    requires s.Schema?
  {
    exists ex :: Repairable(ex, s, c)
  }

  /** Exactly the schemas under which repair of some example returns. */
  lemma FillsIff(s: Schema, c: Components)
    requires s.Schema?
    ensures Fills(s, c) <==> HasExample(s, c)
  {
    hide FillsWithin;
    if Fills(s, c) {
      var n: nat :| FillsWithin(n, s, c);
      FillsHasExample(n, s, c);
    }
    if HasExample(s, c) {
      var ex :| Repairable(ex, s, c);
      var d: nat :| RepairAtReturns(d, ex, Resolve(s, c), c);
      assert RepairReturns(d, ex, s, c);
      ReturnsFills(d, ex, s, c);
    }
  }

  lemma {:induction false} FillsHasExample(n: nat, s: Schema, c: Components)
    requires s.Schema? && FillsWithin(n, s, c)
    ensures HasExample(s, c)
  {
    hide Resolve, Inferable, RepairableAt;
    var t := Resolve(s, c);
    if Inferable(t, c) {
      ScalarRepairable(Null, t, c);
      assert Repairable(Null, s, c);
    } else if exists v :: BranchOf(v, t) == Scalar && !Violates(v, t) {
      var v :| BranchOf(v, t) == Scalar && !Violates(v, t);
      ScalarRepairable(v, t, c);
      assert Repairable(v, s, c);
    } else {
      forall k | k in t.required && Property(t, k).Schema? ensures HasExample(Property(t, k), c) {
        FillsHasExample(n - 1, Property(t, k), c);
      }
      var entries := FillRequired([], t.required, t, c);
      ObjectRepairable(entries, t, c);
      assert Repairable(Obj(entries), s, c);
    }
  }

  lemma ScalarRepairable(v: Value, t: Schema, c: Components)
    requires t.Schema? && BranchOf(v, t) == Scalar && (Violates(v, t) ==> Inferable(t, c))
    ensures RepairableAt(v, t, c)
  {
    assert RepairAtReturns(0, v, t, c);
  }

  /** An object with an example for each required property. */
  lemma {:induction false} FillRequired(entries: seq<Entry<Value>>, required: seq<string>, t: Schema, c: Components)
      returns (full: seq<Entry<Value>>)
    requires t.Schema? && t.properties.Table? && EntriesRepairable(entries, t, c)
    requires forall k :: k in required && !HasKey(entries, k) && Property(t, k).Schema? ==>
        HasExample(Property(t, k), c)
    ensures entries <= full && EntriesRepairable(full, t, c)
    ensures forall k :: k in required && Property(t, k).Schema? ==> HasKey(full, k)
  {
    hide Repairable;
    if required == [] {
      full := entries;
    } else {
      var init, last := required[..|required| - 1], required[|required| - 1];
      assert forall k :: k in required <==> k in init || k == last;
      var before := FillRequired(entries, init, t, c);
      full := before;
      if Property(t, last).Schema? && !HasKey(before, last) {
        KeysKept(entries, before);
        var ex :| Repairable(ex, Property(t, last), c);
        full := before + [Entry(last, ex)];
        assert full[|before|].key == last;
        KeysKept(before, full);
      }
    }
  }

  /** An object that lacks nothing is repaired when its values are. */
  lemma ObjectRepairable(entries: seq<Entry<Value>>, t: Schema, c: Components)
    requires t.Schema? && t.properties.Table? && BranchOf(Obj(entries), t) == Properties
    requires EntriesRepairable(entries, t, c)
    requires forall k :: k in t.required && Property(t, k).Schema? ==> HasKey(entries, k)
    ensures AddsInferable(entries, t.required, t, c) && AddMissing(entries, t.required, t, c) == entries
    ensures RepairableAt(Obj(entries), t, c)
  {
    hide Repairable, Inferable, Infer, AddMissing, Resolve;
    AddMissingNothing(entries, t.required, t, c);
    RepairableFromVisits(Obj(entries), t, c);
  }

  lemma {:induction false} ReturnsFills(d: nat, ex: Value, s: Schema, c: Components)
    requires s.Schema? && RepairReturns(d, ex, s, c)
    ensures FillsWithin(d, s, c)
    decreases d
  {
    hide Resolve, Inferable, Infer, AddMissing;
    var t := Resolve(s, c);
    match BranchOf(ex, t)
    case Items => PlainKindFills(t, c);
    case Additional => PlainKindFills(t, c);
    case Scalar =>
    case Properties =>
      var full := AddMissing(ex.entries, t.required, t, c);
      AddMissingComplete(ex.entries, t.required, t, c);
      assert DeclaredReturn(d - 1, full, t, c);
      forall k | k in t.required && Property(t, k).Schema? ensures FillsWithin(d - 1, Property(t, k), c) {
        var i :| 0 <= i < |full| && full[i].key == k;
        ReturnsFills(d - 1, full[i].value, Property(t, k), c);
      }
  }

  /** Apart from strings and integers, `null` breaks no rule unless an enum value decides the example. */
  lemma PlainKindFills(t: Schema, c: Components)
    requires t.Schema? && t.kind != Some("string") && t.kind != Some("integer")
    ensures FillsHere(t, c)
  {
    if HasDefault(t) {
      assert InferReturns(1, t, c);
    } else {
      assert t.enumeration != [] ==> Equal(Null, t.enumeration[0]);
      assert BranchOf(Null, t) == Scalar && !Violates(Null, t);
    }
  }

  // ---------------------------------------------------------------- schemas under which every example can be repaired

  /** Repair under `s` returns whatever the example. */
  ghost predicate Total(s: Schema, c: Components)
    requires s.Schema?
  {
    TotalAt(Resolve(s, c), c)
  }

  ghost predicate TotalAt(t: Schema, c: Components)
    requires t.Schema?
  {
    forall ex :: RepairableAt(ex, t, c)
  }
}
