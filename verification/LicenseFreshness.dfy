/** When a stored license inventory is stale (`validate_license_inventory_against_expected`). */
module LicenseFreshness {
  import opened Json
  import opened Common
  import opened LicenseInventory
  import Text

  // ---------------------------------------------------------------- sorting by name

  /** Puts a record behind those whose names do not follow its own. */
  function Insert(rs: seq<PackageRecord>, r: PackageRecord): seq<PackageRecord> {
    if rs == [] then [r]
    else if Text.Precedes(rs[0].name, r.name) then [rs[0]] + Insert(rs[1..], r)
    else [r] + rs
  }

  /** `sorted(…, key=name)`, which is stable. */
  function SortByName(rs: seq<PackageRecord>): seq<PackageRecord> {
    if rs == [] then [] else Insert(SortByName(rs[..|rs| - 1]), rs[|rs| - 1])
  }

  predicate InOrder(rs: seq<PackageRecord>) {
    forall i, j :: 0 <= i < j < |rs| ==> Text.Precedes(rs[i].name, rs[j].name)
  }

  /** The records of one name, in the order they come. */
  function Named(rs: seq<PackageRecord>, name: string): (r: seq<PackageRecord>)
    ensures forall x :: x in r <==> x in rs && x.name == name
  {
    if rs == [] then []
    else
      assert rs == [rs[0]] + rs[1..];
      (if rs[0].name == name then [rs[0]] else []) + Named(rs[1..], name)
  }

  /** The lists hold the same records of every name, in the same order. */
  ghost predicate SameRecords(a: seq<PackageRecord>, b: seq<PackageRecord>) {
    forall n :: Named(a, n) == Named(b, n)
  }

  lemma {:induction false} NoneNamed(rs: seq<PackageRecord>, name: string)
    requires forall r :: r in rs ==> r.name != name
    ensures Named(rs, name) == []
  {
    if rs != [] {
      assert rs[0] in rs;
      NoneNamed(rs[1..], name);
    }
  }

  lemma {:induction false} NamedSum(a: seq<PackageRecord>, b: seq<PackageRecord>, name: string)
    ensures Named(a + b, name) == Named(a, name) + Named(b, name)
  {
    if a == [] {
      assert a + b == b;
    } else {
      assert (a + b)[1..] == a[1..] + b;
      NamedSum(a[1..], b, name);
    }
  }

  lemma {:induction false} InsertKeeps(rs: seq<PackageRecord>, r: PackageRecord)
    requires InOrder(rs)
    ensures InOrder(Insert(rs, r)) && forall x :: x in Insert(rs, r) <==> x in rs || x == r
    ensures SameRecords(Insert(rs, r), rs + [r])
  {
    var result := Insert(rs, r);
    if rs != [] {
      var tail := rs[1..];
      Text.PrecedesTotal(rs[0].name, r.name);
      assert rs == [rs[0]] + tail;
      if Text.Precedes(rs[0].name, r.name) {
        InsertKeeps(tail, r);
        InsertBehind(rs, r);
      } else {
        assert result == [r] + rs;
        InsertInFront(rs, r);
      }
    }
  }

  lemma InsertBehind(rs: seq<PackageRecord>, r: PackageRecord)
    requires rs != [] && InOrder(rs) && Text.Precedes(rs[0].name, r.name)
    requires InOrder(Insert(rs[1..], r)) && forall x :: x in Insert(rs[1..], r) <==> x in rs[1..] || x == r
    requires SameRecords(Insert(rs[1..], r), rs[1..] + [r])
    ensures InOrder(Insert(rs, r)) && SameRecords(Insert(rs, r), rs + [r])
  {
    hide InOrder, SameRecords, Named, Text.Precedes;
    var inner := Insert(rs[1..], r);
    forall x | x in inner ensures Text.Precedes(rs[0].name, x.name) {
      if x != r {
        FirstIsLeast(rs, x);
      }
    }
    FirstInOrder(rs[0], inner);
    SameBehind(rs[0], inner, rs[1..] + [r]);
    assert rs + [r] == [rs[0]] + (rs[1..] + [r]);
  }

  lemma FirstIsLeast(rs: seq<PackageRecord>, x: PackageRecord)
    requires InOrder(rs) && rs != [] && x in rs[1..]
    ensures Text.Precedes(rs[0].name, x.name)
  {
    var i :| 0 <= i < |rs[1..]| && rs[1..][i] == x;
    assert rs[i + 1] == x;
  }

  lemma FirstInOrder(first: PackageRecord, rs: seq<PackageRecord>)
    requires InOrder(rs) && forall x :: x in rs ==> Text.Precedes(first.name, x.name)
    ensures InOrder([first] + rs)
  {
    hide Text.Precedes;
  }

  lemma SameBehind(first: PackageRecord, a: seq<PackageRecord>, b: seq<PackageRecord>)
    requires SameRecords(a, b)
    ensures SameRecords([first] + a, [first] + b)
  {
    forall n ensures Named([first] + a, n) == Named([first] + b, n) {
      NamedSum([first], a, n);
      NamedSum([first], b, n);
      assert Named(a, n) == Named(b, n);
    }
  }

  lemma InsertInFront(rs: seq<PackageRecord>, r: PackageRecord)
    requires InOrder(rs) && rs != [] && !Text.Precedes(rs[0].name, r.name)
    ensures InOrder([r] + rs) && SameRecords([r] + rs, rs + [r])
  {
    Text.PrecedesTotal(rs[0].name, r.name);
    forall i | 0 <= i < |rs| ensures Text.Precedes(r.name, rs[i].name) && rs[i].name != r.name {
      if i > 0 {
        Text.PrecedesTransitive(r.name, rs[0].name, rs[i].name);
      }
    }
    hide Text.Precedes;
    NewNameLast(rs, r);
  }

  lemma NewNameLast(rs: seq<PackageRecord>, r: PackageRecord)
    requires forall i :: 0 <= i < |rs| ==> rs[i].name != r.name
    ensures SameRecords([r] + rs, rs + [r])
  {
    forall n ensures Named([r] + rs, n) == Named(rs + [r], n) {
      NamedSum([r], rs, n);
      NamedSum(rs, [r], n);
      if n == r.name {
        NoneNamed(rs, n);
      }
    }
  }

  /** Sorting orders the records and keeps those of one name in the order they came. */
  lemma {:induction false} SortByNameSorts(rs: seq<PackageRecord>)
    ensures InOrder(SortByName(rs)) && SameRecords(SortByName(rs), rs)
  {
    if rs != [] {
      var init, last := rs[..|rs| - 1], rs[|rs| - 1];
      SortByNameSorts(init);
      InsertKeeps(SortByName(init), last);
      assert rs == init + [last];
      hide InOrder, Insert;
      forall n ensures Named(SortByName(rs), n) == Named(rs, n) {
        assert Named(SortByName(rs), n) == Named(SortByName(init) + [last], n);
        NamedSum(SortByName(init), [last], n);
        NamedSum(init, [last], n);
      }
    }
  }

  /** Sorted lists with the same records of every name are equal. */
  lemma {:induction false} SameInOrder(a: seq<PackageRecord>, b: seq<PackageRecord>)
    requires InOrder(a) && InOrder(b) && SameRecords(a, b)
    ensures a == b
  {
    if a != [] {
      SameNotEmpty(a, b);
    }
    if b != [] {
      SameNotEmpty(b, a);
    }
    if a != [] {
      SameFirst(a, b);
      var x, y := a[1..], b[1..];
      assert a == [a[0]] + x && b == [a[0]] + y;
      hide InOrder;
      forall n ensures Named(x, n) == Named(y, n) {
        assert Named(a, n) == Named(b, n);
        var first := Named([a[0]], n);
        NamedSum([a[0]], x, n);
        NamedSum([a[0]], y, n);
        assert (first + Named(x, n))[|first|..] == Named(x, n) && (first + Named(y, n))[|first|..] == Named(y, n);
      }
      TailsInOrder(a);
      TailsInOrder(b);
      SameInOrder(x, y);
    }
  }

  lemma SameNotEmpty(a: seq<PackageRecord>, b: seq<PackageRecord>)
    requires a != [] && SameRecords(a, b)
    ensures b != []
  {
    assert Named(a, a[0].name) == Named(b, a[0].name);
    assert a[0] in Named(a, a[0].name) && a[0] in b;
  }

  lemma TailsInOrder(a: seq<PackageRecord>)
    requires a != [] && InOrder(a)
    ensures InOrder(a[1..])
  {
    hide Text.Precedes;
  }

  lemma SameFirst(a: seq<PackageRecord>, b: seq<PackageRecord>)
    requires a != [] && b != [] && InOrder(a) && InOrder(b) && SameRecords(a, b)
    ensures a[0] == b[0]
  {
    FirstPrecedes(a, b);
    FirstPrecedes(b, a);
    Text.PrecedesTotal(a[0].name, b[0].name);
    assert Named(a, a[0].name) == Named(b, a[0].name);
    assert Named(a, a[0].name)[0] == a[0] && Named(b, b[0].name)[0] == b[0];
  }

  lemma FirstPrecedes(a: seq<PackageRecord>, b: seq<PackageRecord>)
    requires a != [] && b != [] && InOrder(a) && SameRecords(a, b)
    ensures Text.Precedes(a[0].name, b[0].name)
  {
    assert Named(a, b[0].name) == Named(b, b[0].name);
    assert b[0] in Named(b, b[0].name) && b[0] in a;
    var i :| 0 <= i < |a| && a[i] == b[0];
    Text.PrecedesTotal(a[0].name, a[0].name);
  }

  predicate DistinctNames(rs: seq<PackageRecord>) {
    forall i, j :: 0 <= i < j < |rs| ==> rs[i].name != rs[j].name
  }

  /** Where no name occurs twice, the records of a name are the one there is. */
  lemma {:induction false} NamedOnce(rs: seq<PackageRecord>, r: PackageRecord)
    requires DistinctNames(rs)
    ensures Named(rs, r.name) == [r] <==> r in rs
    ensures |Named(rs, r.name)| <= 1
  {
    if rs != [] {
      NamedOnce(rs[1..], r);
      assert rs == [rs[0]] + rs[1..];
      if rs[0].name == r.name {
        NoneNamed(rs[1..], r.name);
      }
    }
  }

  // ---------------------------------------------------------------- the check

  function Direct(rs: seq<PackageRecord>): seq<PackageRecord> {
    if rs == [] then []
    else if rs[0].direct then [rs[0]] + Direct(rs[1..])
    else Direct(rs[1..])
  }

  datatype Normalized = Normalized(schemaVersion: string, serviceName: string, others: Value,
                                   direct: seq<PackageRecord>)

  /** `_normalized_inventory`. Direct packages must be the expected ones exactly; transitive ones differ between
      platforms and are compared apart. */
  function Normalize(inv: Inventory): Normalized {
    Normalized(inv.schemaVersion, inv.serviceName, inv.others, SortByName(Direct(inv.packages)))
  }

  /** What must not change about a transitive package. Sorted lists of groups are equal when the lists are
      rearrangements of each other, so the groups are a multiset here. */
  datatype Freshness = Freshness(version: Option<string>, installedVersion: Option<string>, groups: multiset<string>,
                                 licenseTerm: string, class_: LicenseClass, exceptionId: Value, exceptionOwner: Value,
                                 exceptionExpiresOn: Value)

  function FreshnessOf(r: PackageRecord): Freshness {
    Freshness(r.version, r.installedVersion, multiset(r.groups), r.licenseTerm, r.class_, r.exceptionId,
        r.exceptionOwner, r.exceptionExpiresOn)
  }

  predicate IsTransitive(r: PackageRecord, name: string) {
    !r.direct && r.name == name && name != ""
  }

  /** The last transitive record of a name. */
  function LastTransitive(rs: seq<PackageRecord>, name: string): Option<PackageRecord> {
    if rs == [] then None
    else if IsTransitive(rs[|rs| - 1], name) then Some(rs[|rs| - 1])
    else LastTransitive(rs[..|rs| - 1], name)
  }

  ghost predicate IsFreshnessMap(m: map<string, Freshness>, rs: seq<PackageRecord>) {
    forall name :: var last := LastTransitive(rs, name);
      (name in m <==> last.Some?) && (last.Some? ==> m[name] == FreshnessOf(last.value))
  }

  /** `_transitive_package_freshness_map`. */
  method FreshnessMap(rs: seq<PackageRecord>) returns (m: map<string, Freshness>)
    ensures IsFreshnessMap(m, rs)
  {
    m := map[];
    for i := 0 to |rs|
      invariant IsFreshnessMap(m, rs[..i])
    {
      assert rs[..i + 1][..i] == rs[..i];
      if !rs[i].direct && rs[i].name != "" {
        m := m[rs[i].name := FreshnessOf(rs[i])];
      }
    }
    assert rs[..|rs|] == rs;
  }

  datatype Staleness = Outdated | Missing(names: set<string>) | Stale(names: set<string>)

  /** The failures that `validate_license_inventory_against_expected` adds to those of the validator. */
  method StalenessFailures(inv: Inventory, expected: Inventory) returns (failures: seq<Staleness>)
    ensures failures == [] <==> IsFresh(inv, expected)
    ensures Outdated in failures <==> Normalize(inv) != Normalize(expected)
    ensures forall names :: Missing(names) in failures ==> forall n :: n in names <==> IsMissing(inv, expected, n)
    ensures forall names :: Stale(names) in failures ==> forall n :: n in names <==> IsStale(inv, expected, n)
  {
    hide Normalize, LastTransitive, FreshnessOf;
    failures := if Normalize(inv) != Normalize(expected) then [Outdated] else [];
    var current := FreshnessMap(inv.packages);
    var wanted := FreshnessMap(expected.packages);
    var missing := wanted.Keys - current.Keys;
    if missing != {} {
      failures := failures + [Missing(missing)];
    }
    var stale := set n | n in wanted && n in current && current[n] != wanted[n];
    if stale != {} {
      failures := failures + [Stale(stale)];
    }
    NothingDiffers(current, wanted, missing, stale);
    FreshFromMaps(inv, expected, current, wanted);
  }

  lemma NothingDiffers(current: map<string, Freshness>, wanted: map<string, Freshness>, missing: set<string>,
                       stale: set<string>)
    requires missing == wanted.Keys - current.Keys
    requires stale == set n | n in wanted && n in current && current[n] != wanted[n]
    ensures missing == {} && stale == {} <==> forall n :: n in wanted ==> n in current && current[n] == wanted[n]
  {
    if missing == {} && stale == {} {
      forall n | n in wanted ensures n in current && current[n] == wanted[n] {
        assert n !in missing && n !in stale;
      }
    }
  }

  predicate IsMissing(inv: Inventory, expected: Inventory, name: string) {
    LastTransitive(expected.packages, name).Some? && LastTransitive(inv.packages, name).None?
  }

  predicate IsStale(inv: Inventory, expected: Inventory, name: string) {
    var wanted, found := LastTransitive(expected.packages, name), LastTransitive(inv.packages, name);
    wanted.Some? && found.Some? && FreshnessOf(found.value) != FreshnessOf(wanted.value)
  }

  ghost predicate IsFresh(inv: Inventory, expected: Inventory) {
    Normalize(inv) == Normalize(expected) && forall name :: StillThere(inv, expected, name)
  }

  ghost predicate StillThere(inv: Inventory, expected: Inventory, name: string) {
    var wanted, found := LastTransitive(expected.packages, name), LastTransitive(inv.packages, name);
    wanted.Some? ==> found.Some? && FreshnessOf(found.value) == FreshnessOf(wanted.value)
  }

  lemma FreshFromMaps(inv: Inventory, expected: Inventory, current: map<string, Freshness>,
                      wanted: map<string, Freshness>)
    requires IsFreshnessMap(current, inv.packages) && IsFreshnessMap(wanted, expected.packages)
    ensures (forall name :: StillThere(inv, expected, name)) <==>
        forall n :: n in wanted ==> n in current && current[n] == wanted[n]
  {
    forall name
      ensures StillThere(inv, expected, name) <==> (name in wanted ==> name in current && current[name] == wanted[name])
    {
    }
  }

  // ---------------------------------------------------------------- what staleness means

  lemma {:induction false} DirectMembers(rs: seq<PackageRecord>)
    ensures forall r :: r in Direct(rs) <==> r in rs && r.direct
    ensures DistinctNames(rs) ==> DistinctNames(Direct(rs))
  {
    if rs != [] {
      assert rs == [rs[0]] + rs[1..];
      DirectMembers(rs[1..]);
    }
  }

  lemma {:induction false} LastTransitiveIs(rs: seq<PackageRecord>, name: string)
    ensures LastTransitive(rs, name).Some? <==> exists r :: r in rs && IsTransitive(r, name)
    ensures LastTransitive(rs, name).Some? ==>
        LastTransitive(rs, name).value in rs && IsTransitive(LastTransitive(rs, name).value, name)
  {
    if rs != [] {
      LastTransitiveIs(rs[..|rs| - 1], name);
      assert rs == rs[..|rs| - 1] + [rs[|rs| - 1]];
    }
  }

  /** Exactly when a stored inventory counts as fresh: the same direct records of every name, in whatever order the
      names come, and the same facts in the last transitive record of every expected name. */
  lemma FreshIff(inv: Inventory, expected: Inventory)
    ensures IsFresh(inv, expected) <==>
      && inv.schemaVersion == expected.schemaVersion && inv.serviceName == expected.serviceName &&
          inv.others == expected.others
      && SameRecords(Direct(inv.packages), Direct(expected.packages))
      && (forall n :: StillThere(inv, expected, n))
  {
    hide Direct, SortByName, SameRecords, StillThere;
    SortedSameIff(Direct(inv.packages), Direct(expected.packages));
  }

  lemma SortedSameIff(a: seq<PackageRecord>, b: seq<PackageRecord>)
    ensures SortByName(a) == SortByName(b) <==> SameRecords(a, b)
  {
    SortByNameSorts(a);
    SortByNameSorts(b);
    hide SortByName, Named, InOrder;
    if SameRecords(a, b) {
      forall n ensures Named(SortByName(a), n) == Named(SortByName(b), n) {
        assert Named(a, n) == Named(b, n);
      }
      SameInOrder(SortByName(a), SortByName(b));
    } else {
      var n :| Named(a, n) != Named(b, n);
      assert Named(SortByName(a), n) != Named(SortByName(b), n);
    }
  }

  /** For lists that name no package twice, as every built one: the same direct records in any order, and every expected
      transitive package recorded with the same facts. */
  lemma FreshIffDistinct(inv: Inventory, expected: Inventory)
    requires DistinctNames(inv.packages) && DistinctNames(expected.packages)
    ensures IsFresh(inv, expected) <==>
      && inv.schemaVersion == expected.schemaVersion && inv.serviceName == expected.serviceName &&
          inv.others == expected.others
      && (forall r: PackageRecord :: r.direct ==> (r in inv.packages <==> r in expected.packages))
      && (forall w :: w in expected.packages && !w.direct && w.name != "" ==>
            exists r :: r in inv.packages && IsTransitive(r, w.name) && FreshnessOf(r) == FreshnessOf(w))
  {
    SameDirectIff(inv.packages, expected.packages);
    hide Direct, SortByName, LastTransitive, FreshnessOf, DistinctNames;
    forall w | w in expected.packages && !w.direct && w.name != ""
      ensures StillThere(inv, expected, w.name) <==>
        exists r :: r in inv.packages && IsTransitive(r, w.name) && FreshnessOf(r) == FreshnessOf(w)
    {
      LastTransitiveIs(inv.packages, w.name);
      LastTransitiveIs(expected.packages, w.name);
      assert IsTransitive(w, w.name);
    }
    forall name | !exists w :: w in expected.packages && IsTransitive(w, name)
      ensures StillThere(inv, expected, name)
    {
      LastTransitiveIs(expected.packages, name);
    }
  }

  lemma SameDirectIff(a: seq<PackageRecord>, b: seq<PackageRecord>)
    requires DistinctNames(a) && DistinctNames(b)
    ensures SortByName(Direct(a)) == SortByName(Direct(b)) <==>
        forall r: PackageRecord :: r.direct ==> (r in a <==> r in b)
  {
    var x, y := Direct(a), Direct(b);
    DirectMembers(a);
    DirectMembers(b);
    SortedSameIff(x, y);
    hide SortByName, Direct, DistinctNames;
    if SameRecords(x, y) {
      forall r: PackageRecord | r.direct ensures r in a <==> r in b {
        NamedOnce(x, r);
        NamedOnce(y, r);
        assert Named(x, r.name) == Named(y, r.name);
      }
    } else if forall r: PackageRecord :: r.direct ==> (r in a <==> r in b) {
      forall n ensures Named(x, n) == Named(y, n) {
        SameNamed(x, y, n);
      }
    }
  }

  lemma SameNamed(x: seq<PackageRecord>, y: seq<PackageRecord>, n: string)
    requires DistinctNames(x) && DistinctNames(y) && forall r :: r in x <==> r in y
    ensures Named(x, n) == Named(y, n)
  {
    if Named(x, n) != [] {
      var r := Named(x, n)[0];
      NamedOnce(x, r);
      NamedOnce(y, r);
    } else {
      forall z | z in y ensures z.name != n {
        assert z.name == n ==> z in Named(x, n);
      }
      NoneNamed(y, n);
    }
  }

  lemma {:induction false} DirectAppend(rs: seq<PackageRecord>, extra: PackageRecord)
    requires !extra.direct
    ensures Direct(rs + [extra]) == Direct(rs)
  {
    if rs != [] {
      assert (rs + [extra])[1..] == rs[1..] + [extra];
      DirectAppend(rs[1..], extra);
    }
  }

  /** Extra transitive packages, as another platform installs them, never make an inventory stale. */
  lemma ExtraTransitiveTolerated(inv: Inventory, expected: Inventory, extra: PackageRecord)
    requires IsFresh(inv, expected) && !extra.direct && LastTransitive(expected.packages, extra.name).None?
    ensures IsFresh(inv.(packages := inv.packages + [extra]), expected)
  {
    var more := inv.packages + [extra];
    assert more[..|more| - 1] == inv.packages;
    DirectAppend(inv.packages, extra);
    forall name ensures StillThere(inv.(packages := more), expected, name) {
      assert StillThere(inv, expected, name);
    }
  }
}
