/** The package records of the dependency lock, assembled from the direct requirements and the license inventory. */
module LockRecords {
  import opened Common
  import PackageNames
  import Text

  /** A direct requirement under its canonical name. */
  datatype DirectRequirement = DirectRequirement(name: string, version: string, extras: set<string>, group: string,
                                                 sourceFile: string, requirementHash: string)

  /** A package dictionary of the inventory; `version` is `None` where its value is not truthy. */
  datatype InventoryPackage = InventoryPackage(name: string, version: Option<string>, groups: set<string>)

  datatype Record = Record(name: string, version: string, direct: bool, groups: seq<string>,
                           requirementFiles: seq<string>, extras: seq<string>, requirementHashes: seq<string>)

  datatype Error = VersionMismatch(name: string) | MissingFromInventory(name: string)

  datatype Result = Records(records: seq<Record>) | Raised(error: Error)

  // ---------------------------------------------------------------- what a record says

  function Versions(direct: seq<DirectRequirement>, name: string): set<string> {
    set d | d in direct && d.name == name :: d.version
  }

  predicate IsDirect(direct: seq<DirectRequirement>, name: string) {
    exists d :: d in direct && d.name == name
  }

  /** `_direct_version` raises on two versions. It is asked only when the inventory has no version. */
  predicate Conflicting(direct: seq<DirectRequirement>, p: InventoryPackage) {
    p.version.None? && exists v, w :: v in Versions(direct, Name(p)) && w in Versions(direct, Name(p)) && v != w
  }

  predicate IsRecord(r: Record, direct: seq<DirectRequirement>, p: InventoryPackage) {
    && r.name == Name(p)
    && (p.version.Some? ==> r.version == p.version.value)
    && (p.version.None? && IsDirect(direct, r.name) ==> Versions(direct, r.name) == {r.version})
    && (p.version.None? && !IsDirect(direct, r.name) ==> r.version == "")
    && r.direct == IsDirect(direct, r.name)
    && r.groups == Text.Sorted(p.groups + set d | d in direct && d.name == r.name :: d.group)
    && r.requirementFiles == Text.Sorted(set d | d in direct && d.name == r.name :: d.sourceFile)
    && r.extras == Text.Sorted(set d, x | d in direct && d.name == r.name && x in d.extras :: x)
    && r.requirementHashes == Text.Sorted(set d | d in direct && d.name == r.name :: d.requirementHash)
  }

  function Name(p: InventoryPackage): string {
    PackageNames.Canonical(p.name)
  }

  /** The last package of a name. A package without a name counts for nothing. */
  function LastOf(packages: seq<InventoryPackage>, name: string): Option<InventoryPackage> {
    if packages == [] || name == "" then None
    else if Name(packages[|packages| - 1]) == name then Some(packages[|packages| - 1])
    else LastOf(packages[..|packages| - 1], name)
  }

  predicate Ascending(records: seq<Record>) {
    forall i, j :: 0 <= i < j < |records| ==>
        records[i].name != records[j].name && Text.Precedes(records[i].name, records[j].name)
  }

  /** One record for each name of the packages, made from the last package of that name. */
  ghost predicate Assembled(records: map<string, Record>, direct: seq<DirectRequirement>,
                            packages: seq<InventoryPackage>) {
    forall n :: (n in records <==> LastOf(packages, n).Some?) &&
        (n in records ==> IsRecord(records[n], direct, LastOf(packages, n).value))
  }

  /** The same of a list of records. */
  ghost predicate Lists(records: seq<Record>, direct: seq<DirectRequirement>, packages: seq<InventoryPackage>) {
    && (forall r :: r in records ==>
          LastOf(packages, r.name).Some? && IsRecord(r, direct, LastOf(packages, r.name).value))
    && (forall n :: LastOf(packages, n).Some? ==> exists r :: r in records && r.name == n)
  }

  // ---------------------------------------------------------------- assembling

  method MakeRecord(direct: seq<DirectRequirement>, p: InventoryPackage) returns (r: Option<Record>)
    ensures r.None? <==> Conflicting(direct, p)
    ensures r.Some? ==> IsRecord(r.value, direct, p)
  {
    var name := Name(p);
    var entries := set d | d in direct && d.name == name;
    var versions := Versions(direct, name);
    var version := "";
    if p.version.Some? {
      version := p.version.value;
    } else if versions != {} {
      version :| version in versions;
      if versions != {version} {
        assert exists w :: w in versions && w != version;
        return None;
      }
      assert versions == {version};
    }
    assert version in versions ==> IsDirect(direct, name);
    assert entries != {} <==> IsDirect(direct, name) by {
      if e :| e in direct && e.name == name {
        assert e in entries;
      }
    }
    assert versions == {} ==> !IsDirect(direct, name) by {
      if d :| d in direct && d.name == name {
        assert d.version in versions;
      }
    }
    SameEntries(direct, name, entries);
    return Some(Record(name, version, entries != {},
                       Text.Sorted(p.groups + set d | d in entries :: d.group),
                       Text.Sorted(set d | d in entries :: d.sourceFile),
                       Text.Sorted(set d, x | d in entries && x in d.extras :: x),
                       Text.Sorted(set d | d in entries :: d.requirementHash)));
  }

  lemma SameEntries(direct: seq<DirectRequirement>, name: string, entries: set<DirectRequirement>)
    requires entries == set d | d in direct && d.name == name
    ensures (set d | d in entries :: d.group) == (set d | d in direct && d.name == name :: d.group)
    ensures (set d | d in entries :: d.sourceFile) == (set d | d in direct && d.name == name :: d.sourceFile)
    ensures (set d, x | d in entries && x in d.extras :: x)
         == (set d, x | d in direct && d.name == name && x in d.extras :: x)
    ensures (set d | d in entries :: d.requirementHash) == (set d | d in direct && d.name == name :: d.requirementHash)
  {
  }

  /** The first package without a version whose requirements are pinned twice. */
  function FirstConflict(direct: seq<DirectRequirement>, packages: seq<InventoryPackage>): Option<Error> {
    if packages == [] then None
    else if Name(packages[0]) != "" && Conflicting(direct, packages[0]) then Some(VersionMismatch(Name(packages[0])))
    else FirstConflict(direct, packages[1..])
  }

  /** The first requirement that no package of the inventory meets. */
  function FirstMissing(direct: seq<DirectRequirement>, packages: seq<InventoryPackage>): Option<Error> {
    if direct == [] then None
    else if LastOf(packages, direct[0].name).None? then Some(MissingFromInventory(direct[0].name))
    else FirstMissing(direct[1..], packages)
  }

  /** What `_package_records` raises, if anything. */
  function FirstError(direct: seq<DirectRequirement>, packages: seq<InventoryPackage>): Option<Error> {
    if FirstConflict(direct, packages).Some? then FirstConflict(direct, packages) else FirstMissing(direct, packages)
  }

  lemma {:induction false} FirstConflictIff(direct: seq<DirectRequirement>, packages: seq<InventoryPackage>)
    ensures FirstConflict(direct, packages).Some? <==>
      exists p :: p in packages && Name(p) != "" && Conflicting(direct, p)
  {
    hide Conflicting;
    if packages != [] {
      FirstConflictIff(direct, packages[1..]);
      assert packages == [packages[0]] + packages[1..];
    }
  }

  lemma {:induction false} FirstMissingIff(direct: seq<DirectRequirement>, packages: seq<InventoryPackage>)
    ensures FirstMissing(direct, packages).Some? <==> exists d :: d in direct && LastOf(packages, d.name).None?
  {
    hide LastOf;
    if direct != [] {
      FirstMissingIff(direct[1..], packages);
      assert direct == [direct[0]] + direct[1..];
    }
  }

  /** Exactly when records cannot be assembled. */
  lemma RaisesIff(direct: seq<DirectRequirement>, packages: seq<InventoryPackage>)
    ensures FirstError(direct, packages).Some? <==>
      || (exists p :: p in packages && Name(p) != "" && Conflicting(direct, p))
      || (exists d :: d in direct && LastOf(packages, d.name).None?)
  {
    hide Conflicting, LastOf;
    FirstConflictIff(direct, packages);
    FirstMissingIff(direct, packages);
  }

  /** `_package_records`. It raises when some package without a version has conflicting pins, or some direct requirement
      is not in the inventory; otherwise the records come in order of their names. */
  method PackageRecords(direct: seq<DirectRequirement>, packages: seq<InventoryPackage>) returns (result: Result)
    ensures result.Raised? <==> FirstError(direct, packages).Some?
    ensures result.Raised? ==> Some(result.error) == FirstError(direct, packages)
    ensures result.Records? ==> Ascending(result.records) && Lists(result.records, direct, packages)
  {
    hide IsRecord, Conflicting;
    var records: map<string, Record> := map[];
    for i := 0 to |packages|
      invariant Assembled(records, direct, packages[..i])
      invariant FirstConflict(direct, packages[i..]) == FirstConflict(direct, packages)
    {
      assert packages[..i + 1] == packages[..i] + [packages[i]];
      assert packages[i..][0] == packages[i] && packages[i..][1..] == packages[i + 1..];
      assert packages[..i + 1][..i] == packages[..i];
      if Name(packages[i]) != "" {
        var r := MakeRecord(direct, packages[i]);
        if r.None? {
          return Raised(VersionMismatch(Name(packages[i])));
        }
        RecordName(r.value, direct, packages[i]);
        records := records[Name(packages[i]) := r.value];
      }
    }
    assert packages[..|packages|] == packages;
    for i := 0 to |direct|
      invariant FirstMissing(direct[i..], packages) == FirstMissing(direct, packages)
    {
      assert direct[i..][0] == direct[i] && direct[i..][1..] == direct[i + 1..];
      if direct[i].name !in records {
        return Raised(MissingFromInventory(direct[i].name));
      }
    }
    forall n | n in records ensures records[n].name == n {
      LastOfName(packages, n);
      RecordName(records[n], direct, LastOf(packages, n).value);
    }
    var sorted := SortRecords(records);
    return Records(sorted);
  }

  lemma RecordName(r: Record, direct: seq<DirectRequirement>, p: InventoryPackage)
    requires IsRecord(r, direct, p)
    ensures r.name == Name(p)
  {
  }

  lemma {:induction false} LastOfName(packages: seq<InventoryPackage>, name: string)
    ensures LastOf(packages, name).Some? <==> name != "" && exists p :: p in packages && Name(p) == name
    ensures LastOf(packages, name).Some? ==>
        LastOf(packages, name).value in packages && Name(LastOf(packages, name).value) == name
  {
    if packages != [] {
      LastOfName(packages[..|packages| - 1], name);
      assert packages == packages[..|packages| - 1] + [packages[|packages| - 1]];
    }
  }

  /** `[records[name] for name in sorted(records)]`. */
  method SortRecords(records: map<string, Record>) returns (sorted: seq<Record>)
    requires forall n :: n in records ==> records[n].name == n
    ensures Ascending(sorted)
    ensures forall r :: r in sorted <==> r.name in records && records[r.name] == r
  {
    var names := Text.Sorted(records.Keys);
    sorted := seq(|names|, i requires 0 <= i < |names| => records[names[i]]);
    assert forall i :: 0 <= i < |names| ==> names[i] in records;
    forall r: Record | r.name in records && records[r.name] == r ensures r in sorted {
      assert r.name in names;
      var i :| 0 <= i < |names| && names[i] == r.name;
      assert sorted[i] == r;
    }
  }

  // ---------------------------------------------------------------- conservation

  function DirectNames(direct: seq<DirectRequirement>): set<string> {
    set d | d in direct :: d.name
  }

  function DirectRecordNames(records: seq<Record>): set<string> {
    set r | r in records && r.direct :: r.name
  }

  /** Nothing a requirement file declares is lost: each direct requirement has exactly one record, marked direct, which
      names its group, file, hash and extras. */
  lemma DirectRequirementRecorded(records: seq<Record>, direct: seq<DirectRequirement>, packages: seq<InventoryPackage>,
                                  d: DirectRequirement) returns (k: nat)
    requires Ascending(records) && Lists(records, direct, packages)
    requires d in direct && LastOf(packages, d.name).Some?
    ensures k < |records| && records[k].name == d.name && records[k].direct
    ensures forall j :: 0 <= j < |records| && records[j].name == d.name ==> j == k
    ensures d.group in records[k].groups && d.sourceFile in records[k].requirementFiles
    ensures d.requirementHash in records[k].requirementHashes && forall x :: x in d.extras ==> x in records[k].extras
  {
    var r :| r in records && r.name == d.name;
    k :| 0 <= k < |records| && records[k] == r;
    assert IsRecord(r, direct, LastOf(packages, r.name).value);
  }

  /** The summary adds up: as many direct records as distinct names required directly. */
  lemma DirectCount(records: seq<Record>, direct: seq<DirectRequirement>, packages: seq<InventoryPackage>)
    requires Ascending(records) && Lists(records, direct, packages)
    requires forall d :: d in direct ==> LastOf(packages, d.name).Some?
    ensures CountDirect(records) == |DirectNames(direct)|
  {
    forall n ensures n in DirectRecordNames(records) <==> n in DirectNames(direct) {
      if n in DirectNames(direct) {
        var d :| d in direct && d.name == n;
        var k := DirectRequirementRecorded(records, direct, packages, d);
      }
      if r :| r in records && r.direct && r.name == n {
        assert IsDirect(direct, n);
      }
    }
    assert DirectRecordNames(records) == DirectNames(direct);
    CountDistinct(records);
  }

  function CountDirect(records: seq<Record>): nat {
    if records == [] then 0 else (if records[0].direct then 1 else 0) + CountDirect(records[1..])
  }

  lemma {:induction false} CountDistinct(records: seq<Record>)
    requires Ascending(records)
    ensures CountDirect(records) == |DirectRecordNames(records)|
  {
    if records == [] {
      assert DirectRecordNames(records) == {};
    } else {
      hide DirectRecordNames, Ascending;
      DirectNamesStep(records);
      CountDistinct(records[1..]);
    }
  }

  lemma DirectNamesStep(records: seq<Record>)
    requires records != [] && Ascending(records)
    ensures Ascending(records[1..])
    ensures |DirectRecordNames(records)| == |DirectRecordNames(records[1..])| + if records[0].direct then 1 else 0
  {
    AscendingTail(records);
    hide Ascending;
    var first, rest := records[0], DirectRecordNames(records[1..]);
    assert first.name !in rest;
    DirectNamesSplit(records);
    hide DirectRecordNames;
    if first.direct {
      assert |rest + {first.name}| == |rest| + 1;
    }
  }

  lemma DirectNamesSplit(records: seq<Record>)
    requires records != []
    ensures DirectRecordNames(records) == DirectRecordNames(records[1..]) +
        (if records[0].direct then {records[0].name} else {})
  {
    var first, tail := records[0], records[1..];
    assert records == [first] + tail;
    forall n ensures n in DirectRecordNames(records) <==>
        n in DirectRecordNames(tail) || (first.direct && n == first.name) {
      if n in DirectRecordNames(tail) {
        var r :| r in tail && r.direct && r.name == n;
        assert r in records;
      }
    }
  }

  lemma AscendingTail(records: seq<Record>)
    requires records != [] && Ascending(records)
    ensures Ascending(records[1..]) && forall r :: r in records[1..] ==> r.name != records[0].name
  {
  }
}
