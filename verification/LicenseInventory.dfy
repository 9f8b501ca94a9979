/** The license inventory: how package records are built, and how the validator derives them again. */
module LicenseInventory {
  import opened Common
  import opened Json
  import DependencyGraph
  import PackageNames
  import Text

  // ---------------------------------------------------------------- inputs

  /** A root of a requirement file. */
  datatype RequirementRoot = RequirementRoot(name: string, declaredName: string, pinnedVersion: Option<string>,
                                             extras: seq<string>, group: string, sourceFile: string)

  /** An installed distribution: its version and the license term its metadata gives. */
  datatype Distribution = Distribution(version: string, licenseTerm: string)

  /** An approved exception is a JSON object; the policy file may hold any keys. */
  type PolicyException = seq<Entry<Value>>

  datatype Policy = Policy(allowed: set<string>, reviewRequired: set<string>, prohibited: set<string>,
                           exceptions: seq<PolicyException>)

  /** What lies outside this model: `str()`, ISO dates as day numbers, the split at license operators, and today. */
  datatype Environment = Environment(show: Value -> string, parseDate: string -> Option<int>,
                                     licenseParts: string -> seq<string>, today: int)

  // ---------------------------------------------------------------- classification

  function Key(e: PolicyException, key: string): Value {
    Find(e, key).GetOr(Null)
  }

  /** `str(value or default)`. */
  function Shown(env: Environment, v: Value, default: string): string {
    if Truthy(v) then env.show(v) else default
  }

  predicate Matches(env: Environment, e: PolicyException, name: string, term: string) {
    && PackageNames.Canonical(Shown(env, Key(e, "package"), "")) == PackageNames.Canonical(name)
    && (Shown(env, Key(e, "license_term"), "") == "*" || Shown(env, Key(e, "license_term"), "") == term)
  }

  /** `_matching_exception`: the first exception for the package and term. */
  function MatchingException(env: Environment, exceptions: seq<PolicyException>, name: string,
                             term: string): Option<PolicyException> {
    if exceptions == [] then None
    else if Matches(env, exceptions[0], name, term) then Some(exceptions[0])
    else MatchingException(env, exceptions[1..], name, term)
  }

  /** `None` is the `ValueError` of a date that does not parse. */
  function Expiry(env: Environment, e: PolicyException): Option<int> {
    env.parseDate(Shown(env, Key(e, "expires_on"), "1970-01-01"))
  }

  function AllTermsAllowed(env: Environment, term: string, allowed: set<string>): bool {
    var parts := env.licenseParts(term);
    parts != [] && forall i :: 0 <= i < |parts| ==> parts[i] in allowed
  }

  /** A policy classification; a stored inventory may hold any other text. */
  datatype LicenseClass = Allowed | ApprovedException | Prohibited | ReviewRequired | Other(text: string)

  /** The ladder below the exception test. */
  function TermClass(env: Environment, policy: Policy, term: string): LicenseClass {
    if term in policy.prohibited then Prohibited
    else if term == "" || term == "UNKNOWN" then ReviewRequired
    else if term in policy.reviewRequired then ReviewRequired
    else if AllTermsAllowed(env, term, policy.allowed) then Allowed
    else ReviewRequired
  }

  datatype Classified = Classified(class_: LicenseClass, exception: Option<PolicyException>)

  /** `_classify_license`. */
  function Classify(env: Environment, policy: Policy, name: string, term: string): Option<Classified> {
    var exception := MatchingException(env, policy.exceptions, name, term);
    if exception.Some? then
      var expiry := Expiry(env, exception.value);
      if expiry.None? then None
      else if expiry.value >= env.today then Some(Classified(ApprovedException, exception))
      else Some(Classified(TermClass(env, policy, term), exception))
    else Some(Classified(TermClass(env, policy, term), None))
  }

  // ---------------------------------------------------------------- records

  predicate FirstNamed(roots: seq<RequirementRoot>, n: string, i: int) {
    0 <= i < |roots| && roots[i].name == n && forall j :: 0 <= j < i ==> roots[j].name != n
  }

  /** `_merge_requirement_roots`: of several roots of one name the first one stands. */
  method MergeRoots(roots: seq<RequirementRoot>) returns (merged: map<string, RequirementRoot>)
    ensures forall n :: n in merged <==> exists r :: r in roots && r.name == n
    ensures forall n :: n in merged ==> exists i :: FirstNamed(roots, n, i) && merged[n] == roots[i]
  {
    merged := map[];
    for k := 0 to |roots|
      invariant forall n :: n in merged <==> exists r :: r in roots[..k] && r.name == n
      invariant forall n :: n in merged ==> exists i :: FirstNamed(roots, n, i) && merged[n] == roots[i]
    {
      assert roots[..k + 1] == roots[..k] + [roots[k]];
      if roots[k].name !in merged {
        assert forall j :: 0 <= j < k ==> roots[j] in roots[..k];
        assert FirstNamed(roots, roots[k].name, k);
        merged := merged[roots[k].name := roots[k]];
      }
    }
    assert roots[..|roots|] == roots;
  }

  datatype PackageRecord = PackageRecord(
    name: string, declaredName: string, version: Option<string>, installedVersion: Option<string>, direct: bool,
    groups: seq<string>, sourceFiles: seq<string>, licenseTerm: string, class_: LicenseClass,
    exceptionId: Value, exceptionOwner: Value, exceptionExpiresOn: Value, metadataAvailable: bool, matchesPin: bool)

  function MatchesPin(root: Option<RequirementRoot>, distribution: Option<Distribution>): bool {
    distribution.Some? &&
    (root.None? || root.value.pinnedVersion.None? || distribution.value.version == root.value.pinnedVersion.value)
  }

  function RecordTerm(root: Option<RequirementRoot>, distribution: Option<Distribution>): string {
    if MatchesPin(root, distribution) then distribution.value.licenseTerm else "UNKNOWN"
  }

  function Lookup<V>(m: map<string, V>, key: string): Option<V> {
    if key in m then Some(m[key]) else None
  }

  /** Everything the records are built from. */
  datatype Sources = Sources(roots: map<string, RequirementRoot>, membership: map<string, set<string>>,
                             index: map<string, Distribution>)

  /** One record of `_package_license_records`; `None` when the exception's date does not parse. */
  function BuildRecord(env: Environment, policy: Policy, sources: Sources, name: string): Option<PackageRecord>
    requires name in sources.membership
  {
    var root, distribution := Lookup(sources.roots, name), Lookup(sources.index, name);
    var term := RecordTerm(root, distribution);
    match Classify(env, policy, name, term)
    case None => None
    case Some(classified) =>
      var exception := classified.exception.GetOr([]);
      Some(PackageRecord(
        name,
        if root.Some? then root.value.declaredName else name,
        if root.Some? && root.value.pinnedVersion.Some? then root.value.pinnedVersion
        else if distribution.Some? then Some(distribution.value.version) else None,
        if distribution.Some? then Some(distribution.value.version) else None,
        root.Some?,
        Text.Sorted(sources.membership[name]),
        if root.Some? then [root.value.sourceFile] else [],
        term,
        classified.class_,
        Key(exception, "id"), Key(exception, "owner"), Key(exception, "expires_on"),
        distribution.Some? && MatchesPin(root, distribution),
        MatchesPin(root, distribution)))
  }

  /** `_package_license_records`, over the names of the membership map in sorted order; `None` when it raises. */
  method BuildRecords(env: Environment, policy: Policy, sources: Sources) returns (records: Option<seq<PackageRecord>>)
    ensures records.Some? <==> forall n :: n in sources.membership ==> BuildRecord(env, policy, sources, n).Some?
    ensures records.Some? ==> IsBuilt(env, policy, sources, Text.Sorted(sources.membership.Keys), records.value)
  {
    hide BuildRecord;
    var names := Text.Sorted(sources.membership.Keys);
    assert forall i :: 0 <= i < |names| ==> names[i] in names;
    var built: seq<PackageRecord> := [];
    for i := 0 to |names|
      invariant |built| == i
      invariant forall j :: 0 <= j < i ==> BuildRecord(env, policy, sources, names[j]) == Some(built[j])
    {
      var record := BuildRecord(env, policy, sources, names[i]);
      if record.None? {
        return None;
      }
      built := built + [record.value];
    }
    return Some(built);
  }

  ghost predicate IsBuilt(env: Environment, policy: Policy, sources: Sources, names: seq<string>,
                          records: seq<PackageRecord>) {
    |records| == |names| &&
    forall i :: 0 <= i < |names| ==>
      names[i] in sources.membership && BuildRecord(env, policy, sources, names[i]) == Some(records[i])
  }

  // ---------------------------------------------------------------- the validator

  /** `others` holds the repository, release graphs, policy and notice file, which only the staleness check reads. */
  datatype Inventory = Inventory(schemaVersion: string, serviceName: string, commitSha: string, imageDigest: string,
                                 others: Value, packages: seq<PackageRecord>)

  const SCHEMA := "lotus.license-ip-inventory.v1"
  const SERVICE := "lotus-advise"

  datatype Failure =
    | WrongSchema | WrongService | NoCommit | NoDigest | NoPackages
    | PinMismatch(name: string) | WrongClass(name: string) | StaleException(name: string)
    | UsesProhibited(name: string) | NeedsReview(name: string) | Expired(name: string)

  datatype Evidence = Evidence(id: Option<string>, owner: Option<string>, expiresOn: Option<string>)

  function EvidenceText(env: Environment, preferred: Value, fallback: Value): Option<string> {
    if Truthy(preferred) then Some(env.show(preferred))
    else if Truthy(fallback) then Some(env.show(fallback))
    else None
  }

  /** `_exception_evidence` of a policy exception: the `exception_*` keys win over the plain ones. */
  function PolicyEvidence(env: Environment, e: PolicyException): Evidence {
    Evidence(EvidenceText(env, Key(e, "exception_id"), Key(e, "id")),
             EvidenceText(env, Key(e, "exception_owner"), Key(e, "owner")),
             EvidenceText(env, Key(e, "exception_expires_on"), Key(e, "expires_on")))
  }

  /** `_exception_evidence` of a package record, which has no plain keys. */
  function RecordEvidence(env: Environment, r: PackageRecord): Evidence {
    Evidence(EvidenceText(env, r.exceptionId, Null), EvidenceText(env, r.exceptionOwner, Null),
        EvidenceText(env, r.exceptionExpiresOn, Null))
  }

  /** `_validate_exception_posture`, for an exception whose date parses. */
  function Posture(env: Environment, policy: Policy, r: PackageRecord): seq<Failure> {
    match MatchingException(env, policy.exceptions, r.name, r.licenseTerm)
    case None => []
    case Some(e) =>
      match Expiry(env, e)
      case None => []
      case Some(day) => if day < env.today then [Expired(r.name)] else []
  }

  /** The failures of one package; `None` when the classification raises. */
  function PackageFailures(env: Environment, policy: Policy, r: PackageRecord): Option<seq<Failure>> {
    match Classify(env, policy, r.name, r.licenseTerm)
    case None => None
    case Some(expected) => Some(
      (if r.matchesPin then [] else [PinMismatch(r.name)])
      + (if r.class_ != expected.class_ then [WrongClass(r.name)] else [])
      + (if RecordEvidence(env, r) != PolicyEvidence(env, expected.exception.GetOr([])) then [StaleException(r.name)]
          else [])
      + (if r.class_ == Prohibited then [UsesProhibited(r.name)] else [])
      + (if r.class_ == ReviewRequired then [NeedsReview(r.name)] else [])
      + Posture(env, policy, r))
  }

  predicate Blank(s: string) {
    forall i :: 0 <= i < |s| ==> Text.IsSpace(s[i])
  }

  function IdentityFailures(inv: Inventory): seq<Failure> {
    (if inv.schemaVersion != SCHEMA then [WrongSchema] else [])
    + (if inv.serviceName != SERVICE then [WrongService] else [])
    + (if Blank(inv.commitSha) then [NoCommit] else [])
    + (if Blank(inv.imageDigest) then [NoDigest] else [])
  }

  function AllPackageFailures(env: Environment, policy: Policy, rs: seq<PackageRecord>): Option<seq<Failure>> {
    if rs == [] then Some([])
    else
      var first, rest := PackageFailures(env, policy, rs[0]), AllPackageFailures(env, policy, rs[1..]);
      if first.None? || rest.None? then None else Some(first.value + rest.value)
  }

  function ValidationFailures(env: Environment, policy: Policy, inv: Inventory): Option<seq<Failure>> {
    if inv.packages == [] then Some(IdentityFailures(inv) + [NoPackages])
    else
      var rest := AllPackageFailures(env, policy, inv.packages);
      if rest.None? then None else Some(IdentityFailures(inv) + rest.value)
  }

  /** `validate_license_inventory`; `None` when a date does not parse. */
  method Validate(env: Environment, policy: Policy, inv: Inventory) returns (failures: Option<seq<Failure>>)
    ensures failures == ValidationFailures(env, policy, inv)
  {
    hide PackageFailures, IdentityFailures;
    var found := IdentityFailures(inv);
    if inv.packages == [] {
      return Some(found + [NoPackages]);
    }
    for i := 0 to |inv.packages|
      invariant var rest := AllPackageFailures(env, policy, inv.packages[i..]);
        (if rest.None? then None else Some(found + rest.value)) == ValidationFailures(env, policy, inv)
    {
      assert inv.packages[i..][1..] == inv.packages[i + 1..];
      var r := PackageFailures(env, policy, inv.packages[i]);
      if r.None? {
        return None;
      }
      ghost var rest := AllPackageFailures(env, policy, inv.packages[i + 1..]);
      assert rest.Some? ==> found + r.value + rest.value == found + (r.value + rest.value);
      found := found + r.value;
    }
    assert found + [] == found;
    return Some(found);
  }

  // ---------------------------------------------------------------- build, then validate

  /** The exception gives the same evidence under its plain keys as under its `exception_*` keys. */
  predicate AliasesAgree(env: Environment, e: PolicyException) {
    PlainEvidence(env, e) == PolicyEvidence(env, e)
  }

  /** The evidence a record carries away from an exception: its plain keys only. */
  function PlainEvidence(env: Environment, e: PolicyException): Evidence {
    Evidence(EvidenceText(env, Key(e, "id"), Null), EvidenceText(env, Key(e, "owner"), Null),
        EvidenceText(env, Key(e, "expires_on"), Null))
  }

  /** When the validator reports each kind of failure of a package. */
  lemma FailureKinds(env: Environment, policy: Policy, r: PackageRecord, expected: Classified)
    requires Classify(env, policy, r.name, r.licenseTerm) == Some(expected)
    ensures PackageFailures(env, policy, r).Some?
    ensures var failures := PackageFailures(env, policy, r).value;
            && (PinMismatch(r.name) in failures <==> !r.matchesPin)
            && (WrongClass(r.name) in failures <==> r.class_ != expected.class_)
            && (StaleException(r.name) in failures <==>
                  RecordEvidence(env, r) != PolicyEvidence(env, expected.exception.GetOr([])))
            && (failures == [] <==>
                  && r.matchesPin && r.class_ == expected.class_
                  && RecordEvidence(env, r) == PolicyEvidence(env, expected.exception.GetOr([]))
                  && r.class_ != Prohibited && r.class_ != ReviewRequired && Posture(env, policy, r) == [])
  {
    hide Classify, RecordEvidence, PolicyEvidence, Expiry, MatchingException;
  }

  /** What the validator says of a record built under the same policy on the same day: it never disagrees with the
      class, and calls the exception stale exactly when the exception's aliases disagree. */
  lemma BuiltRecordFailures(env: Environment, policy: Policy, sources: Sources, name: string, r: PackageRecord)
    requires name in sources.membership && BuildRecord(env, policy, sources, name) == Some(r)
    ensures PackageFailures(env, policy, r).Some?
    ensures var failures := PackageFailures(env, policy, r).value;
            var exception := MatchingException(env, policy.exceptions, r.name, r.licenseTerm);
            && WrongClass(name) !in failures
            && (StaleException(name) in failures <==> exception.Some? && !AliasesAgree(env, exception.value))
            && (PinMismatch(name) in failures <==>
                !MatchesPin(Lookup(sources.roots, name), Lookup(sources.index, name)))
            && (failures == [] <==>
                  && MatchesPin(Lookup(sources.roots, name), Lookup(sources.index, name))
                  && (r.class_ == Allowed || r.class_ == ApprovedException)
                  && (exception.Some? ==>
                        AliasesAgree(env, exception.value) && Expiry(env, exception.value).value >= env.today))
  {
    hide MatchingException, TermClass, Expiry, MatchesPin, PlainEvidence, PolicyEvidence, RecordEvidence, BuildRecord;
    RecordEvidenceIsPlain(env, policy, sources, name, r);
    RecordShape(env, policy, sources, name, r);
    ClassRederived(env, policy, sources, name, r);
    FailureKinds(env, policy, r, Classified(r.class_,
        MatchingException(env, policy.exceptions, r.name, r.licenseTerm)));
    hide PackageFailures, Classify;
  }

  /** The validator derives the class and the exception the record was built from. */
  lemma ClassRederived(env: Environment, policy: Policy, sources: Sources, name: string, r: PackageRecord)
    requires name in sources.membership && BuildRecord(env, policy, sources, name) == Some(r)
    ensures r.name == name && r.matchesPin == MatchesPin(Lookup(sources.roots, name), Lookup(sources.index, name))
    ensures Classify(env, policy, r.name, r.licenseTerm)
         == Some(Classified(r.class_, MatchingException(env, policy.exceptions, r.name, r.licenseTerm)))
  {
  }

  lemma RecordEvidenceIsPlain(env: Environment, policy: Policy, sources: Sources, name: string, r: PackageRecord)
    requires name in sources.membership && BuildRecord(env, policy, sources, name) == Some(r)
    ensures RecordEvidence(env, r) == PlainEvidence(env,
        MatchingException(env, policy.exceptions, r.name, r.licenseTerm).GetOr([]))
    ensures PolicyEvidence(env, []) == Evidence(None, None, None)
    ensures PlainEvidence(env, []) == Evidence(None, None, None)
  {
    hide MatchingException, TermClass, Expiry, MatchesPin, RecordTerm;
  }

  /** The gate on the record: installed at the pin, a permitted term, and no exception that is expired or
      contradicts itself. */
  predicate Clean(env: Environment, policy: Policy, sources: Sources, name: string)
    requires name in sources.membership
  {
    var root, distribution := Lookup(sources.roots, name), Lookup(sources.index, name);
    var term := RecordTerm(root, distribution);
    var exception := MatchingException(env, policy.exceptions, name, term);
    && MatchesPin(root, distribution)
    && (exception.Some? ==>
          && Expiry(env, exception.value).Some? && Expiry(env, exception.value).value >= env.today
          && AliasesAgree(env, exception.value))
    && (exception.None? ==> TermClass(env, policy, term) == Allowed)
  }

  /** An approved exception with two ids: the record takes one, and the validator then asks for the other. */
  const TWO_IDS: PolicyException :=
    [Entry("package", Str("p")), Entry("license_term", Str("*")), Entry("id", Str("A")),
        Entry("exception_id", Str("B")), Entry("expires_on", Str("2999-01-01"))]

  lemma TwoIdsStale(env: Environment, policy: Policy, sources: Sources)
    requires (forall s :: env.show(Str(s)) == s) && env.parseDate("2999-01-01") == Some(env.today)
    requires policy.exceptions == [TWO_IDS] && sources == Sources(map[], map["p" := {"runtime"}], map[])
    ensures var record := BuildRecord(env, policy, sources, "p");
            record.Some? && PackageFailures(env, policy, record.value).Some?
            && StaleException("p") in PackageFailures(env, policy, record.value).value
  {
    TwoIdsMatch(env);
    hide Matches, Expiry, AliasesAgree, BuildRecord, PackageFailures;
    BuiltFromException(env, policy, sources, "p", TWO_IDS);
    BuiltRecordFailures(env, policy, sources, "p", BuildRecord(env, policy, sources, "p").value);
  }

  lemma TwoIdsMatch(env: Environment)
    requires (forall s :: env.show(Str(s)) == s) && env.parseDate("2999-01-01") == Some(env.today)
    ensures Matches(env, TWO_IDS, "p", "UNKNOWN") && Expiry(env, TWO_IDS) == Some(env.today)
    ensures !AliasesAgree(env, TWO_IDS)
  {
    TwoIdsKeys();
    hide Key, PackageNames.Canonical;
    assert PlainEvidence(env, TWO_IDS).id == Some("A") && PolicyEvidence(env, TWO_IDS).id == Some("B");
  }

  lemma TwoIdsKeys()
    ensures Key(TWO_IDS, "package") == Str("p") && Key(TWO_IDS, "license_term") == Str("*")
    ensures Key(TWO_IDS, "id") == Str("A")
    ensures Key(TWO_IDS, "exception_id") == Str("B") && Key(TWO_IDS, "expires_on") == Str("2999-01-01")
  {
    assert |"package"| == 7 && |"license_term"| == 12 && |"id"| == 2 && |"exception_id"| == 12 && |"expires_on"| == 10;
    assert "license_term"[0] == 'l' && "exception_id"[0] == 'e';
    FindAt(TWO_IDS, 0);
    FindAt(TWO_IDS, 1);
    FindAt(TWO_IDS, 2);
    FindAt(TWO_IDS, 3);
    FindAt(TWO_IDS, 4);
  }

  lemma BuiltFromException(env: Environment, policy: Policy, sources: Sources, name: string, e: PolicyException)
    requires name in sources.membership && name !in sources.index && name !in sources.roots
    requires MatchingException(env, policy.exceptions, name, "UNKNOWN") == Some(e) && Expiry(env, e).Some?
    ensures var r := BuildRecord(env, policy, sources, name);
            r.Some? && r.value.name == name && r.value.licenseTerm == "UNKNOWN"
  {
    hide MatchingException, Expiry, TermClass, Key;
  }

  lemma BuiltRecordCleanIff(env: Environment, policy: Policy, sources: Sources, name: string, r: PackageRecord)
    requires name in sources.membership && BuildRecord(env, policy, sources, name) == Some(r)
    ensures PackageFailures(env, policy, r).Some?
    ensures PackageFailures(env, policy, r).value == [] <==> Clean(env, policy, sources, name)
  {
    BuiltRecordFailures(env, policy, sources, name, r);
  }

  lemma {:induction false} BuiltRecordsFailures(env: Environment, policy: Policy, sources: Sources, names: seq<string>,
                                                records: seq<PackageRecord>)
    requires IsBuilt(env, policy, sources, names, records)
    ensures AllPackageFailures(env, policy, records).Some?
    ensures AllPackageFailures(env, policy, records).value == []
       <==> forall n :: n in names ==> n in sources.membership && Clean(env, policy, sources, n)
    ensures forall n :: WrongClass(n) !in AllPackageFailures(env, policy, records).value
  {
    if names != [] {
      BuiltTail(env, policy, sources, names, records);
      hide Clean, PackageFailures, BuildRecord, IsBuilt;
      BuiltRecordsFailures(env, policy, sources, names[1..], records[1..]);
      BuiltRecordCleanIff(env, policy, sources, names[0], records[0]);
      NeverWrongClass(env, policy, sources, names[0], records[0]);
      assert forall n :: n in names <==> n == names[0] || n in names[1..];
    }
  }

  lemma BuiltTail(env: Environment, policy: Policy, sources: Sources, names: seq<string>, records: seq<PackageRecord>)
    requires IsBuilt(env, policy, sources, names, records) && names != []
    ensures records != [] && IsBuilt(env, policy, sources, names[1..], records[1..])
    ensures names[0] in sources.membership && BuildRecord(env, policy, sources, names[0]) == Some(records[0])
  {
    hide BuildRecord;
  }

  lemma NeverWrongClass(env: Environment, policy: Policy, sources: Sources, name: string, r: PackageRecord)
    requires name in sources.membership && BuildRecord(env, policy, sources, name) == Some(r)
    ensures PackageFailures(env, policy, r).Some?
    ensures forall n :: WrongClass(n) !in PackageFailures(env, policy, r).value
  {
    hide MatchingException, TermClass, Expiry, MatchesPin, EvidenceText, RecordTerm, Find, PolicyEvidence,
         RecordEvidence, BuildRecord;
    ClassRederived(env, policy, sources, name, r);
  }

  /** Exactly when an inventory passes the validator that was built under the same policy on the same day. */
  lemma BuiltInventoryPassesIff(env: Environment, policy: Policy, sources: Sources, names: seq<string>, inv: Inventory)
    requires IsBuilt(env, policy, sources, names, inv.packages) && inv.schemaVersion == SCHEMA
    requires inv.serviceName == SERVICE
    ensures ValidationFailures(env, policy, inv).Some?
    ensures ValidationFailures(env, policy, inv).value == [] <==>
              && !Blank(inv.commitSha) && !Blank(inv.imageDigest) && names != []
              && forall n :: n in names ==> n in sources.membership && Clean(env, policy, sources, n)
    ensures forall n :: WrongClass(n) !in ValidationFailures(env, policy, inv).value
  {
    hide Clean, PackageFailures, BuildRecord;
    BuiltRecordsFailures(env, policy, sources, names, inv.packages);
  }

  // ---------------------------------------------------------------- summary

  function CountDirect(rs: seq<PackageRecord>): nat {
    if rs == [] then 0 else (if rs[0].direct then 1 else 0) + CountDirect(rs[1..])
  }

  function CountClass(rs: seq<PackageRecord>, class_: LicenseClass): nat {
    if rs == [] then 0 else (if rs[|rs| - 1].class_ == class_ then 1 else 0) + CountClass(rs[..|rs| - 1], class_)
  }

  /** `_inventory_summary`. */
  method Summarize(rs: seq<PackageRecord>)
        returns (packages: nat, direct: nat, transitive: nat, classes: map<LicenseClass, nat>)
    ensures packages == |rs| && direct == CountDirect(rs) && direct + transitive == packages
    ensures forall c :: c in classes <==> CountClass(rs, c) > 0
    ensures forall c :: c in classes ==> classes[c] == CountClass(rs, c)
  {
    classes := map[];
    for i := 0 to |rs|
      invariant forall c :: c in classes <==> CountClass(rs[..i], c) > 0
      invariant forall c :: c in classes ==> classes[c] == CountClass(rs[..i], c)
    {
      assert rs[..i + 1][..i] == rs[..i];
      var c := rs[i].class_;
      classes := classes[c := (if c in classes then classes[c] else 0) + 1];
    }
    assert rs[..|rs|] == rs;
    packages, direct, transitive := |rs|, 0, 0;
    for i := 0 to |rs|
      invariant direct + CountDirect(rs[i..]) == CountDirect(rs)
      invariant direct + transitive == i
    {
      assert rs[i..][1..] == rs[i + 1..];
      if rs[i].direct { direct := direct + 1; } else { transitive := transitive + 1; }
    }
  }

  lemma {:induction false} ClassesAddUp(rs: seq<PackageRecord>)
    requires forall r :: r in rs ==> !r.class_.Other?
    ensures CountClass(rs, Allowed) + CountClass(rs, ApprovedException) + CountClass(rs, Prohibited) +
        CountClass(rs, ReviewRequired)
         == |rs|
  {
    if rs != [] {
      assert rs[|rs| - 1] in rs;
      ClassesAddUp(rs[..|rs| - 1]);
    }
  }

  lemma RecordShape(env: Environment, policy: Policy, sources: Sources, name: string, r: PackageRecord)
    requires name in sources.membership && BuildRecord(env, policy, sources, name) == Some(r)
    ensures r.name == name && r.direct == (name in sources.roots) && r.groups == Text.Sorted(sources.membership[name])
    ensures !r.class_.Other?
  {
  }

  /** The names in `names` that are roots. */
  function RootsAmong(names: seq<string>, roots: map<string, RequirementRoot>): set<string> {
    set n | n in names && n in roots
  }

  lemma RootsAmongStep(names: seq<string>, roots: map<string, RequirementRoot>)
    requires names != [] && names[0] !in names[1..]
    ensures |RootsAmong(names, roots)| == (if names[0] in roots then 1 else 0) + |RootsAmong(names[1..], roots)|
  {
    var rest := RootsAmong(names[1..], roots);
    assert names == [names[0]] + names[1..];
    assert RootsAmong(names, roots) == rest + (if names[0] in roots then {names[0]} else {});
  }

  lemma {:induction false} DirectAreRoots(env: Environment, policy: Policy, sources: Sources, names: seq<string>,
                                          records: seq<PackageRecord>)
    requires IsBuilt(env, policy, sources, names, records)
    requires forall i, j :: 0 <= i < j < |names| ==> names[i] != names[j]
    ensures CountDirect(records) == |RootsAmong(names, sources.roots)|
  {
    hide BuildRecord, RootsAmong;
    if names == [] {
      NoRootsAmongNone(sources.roots);
    } else {
      var rest := names[1..];
      assert forall i :: 0 <= i < |rest| ==> rest[i] == names[i + 1] && records[1..][i] == records[i + 1];
      DirectAreRoots(env, policy, sources, rest, records[1..]);
      RecordShape(env, policy, sources, names[0], records[0]);
      RootsAmongStep(names, sources.roots);
    }
  }

  lemma NoRootsAmongNone(roots: map<string, RequirementRoot>)
    ensures |RootsAmong([], roots)| == 0
  {
  }

  /** Conservation: an inventory built from a walk of the release graphs has one record per reachable name, its
      direct records are its distinct roots, and its classes add up. */
  lemma InventoryAddsUp(env: Environment, policy: Policy, sources: Sources, names: seq<string>,
                        records: seq<PackageRecord>, index: DependencyGraph.Index, eval: DependencyGraph.MarkerEval,
                            roots: seq<DependencyGraph.Root>)
    requires IsBuilt(env, policy, sources, names, records)
    requires forall i, j :: 0 <= i < j < |names| ==> names[i] != names[j]
    requires forall n :: n in names <==> n in sources.membership
    requires DependencyGraph.IsMembership(sources.membership, index, eval, roots)
    requires forall n :: n in sources.roots <==> exists r :: r in roots && r.request.name == n
    ensures |records| == |sources.membership.Keys|
    ensures CountDirect(records) == |sources.roots.Keys|
    ensures CountClass(records, Allowed) + CountClass(records, ApprovedException) + CountClass(records, Prohibited)
          + CountClass(records, ReviewRequired) == |records|
  {
    hide BuildRecord;
    DistinctCount(names, sources.membership.Keys);
    forall r | r in roots ensures r.request.name in sources.membership {
      assert DependencyGraph.Tags(index, eval, r, r.request.name);
      assert DependencyGraph.Has(sources.membership, r.request.name, r.group);
    }
    DirectAreRoots(env, policy, sources, names, records);
    assert RootsAmong(names, sources.roots) == sources.roots.Keys;
    forall i | 0 <= i < |records| ensures !records[i].class_.Other? {
      RecordShape(env, policy, sources, names[i], records[i]);
    }
    ClassesAddUp(records);
  }

  function RootOf(r: RequirementRoot): DependencyGraph.Root {
    DependencyGraph.Root(DependencyGraph.Request(r.name, r.extras), r.group)
  }

  function RootsOf(roots: seq<RequirementRoot>): (r: seq<DependencyGraph.Root>)
    ensures |r| == |roots|
  {
    seq(|roots|, i requires 0 <= i < |roots| => RootOf(roots[i]))
  }

  /** Some root reaches the package in the walk of the release graphs. */
  ghost predicate InGraph(index: DependencyGraph.Index, eval: DependencyGraph.MarkerEval, roots: seq<RequirementRoot>,
                          n: string) {
    exists r :: r in roots && DependencyGraph.Tags(index, eval, RootOf(r), n)
  }

  /** The records of `build_license_inventory`, from the roots of both requirement files: one for each package the walk
      finds, in order of names, direct exactly for the roots, of classes that add up. */
  method BuildInventory(env: Environment, policy: Policy, roots: seq<RequirementRoot>, index: DependencyGraph.Index,
                        eval: DependencyGraph.MarkerEval, distributions: map<string, Distribution>)
      returns (records: Option<seq<PackageRecord>>)
    requires forall r :: r in roots ==> PackageNames.Canonical(r.name) == r.name
    ensures records.Some? ==>
      && Text.Ascending(NamesOf(records.value)) &&
          (forall n :: n in NamesOf(records.value) <==> InGraph(index, eval, roots, n))
      && (forall r :: r in records.value ==> (r.direct <==> exists root :: root in roots && root.name == r.name))
      && CountDirect(records.value) == |set r | r in roots :: r.name|
      && CountClass(records.value, Allowed) + CountClass(records.value, ApprovedException)
       + CountClass(records.value, Prohibited) + CountClass(records.value, ReviewRequired) == |records.value|
  {
    var walk := new DependencyGraph.GraphWalk();
    var graphRoots := RootsOf(roots);
    walk.Membership(index, eval, graphRoots);
    var merged := MergeRoots(roots);
    var sources := Sources(merged, walk.membership, distributions);
    records := BuildRecords(env, policy, sources);
    if records.Some? {
      GraphRecords(env, policy, sources, records.value, roots, index, eval);
    }
  }

  function NamesOf(records: seq<PackageRecord>): (names: seq<string>)
    ensures |names| == |records|
  {
    seq(|records|, i requires 0 <= i < |records| => records[i].name)
  }

  lemma GraphRecords(env: Environment, policy: Policy, sources: Sources, records: seq<PackageRecord>,
                     roots: seq<RequirementRoot>, index: DependencyGraph.Index, eval: DependencyGraph.MarkerEval)
    requires DependencyGraph.IsMembership(sources.membership, index, eval, RootsOf(roots))
    requires forall n :: n in sources.roots <==> exists r :: r in roots && r.name == n
    requires IsBuilt(env, policy, sources, Text.Sorted(sources.membership.Keys), records)
    ensures Text.Ascending(NamesOf(records)) && forall n :: n in NamesOf(records) <==> InGraph(index, eval, roots, n)
    ensures forall r :: r in records ==> (r.direct <==> exists root :: root in roots && root.name == r.name)
    ensures CountDirect(records) == |set r | r in roots :: r.name|
    ensures CountClass(records, Allowed) + CountClass(records, ApprovedException) + CountClass(records, Prohibited)
          + CountClass(records, ReviewRequired) == |records|
  {
    hide BuildRecord, DependencyGraph.IsMembership, DependencyGraph.Tags, Text.Sorted, Text.Precedes, InGraph, RootsOf,
         CountDirect, CountClass;
    var names := Text.Sorted(sources.membership.Keys);
    RecordsNamed(env, policy, sources, names, records);
    forall n ensures n in sources.membership <==> InGraph(index, eval, roots, n) {
      MembersInGraph(sources.membership, roots, index, eval, n);
    }
    RootRequests(sources.roots, roots);
    InventoryAddsUp(env, policy, sources, names, records, index, eval, RootsOf(roots));
    assert sources.roots.Keys == set r | r in roots :: r.name;
  }

  lemma RecordsNamed(env: Environment, policy: Policy, sources: Sources, names: seq<string>,
                     records: seq<PackageRecord>)
    requires IsBuilt(env, policy, sources, names, records)
    ensures NamesOf(records) == names && forall r :: r in records ==> r.direct == (r.name in sources.roots)
  {
    hide BuildRecord;
    forall i | 0 <= i < |records| ensures records[i].name == names[i] &&
        records[i].direct == (names[i] in sources.roots) {
      RecordShape(env, policy, sources, names[i], records[i]);
    }
  }

  lemma RootRequests(merged: map<string, RequirementRoot>, roots: seq<RequirementRoot>)
    requires forall n :: n in merged <==> exists r :: r in roots && r.name == n
    ensures forall n :: n in merged <==> exists r :: r in RootsOf(roots) && r.request.name == n
  {
    forall n ensures n in merged <==> exists r :: r in RootsOf(roots) && r.request.name == n {
      if r :| r in roots && r.name == n {
        var i :| 0 <= i < |roots| && roots[i] == r;
        assert RootsOf(roots)[i].request.name == n;
      }
      if r :| r in RootsOf(roots) && r.request.name == n {
        var i :| 0 <= i < |roots| && RootsOf(roots)[i] == r;
        assert roots[i] in roots && roots[i].name == n;
      }
    }
  }

  lemma MembersInGraph(membership: map<string, set<string>>, roots: seq<RequirementRoot>,
                       index: DependencyGraph.Index, eval: DependencyGraph.MarkerEval, n: string)
    requires DependencyGraph.IsMembership(membership, index, eval, RootsOf(roots))
    ensures n in membership <==> InGraph(index, eval, roots, n)
  {
    hide DependencyGraph.Tags;
    if n in membership {
      var g :| g in membership[n];
      assert DependencyGraph.Has(membership, n, g);
      var r :| r in RootsOf(roots) && r.group == g && DependencyGraph.Tags(index, eval, r, n);
      var i :| 0 <= i < |roots| && RootsOf(roots)[i] == r;
      assert roots[i] in roots;
    }
    if r :| r in roots && DependencyGraph.Tags(index, eval, RootOf(r), n) {
      var i :| 0 <= i < |roots| && roots[i] == r;
      assert RootsOf(roots)[i] in RootsOf(roots);
      assert DependencyGraph.Has(membership, n, r.group);
    }
  }

  lemma {:induction false} DistinctCount(names: seq<string>, keys: set<string>)
    requires forall i, j :: 0 <= i < j < |names| ==> names[i] != names[j]
    requires forall n :: n in names <==> n in keys
    ensures |names| == |keys|
  {
    if names == [] {
      assert keys == {};
    } else {
      assert names == [names[0]] + names[1..] && names[0] !in names[1..];
      DistinctCount(names[1..], keys - {names[0]});
    }
  }
}
