/** The severity-regression gate over Bandit findings and its governed baseline. */
module BanditGate {
  import opened Common
  import opened Json
  import Text

  datatype Severity = Low | Medium | High

  function Rank(s: Severity): nat {
    match s
    case Low => 1
    case Medium => 2
    case High => 3
  }

  datatype Finding = Finding(fingerprint: string, testId: string, testName: string, severity: Severity,
                             confidence: Severity, filename: string, line: int)

  datatype BaselineEntry = BaselineEntry(fingerprint: string, severity: Severity)

  /** What lies outside this model: `str()` on JSON values, and ISO dates as day numbers. */
  datatype Environment = Environment(show: Value -> string, parseDate: string -> Option<int>, isoDate: int -> string)

  /** The laws used of it: text shows as itself, and a written date reads back. */
  ghost predicate Lawful(env: Environment) {
    && (forall s :: env.show(Str(s)) == s)
    && (forall d :: env.isoDate(d) != "" && env.parseDate(env.isoDate(d)) == Some(d))
  }

  datatype LoadFailure = MissingFile | NotJson | NotAnObject | WrongSchema | EntriesNotAList
    | EntryNotAnObject(index: nat) | MissingField(index: nat, field: string) | BadSeverity(index: nat)
    | BadConfidence(index: nat) | BadDate(index: nat) | ExpiredEntry(index: nat)

  // ---------------------------------------------------------------- the gate

  datatype Failure =
    | Loading(reason: LoadFailure)
    | DuplicateFinding(fingerprint: string)
    | DuplicateEntry(fingerprint: string)
    | HighFinding(finding: Finding)
    | NewFinding(finding: Finding)
    | Increased(finding: Finding)
    | StaleEntry(fingerprint: string)

  function FindingPrints(findings: seq<Finding>): seq<string> {
    seq(|findings|, i requires 0 <= i < |findings| => findings[i].fingerprint)
  }

  function EntryPrints(entries: seq<BaselineEntry>): seq<string> {
    seq(|entries|, i requires 0 <= i < |entries| => entries[i].fingerprint)
  }

  predicate Repeated(prints: seq<string>, fingerprint: string) {
    exists i, j :: 0 <= i < j < |prints| && prints[i] == fingerprint && prints[j] == fingerprint
  }

  /** `baseline_by_fingerprint`: the last entry of each fingerprint. */
  function ByFingerprint(entries: seq<BaselineEntry>): (m: map<string, BaselineEntry>)
    ensures forall f :: f in m <==> exists i :: 0 <= i < |entries| && entries[i].fingerprint == f
    ensures forall f :: f in m ==> m[f] in entries && m[f].fingerprint == f
  {
    if entries == [] then map[]
    else
      var last := entries[|entries| - 1];
      assert forall i :: 0 <= i < |entries| - 1 ==> entries[..|entries| - 1][i] == entries[i];
      ByFingerprint(entries[..|entries| - 1])[last.fingerprint := last]
  }

  /** What may be reported, kind by kind. */
  ghost predicate IsFailure(x: Failure, findings: seq<Finding>, entries: seq<BaselineEntry>,
                            loading: seq<LoadFailure>) {
    var baseline := ByFingerprint(entries);
    match x
    case Loading(reason) => reason in loading
    case DuplicateFinding(f) => Repeated(FindingPrints(findings), f)
    case DuplicateEntry(f) => Repeated(EntryPrints(entries), f)
    case HighFinding(g) => g in findings && g.severity == High
    case NewFinding(g) => g in findings && g.severity != High && g.fingerprint !in baseline
    case Increased(g) =>
      g in findings && g.severity != High && g.fingerprint in baseline &&
          Rank(g.severity) > Rank(baseline[g.fingerprint].severity)
    case StaleEntry(f) => f in baseline && forall g :: g in findings ==> g.fingerprint != f
  }

  /** The fingerprints that were seen before, each time they come again. */
  function Again(prints: seq<string>): seq<string> {
    if prints == [] then []
    else
      var init, last := prints[..|prints| - 1], prints[|prints| - 1];
      Again(init) + (if last in init then [last] else [])
  }

  /** The fingerprints in the order they come first: the order of the keys of a dictionary. */
  function Order(prints: seq<string>): seq<string> {
    if prints == [] then []
    else
      var init, last := prints[..|prints| - 1], prints[|prints| - 1];
      Order(init) + (if last in init then [] else [last])
  }

  function Judged(g: Finding, baseline: map<string, BaselineEntry>): seq<Failure> {
    if g.severity == High then [HighFinding(g)]
    else if g.fingerprint !in baseline then [NewFinding(g)]
    else if Rank(g.severity) > Rank(baseline[g.fingerprint].severity) then [Increased(g)]
    else []
  }

  function AllJudged(findings: seq<Finding>, baseline: map<string, BaselineEntry>): seq<Failure> {
    if findings == [] then []
    else AllJudged(findings[..|findings| - 1], baseline) + Judged(findings[|findings| - 1], baseline)
  }

  function Stale(order: seq<string>, current: seq<string>): seq<Failure> {
    if order == [] then []
    else
      Stale(order[..|order| - 1], current)
      + (if order[|order| - 1] in current then [] else [StaleEntry(order[|order| - 1])])
  }

  function Named(prints: seq<string>, failure: string -> Failure): (r: seq<Failure>)
    ensures |r| == |prints| && forall i :: 0 <= i < |r| ==> r[i] == failure(prints[i])
  {
    seq(|prints|, i requires 0 <= i < |prints| => failure(prints[i]))
  }

  /** The failures of `validate_bandit_report_against_baseline`, in the order they are appended. */
  function Failures(findings: seq<Finding>, entries: seq<BaselineEntry>, loading: seq<LoadFailure>): seq<Failure> {
    seq(|loading|, i requires 0 <= i < |loading| => Loading(loading[i]))
    + Named(Again(FindingPrints(findings)), f => DuplicateFinding(f))
    + Named(Again(EntryPrints(entries)), f => DuplicateEntry(f))
    + AllJudged(findings, ByFingerprint(entries))
    + Stale(Order(EntryPrints(entries)), FindingPrints(findings))
  }

  /** The comparison, loop by loop. The order of a dictionary's keys is kept beside it. */
  method Compare(findings: seq<Finding>, entries: seq<BaselineEntry>, loading: seq<LoadFailure>)
      returns (failures: seq<Failure>)
    ensures failures == Failures(findings, entries, loading)
  {
    hide ByFingerprint, Again, Order, AllJudged, Stale;
    failures := seq(|loading|, i requires 0 <= i < |loading| => Loading(loading[i]));
    var current, repeatedFindings := IndexFindings(findings);
    var baseline, order, repeatedEntries := IndexEntries(entries);
    failures := failures + repeatedFindings + repeatedEntries;
    var judged := CompareFindings(findings, baseline);
    var stale := StaleEntries(order, current, FindingPrints(findings));
    failures := failures + judged + stale;
  }

  method IndexFindings(findings: seq<Finding>) returns (current: map<string, Finding>, failures: seq<Failure>)
    ensures forall f :: f in current <==> f in FindingPrints(findings)
    ensures failures == Named(Again(FindingPrints(findings)), f => DuplicateFinding(f))
  {
    current, failures := map[], [];
    var prints := FindingPrints(findings);
    for i := 0 to |findings|
      invariant forall f :: f in current <==> f in prints[..i]
      invariant failures == Named(Again(prints[..i]), f => DuplicateFinding(f))
    {
      PrefixStep(prints, i);
      if findings[i].fingerprint in current {
        failures := failures + [DuplicateFinding(findings[i].fingerprint)];
      }
      current := current[findings[i].fingerprint := findings[i]];
    }
    assert prints[..|findings|] == prints;
  }

  method IndexEntries(entries: seq<BaselineEntry>)
      returns (baseline: map<string, BaselineEntry>, order: seq<string>, failures: seq<Failure>)
    ensures baseline == ByFingerprint(entries) && order == Order(EntryPrints(entries))
    ensures failures == Named(Again(EntryPrints(entries)), f => DuplicateEntry(f))
  {
    baseline, order, failures := map[], [], [];
    var prints := EntryPrints(entries);
    for i := 0 to |entries|
      invariant baseline == ByFingerprint(entries[..i]) && order == Order(prints[..i])
      invariant failures == Named(Again(prints[..i]), f => DuplicateEntry(f))
    {
      PrefixStep(prints, i);
      PrintsOfPrefix(entries, i);
      assert entries[..i + 1][..i] == entries[..i];
      if entries[i].fingerprint in baseline {
        failures := failures + [DuplicateEntry(entries[i].fingerprint)];
      } else {
        order := order + [entries[i].fingerprint];
      }
      baseline := baseline[entries[i].fingerprint := entries[i]];
    }
    assert prints[..|entries|] == prints && entries[..|entries|] == entries;
  }

  method CompareFindings(findings: seq<Finding>, baseline: map<string, BaselineEntry>) returns (failures: seq<Failure>)
    ensures failures == AllJudged(findings, baseline)
  {
    failures := [];
    for i := 0 to |findings|
      invariant failures == AllJudged(findings[..i], baseline)
    {
      var g := findings[i];
      assert findings[..i + 1][..i] == findings[..i];
      if g.severity == High {
        failures := failures + [HighFinding(g)];
        continue;
      }
      if g.fingerprint !in baseline {
        failures := failures + [NewFinding(g)];
        continue;
      }
      if Rank(g.severity) > Rank(baseline[g.fingerprint].severity) {
        failures := failures + [Increased(g)];
      }
    }
    assert findings[..|findings|] == findings;
  }

  method StaleEntries(order: seq<string>, current: map<string, Finding>, ghost prints: seq<string>)
      returns (failures: seq<Failure>)
    requires forall f :: f in current <==> f in prints
    ensures failures == Stale(order, prints)
  {
    failures := [];
    for i := 0 to |order|
      invariant failures == Stale(order[..i], prints)
    {
      assert order[..i + 1][..i] == order[..i];
      if order[i] !in current {
        failures := failures + [StaleEntry(order[i])];
      }
    }
    assert order[..|order|] == order;
  }

  lemma PrefixStep(prints: seq<string>, i: nat)
    requires i < |prints|
    ensures prints[..i + 1] == prints[..i] + [prints[i]]
    ensures Again(prints[..i + 1]) == Again(prints[..i]) + (if prints[i] in prints[..i] then [prints[i]] else [])
    ensures Order(prints[..i + 1]) == Order(prints[..i]) + (if prints[i] in prints[..i] then [] else [prints[i]])
  {
    assert prints[..i + 1][..i] == prints[..i];
  }

  lemma PrintsOfPrefix(entries: seq<BaselineEntry>, i: nat)
    requires i <= |entries|
    ensures forall f :: f in ByFingerprint(entries[..i]) <==> f in EntryPrints(entries)[..i]
  {
    forall f
      ensures f in ByFingerprint(entries[..i]) <==> f in EntryPrints(entries)[..i]
    {
      if f in EntryPrints(entries)[..i] {
        var j :| 0 <= j < i && EntryPrints(entries)[..i][j] == f;
        assert entries[..i][j].fingerprint == f;
      }
      if f in ByFingerprint(entries[..i]) {
        var j :| 0 <= j < i && entries[..i][j].fingerprint == f;
        assert EntryPrints(entries)[..i][j] == f;
      }
    }
  }

  // ---------------------------------------------------------------- which failures are reported

  /** The failures reported are exactly those that each kind calls for. */
  lemma FailuresAre(findings: seq<Finding>, entries: seq<BaselineEntry>, loading: seq<LoadFailure>, x: Failure)
    ensures x in Failures(findings, entries, loading) <==> IsFailure(x, findings, entries, loading)
  {
    hide Repeated, ByFingerprint, Again, Order, AllJudged, Stale;
    var loaded := seq(|loading|, i requires 0 <= i < |loading| => Loading(loading[i]));
    assert x in loaded <==> x.Loading? && x.reason in loading by {
      if x.Loading? && x.reason in loading {
        var i :| 0 <= i < |loading| && loading[i] == x.reason;
        assert loaded[i] == x;
      }
    }
    NamedAgain(FindingPrints(findings), f => DuplicateFinding(f), x);
    NamedAgain(EntryPrints(entries), f => DuplicateEntry(f), x);
    JudgedIs(findings, ByFingerprint(entries), x);
    StaleIs(Order(EntryPrints(entries)), FindingPrints(findings), x);
    if x.StaleEntry? {
      OrderHolds(EntryPrints(entries), x.fingerprint);
      PrintsOfPrefix(entries, |entries|);
      assert entries[..|entries|] == entries && EntryPrints(entries)[..|entries|] == EntryPrints(entries);
      PrintIn(findings, x.fingerprint);
    }
  }

  lemma PrintIn(findings: seq<Finding>, f: string)
    ensures f in FindingPrints(findings) <==> exists g :: g in findings && g.fingerprint == f
  {
    if f in FindingPrints(findings) {
      var i :| 0 <= i < |findings| && FindingPrints(findings)[i] == f;
      assert findings[i] in findings;
    }
    if g :| g in findings && g.fingerprint == f {
      var i :| 0 <= i < |findings| && findings[i] == g;
      assert FindingPrints(findings)[i] == f;
    }
  }

  lemma NamedAgain(prints: seq<string>, failure: string -> Failure, x: Failure)
    ensures x in Named(Again(prints), failure) <==> exists f :: Repeated(prints, f) && failure(f) == x
  {
    hide Repeated, Again;
    var named := Named(Again(prints), failure);
    if x in named {
      var i :| 0 <= i < |named| && named[i] == x;
      AgainIs(prints, Again(prints)[i]);
    }
    if f :| Repeated(prints, f) && failure(f) == x {
      AgainIs(prints, f);
      var i :| 0 <= i < |Again(prints)| && Again(prints)[i] == f;
      assert named[i] == x;
    }
  }

  lemma {:induction false} AgainIs(prints: seq<string>, f: string)
    ensures f in Again(prints) <==> Repeated(prints, f)
  {
    if prints != [] {
      var init, last := prints[..|prints| - 1], prints[|prints| - 1];
      AgainIs(init, f);
      assert prints == init + [last];
    }
  }

  lemma {:induction false} OrderHolds(prints: seq<string>, f: string)
    ensures f in Order(prints) <==> f in prints
  {
    if prints != [] {
      OrderHolds(prints[..|prints| - 1], f);
      assert prints == prints[..|prints| - 1] + [prints[|prints| - 1]];
    }
  }

  lemma {:induction false} JudgedIs(findings: seq<Finding>, baseline: map<string, BaselineEntry>, x: Failure)
    ensures x in AllJudged(findings, baseline) <==> exists g :: g in findings && x in Judged(g, baseline)
  {
    hide Judged;
    if findings != [] {
      JudgedIs(findings[..|findings| - 1], baseline, x);
      assert findings == findings[..|findings| - 1] + [findings[|findings| - 1]];
    }
  }

  lemma {:induction false} StaleIs(order: seq<string>, current: seq<string>, x: Failure)
    ensures x in Stale(order, current) <==> x.StaleEntry? && x.fingerprint in order && x.fingerprint !in current
  {
    if order != [] {
      StaleIs(order[..|order| - 1], current, x);
      assert order == order[..|order| - 1] + [order[|order| - 1]];
    }
  }

  /** The regression rule the gate stands for. */
  ghost predicate NoRegression(findings: seq<Finding>, entries: seq<BaselineEntry>) {
    && (forall i, j :: 0 <= i < j < |findings| ==> findings[i].fingerprint != findings[j].fingerprint)
    && (forall i, j :: 0 <= i < j < |entries| ==> entries[i].fingerprint != entries[j].fingerprint)
    && (forall g :: g in findings ==> g.severity != High)
    && (forall g :: g in findings ==> exists e :: e in entries && e.fingerprint == g.fingerprint)
    && (forall e :: e in entries ==> exists g :: g in findings && g.fingerprint == e.fingerprint)
    && (forall g, e :: g in findings && e in entries && g.fingerprint == e.fingerprint ==>
        Rank(g.severity) <= Rank(e.severity))
  }

  /** The gate is silent exactly when the baseline loads cleanly and nothing regressed. */
  lemma SilentIff(findings: seq<Finding>, entries: seq<BaselineEntry>, loading: seq<LoadFailure>)
    ensures Failures(findings, entries, loading) == [] <==> loading == [] && NoRegression(findings, entries)
  {
    hide Failures;
    forall x ensures x in Failures(findings, entries, loading) <==> IsFailure(x, findings, entries, loading) {
      FailuresAre(findings, entries, loading, x);
    }
    assert Failures(findings, entries, loading) == [] <==> forall x :: x !in Failures(findings, entries, loading) by {
      var failures := Failures(findings, entries, loading);
      assert failures != [] ==> failures[0] in failures;
    }
    if forall x :: !IsFailure(x, findings, entries, loading) {
      SilentIsClean(findings, entries, loading);
    }
  }

  lemma SilentIsClean(findings: seq<Finding>, entries: seq<BaselineEntry>, loading: seq<LoadFailure>)
    requires forall x :: !IsFailure(x, findings, entries, loading)
    ensures loading == [] && NoRegression(findings, entries)
  {
    hide Repeated, ByFingerprint;
    var baseline := ByFingerprint(entries);
    assert !IsFailure(Loading(if loading == [] then MissingFile else loading[0]), findings, entries, loading);
    forall f
      ensures !Repeated(FindingPrints(findings), f) && !Repeated(EntryPrints(entries), f)
    {
      assert !IsFailure(DuplicateFinding(f), findings, entries, loading);
      assert !IsFailure(DuplicateEntry(f), findings, entries, loading);
    }
    NeverRepeatedIff(FindingPrints(findings));
    NeverRepeatedIff(EntryPrints(entries));
    PrintsDistinct(findings, entries);
    forall g | g in findings
      ensures g.severity != High && g.fingerprint in baseline
      ensures Rank(g.severity) <= Rank(baseline[g.fingerprint].severity)
    {
      assert !IsFailure(HighFinding(g), findings, entries, loading);
      assert !IsFailure(NewFinding(g), findings, entries, loading);
      assert !IsFailure(Increased(g), findings, entries, loading);
    }
    forall e | e in entries
      ensures exists g :: g in findings && g.fingerprint == e.fingerprint
    {
      assert !IsFailure(StaleEntry(e.fingerprint), findings, entries, loading);
    }
  }

  lemma NeverRepeatedIff(prints: seq<string>)
    ensures (forall f :: !Repeated(prints, f)) <==> Distinct(prints)
  {
    if !Distinct(prints) {
      var i, j :| 0 <= i < j < |prints| && prints[i] == prints[j];
      assert Repeated(prints, prints[i]);
    }
  }

  lemma PrintsDistinct(findings: seq<Finding>, entries: seq<BaselineEntry>)
    ensures Distinct(FindingPrints(findings)) <==>
        forall i, j :: 0 <= i < j < |findings| ==> findings[i].fingerprint != findings[j].fingerprint
    ensures Distinct(EntryPrints(entries)) <==>
        forall i, j :: 0 <= i < j < |entries| ==> entries[i].fingerprint != entries[j].fingerprint
  {
    var f, e := FindingPrints(findings), EntryPrints(entries);
    assert forall i :: 0 <= i < |findings| ==> f[i] == findings[i].fingerprint;
    assert forall i :: 0 <= i < |entries| ==> e[i] == entries[i].fingerprint;
  }

  // ---------------------------------------------------------------- loading and writing the baseline

  const BASELINE_SCHEMA := "lotus.bandit-security-baseline.v1"

  const REQUIRED_FIELDS := ["fingerprint", "test_id", "severity", "confidence", "filename", "line_number", "owner",
      "rationale", "expires_on", "linked_remediation", "compensating_control"]

  function Get(raw: seq<Entry<Value>>, key: string): Value {
    Find(raw, key).GetOr(Null)
  }

  /** `_normalize_severity` and `_normalize_confidence`. */
  function ParseSeverity(env: Environment, raw: Value): Option<Severity> {
    var text := Text.Upper(if Truthy(raw) then env.show(raw) else "");
    if text == "LOW" then Some(Low) else if text == "MEDIUM" then Some(Medium) else if text == "HIGH" then Some(High)
        else None
  }

  function MissingFields(raw: seq<Entry<Value>>, index: nat, fields: seq<string>): seq<LoadFailure> {
    if fields == [] then []
    else
      (if Get(raw, fields[0]) == Null || Get(raw, fields[0]) == Str("") then [MissingField(index, fields[0])] else [])
      + MissingFields(raw, index, fields[1..])
  }

  function DateFailures(env: Environment, raw: seq<Entry<Value>>, index: nat, today: int): seq<LoadFailure> {
    match env.parseDate(env.show(Get(raw, "expires_on")))
    case None => [BadDate(index)]
    case Some(day) => if day < today then [ExpiredEntry(index)] else []
  }

  function EntryFailures(env: Environment, raw: seq<Entry<Value>>, index: nat, today: int): seq<LoadFailure> {
    MissingFields(raw, index, REQUIRED_FIELDS)
    + (if ParseSeverity(env, Get(raw, "severity")).None? then [BadSeverity(index)] else [])
    + (if ParseSeverity(env, Get(raw, "confidence")).None? then [BadConfidence(index)] else [])
    + DateFailures(env, raw, index, today)
  }

  /** `_load_baseline_entry`. */
  function LoadEntry(env: Environment, raw: seq<Entry<Value>>, index: nat, today: int)
        : (Option<BaselineEntry>, seq<LoadFailure>) {
    var failures := EntryFailures(env, raw, index, today);
    var severity := ParseSeverity(env, Get(raw, "severity"));
    if failures != [] || severity.None? then (None, failures)
    else (Some(BaselineEntry(env.show(Get(raw, "fingerprint")), severity.value)), [])
  }

  function LoadEntries(env: Environment, raws: seq<Value>, index: nat, today: int)
        : (seq<BaselineEntry>, seq<LoadFailure>) {
    if raws == [] then ([], [])
    else
      var (rest, restFailures) := LoadEntries(env, raws[1..], index + 1, today);
      if !raws[0].Obj? then (rest, [EntryNotAnObject(index)] + restFailures)
      else
        var (entry, failures) := LoadEntry(env, raws[0].entries, index, today);
        ((if entry.Some? then [entry.value] else []) + rest, failures + restFailures)
  }

  /** The baseline file: missing, not JSON, or a JSON value. */
  datatype BaselineFile = Absent | Malformed | Parsed(payload: Value)

  /** `load_bandit_baseline`. */
  function LoadBaseline(env: Environment, file: BaselineFile, today: int): (seq<BaselineEntry>, seq<LoadFailure>) {
    match file
    case Absent => ([], [MissingFile])
    case Malformed => ([], [NotJson])
    case Parsed(payload) =>
      if !payload.Obj? then ([], [NotAnObject])
      else
        var schema: seq<LoadFailure> := if Get(payload.entries, "schema_version") == Str(BASELINE_SCHEMA) then []
            else [WrongSchema];
        var raws := Get(payload.entries, "entries");
        if !raws.Arr? then ([], schema + [EntriesNotAList])
        else
          var (entries, failures) := LoadEntries(env, raws.items, 0, today);
          (entries, schema + failures)
  }

  /** The loading loop: what is kept and what is reported, entry by entry. */
  method Load(env: Environment, file: BaselineFile, today: int)
        returns (entries: seq<BaselineEntry>, failures: seq<LoadFailure>)
    ensures (entries, failures) == LoadBaseline(env, file, today)
  {
    hide LoadEntry, Get;
    entries, failures := [], [];
    match file
    case Absent => failures := [MissingFile];
    case Malformed => failures := [NotJson];
    case Parsed(payload) =>
      if !payload.Obj? {
        return [], [NotAnObject];
      }
      if Get(payload.entries, "schema_version") != Str(BASELINE_SCHEMA) {
        failures := [WrongSchema];
      }
      var raws := Get(payload.entries, "entries");
      if !raws.Arr? {
        return [], failures + [EntriesNotAList];
      }
      entries, failures := LoadAll(env, raws.items, failures, today);
  }

  method LoadAll(env: Environment, raws: seq<Value>, before: seq<LoadFailure>, today: int)
      returns (entries: seq<BaselineEntry>, failures: seq<LoadFailure>)
    ensures var (all, found) := LoadEntries(env, raws, 0, today); entries == all && failures == before + found
  {
    hide LoadEntry;
    entries, failures := [], before;
    for i := 0 to |raws|
      invariant var (rest, restFailures) := LoadEntries(env, raws[i..], i, today);
        var (all, found) := LoadEntries(env, raws, 0, today);
        entries + rest == all && failures + restFailures == before + found
    {
      assert raws[i..][1..] == raws[i + 1..] && raws[i..][0] == raws[i];
      if !raws[i].Obj? {
        failures := failures + [EntryNotAnObject(i)];
      } else {
        var (entry, found) := LoadEntry(env, raws[i].entries, i, today);
        failures := failures + found;
        if entry.Some? {
          entries := entries + [entry.value];
        }
      }
    }
    assert raws[|raws|..] == [];
  }

  /** The governance texts a baseline is written with. */
  datatype Governance = Governance(owner: string, rationale: string, expiresOn: int, remediation: string,
                                   control: string)

  function SeverityText(s: Severity): string {
    match s
    case Low => "LOW"
    case Medium => "MEDIUM"
    case High => "HIGH"
  }

  function WrittenEntry(env: Environment, g: Finding, gov: Governance): seq<Entry<Value>> {
    [Entry("fingerprint", Str(g.fingerprint)), Entry("test_id", Str(g.testId)), Entry("test_name", Str(g.testName)),
     Entry("severity", Str(SeverityText(g.severity))), Entry("confidence", Str(SeverityText(g.confidence))),
     Entry("filename", Str(g.filename)), Entry("line_number", Int(g.line)), Entry("owner", Str(gov.owner)),
     Entry("rationale", Str(gov.rationale)), Entry("expires_on", Str(env.isoDate(gov.expiresOn))),
     Entry("linked_remediation", Str(gov.remediation)), Entry("compensating_control", Str(gov.control))]
  }

  function WrittenEntries(env: Environment, findings: seq<Finding>, gov: Governance): seq<Value> {
    if findings == [] then []
    else (if findings[0].severity == High then [] else [Obj(WrittenEntry(env, findings[0], gov))])
         + WrittenEntries(env, findings[1..], gov)
  }

  // ---------------------------------------------------------------- the order of the written findings

  /** The order of the keys (filename, line number, test id). */
  predicate KeyPrecedes(a: Finding, b: Finding) {
    if a.filename != b.filename then Text.Precedes(a.filename, b.filename)
    else if a.line != b.line then a.line < b.line
    else Text.Precedes(a.testId, b.testId)
  }

  predicate SameKey(a: Finding, b: Finding) {
    a.filename == b.filename && a.line == b.line && a.testId == b.testId
  }

  function InsertFinding(g: Finding, sorted: seq<Finding>): seq<Finding> {
    if sorted == [] || KeyPrecedes(g, sorted[0]) then [g] + sorted
    else [sorted[0]] + InsertFinding(g, sorted[1..])
  }

  /** `sorted` by that key. */
  function SortFindings(findings: seq<Finding>): seq<Finding> {
    if findings == [] then [] else InsertFinding(findings[0], SortFindings(findings[1..]))
  }

  predicate InKeyOrder(findings: seq<Finding>) {
    forall i, j :: 0 <= i < j < |findings| ==> KeyPrecedes(findings[i], findings[j])
  }

  /** The findings with the key of `k`, in their order. */
  function WithKey(findings: seq<Finding>, k: Finding): seq<Finding> {
    if findings == [] then []
    else (if SameKey(findings[0], k) then [findings[0]] else []) + WithKey(findings[1..], k)
  }

  lemma KeyOrder(a: Finding, b: Finding, c: Finding)
    ensures KeyPrecedes(a, b) || KeyPrecedes(b, a)
    ensures KeyPrecedes(a, b) && KeyPrecedes(b, c) ==> KeyPrecedes(a, c)
    ensures SameKey(a, b) ==> KeyPrecedes(a, b)
  {
    Text.PrecedesTotal(a.filename, b.filename);
    Text.PrecedesTotal(b.filename, c.filename);
    Text.PrecedesTotal(a.testId, b.testId);
    Text.PrecedesTotal(a.testId, a.testId);
    if Text.Precedes(a.filename, b.filename) && Text.Precedes(b.filename, c.filename) {
      Text.PrecedesTransitive(a.filename, b.filename, c.filename);
    }
    if Text.Precedes(a.testId, b.testId) && Text.Precedes(b.testId, c.testId) {
      Text.PrecedesTransitive(a.testId, b.testId, c.testId);
    }
  }

  lemma {:induction false} InsertFindingKeeps(g: Finding, sorted: seq<Finding>, k: Finding)
    requires InKeyOrder(sorted)
    ensures InKeyOrder(InsertFinding(g, sorted)) && multiset(InsertFinding(g, sorted)) == multiset{g} + multiset(sorted)
    ensures WithKey(InsertFinding(g, sorted), k) == WithKey([g] + sorted, k)
  {
    hide KeyPrecedes, SameKey;
    if sorted != [] {
      var first, rest := sorted[0], sorted[1..];
      assert sorted == [first] + rest;
      if KeyPrecedes(g, first) {
        forall i | 0 <= i < |sorted| ensures KeyPrecedes(g, sorted[i]) {
          KeyOrder(g, first, sorted[i]);
        }
      } else {
        InsertFindingKeeps(g, rest, k);
        KeyOrder(g, first, first);
        InsertedAfter(g, first, rest);
        NotSameKey(g, first, k);
        WithKeySwap(g, first, rest, InsertFinding(g, rest), k);
      }
    }
  }

  /** Findings of different keys change places without effect on any one key. */
  lemma WithKeySwap(g: Finding, first: Finding, rest: seq<Finding>, inner: seq<Finding>, k: Finding)
    requires !(SameKey(g, k) && SameKey(first, k)) && WithKey(inner, k) == WithKey([g] + rest, k)
    ensures WithKey([first] + inner, k) == WithKey([g] + ([first] + rest), k)
  {
    hide SameKey, WithKey;
    WithKeyCons(first, inner, k);
    WithKeyCons(g, rest, k);
    WithKeyCons(g, [first] + rest, k);
    WithKeyCons(first, rest, k);
  }

  lemma WithKeyCons(first: Finding, rest: seq<Finding>, k: Finding)
    ensures WithKey([first] + rest, k) == if SameKey(first, k) then [first] + WithKey(rest, k) else WithKey(rest, k)
  {
    hide SameKey;
    assert ([first] + rest)[1..] == rest;
  }

  lemma InsertedAfter(g: Finding, first: Finding, rest: seq<Finding>)
    requires InKeyOrder(InsertFinding(g, rest)) && multiset(InsertFinding(g, rest)) == multiset{g} + multiset(rest)
    requires KeyPrecedes(first, g) && InKeyOrder([first] + rest)
    ensures InKeyOrder([first] + InsertFinding(g, rest))
  {
    hide KeyPrecedes, InsertFinding;
    var inner := InsertFinding(g, rest);
    forall i | 0 <= i < |inner| ensures KeyPrecedes(first, inner[i]) {
      assert inner[i] in multiset(inner);
      if inner[i] != g {
        assert inner[i] in multiset(rest) && inner[i] in rest;
        var j :| 0 <= j < |rest| && rest[j] == inner[i];
        var whole := [first] + rest;
        assert whole[0] == first && whole[j + 1] == inner[i];
      }
    }
  }

  lemma NotSameKey(g: Finding, first: Finding, k: Finding)
    requires !KeyPrecedes(g, first)
    ensures !(SameKey(g, k) && SameKey(first, k))
  {
    KeyOrder(g, first, first);
  }

  /** Sorting loses nothing, orders by key, and keeps the findings of one key in the order they came. */
  lemma {:induction false} SortFindingsSorts(findings: seq<Finding>, k: Finding)
    ensures InKeyOrder(SortFindings(findings)) && multiset(SortFindings(findings)) == multiset(findings)
    ensures WithKey(SortFindings(findings), k) == WithKey(findings, k)
  {
    hide KeyPrecedes, SameKey, InsertFinding;
    if findings != [] {
      var sorted := SortFindings(findings[1..]);
      SortFindingsSorts(findings[1..], k);
      InsertFindingKeeps(findings[0], sorted, k);
      assert findings == [findings[0]] + findings[1..];
      assert ([findings[0]] + sorted)[1..] == sorted;
    }
  }

  // ---------------------------------------------------------------- writing

  /** `build_current_baseline_payload`. */
  method BuildBaseline(env: Environment, findings: seq<Finding>, gov: Governance) returns (payload: Value)
    ensures payload == BaselinePayload(env, SortFindings(findings), gov)
  {
    hide WrittenEntry, SortFindings, InsertFinding;
    var sorted := SortFindings(findings);
    var entries: seq<Value> := [];
    for i := 0 to |sorted|
      invariant entries + WrittenEntries(env, sorted[i..], gov) == WrittenEntries(env, sorted, gov)
    {
      assert sorted[i..][1..] == sorted[i + 1..];
      if sorted[i].severity == High {
        continue;
      }
      entries := entries + [Obj(WrittenEntry(env, sorted[i], gov))];
    }
    assert sorted[|sorted|..] == [] && entries + [] == entries;
    payload := Obj([Entry("schema_version", Str(BASELINE_SCHEMA)), Entry("service", Str("lotus-advise")),
                    Entry("source_path", Str("src")), Entry("entries", Arr(entries))]);
  }

  function BaselinePayload(env: Environment, sorted: seq<Finding>, gov: Governance): Value {
    Obj([Entry("schema_version", Str(BASELINE_SCHEMA)), Entry("service", Str("lotus-advise")),
         Entry("source_path", Str("src")), Entry("entries", Arr(WrittenEntries(env, sorted, gov)))])
  }

  // ---------------------------------------------------------------- write, then validate

  /** Every text a baseline entry must have is there. */
  predicate Governed(g: Finding, gov: Governance) {
    && g.fingerprint != "" && g.testId != "" && g.filename != ""
    && gov.owner != "" && gov.rationale != "" && gov.remediation != "" && gov.control != ""
  }

  lemma ParseSeverityText(env: Environment, s: Severity)
    requires Lawful(env)
    ensures ParseSeverity(env, Str(SeverityText(s))) == Some(s)
  {
  }

  lemma WrittenFields(env: Environment, g: Finding, gov: Governance)
    ensures var raw := WrittenEntry(env, g, gov);
      && Get(raw, "fingerprint") == Str(g.fingerprint)
      && Get(raw, "test_id") == Str(g.testId)
      && Get(raw, "severity") == Str(SeverityText(g.severity))
      && Get(raw, "confidence") == Str(SeverityText(g.confidence))
      && Get(raw, "filename") == Str(g.filename)
      && Get(raw, "line_number") == Int(g.line)
      && Get(raw, "owner") == Str(gov.owner)
      && Get(raw, "rationale") == Str(gov.rationale)
      && Get(raw, "expires_on") == Str(env.isoDate(gov.expiresOn))
      && Get(raw, "linked_remediation") == Str(gov.remediation)
      && Get(raw, "compensating_control") == Str(gov.control)
  {
    hide Find, DistinctKeys;
    var raw := WrittenEntry(env, g, gov);
    WrittenKeysDistinct(env, g, gov);
    FindAt(raw, 0);
    FindAt(raw, 1);
    FindAt(raw, 3);
    FindAt(raw, 4);
    FindAt(raw, 5);
    FindAt(raw, 6);
    FindAt(raw, 7);
    FindAt(raw, 8);
    FindAt(raw, 9);
    FindAt(raw, 10);
    FindAt(raw, 11);
  }

  lemma WrittenKeysDistinct(env: Environment, g: Finding, gov: Governance)
    ensures DistinctKeys(WrittenEntry(env, g, gov))
  {
  }

  /** A written entry misses no field exactly when its texts are all there. */
  lemma WrittenMissesNothingIff(env: Environment, g: Finding, gov: Governance, index: nat)
    requires Lawful(env)
    ensures MissingFields(WrittenEntry(env, g, gov), index, REQUIRED_FIELDS) == [] <==> Governed(g, gov)
  {
    hide WrittenEntry, Get;
    WrittenFields(env, g, gov);
    var raw := WrittenEntry(env, g, gov);
    MissingFieldsEmptyIff(raw, index, REQUIRED_FIELDS);
    assert SeverityText(g.severity) != "" && SeverityText(g.confidence) != "" && env.isoDate(gov.expiresOn) != "";
    var missing := (f: string) => Get(raw, f) == Null || Get(raw, f) == Str("");
    assert REQUIRED_FIELDS[0] == "fingerprint" && REQUIRED_FIELDS[1] == "test_id" && REQUIRED_FIELDS[4] == "filename";
    assert REQUIRED_FIELDS[6] == "owner" && REQUIRED_FIELDS[7] == "rationale";
    assert REQUIRED_FIELDS[9] == "linked_remediation" && REQUIRED_FIELDS[10] == "compensating_control";
  }

  lemma {:induction false} MissingFieldsEmptyIff(raw: seq<Entry<Value>>, index: nat, fields: seq<string>)
    ensures MissingFields(raw, index, fields) == []
       <==> forall i :: 0 <= i < |fields| ==> Get(raw, fields[i]) != Null && Get(raw, fields[i]) != Str("")
  {
    if fields != [] {
      MissingFieldsEmptyIff(raw, index, fields[1..]);
      assert forall i :: 1 <= i < |fields| ==> fields[i] == fields[1..][i - 1];
    }
  }

  /** A written entry loads exactly when it is governed and its date has not passed. */
  lemma WrittenEntryLoadsIff(env: Environment, g: Finding, gov: Governance, index: nat, today: int)
    requires Lawful(env)
    ensures var (entry, failures) := LoadEntry(env, WrittenEntry(env, g, gov), index, today);
      && (failures == [] <==> Governed(g, gov) && gov.expiresOn >= today)
      && (failures == [] ==> entry == Some(BaselineEntry(g.fingerprint, g.severity)))
      && (failures != [] ==> entry == None)
  {
    hide WrittenEntry, Get, MissingFields, ParseSeverity;
    WrittenFields(env, g, gov);
    WrittenMissesNothingIff(env, g, gov, index);
    ParseSeverityText(env, g.severity);
    ParseSeverityText(env, g.confidence);
  }

  /** The entries that survive a load of what was written: one for each finding that is not high. */
  function ExpectedEntries(findings: seq<Finding>): seq<BaselineEntry> {
    if findings == [] then []
    else (if findings[0].severity == High then [] else [BaselineEntry(findings[0].fingerprint, findings[0].severity)])
         + ExpectedEntries(findings[1..])
  }

  lemma {:induction false} WrittenEntriesLoadIff(env: Environment, findings: seq<Finding>, gov: Governance, index: nat,
                                                 today: int)
    requires Lawful(env)
    ensures var (entries, failures) := LoadEntries(env, WrittenEntries(env, findings, gov), index, today);
      && (failures == [] <==> forall g :: g in findings && g.severity != High ==>
          Governed(g, gov) && gov.expiresOn >= today)
      && (failures == [] ==> entries == ExpectedEntries(findings))
  {
    hide WrittenEntry, LoadEntry, Governed;
    if findings != [] {
      var g, rest := findings[0], WrittenEntries(env, findings[1..], gov);
      assert findings == [g] + findings[1..];
      if g.severity == High {
        assert WrittenEntries(env, findings, gov) == rest &&
            ExpectedEntries(findings) == ExpectedEntries(findings[1..]);
        WrittenEntriesLoadIff(env, findings[1..], gov, index, today);
      } else {
        WrittenEntriesLoadIff(env, findings[1..], gov, index + 1, today);
        WrittenEntryLoadsIff(env, g, gov, index, today);
        var all := WrittenEntries(env, findings, gov);
        assert all[0] == Obj(WrittenEntry(env, g, gov)) && all[1..] == rest;
      }
    }
  }

  lemma {:induction false} ExpectedEntriesMembers(findings: seq<Finding>)
    ensures forall e :: e in ExpectedEntries(findings)
              <==> exists g :: g in findings && g.severity != High && e == BaselineEntry(g.fingerprint, g.severity)
  {
    if findings != [] {
      ExpectedEntriesMembers(findings[1..]);
      assert findings == [findings[0]] + findings[1..];
    }
  }

  lemma {:induction false} ExpectedEntriesDistinct(findings: seq<Finding>)
    requires Distinct(FindingPrints(findings))
    ensures Distinct(EntryPrints(ExpectedEntries(findings)))
  {
    if findings != [] {
      var rest := ExpectedEntries(findings[1..]);
      assert FindingPrints(findings[1..]) == FindingPrints(findings)[1..];
      ExpectedEntriesDistinct(findings[1..]);
      ExpectedEntriesMembers(findings[1..]);
      forall e | e in rest ensures e.fingerprint != findings[0].fingerprint {
        var g :| g in findings[1..] && e == BaselineEntry(g.fingerprint, g.severity);
        var i :| 0 <= i < |findings[1..]| && findings[1..][i] == g;
        assert FindingPrints(findings)[0] != FindingPrints(findings)[i + 1];
      }
      var all := ExpectedEntries(findings);
      forall i, j | 0 <= i < j < |all|
        ensures EntryPrints(all)[i] != EntryPrints(all)[j]
      {
        if findings[0].severity != High {
          assert all == [BaselineEntry(findings[0].fingerprint, findings[0].severity)] + rest;
          if i == 0 {
            assert all[j] == rest[j - 1];
          } else {
            assert EntryPrints(rest)[i - 1] == EntryPrints(all)[i] && EntryPrints(rest)[j - 1] == EntryPrints(all)[j];
          }
        } else {
          assert all == rest;
        }
      }
    }
  }

  lemma LoadWrittenBaseline(env: Environment, sorted: seq<Finding>, gov: Governance, today: int)
    ensures LoadBaseline(env, Parsed(BaselinePayload(env, sorted, gov)), today)
         == LoadEntries(env, WrittenEntries(env, sorted, gov), 0, today)
  {
    hide WrittenEntries, LoadEntries, Find;
    var entries := BaselinePayload(env, sorted, gov).entries;
    assert "schema_version"[1] == 'c' && "service"[1] == 'e' && "source_path"[1] == 'o' && "entries"[0] == 'e';
    FindAt(entries, 0);
    FindAt(entries, 3);
    var (es, fs) := LoadEntries(env, WrittenEntries(env, sorted, gov), 0, today);
    assert [] + fs == fs;
  }

  /** Exactly when the report a baseline was written from passes the gate against that baseline. */
  lemma WrittenBaselinePassesIff(env: Environment, findings: seq<Finding>, gov: Governance, today: int)
    requires Lawful(env)
    ensures var (entries, loading) := LoadBaseline(env, Parsed(BaselinePayload(env, SortFindings(findings), gov)),
        today);
      Failures(findings, entries, loading) == [] <==>
        && Distinct(FindingPrints(findings))
        && forall g :: g in findings ==> g.severity != High && Governed(g, gov) && gov.expiresOn >= today
  {
    hide BaselinePayload, LoadBaseline, Governed, NoRegression, Failures, SortFindings, Distinct;
    if findings != [] {
      SortFindingsSorts(findings, findings[0]);
    }
    assert SortFindings([]) == [] by { NothingSorted(); }
    ReorderedBaselinePassesIff(env, findings, SortFindings(findings), gov, today);
    var (entries, loading) := LoadBaseline(env, Parsed(BaselinePayload(env, SortFindings(findings), gov)), today);
    SilentIff(findings, entries, loading);
  }

  lemma NothingSorted()
    ensures SortFindings([]) == []
  {
  }

  /** The same for the entries in any order. */
  lemma ReorderedBaselinePassesIff(env: Environment, findings: seq<Finding>, sorted: seq<Finding>, gov: Governance,
                                   today: int)
    requires Lawful(env) && multiset(sorted) == multiset(findings)
    ensures var (entries, loading) := LoadBaseline(env, Parsed(BaselinePayload(env, sorted, gov)), today);
      (loading == [] && NoRegression(findings, entries)) <==>
        && Distinct(FindingPrints(findings))
        && forall g :: g in findings ==> g.severity != High && Governed(g, gov) && gov.expiresOn >= today
  {
    hide BaselinePayload, LoadBaseline, LoadEntries, WrittenEntries, Governed, ExpectedEntries, NoRegression;
    LoadWrittenBaseline(env, sorted, gov, today);
    WrittenEntriesLoadIff(env, sorted, gov, 0, today);
    SameMembers(findings, sorted);
    ExpectedNoRegressionIff(findings, sorted);
    var (entries, loading) := LoadBaseline(env, Parsed(BaselinePayload(env, sorted, gov)), today);
  }

  lemma SameMembers(findings: seq<Finding>, sorted: seq<Finding>)
    requires multiset(sorted) == multiset(findings)
    ensures forall g :: g in sorted <==> g in findings
  {
    forall g ensures g in sorted <==> g in findings {
      assert g in sorted <==> g in multiset(sorted);
      assert g in findings <==> g in multiset(findings);
    }
  }

  /** Compared with the entries written from itself, a report shows no regression exactly when its fingerprints are
      distinct and nothing is high. */
  lemma ExpectedNoRegressionIff(findings: seq<Finding>, sorted: seq<Finding>)
    requires multiset(sorted) == multiset(findings)
    ensures NoRegression(findings, ExpectedEntries(sorted))
       <==> Distinct(FindingPrints(findings)) && forall g :: g in findings ==> g.severity != High
  {
    hide ExpectedEntries, FindingPrints, EntryPrints, Distinct;
    var entries := ExpectedEntries(sorted);
    SameMembers(findings, sorted);
    ExpectedEntriesMembers(sorted);
    PrintsDistinct(findings, entries);
    if Distinct(FindingPrints(findings)) && forall g :: g in findings ==> g.severity != High {
      SortedDistinct(findings, sorted);
      ExpectedEntriesDistinct(sorted);
      SameFindings(findings);
      forall g | g in findings
        ensures exists e :: e in entries && e.fingerprint == g.fingerprint
      {
        assert BaselineEntry(g.fingerprint, g.severity) in entries;
      }
    }
  }

  lemma SortedDistinct(findings: seq<Finding>, sorted: seq<Finding>)
    requires multiset(sorted) == multiset(findings) && Distinct(FindingPrints(findings))
    ensures Distinct(FindingPrints(sorted))
  {
    SameMembers(findings, sorted);
    SameFindings(findings);
    OnceEach(findings);
    forall i, j | 0 <= i < j < |sorted|
      ensures FindingPrints(sorted)[i] != FindingPrints(sorted)[j]
    {
      if sorted[i].fingerprint == sorted[j].fingerprint {
        assert sorted[i] in findings && sorted[j] in findings;
        TwiceInMultiset(sorted, i, j);
      }
    }
  }

  lemma TwiceInMultiset(items: seq<Finding>, i: nat, j: nat)
    requires i < j < |items| && items[i] == items[j]
    ensures multiset(items)[items[i]] >= 2
  {
    assert items == items[..j] + items[j..];
    assert items[..j][i] == items[i] && items[j..][0] == items[j];
    assert items[i] in multiset(items[..j]) && items[i] in multiset(items[j..]);
  }

  lemma {:induction false} OnceEach(findings: seq<Finding>)
    requires Distinct(FindingPrints(findings))
    ensures forall g :: multiset(findings)[g] <= 1
  {
    if findings != [] {
      assert FindingPrints(findings[1..]) == FindingPrints(findings)[1..];
      OnceEach(findings[1..]);
      assert findings == [findings[0]] + findings[1..];
      forall i | 0 <= i < |findings[1..]|
        ensures findings[1..][i] != findings[0]
      {
        assert FindingPrints(findings)[0] != FindingPrints(findings)[i + 1];
      }
      assert findings[0] !in findings[1..];
      assert findings[0] !in multiset(findings[1..]);
    }
  }

  /** With distinct fingerprints a fingerprint determines its finding. */
  lemma SameFindings(findings: seq<Finding>)
    requires Distinct(FindingPrints(findings))
    ensures forall g, h :: g in findings && h in findings && g.fingerprint == h.fingerprint ==> g == h
  {
    forall g, h | g in findings && h in findings && g.fingerprint == h.fingerprint
      ensures g == h
    {
      var i :| 0 <= i < |findings| && findings[i] == g;
      var j :| 0 <= j < |findings| && findings[j] == h;
      assert FindingPrints(findings)[i] == FindingPrints(findings)[j];
    }
  }
}
