/** Freshness of trust telemetry: patching, validation and certification of a snapshot. */
module TrustFreshness {
  import opened Common
  import opened Json
  import Text

  /** Instants are microseconds since the epoch. */
  type Instant = int

  const SECOND := 1_000_000

  /** Timestamp text: the parser reads an instant from it, or rejects it, and the formatter writes whole seconds. */
  datatype Clock = Clock(parse: Value -> Option<Instant>, format: Instant -> string)

  /** `isoformat(timespec="seconds")` drops the fraction of the second. */
  function WholeSecond(t: Instant): Instant {
    t - t % SECOND
  }

  /** Formatting and parsing agree up to the second; text that is not truthy does not parse. */
  ghost predicate Lawful(clock: Clock) {
    && (forall t :: clock.format(t) != "" && clock.parse(Str(clock.format(t))) == Some(WholeSecond(t)))
    && (forall v :: !Truthy(v) ==> clock.parse(v) == None)
    && (forall a, b :: WholeSecond(a) == WholeSecond(b) ==> clock.format(a) == clock.format(b))
  }

  datatype FreshnessState = Current | Stale | Unknown

  function StateText(s: FreshnessState): string {
    match s
    case Current => "current"
    case Stale => "stale"
    case Unknown => "unknown"
  }

  /** The freshness object; `Null` is an absent key. */
  datatype Freshness = Freshness(observedAt: Value, evaluatedAt: Value, maxAge: Value, ageSeconds: Value, state: Value)

  datatype Evidence = Evidence(referenceTime: Value, commitSha: Value, runId: Value)

  /** The blocking posture of a snapshot: absent or something else, open, or blocked for a reason. */
  datatype Blocking = OtherPosture | Open | Blocked(reason: string)

  /** The parts of a snapshot this module reads or writes. `None` is a value that is not an object; evidence may also
      be absent, in which case the patch creates it. */
  datatype EvidenceSlot = NoEvidence | NotAnObject | Holds(evidence: Evidence)

  datatype Snapshot = Snapshot(freshness: Option<Freshness>, emittedAt: Value, evidence: EvidenceSlot,
                               blocking: Blocking)

  datatype Error = FreshnessNotAnObject | BadObservedAt | BadMaxAge | EvidenceNotAnObject

  datatype Result<T> = Ok(value: T) | Err(error: Error)

  // ---------------------------------------------------------------- derivation

  /** `int(total_seconds())` truncates toward zero. */
  function AgeSeconds(observed: Instant, reference: Instant): int {
    var d := reference - observed;
    if d < 0 then -((-d) / SECOND) else d / SECOND
  }

  function DerivedState(age: int, maxAge: Option<int>): FreshnessState {
    if age < 0 || maxAge.None? then Unknown
    else if age <= maxAge.value then Current else Stale
  }

  /** `_freshness_observed_at`: falls back to the evaluation time. */
  function ObservedAt(clock: Clock, f: Freshness): Option<Instant> {
    clock.parse(if Truthy(f.observedAt) then f.observedAt else f.evaluatedAt)
  }

  /** `_max_allowed_age_seconds`. */
  function MaxAge(f: Freshness): Result<Option<int>> {
    match f.maxAge
    case Null => Ok(None)
    case Int(n) => if n < 1 then Err(BadMaxAge) else Ok(Some(n))
    case _ => Err(BadMaxAge)
  }

  function PostureFor(s: FreshnessState): Blocking {
    match s
    case Stale => Blocked("TRUST_TELEMETRY_STALE")
    case Current => Open
    case Unknown => Blocked("TRUST_TELEMETRY_FRESHNESS_UNKNOWN")
  }

  /** The validation run a patch is made for. */
  datatype Run = Run(reference: Instant, commitSha: string, runId: string)

  /** `expected_freshness_patch`. */
  function Patch(clock: Clock, s: Snapshot, run: Run): Result<Snapshot> {
    if s.freshness.None? then Err(FreshnessNotAnObject)
    else
      var f := s.freshness.value;
      var observed := ObservedAt(clock, f);
      if observed.None? then Err(BadObservedAt)
      else match MaxAge(f)
        case Err(e) => Err(e)
        case Ok(maxAge) =>
          if s.evidence.NotAnObject? then Err(EvidenceNotAnObject)
          else
            var age := AgeSeconds(observed.value, run.reference);
            var state := DerivedState(age, maxAge);
            var now := Str(clock.format(run.reference));
            Ok(Snapshot(
              Some(f.(evaluatedAt := now, ageSeconds := Int(if age > 0 then age else 0),
                  state := Str(StateText(state)))), now,
              Holds(Evidence(now, Str(run.commitSha), Str(run.runId))),
              PostureFor(state)))
  }

  /** The snapshot dictionary while it is patched key by key. */
  class SnapshotPatch {
    var snapshot: Snapshot

    constructor (copy: Snapshot)
      ensures snapshot == copy
    {
      snapshot := copy;
    }

    method Apply(clock: Clock, run: Run) returns (error: Option<Error>)
      modifies this
      ensures error.None? ==> Patch(clock, old(snapshot), run) == Ok(snapshot)
      ensures error.Some? ==> Patch(clock, old(snapshot), run) == Err(error.value)
    {
      if snapshot.freshness.None? {
        return Some(FreshnessNotAnObject);
      }
      var observed := ObservedAt(clock, snapshot.freshness.value);
      if observed.None? {
        return Some(BadObservedAt);
      }
      var maxAge := MaxAge(snapshot.freshness.value);
      if maxAge.Err? {
        return Some(maxAge.error);
      }
      var age := AgeSeconds(observed.value, run.reference);
      var state := DerivedState(age, maxAge.value);
      var now := Str(clock.format(run.reference));
      snapshot := snapshot.(freshness := Some(snapshot.freshness.value.(evaluatedAt := now)));
      snapshot := snapshot.(freshness := Some(snapshot.freshness.value.(ageSeconds :=
          Int(if age > 0 then age else 0))));
      snapshot := snapshot.(freshness := Some(snapshot.freshness.value.(state := Str(StateText(state)))));
      snapshot := snapshot.(emittedAt := now);
      if snapshot.evidence.NotAnObject? {
        return Some(EvidenceNotAnObject);
      }
      snapshot := snapshot.(evidence := Holds(Evidence(now, Str(run.commitSha), Str(run.runId))));
      snapshot := snapshot.(blocking := PostureFor(state));
      return None;
    }
  }

  // ---------------------------------------------------------------- validation

  datatype Failure = CannotPatch(error: Error) | FutureDated | WrongEvaluatedAt | WrongAge | WrongState | WrongBlocking
    | EvidenceMissing | WrongReferenceTime | BlankCommit | BlankRunId

  predicate BlankText(v: Value) {
    !v.Str? || forall i :: 0 <= i < |v.s| ==> Text.IsSpace(v.s[i])
  }

  /** `validate_snapshot`. */
  function Failures(clock: Clock, s: Snapshot, run: Run): seq<Failure> {
    match Patch(clock, s, run)
    case Err(e) => [CannotPatch(e)]
    case Ok(expected) =>
      (if ObservedAt(clock, s.freshness.value).value > run.reference then [FutureDated] else [])
      + FieldFailures(s.freshness.value, expected.freshness.value)
      + (if s.blocking == expected.blocking then [] else [WrongBlocking])
      + EvidenceFailures(s.evidence, expected.evidence.evidence)
  }

  function FieldFailures(f: Freshness, want: Freshness): seq<Failure> {
    (if Equal(f.evaluatedAt, want.evaluatedAt) then [] else [WrongEvaluatedAt])
    + (if Equal(f.ageSeconds, want.ageSeconds) then [] else [WrongAge])
    + (if Equal(f.state, want.state) then [] else [WrongState])
  }

  function EvidenceFailures(evidence: EvidenceSlot, want: Evidence): seq<Failure> {
    if !evidence.Holds? then [EvidenceMissing]
    else (if Equal(evidence.evidence.referenceTime, want.referenceTime) then [] else [WrongReferenceTime])
         + (if BlankText(evidence.evidence.commitSha) then [BlankCommit] else [])
         + (if BlankText(evidence.evidence.runId) then [BlankRunId] else [])
  }

  /** The failures as they are appended one after the other. */
  method Validate(clock: Clock, s: Snapshot, run: Run) returns (failures: seq<Failure>)
    ensures failures == Failures(clock, s, run)
  {
    var patched := Patch(clock, s, run);
    if patched.Err? {
      return [CannotPatch(patched.error)];
    }
    hide Equal, BlankText, FieldFailures, EvidenceFailures;
    failures := [];
    if ObservedAt(clock, s.freshness.value).value > run.reference {
      failures := failures + [FutureDated];
    }
    failures := failures + FieldFailures(s.freshness.value, patched.value.freshness.value);
    if s.blocking != patched.value.blocking {
      failures := failures + [WrongBlocking];
    }
    failures := failures + EvidenceFailures(s.evidence, patched.value.evidence.evidence);
  }

  // ---------------------------------------------------------------- write and check agree

  /** The observation time is written down, so that patching does not move it. */
  predicate Observed(s: Snapshot) {
    s.freshness.Some? && Truthy(s.freshness.value.observedAt)
  }

  /** With an observation time, a patched snapshot is its own patch. */
  lemma PatchIdempotent(clock: Clock, s: Snapshot, run: Run)
    requires Observed(s) && Patch(clock, s, run).Ok?
    ensures Patch(clock, Patch(clock, s, run).value, run) == Patch(clock, s, run)
  {
  }

  /** What the check says of a snapshot that was just patched: nothing, unless the observation lies in the future or
      the run is anonymous. */
  lemma PatchedPassesIff(clock: Clock, s: Snapshot, run: Run)
    requires Observed(s) && Patch(clock, s, run).Ok?
    ensures Failures(clock, Patch(clock, s, run).value, run) == [] <==>
      && ObservedAt(clock, s.freshness.value).value <= run.reference
      && !BlankText(Str(run.commitSha)) && !BlankText(Str(run.runId))
  {
  }

  /** Without an observation time the patch is judged by the evaluation time it has just written: the second patch
      sees a snapshot observed now. It still agrees with the first exactly when the first saw no whole second of age,
      or a future time and no declared maximum. */
  lemma UnobservedPatchIdempotentIff(clock: Clock, s: Snapshot, run: Run)
    requires Lawful(clock) && !Observed(s) && Patch(clock, s, run).Ok?
    ensures Patch(clock, Patch(clock, s, run).value, run) == Patch(clock, s, run) <==>
      var age := AgeSeconds(ObservedAt(clock, s.freshness.value).value, run.reference);
      age == 0 || (age < 0 && s.freshness.value.maxAge == Null)
  {
  }

  /** Two minutes after it was evaluated, a snapshot without an observation time is stale by the first patch and current
      by the second. */
  lemma UnobservedTurnsCurrent(clock: Clock, run: Run)
    requires Lawful(clock) && run.reference == 120 * SECOND
    ensures var s := Snapshot(Some(Freshness(Null, Str(clock.format(0)), Int(60), Null, Null)), Null, NoEvidence,
        OtherPosture);
            var once := Patch(clock, s, run);
            && once.Ok? && once.value.blocking == Blocked("TRUST_TELEMETRY_STALE")
            && Patch(clock, once.value, run).Ok? && Patch(clock, once.value, run).value.blocking == Open
  {
  }

  /** A patched snapshot is open exactly when it is current. */
  lemma OpenIffCurrent(clock: Clock, s: Snapshot, run: Run)
    requires Patch(clock, s, run).Ok?
    ensures Patch(clock, s, run).value.blocking == Open
       <==> Patch(clock, s, run).value.freshness.value.state == Str("current")
  {
  }

  // ---------------------------------------------------------------- certification

  /** What `certified_runtime_snapshot` demands before it touches the snapshot. */
  datatype Credentials = Credentials(fullCommitSha: bool, ciRun: bool, adviseProduct: bool, complete: bool,
      qualityPassed: bool, lineageMaterialized: bool, evidenceUris: bool, validationLanes: bool)

  predicate Certifiable(c: Credentials) {
    && c.fullCommitSha && c.ciRun && c.adviseProduct && c.complete && c.qualityPassed
    && c.lineageMaterialized && c.evidenceUris && c.validationLanes
  }

  /** `certified_runtime_snapshot`: the observation is set to the certification time, then the snapshot is patched. */
  function Certify(clock: Clock, s: Snapshot, run: Run, credentials: Credentials): Option<Result<Snapshot>> {
    if !Certifiable(credentials) then None
    else if s.freshness.None? then Some(Err(FreshnessNotAnObject))
    else
      var observed := s.freshness.value.(observedAt := Str(clock.format(run.reference)));
      Some(Patch(clock, s.(freshness := Some(observed)), run))
  }

  /** A certified snapshot passes the check at once, and it is current when it declares a maximum age. */
  lemma CertifiedIsAccepted(clock: Clock, s: Snapshot, run: Run, credentials: Credentials)
    requires Lawful(clock) && Certify(clock, s, run, credentials).Some? && Certify(clock, s, run, credentials).value.Ok?
    requires !BlankText(Str(run.commitSha)) && !BlankText(Str(run.runId))
    ensures var certified := Certify(clock, s, run, credentials).value.value;
      && Failures(clock, certified, run) == []
      && ObservedAt(clock, certified.freshness.value) == Some(WholeSecond(run.reference))
      && certified.freshness.value.maxAge == s.freshness.value.maxAge
      && (certified.blocking == Open <==> s.freshness.value.maxAge != Null)
      && (certified.freshness.value.state == Str("current") <==> s.freshness.value.maxAge != Null)
  {
    var observed := s.freshness.value.(observedAt := Str(clock.format(run.reference)));
    OpenIffCurrent(clock, s.(freshness := Some(observed)), run);
  }

  /** The state a later run derives for a snapshot certified at `certifiedAt`. */
  function LaterState(certifiedAt: Instant, maxAge: Option<int>, reference: Instant): FreshnessState {
    DerivedState(AgeSeconds(WholeSecond(certifiedAt), reference), maxAge)
  }

  /** It is current exactly while the whole seconds since the certified second do not exceed the maximum, and then
      stale forever. */
  lemma CurrentExactlyWhileYoung(certifiedAt: Instant, maxAge: int, reference: Instant)
    requires maxAge >= 1 && reference >= certifiedAt
    ensures LaterState(certifiedAt, Some(maxAge), reference) == Current
       <==> reference - WholeSecond(certifiedAt) < (maxAge + 1) * SECOND
    ensures LaterState(certifiedAt, Some(maxAge), reference) != Current ==>
              forall later :: later >= reference ==> LaterState(certifiedAt, Some(maxAge), later) == Stale
  {
  }

  /** A snapshot observed less than a second in the future derives as current, and only the separate check on the
      observation time reports it. */
  lemma JustAheadLooksCurrent(observed: Instant, maxAge: int, reference: Instant)
    requires maxAge >= 1
    ensures observed > reference && DerivedState(AgeSeconds(observed, reference), Some(maxAge)) == Current
       <==> 0 < observed - reference < SECOND
  {
  }
}
