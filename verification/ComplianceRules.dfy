/** The post-trade rules and the rule engine. Decimals are exact, so they are reals here. */
module ComplianceRules {
  import opened Common

  datatype Bucket = Bucket(key: string, weight: real)

  datatype State = State(byAssetClass: seq<Bucket>, byInstrument: seq<Bucket>, quantities: seq<real>,
                         cashBalances: seq<real>)

  datatype Options = Options(cashMin: real, cashMax: real, singlePositionMax: Option<real>, blockOnMissingPrices: bool,
                             blockOnMissingFx: bool)

  /** How many entries each data-quality list holds, and how many intents were suppressed. */
  datatype Diagnostics = Diagnostics(priceMissing: nat, fxMissing: nat, shelfMissing: nat, suppressed: nat)

  datatype Rule = CashBand | SinglePositionMax | DataQuality | MinTradeSize | NoShorting | InsufficientCash

  datatype Reason = Ok | NoLimitSet | ThresholdBreach | LimitBreach | MissingData | IntentsSuppressed
      | SellExceedsHoldings | CashBalanceNegative

  datatype RuleResult = RuleResult(rule: Rule, hard: bool, fail: bool, measured: real, minimum: Option<real>,
                                   maximum: Option<real>, reason: Reason, instrument: Option<string>)

  const TOLERANCE: real := 0.001

  // ---------------------------------------------------------------- the rules

  /** The weight of the first CASH bucket, 0 without one. */
  function CashWeight(buckets: seq<Bucket>): real {
    if buckets == [] then 0.0 else if buckets[0].key == "CASH" then buckets[0].weight else CashWeight(buckets[1..])
  }

  function EvaluateCashBand(state: State, options: Options): RuleResult {
    var weight := CashWeight(state.byAssetClass);
    var breach := weight < options.cashMin || weight > options.cashMax;
    RuleResult(CashBand, false, breach, weight, Some(options.cashMin), Some(options.cashMax),
               if breach then ThresholdBreach else Ok, None)
  }

  predicate Offends(b: Bucket, limit: real) {
    b.weight > limit + TOLERANCE
  }

  function Breach(b: Bucket, limit: real): RuleResult {
    RuleResult(SinglePositionMax, true, true, b.weight, None, Some(limit), LimitBreach, Some(b.key))
  }

  function Breaches(buckets: seq<Bucket>, limit: real): seq<RuleResult> {
    if buckets == [] then []
    else
      var n := |buckets| - 1;
      Breaches(buckets[..n], limit) + (if Offends(buckets[n], limit) then [Breach(buckets[n], limit)] else [])
  }

  /** The larger of 0 and every weight. */
  ghost predicate IsMaximum(m: real, buckets: seq<Bucket>) {
    && m >= 0.0 && (forall b :: b in buckets ==> b.weight <= m)
    && (m == 0.0 || exists b :: b in buckets && b.weight == m)
  }

  /** `evaluate_single_position_max`: one failure for each offending bucket in order, or a single pass that measures
      the largest weight. */
  method EvaluateSinglePositionMax(state: State, options: Options) returns (results: seq<RuleResult>)
    ensures options.singlePositionMax.None? ==>
              results == [RuleResult(SinglePositionMax, true, false, 0.0, None, Some(-1.0), NoLimitSet, None)]
    ensures options.singlePositionMax.Some? && Breaches(state.byInstrument, options.singlePositionMax.value) != [] ==>
              results == Breaches(state.byInstrument, options.singlePositionMax.value)
    ensures options.singlePositionMax.Some? && Breaches(state.byInstrument, options.singlePositionMax.value) == [] ==>
              |results| == 1 && IsMaximum(results[0].measured, state.byInstrument)
              && results[0] == RuleResult(SinglePositionMax, true, false, results[0].measured, None,
                  options.singlePositionMax, Ok, None)
  {
    if options.singlePositionMax.None? {
      return [RuleResult(SinglePositionMax, true, false, 0.0, None, Some(-1.0), NoLimitSet, None)];
    }
    var limit := options.singlePositionMax.value;
    var buckets := state.byInstrument;
    results := [];
    var largest := 0.0;
    for i := 0 to |buckets|
      invariant results == Breaches(buckets[..i], limit)
      invariant IsMaximum(largest, buckets[..i])
    {
      assert buckets[..i + 1] == buckets[..i] + [buckets[i]];
      if buckets[i].weight > largest {
        largest := buckets[i].weight;
      }
      if buckets[i].weight > limit + TOLERANCE {
        results := results + [Breach(buckets[i], limit)];
      }
    }
    assert buckets[..|buckets|] == buckets;
    if results == [] {
      results := [RuleResult(SinglePositionMax, true, false, largest, None, Some(limit), Ok, None)];
    }
  }

  function DataQualityCount(options: Options, d: Diagnostics): nat {
    (if options.blockOnMissingPrices then d.priceMissing else 0) +
        (if options.blockOnMissingFx then d.fxMissing else 0) + d.shelfMissing
  }

  function EvaluateDataQuality(options: Options, d: Diagnostics): RuleResult {
    var count := DataQualityCount(options, d);
    RuleResult(DataQuality, true, count > 0, count as real, None, Some(0.0), if count > 0 then MissingData else Ok,
        None)
  }

  function EvaluateMinTradeSize(d: Diagnostics): RuleResult {
    RuleResult(MinTradeSize, false, false, d.suppressed as real, Some(0.0), None,
        if d.suppressed > 0 then IntentsSuppressed else Ok, None)
  }

  /** The smaller of 0 and every amount. */
  ghost predicate IsMinimum(m: real, amounts: seq<real>) {
    && m <= 0.0 && (forall a :: a in amounts ==> m <= a) && (m == 0.0 || m in amounts)
  }

  method Lowest(amounts: seq<real>) returns (lowest: real)
    ensures IsMinimum(lowest, amounts)
  {
    lowest := 0.0;
    for i := 0 to |amounts|
      invariant IsMinimum(lowest, amounts[..i])
    {
      assert amounts[..i + 1] == amounts[..i] + [amounts[i]];
      if amounts[i] < 0.0 && amounts[i] < lowest {
        lowest := amounts[i];
      }
    }
    assert amounts[..|amounts|] == amounts;
  }

  function FloorResult(rule: Rule, reason: Reason, lowest: real): RuleResult {
    RuleResult(rule, true, lowest < 0.0, lowest, Some(0.0), None, if lowest < 0.0 then reason else Ok, None)
  }

  // ---------------------------------------------------------------- the engine

  ghost predicate HardFail(results: seq<RuleResult>) {
    exists r :: r in results && r.hard && r.fail
  }

  /** Some weight, count or amount breaks a hard rule. */
  ghost predicate Broken(state: State, options: Options, d: Diagnostics) {
    || (options.singlePositionMax.Some? &&
        exists b :: b in state.byInstrument && Offends(b, options.singlePositionMax.value))
    || DataQualityCount(options, d) > 0
    || (exists q :: q in state.quantities && q < 0.0)
    || (exists c :: c in state.cashBalances && c < 0.0)
  }

  ghost predicate Reports(results: seq<RuleResult>, rule: Rule) {
    exists r :: r in results && r.rule == rule
  }

  predicate IsHard(rule: Rule) {
    rule != CashBand && rule != MinTradeSize
  }

  ghost predicate Violated(rule: Rule, state: State, options: Options, d: Diagnostics) {
    match rule
    case CashBand => CashWeight(state.byAssetClass) < options.cashMin ||
        CashWeight(state.byAssetClass) > options.cashMax
    case SinglePositionMax => options.singlePositionMax.Some? &&
        exists b :: b in state.byInstrument && Offends(b, options.singlePositionMax.value)
    case DataQuality => DataQualityCount(options, d) > 0
    case MinTradeSize => false
    case NoShorting => exists q :: q in state.quantities && q < 0.0
    case InsufficientCash => exists c :: c in state.cashBalances && c < 0.0
  }

  /** A failing position result measures an offending bucket and names it; every other result measures an extremum, a
      weight or a count. */
  ghost predicate Measures(r: RuleResult, state: State, options: Options, d: Diagnostics) {
    match r.rule
    case CashBand => r.measured == CashWeight(state.byAssetClass)
    case SinglePositionMax =>
      options.singlePositionMax.Some? ==>
        if r.fail then (exists b :: b in state.byInstrument && Offends(b, options.singlePositionMax.value)
                                    && r == Breach(b, options.singlePositionMax.value))
        else IsMaximum(r.measured, state.byInstrument)
    case DataQuality => r.measured == DataQualityCount(options, d) as real
    case MinTradeSize => r.measured == d.suppressed as real
    case NoShorting => IsMinimum(r.measured, state.quantities)
    case InsufficientCash => IsMinimum(r.measured, state.cashBalances)
  }

  ghost predicate Truthful(r: RuleResult, state: State, options: Options, d: Diagnostics) {
    r.hard == IsHard(r.rule) && (r.fail <==> Violated(r.rule, state, options, d)) && Measures(r, state, options, d)
  }

  /** `RuleEngine.evaluate`: every rule reports, each result fails exactly when its rule is violated and measures
      what it says, and a hard failure appears exactly when a hard rule is broken. */
  method Evaluate(state: State, options: Options, d: Diagnostics) returns (results: seq<RuleResult>)
    ensures forall rule :: Reports(results, rule)
    ensures forall r :: r in results ==> Truthful(r, state, options, d)
    ensures HardFail(results) <==> Broken(state, options, d)
    ensures var offending := if options.singlePositionMax.None? then 0
        else CountOffending(state.byInstrument, options.singlePositionMax.value);
            |results| == 5 + if offending == 0 then 1 else offending
  {
    var position := EvaluateSinglePositionMax(state, options);
    PositionTruthful(position, state, options, d);
    if options.singlePositionMax.Some? {
      OneFailurePerBucket(state.byInstrument, options.singlePositionMax.value);
    }
    var shorting := Lowest(state.quantities);
    var cash := Lowest(state.cashBalances);
    var band, quality, size := EvaluateCashBand(state, options), EvaluateDataQuality(options, d),
        EvaluateMinTradeSize(d);
    var short, funding := FloorResult(NoShorting, SellExceedsHoldings, shorting),
        FloorResult(InsufficientCash, CashBalanceNegative, cash);
    results := [band] + position + [quality, size, short, funding];
    OneForEachRule([band, position[0], quality, size, short, funding], results);
    SingleRulesTruthful(state, options, d, shorting, cash);
    hide Truthful, HardFail, Broken;
    assert forall r :: r in results <==>
        r == band || r in position || r == quality || r == size || r == short || r == funding;
    HardFailIff(results, state, options, d);
  }

  lemma SingleRulesTruthful(state: State, options: Options, d: Diagnostics, shorting: real, cash: real)
    requires IsMinimum(shorting, state.quantities) && IsMinimum(cash, state.cashBalances)
    ensures Truthful(EvaluateCashBand(state, options), state, options, d)
    ensures Truthful(EvaluateDataQuality(options, d), state, options, d)
    ensures Truthful(EvaluateMinTradeSize(d), state, options, d)
    ensures Truthful(FloorResult(NoShorting, SellExceedsHoldings, shorting), state, options, d)
    ensures Truthful(FloorResult(InsufficientCash, CashBalanceNegative, cash), state, options, d)
  {
  }

  lemma OneForEachRule(some: seq<RuleResult>, results: seq<RuleResult>)
    requires |some| == 6 && forall r :: r in some ==> r in results
    requires some[0].rule == CashBand && some[1].rule == SinglePositionMax && some[2].rule == DataQuality
    requires some[3].rule == MinTradeSize && some[4].rule == NoShorting && some[5].rule == InsufficientCash
    ensures forall rule :: Reports(results, rule)
  {
  }

  /** The position rule's results are there, all of its rule, and truthful: only failures, or only one pass. */
  lemma PositionTruthful(results: seq<RuleResult>, state: State, options: Options, d: Diagnostics)
    requires options.singlePositionMax.None? ==>
               results == [RuleResult(SinglePositionMax, true, false, 0.0, None, Some(-1.0), NoLimitSet, None)]
    requires options.singlePositionMax.Some? && Breaches(state.byInstrument, options.singlePositionMax.value) != [] ==>
               results == Breaches(state.byInstrument, options.singlePositionMax.value)
    requires options.singlePositionMax.Some? && Breaches(state.byInstrument, options.singlePositionMax.value) == [] ==>
               |results| == 1 && IsMaximum(results[0].measured, state.byInstrument)
               && results[0] == RuleResult(SinglePositionMax, true, false, results[0].measured, None,
                   options.singlePositionMax, Ok, None)
    ensures results != [] && forall r :: r in results ==> r.rule == SinglePositionMax && Truthful(r, state, options, d)
  {
    hide IsMaximum;
    if options.singlePositionMax.Some? {
      BreachesMembers(state.byInstrument, options.singlePositionMax.value);
    }
  }

  /** Truthful results of all rules fail hard exactly when a hard rule is broken. */
  lemma HardFailIff(results: seq<RuleResult>, state: State, options: Options, d: Diagnostics)
    requires forall rule :: Reports(results, rule)
    requires forall r :: r in results ==> Truthful(r, state, options, d)
    ensures HardFail(results) <==> Broken(state, options, d)
  {
    assert Broken(state, options, d) <==> exists rule :: IsHard(rule) && Violated(rule, state, options, d) by {
      hide Offends;
      assert Violated(SinglePositionMax, state, options, d) ==> IsHard(SinglePositionMax);
      assert Violated(DataQuality, state, options, d) ==> IsHard(DataQuality);
      assert Violated(NoShorting, state, options, d) ==> IsHard(NoShorting);
      assert Violated(InsufficientCash, state, options, d) ==> IsHard(InsufficientCash);
    }
    hide Violated, Broken, Measures;
    if rule :| IsHard(rule) && Violated(rule, state, options, d) {
      assert Reports(results, rule);
      var r :| r in results && r.rule == rule;
      assert Truthful(r, state, options, d);
    }
  }

  lemma {:induction false} BreachesMembers(buckets: seq<Bucket>, limit: real)
    ensures forall r :: r in Breaches(buckets, limit) <==>
        exists b :: b in buckets && Offends(b, limit) && r == Breach(b, limit)
    ensures Breaches(buckets, limit) != [] <==> exists b :: b in buckets && Offends(b, limit)
  {
    if buckets != [] {
      var n := |buckets| - 1;
      BreachesMembers(buckets[..n], limit);
      assert buckets == buckets[..n] + [buckets[n]];
      if b :| b in buckets && Offends(b, limit) {
        assert Breach(b, limit) in Breaches(buckets, limit);
      }
    }
  }

  // ---------------------------------------------------------------- laws of the verdict

  function CountOffending(buckets: seq<Bucket>, limit: real): nat {
    if buckets == [] then 0 else (if Offends(buckets[0], limit) then 1 else 0) + CountOffending(buckets[1..], limit)
  }

  /** One failure for each offending bucket, not more and not fewer. */
  lemma {:induction false} OneFailurePerBucket(buckets: seq<Bucket>, limit: real)
    ensures |Breaches(buckets, limit)| == CountOffending(buckets, limit)
  {
    if buckets != [] {
      var n := |buckets| - 1;
      OneFailurePerBucket(buckets[..n], limit);
      CountSplit(buckets[..n], [buckets[n]], limit);
      assert buckets == buckets[..n] + [buckets[n]];
      assert [buckets[n]][1..] == [];
    }
  }

  lemma {:induction false} CountSplit(a: seq<Bucket>, b: seq<Bucket>, limit: real)
    ensures CountOffending(a + b, limit) == CountOffending(a, limit) + CountOffending(b, limit)
  {
    if a == [] {
      assert a + b == b;
    } else {
      assert (a + b)[1..] == a[1..] + b;
      CountSplit(a[1..], b, limit);
    }
  }

  /** Raising the limit only drops failures: what still fails failed before. */
  lemma {:induction false} HigherLimitFailsLess(buckets: seq<Bucket>, low: real, high: real)
    requires low <= high
    ensures CountOffending(buckets, high) <= CountOffending(buckets, low)
    ensures forall b :: b in buckets && Offends(b, high) ==> Breach(b, low) in Breaches(buckets, low)
  {
    BreachesMembers(buckets, low);
    if buckets != [] {
      HigherLimitFailsLess(buckets[1..], low, high);
    }
  }

  /** The verdict does not depend on the order of buckets, positions or balances. */
  lemma VerdictIgnoresOrder(a: State, b: State, options: Options, d: Diagnostics)
    requires multiset(a.byInstrument) == multiset(b.byInstrument)
    requires multiset(a.quantities) == multiset(b.quantities) && multiset(a.cashBalances) == multiset(b.cashBalances)
    ensures Broken(a, options, d) <==> Broken(b, options, d)
    ensures forall m :: IsMinimum(m, a.quantities) <==> IsMinimum(m, b.quantities)
    ensures forall m :: IsMaximum(m, a.byInstrument) <==> IsMaximum(m, b.byInstrument)
  {
    SameMembers(a.byInstrument, b.byInstrument);
    SameMembers(a.quantities, b.quantities);
    SameMembers(a.cashBalances, b.cashBalances);
  }

  lemma SameMembers<T>(a: seq<T>, b: seq<T>)
    requires multiset(a) == multiset(b)
    ensures forall x :: x in a <==> x in b
  {
    forall x ensures x in a <==> x in b {
      assert x in a <==> x in multiset(a);
      assert x in b <==> x in multiset(b);
    }
  }
}
