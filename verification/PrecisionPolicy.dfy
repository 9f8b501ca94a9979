/** Decimal precision: half-even rounding on decimal grids (`src/core/precision_policy.py`). */
module PrecisionPolicy {
  import opened Common

  /** A finite `Decimal`: coefficient times ten to the exponent. */
  datatype Decimal = Decimal(coefficient: int, exponent: int)

  datatype Semantic = Money | Quantity | Price | FxRate | Performance | Risk

  /** Digits after the point of the quantised value. */
  function Scale(semantic: Semantic): nat {
    match semantic
    case Money => 2
    case FxRate => 8
    case _ => 6
  }

  const RATIO_SCALE: nat := 4

  /** `INPUT_MAX_SCALE`. */
  function MaxInputScale(semantic: Semantic): nat {
    match semantic
    case Money => 8
    case _ => 12
  }

  function Pow10(n: nat): (p: int)
    ensures p > 0
  {
    if n == 0 then 1 else 10 * Pow10(n - 1)
  }

  function Abs(x: int): nat {
    if x < 0 then -x else x
  }

  function AbsReal(x: real): real {
    if x < 0.0 then -x else x
  }

  /** `n / m` rounded half to even as `decimal` does it: on the magnitude, with the sign put back. */
  function DivideHalfEven(n: int, m: int): int
    requires m > 0
  {
    var q, r := Abs(n) / m, Abs(n) % m;
    var rounded := if 2 * r > m || (2 * r == m && q % 2 == 1) then q + 1 else q;
    if n < 0 then -rounded else rounded
  }

  /** The coefficient of `d.quantize` at exponent `-k`. */
  function QuantizedCoefficient(d: Decimal, k: nat): int {
    if d.exponent + k >= 0 then d.coefficient * Pow10(d.exponent + k)
    else DivideHalfEven(d.coefficient, Pow10(0 - k - d.exponent))
  }

  function Quantize(d: Decimal, k: nat): Decimal {
    Decimal(QuantizedCoefficient(d, k), 0 - k)
  }

  // ---------------------------------------------------------------- exact values

  /** The exact value. */
  function Value(d: Decimal): real {
    if d.exponent >= 0 then (d.coefficient * Pow10(d.exponent)) as real
    else d.coefficient as real / Pow10(-d.exponent) as real
  }

  /** The exact value in units of ten to the `-k`. */
  function Units(d: Decimal, k: nat): real {
    Value(d) * Pow10(k) as real
  }

  /** `q` is the whole number nearest to `y`, the even one on a tie. */
  predicate NearestEven(q: int, y: real) {
    2.0 * AbsReal(q as real - y) <= 1.0 && (2.0 * AbsReal(q as real - y) == 1.0 ==> q % 2 == 0)
  }

  lemma {:induction false} Pow10Sum(a: nat, b: nat)
    ensures Pow10(a + b) == Pow10(a) * Pow10(b)
  {
    if a > 0 {
      Pow10Sum(a - 1, b);
      assert Pow10(a + b) == 10 * (Pow10(a - 1) * Pow10(b));
    }
  }

  lemma RealProduct(a: int, b: int)
    ensures (a * b) as real == a as real * b as real
  {
  }

  lemma Regroup(a: int, b: int, c: int)
    ensures (a * b) * c == a * (b * c)
  {
  }

  /** The exact value in units, as a fraction of whole numbers. */
  lemma UnitsFraction(d: Decimal, k: nat)
    ensures d.exponent + k >= 0 ==> Units(d, k) == (d.coefficient * Pow10(d.exponent + k)) as real
    ensures d.exponent + k < 0 ==> Units(d, k) * Pow10(0 - k - d.exponent) as real == d.coefficient as real
  {
    hide Pow10;
    var c := d.coefficient;
    if d.exponent >= 0 {
      var p, u := Pow10(d.exponent), Pow10(k);
      Pow10Sum(d.exponent, k);
      Regroup(c, p, u);
      RealProduct(c * p, u);
    } else if d.exponent + k >= 0 {
      var whole, part := Pow10(d.exponent + k), Pow10(-d.exponent);
      Pow10Sum(d.exponent + k, -d.exponent);
      RealProduct(whole, part);
      DivideTimes(c as real, part as real, whole as real);
      RealProduct(c, whole);
    } else {
      var part, rest := Pow10(k), Pow10(0 - k - d.exponent);
      Pow10Sum(k, 0 - k - d.exponent);
      RealProduct(part, rest);
      DivideProduct(c as real, part as real, rest as real);
    }
  }

  lemma DivideTimes(c: real, p: real, w: real)
    requires p > 0.0
    ensures (c / p) * (w * p) == c * w
  {
  }

  lemma DivideProduct(c: real, p: real, r: real)
    requires p > 0.0 && r > 0.0
    ensures (c / (p * r)) * p * r == c
  {
  }

  lemma DivideHalfEvenNearest(n: int, m: int)
    requires m > 0
    ensures var q := DivideHalfEven(n, m);
            2 * Abs(q * m - n) <= m && (2 * Abs(q * m - n) == m ==> q % 2 == 0)
  {
    var a := Abs(n);
    var q, r := a / m, a % m;
    var product := q * m;
    assert a == product + r;
    RoundedProduct(q, m);
    if n < 0 {
      NegatedProduct(q, m);
      NegatedProduct(q + 1, m);
    }
  }

  lemma RoundedProduct(q: int, m: int)
    ensures (q + 1) * m == q * m + m
  {
  }

  lemma NegatedProduct(q: int, m: int)
    ensures (-q) * m == -(q * m)
  {
  }

  lemma ScaleBound(x: real, m: real)
    requires m > 0.0 && 2.0 * AbsReal(x * m) <= m
    ensures 2.0 * AbsReal(x) <= 1.0
    ensures 2.0 * AbsReal(x) == 1.0 ==> 2.0 * AbsReal(x * m) == m
  {
  }

  /** Main fact: quantisation gives the grid point nearest to the exact value, with ties to the even coefficient. */
  lemma QuantizeNearestEven(d: Decimal, k: nat)
    ensures NearestEven(QuantizedCoefficient(d, k), Units(d, k))
  {
    hide Units, Pow10, DivideHalfEven;
    UnitsFraction(d, k);
    var q, y := QuantizedCoefficient(d, k), Units(d, k);
    if d.exponent + k < 0 {
      DivideHalfEvenNearest(d.coefficient, Pow10(0 - k - d.exponent));
      NearestFromFraction(q, d.coefficient, Pow10(0 - k - d.exponent), y);
    }
  }

  lemma NearestFromFraction(q: int, n: int, m: int, y: real)
    requires m > 0 && y * m as real == n as real
    requires 2 * Abs(q * m - n) <= m && (2 * Abs(q * m - n) == m ==> q % 2 == 0)
    ensures NearestEven(q, y)
  {
    var x, w := q as real - y, m as real;
    RealProduct(q, m);
    var e := q * m - n;
    assert e as real == q as real * w - n as real;
    assert x * w == q as real * w - y * w;
    assert x * w == e as real;
    assert 2.0 * AbsReal(x * w) == (2 * Abs(e)) as real;
    ScaleBound(x, w);
  }

  // ---------------------------------------------------------------- what nearest-even implies

  lemma NearestEvenUnique(p: int, q: int, y: real)
    requires NearestEven(p, y) && NearestEven(q, y)
    ensures p == q
  {
  }

  /** The `quantize_*` function of a semantic type. */
  function QuantizeFor(semantic: Semantic, d: Decimal): Decimal {
    Quantize(d, Scale(semantic))
  }

  /** Each of the six functions gives the even nearest multiple of its unit: a hundredth for money, a hundred-millionth
      for exchange rates, and otherwise a millionth. */
  lemma PolicyNearestEven(semantic: Semantic, d: Decimal)
    ensures var unit := (match semantic case Money => 100 case FxRate => 100_000_000 case _ => 1_000_000);
            var q := QuantizeFor(semantic, d);
            && Value(q) * unit as real == q.coefficient as real && NearestEven(q.coefficient, Value(d) * unit as real)
  {
    assert Pow10(2) == 100 && Pow10(6) == 1_000_000 && Pow10(8) == 100_000_000 by {
      assert Pow10(3) == 1000 && Pow10(4) == 10_000 && Pow10(5) == 100_000 && Pow10(7) == 10_000_000;
    }
    var k := Scale(semantic);
    QuantizeNearestEven(d, k);
    var q := QuantizeFor(semantic, d);
    UnitsFraction(q, k);
  }

  /** No grid point is nearer; one that is as near belongs to an odd coefficient. */
  lemma NearestOfAll(q: int, y: real, other: int)
    requires NearestEven(q, y)
    ensures AbsReal(q as real - y) <= AbsReal(other as real - y)
    ensures other != q && AbsReal(other as real - y) == AbsReal(q as real - y) ==> q % 2 == 0 && other % 2 == 1
  {
  }

  lemma NearestEvenMonotone(p: int, x: real, q: int, y: real)
    requires NearestEven(p, x) && NearestEven(q, y) && x <= y
    ensures p <= q
  {
  }

  /** A larger value never rounds to a smaller coefficient; equal values, however they are written, round alike. */
  lemma QuantizeMonotone(a: Decimal, b: Decimal, k: nat)
    requires Value(a) <= Value(b)
    ensures QuantizedCoefficient(a, k) <= QuantizedCoefficient(b, k)
  {
    hide QuantizedCoefficient, Value, Pow10, NearestEven;
    QuantizeNearestEven(a, k);
    QuantizeNearestEven(b, k);
    ScaleUp(Value(a), Value(b), Pow10(k) as real);
    NearestEvenMonotone(QuantizedCoefficient(a, k), Units(a, k), QuantizedCoefficient(b, k), Units(b, k));
  }

  lemma ScaleUp(x: real, y: real, u: real)
    requires x <= y && u > 0.0
    ensures x * u <= y * u
  {
  }

  lemma ScaleSame(x: real, y: real, u: real)
    requires x * u == y * u && u > 0.0
    ensures x == y
  {
  }

  lemma DivideHalfEvenOdd(n: int, m: int)
    requires m > 0
    ensures DivideHalfEven(-n, m) == -DivideHalfEven(n, m)
  {
  }

  lemma QuantizeOdd(d: Decimal, k: nat)
    ensures QuantizedCoefficient(Decimal(-d.coefficient, d.exponent), k) == -QuantizedCoefficient(d, k)
  {
    hide Pow10;
    if d.exponent + k >= 0 {
      NegatedProduct(d.coefficient, Pow10(d.exponent + k));
    } else {
      DivideHalfEvenOdd(d.coefficient, Pow10(0 - k - d.exponent));
    }
  }

  /** Values already on the grid keep their value, so quantising twice is quantising once. */
  lemma QuantizeExactOnGrid(d: Decimal, k: nat, n: int)
    requires Units(d, k) == n as real
    ensures QuantizedCoefficient(d, k) == n
    ensures Value(Quantize(d, k)) == Value(d)
  {
    hide QuantizedCoefficient, Value;
    QuantizeNearestEven(d, k);
    NearestEvenUnique(QuantizedCoefficient(d, k), n, Units(d, k));
    UnitsFraction(Quantize(d, k), k);
    assert Pow10(0) == 1;
    assert n * 1 == n;
    ScaleSame(Value(Quantize(d, k)), Value(d), Pow10(k) as real);
  }

  lemma QuantizeIdempotent(d: Decimal, k: nat)
    ensures Quantize(Quantize(d, k), k) == Quantize(d, k)
  {
  }

  // ---------------------------------------------------------------- sums

  function SumValues(ds: seq<Decimal>): real {
    if ds == [] then 0.0 else Value(ds[0]) + SumValues(ds[1..])
  }

  function SumQuantized(ds: seq<Decimal>, k: nat): int {
    if ds == [] then 0 else QuantizedCoefficient(ds[0], k) + SumQuantized(ds[1..], k)
  }

  function SumUnits(ds: seq<Decimal>, k: nat): real {
    if ds == [] then 0.0 else Units(ds[0], k) + SumUnits(ds[1..], k)
  }

  lemma {:induction false} SumUnitsScaled(ds: seq<Decimal>, k: nat)
    ensures SumUnits(ds, k) == SumValues(ds) * Pow10(k) as real
  {
    hide Value, Pow10;
    if ds != [] {
      SumUnitsScaled(ds[1..], k);
      Distribute(Value(ds[0]), SumValues(ds[1..]), Pow10(k) as real);
    }
  }

  lemma Distribute(x: real, y: real, u: real)
    ensures (x + y) * u == x * u + y * u
  {
  }

  lemma {:induction false} SumError(ds: seq<Decimal>, k: nat)
    ensures 2.0 * AbsReal(SumQuantized(ds, k) as real - SumUnits(ds, k)) <= |ds| as real
  {
    hide Units, QuantizedCoefficient;
    if ds != [] {
      QuantizeNearestEven(ds[0], k);
      SumError(ds[1..], k);
      assert SumQuantized(ds, k) as real == QuantizedCoefficient(ds[0], k) as real + SumQuantized(ds[1..], k) as real;
    }
  }

  /** The sum of `n` quantised values and the quantised sum differ by at most (n + 1) / 2 units. */
  lemma SumOfQuantized(ds: seq<Decimal>, total: Decimal, k: nat)
    requires Value(total) == SumValues(ds)
    ensures 2 * Abs(SumQuantized(ds, k) - QuantizedCoefficient(total, k)) <= |ds| + 1
  {
    hide QuantizedCoefficient, Value, Pow10, SumQuantized, SumUnits, SumValues;
    SumError(ds, k);
    SumUnitsScaled(ds, k);
    QuantizeNearestEven(total, k);
    WholeGap(SumQuantized(ds, k), QuantizedCoefficient(total, k), Units(total, k), |ds|);
  }

  /** Whole numbers that are within n halves and within a half of one value are within n + 1 halves of each other. */
  lemma WholeGap(s: int, q: int, exact: real, n: nat)
    requires 2.0 * AbsReal(s as real - exact) <= n as real && 2.0 * AbsReal(q as real - exact) <= 1.0
    ensures 2 * Abs(s - q) <= n + 1
  {
    assert (s - q) as real == s as real - q as real;
    assert (2 * Abs(s - q)) as real == 2.0 * AbsReal(s as real - q as real);
  }

  /** Serialised position weights whose exact sum is 1 sum to 1 within n times 0.00005. */
  lemma SerializedWeightsSum(weights: seq<Decimal>)
    requires SumValues(weights) == 1.0
    ensures 2 * Abs(SumQuantized(weights, RATIO_SCALE) - 10000) <= |weights|
  {
    SumError(weights, RATIO_SCALE);
    SumUnitsScaled(weights, RATIO_SCALE);
    assert Pow10(4) == 10000 by {
      assert Pow10(1) == 10 && Pow10(2) == 100 && Pow10(3) == 1000;
    }
    var s := SumQuantized(weights, RATIO_SCALE);
    assert (s - 10000) as real == s as real - 10000.0;
  }

  // ---------------------------------------------------------------- inputs

  datatype InputError = UnsupportedSemantic | ScaleExceeded(actual: nat, maximum: nat)

  datatype InputResult = Accepted(value: Decimal) | Rejected(error: InputError)

  function DecimalScale(d: Decimal): nat {
    if d.exponent < 0 then -d.exponent else 0
  }

  /** `normalize_input`; `None` is a semantic type the policy does not know. */
  function NormalizeInput(d: Decimal, semantic: Option<Semantic>): InputResult {
    if semantic.None? then Rejected(UnsupportedSemantic)
    else if DecimalScale(d) > MaxInputScale(semantic.value)
    then Rejected(ScaleExceeded(DecimalScale(d), MaxInputScale(semantic.value)))
    else Accepted(d)
  }

  /** The value lies on the grid of `k` digits. */
  predicate OnGrid(d: Decimal, k: nat) {
    Units(d, k) == Units(d, k).Floor as real
  }

  /** An accepted input is returned as it is, and quantising at the maximum scale keeps its value. */
  lemma AcceptedInput(d: Decimal, semantic: Semantic)
    requires NormalizeInput(d, Some(semantic)).Accepted?
    ensures NormalizeInput(d, Some(semantic)).value == d
    ensures OnGrid(d, MaxInputScale(semantic))
    ensures Value(Quantize(d, MaxInputScale(semantic))) == Value(d)
  {
    var k := MaxInputScale(semantic);
    UnitsFraction(d, k);
    QuantizeExactOnGrid(d, k, Units(d, k).Floor);
  }

  /** The converse fails for trailing zeros: a rejected value lies on the grid exactly when the digits beyond the
      maximum scale are zeros. */
  lemma RejectedInputOnGridIff(d: Decimal, semantic: Semantic)
    requires NormalizeInput(d, Some(semantic)).Rejected?
    ensures OnGrid(d, MaxInputScale(semantic)) <==> d.coefficient % Pow10(0 - MaxInputScale(semantic) - d.exponent) == 0
  {
    var k := MaxInputScale(semantic);
    var m := Pow10(0 - k - d.exponent);
    UnitsFraction(d, k);
    WholeIffDivides(Units(d, k), d.coefficient, m);
  }

  /** One pound written with nine zeros is refused, and yet lies on the grid. */
  lemma PaddedPoundRejected()
    ensures var pound := Decimal(Pow10(9), -9);
            NormalizeInput(pound, Some(Money)).Rejected? && OnGrid(pound, MaxInputScale(Money))
  {
    var pound := Decimal(Pow10(9), -9);
    assert Pow10(1) == 10 && Pow10(9) == 10 * Pow10(8);
    RejectedInputOnGridIff(pound, Money);
  }

  /** A fraction is whole exactly when its denominator divides its numerator. */
  lemma WholeIffDivides(y: real, n: int, m: int)
    requires m > 0 && y * m as real == n as real
    ensures y == y.Floor as real <==> n % m == 0
  {
    if y == y.Floor as real {
      WholeDivides(y.Floor, n, m);
    }
    if n % m == 0 {
      QuotientIsWhole(y, n, m);
    }
  }

  lemma WholeDivides(q: int, n: int, m: int)
    requires m > 0 && q as real * m as real == n as real
    ensures n % m == 0
  {
    assert (q * m) as real == q as real * m as real;
    assert q * m == n;
    MultipleHasNoRemainder(q, m);
  }

  lemma QuotientIsWhole(y: real, n: int, m: int)
    requires m > 0 && y * m as real == n as real && n % m == 0
    ensures y == y.Floor as real
  {
    var q := n / m;
    assert q * m == n;
    assert (q * m) as real == q as real * m as real;
    assert (y - q as real) * m as real == 0.0;
    assert y == q as real;
  }

  lemma MultipleHasNoRemainder(n: int, m: int)
    requires m > 0
    ensures (n * m) % m == 0
  {
    var q, r := (n * m) / m, (n * m) % m;
    assert n * m == q * m + r;
    assert (n - q) * m == r;
    assert n - q >= 1 ==> (n - q) * m >= m;
    assert n - q <= -1 ==> (n - q) * m <= -m;
  }
}
