/** Decimal scale factor and scaled value of a number (src/codes_util.cc), over exact reals. */
module ScaleFactor {
  import opened Results
  import opened Shifts

  // ---------------------------------------------------------------- float_epsilon

  /** The tolerance of the search. */
  const EPSILON := 1.0 / 8388608.0

  /** To the nearest integer, halves to the even one. */
  function NearestEven(x: real): int {
    var f := x.Floor;
    if x - f as real < 0.5 || (x - f as real == 0.5 && f % 2 == 0) then f else f + 1
  }

  lemma NearestEvenIs(x: real, n: int)
    ensures NearestEven(x) == n <==>
              n as real - 0.5 < x < n as real + 0.5
              || ((x == n as real - 0.5 || x == n as real + 0.5) && n % 2 == 0)
  {
  }

  /** 1 + x as a float: a significand of 24 bits. */
  function OnePlus(x: real): real
    requires 0.0 <= x <= 1.0
  {
    (8388608 + NearestEven(x * 8388608.0)) as real / 8388608.0
  }

  /** 2^-k */
  function Half(k: nat): (x: real)
    ensures 0.0 < x <= 1.0
  {
    if k == 0 then 1.0 else Half(k - 1) / 2.0
  }

  /** float_epsilon */
  method FloatEpsilon() returns (floatEps: real)
    ensures floatEps == EPSILON == 1.0 / 8388608.0
  {
    hide OnePlus;
    floatEps := 1.0;
    ghost var k := 0;
    HalfUnits(0);
    HalfUnits(23);
    OnePlusHalf(1);
    while OnePlus(floatEps / 2.0) != 1.0
      invariant k <= 23 && floatEps == Half(k) && (OnePlus(Half(k + 1)) != 1.0 <==> k < 23)
      decreases 23 - k
    {
      floatEps := floatEps / 2.0;
      k := k + 1;
      OnePlusHalf(k + 1);
    }
  }

  lemma {:induction false} HalfUnits(k: nat)
    requires k <= 23
    ensures Half(k) * 8388608.0 == Pow2(23 - k) as real && Pow2(0) == 1
    decreases k
  {
    if k > 0 {
      HalfUnits(k - 1);
      assert Pow2(23 - (k - 1)) == 2 * Pow2(23 - k);
    } else {
      TwentyThree();
    }
  }

  lemma TwentyThree()
    ensures Pow2(23) == 8388608
  {
    Octet(0);
    assert Pow2(12) == 2 * Pow2(11) == 4 * Pow2(10) == 8 * Pow2(9) == 16 * Pow2(8);
    assert Pow2(16) == 2 * Pow2(15) == 4 * Pow2(14) == 8 * Pow2(13) == 16 * Pow2(12);
    assert Pow2(20) == 2 * Pow2(19) == 4 * Pow2(18) == 8 * Pow2(17) == 16 * Pow2(16);
    assert Pow2(23) == 2 * Pow2(22) == 4 * Pow2(21) == 8 * Pow2(20);
  }

  /** Down to 2^-23 the sum is another number than one; 2^-24 is half a unit and rounds to even. */
  lemma OnePlusHalf(k: nat)
    requires 1 <= k <= 24
    ensures OnePlus(Half(k)) != 1.0 <==> k <= 23
  {
    hide Pow2;
    if k <= 23 {
      HalfUnits(k);
      assert NearestEven(Pow2(23 - k) as real) == Pow2(23 - k);
    } else {
      HalfUnits(23);
      assert Half(24) * 8388608.0 == 0.5;
    }
  }

  predicate Whole(x: real) { x.Floor as real == x }

  /** Of the powers of two, the tolerance is the smallest that makes a number of 24 bits when one is
      added to it. */
  lemma EpsilonIsSmallest(k: nat)
    ensures Whole((1.0 + Half(k)) * 8388608.0) <==> Half(k) >= EPSILON
  {
    hide Pow2, Whole, Half;
    HalfUnits(23);
    if k <= 23 {
      HalfUnits(k);
      HalvesShrink(k, 23);
      WholeUnits(Half(k), Pow2(23 - k));
    } else {
      HalvesShrink(24, k);
      HalfOf(24);
      NoWholeUnits(Half(k));
    }
  }

  lemma HalfOf(k: nat)
    requires k > 0
    ensures Half(k) == Half(k - 1) / 2.0
  {
  }

  lemma WholeUnits(x: real, n: nat)
    requires x * 8388608.0 == n as real
    ensures Whole((1.0 + x) * 8388608.0)
  {
    hide Whole;
    WholeInt(8388608 + n);
    assert (8388608 + n) as real == 8388608.0 + n as real;
    assert (1.0 + x) * 8388608.0 == 8388608.0 + x * 8388608.0;
  }

  lemma WholeInt(n: int)
    ensures Whole(n as real)
  {
  }

  lemma NoWholeUnits(x: real)
    requires 0.0 < x * 8388608.0 <= 0.5
    ensures !Whole((1.0 + x) * 8388608.0)
  {
    assert (1.0 + x) * 8388608.0 == 8388608.0 + x * 8388608.0;
  }

  lemma {:induction false} HalvesShrink(j: nat, k: nat)
    requires j <= k
    ensures Half(k) <= Half(j)
    decreases k - j
  {
    if j < k { HalvesShrink(j, k - 1); }
  }

  // ---------------------------------------------------------------- powers of ten, rounding

  /** x * pow(10, k), by moving the decimal point. */
  function Shift10(x: real, k: int): real
    decreases if k < 0 then -k else k
  {
    if k == 0 then x else if k > 0 then 10.0 * Shift10(x, k - 1) else Shift10(x, k + 1) / 10.0
  }

  lemma ShiftNext(x: real, k: int)
    ensures Shift10(x, k + 1) == 10.0 * Shift10(x, k)
  {
  }

  lemma {:induction false} ShiftTwice(x: real, a: int, b: int)
    ensures Shift10(Shift10(x, a), b) == Shift10(x, a + b)
    decreases if b < 0 then -b else b
  {
    if b > 0 {
      ShiftTwice(x, a, b - 1);
      ShiftNext(x, a + b - 1);
    } else if b < 0 {
      ShiftTwice(x, a, b + 1);
      ShiftNext(x, a + b);
    }
  }

  lemma {:induction false} ShiftSum(x: real, y: real, k: int)
    ensures Shift10(x + y, k) == Shift10(x, k) + Shift10(y, k)
    decreases if k < 0 then -k else k
  {
    if k > 0 { ShiftSum(x, y, k - 1); } else if k < 0 { ShiftSum(x, y, k + 1); }
  }

  lemma {:induction false} ShiftMonotone(x: real, y: real, k: int)
    ensures x <= y <==> Shift10(x, k) <= Shift10(y, k)
    decreases if k < 0 then -k else k
  {
    if k > 0 { ShiftMonotone(x, y, k - 1); } else if k < 0 { ShiftMonotone(x, y, k + 1); }
  }

  lemma {:induction false} ShiftZero(k: int)
    ensures Shift10(0.0, k) == 0.0
    decreases if k < 0 then -k else k
  {
    if k > 0 { ShiftZero(k - 1); } else if k < 0 { ShiftZero(k + 1); }
  }

  /** Positive numbers grow with every shift to the left. */
  lemma {:induction false} ShiftGrows(x: real, a: int, b: int)
    requires a <= b && x >= 0.0
    ensures 0.0 <= Shift10(x, a) <= Shift10(x, b)
    decreases b - a
  {
    ShiftZero(a);
    ShiftMonotone(0.0, x, a);
    if a < b {
      ShiftGrows(x, a, b - 1);
      ShiftNext(x, b - 1);
    }
  }

  function Abs(x: real): real { if x < 0.0 then -x else x }

  /** C's round: to the nearest integer, halves away from zero. */
  function Round(x: real): int {
    if x >= 0.0 then (x + 0.5).Floor else -((-x + 0.5).Floor)
  }

  /** It is the nearest integer; of two that are equally near, the one farther from zero. */
  lemma RoundNearest(x: real, n: int)
    ensures Round(x) == n <==>
              if x >= 0.0 then n as real - 0.5 <= x < n as real + 0.5 else n as real - 0.5 < x <= n as real + 0.5
  {
  }

  /** floor(log10(x)) */
  function FloorLog10(x: real): (k: int)
    requires x > 0.0
    ensures Shift10(1.0, k) <= x < Shift10(1.0, k + 1)
    decreases if x >= 10.0 then x.Floor else if x < 1.0 then (1.0 / x).Floor else 0
  {
    if x >= 10.0 then
      var k := FloorLog10(x / 10.0);
      ShiftNext(1.0, k); ShiftNext(1.0, k + 1);
      k + 1
    else if x < 1.0 then
      Reciprocal(x);
      var k := FloorLog10(10.0 * x);
      ShiftNext(1.0, k - 1); ShiftNext(1.0, k);
      k - 1
    else
      ShiftNext(1.0, 0);
      0
  }

  lemma Reciprocal(x: real)
    requires 0.0 < x < 1.0
    ensures 1.0 / x > 1.0
    ensures 1.0 / (10.0 * x) == (1.0 / x) / 10.0
  {
    var r := 1.0 / x;
    assert r * x == 1.0;
    assert (r / 10.0) * (10.0 * x) == r * x;
    assert r > 1.0 by {
      if r <= 1.0 { TimesLess(r, 1.0, x); }
    }
  }

  lemma TimesLess(r: real, q: real, x: real)
    requires r <= q && x >= 0.0
    ensures r * x <= q * x
  {
  }

  /** eval_value_factor */
  function Eval(value: int, factor: int): real {
    Shift10(value as real, -factor)
  }

  /** is_approximately_equal */
  predicate Approximates(a: real, b: real, epsilon: real) {
    a == b || Abs(a - b) <= epsilon
  }

  // ---------------------------------------------------------------- algorithm 1

  /** Removing trailing zeros while the factor is positive. */
  function Strip(value: int, factor: int): (r: (int, int))
    decreases factor
  {
    if value % 10 == 0 && factor > 0 then Strip(value / 10, factor - 1) else (value, factor)
  }

  /** The number stays the same, only its trailing zeros go. */
  lemma {:induction false} StripKeepsNumber(value: int, factor: int)
    ensures var (v, f) := Strip(value, factor);
            && Eval(v, f) == Eval(value, factor)
            && (f > 0 ==> v % 10 != 0) && f <= factor
            && (value > 0 ==> 0 < v <= value) && (value < 0 ==> value <= v < 0)
    decreases factor
  {
    if value % 10 == 0 && factor > 0 {
      var tenth := value / 10;
      StripKeepsNumber(tenth, factor - 1);
      ShiftTwice(tenth as real, 1, -factor);
      assert Shift10(tenth as real, 1) == 10.0 * Shift10(tenth as real, 0) == value as real;
    }
  }

  /** The factor that scales input to as many digits as the limit has. */
  function DigitsFactor(input: real, maximum: int): int
    requires input != 0.0 && maximum >= 1
  {
    FloorLog10(maximum as real) - FloorLog10(Abs(input))
  }

  function Algorithm1(input: real, maximum: int, maximumFactor: int): Option<(int, int)>
    requires maximum >= 1
  {
    if input == 0.0 then Some((0, 0))
    else
      var factor := DigitsFactor(input, maximum);
      var r := Strip(Round(Shift10(input, factor)), factor);
      if r.0 >= maximum || r.1 > maximumFactor then None else Some(r)
  }

  /** Rounding at k decimals is off by at most half a unit of the last one. */
  lemma RoundError(x: real, k: int)
    ensures var unit := Shift10(1.0, -k);
            -unit / 2.0 <= x - Eval(Round(Shift10(x, k)), k) <= unit / 2.0
  {
    var y := Shift10(x, k);
    var v, e := Round(y) as real, y - Round(y) as real;
    ShiftTwice(x, k, -k);
    ShiftSum(v, e, -k);
    ShiftSum(0.5, 0.5, -k);
    ShiftSum(0.5, -0.5, -k);
    ShiftZero(-k);
    ShiftMonotone(e, 0.5, -k);
    ShiftMonotone(-0.5, e, -k);
  }

  /** What algorithm 1 returns: at most half a unit of its last digit away from the input, with no
      trailing zeros after the decimal point, below both limits, and zero for zero only. */
  lemma Algorithm1Result(input: real, maximum: int, maximumFactor: int)
    requires maximum >= 1 && input != 0.0 && Algorithm1(input, maximum, maximumFactor).Some?
    ensures var (v, f) := Algorithm1(input, maximum, maximumFactor).value;
            var unit := Shift10(1.0, -DigitsFactor(input, maximum));
            && -unit / 2.0 <= input - Eval(v, f) <= unit / 2.0
            && (f > 0 ==> v % 10 != 0)
            && v < maximum && f <= maximumFactor
            && (v > 0 <==> input > 0.0) && (v < 0 <==> input < 0.0)
  {
    var k := DigitsFactor(input, maximum);
    RoundError(input, k);
    ScaledLarge(input, maximum);
    StripKeepsNumber(Round(Shift10(input, k)), k);
  }

  /** The scaled input has at least one digit before the point. */
  lemma ScaledLarge(input: real, maximum: int)
    requires input != 0.0 && maximum >= 1
    ensures var v := Round(Shift10(input, DigitsFactor(input, maximum)));
            (v > 0 <==> input > 0.0) && (v < 0 <==> input < 0.0)
  {
    var l, m := FloorLog10(maximum as real), FloorLog10(Abs(input));
    if l < 0 { ShiftGrows(1.0, l + 1, 0); }
    ShiftGrows(1.0, 0, l);
    ShiftTwice(1.0, m, l - m);
    ShiftMonotone(Shift10(1.0, m), Abs(input), l - m);
    ShiftSum(input, -input, l - m);
    ShiftZero(l - m);
  }

  /** All digits of the limit, of the magnitude of the input. */
  function Digits(input: real, maximum: int): int
    requires input != 0.0 && maximum >= 1
  {
    Round(Shift10(Abs(input), DigitsFactor(input, maximum)))
  }

  /** The value limit of algorithm 1 is compared with the sign.  The magnitude of the result keeps to
      it exactly when the input is positive, or its digits do, or their last one is a zero that can be
      stripped. */
  lemma Algorithm1MagnitudeIff(input: real, maximum: int, maximumFactor: int)
    requires maximum >= 1 && input != 0.0 && Algorithm1(input, maximum, maximumFactor).Some?
    ensures var (v, f) := Algorithm1(input, maximum, maximumFactor).value;
            var k, d := DigitsFactor(input, maximum), Digits(input, maximum);
            -maximum <= v <= maximum <==> input > 0.0 || d <= maximum || (k > 0 && d % 10 == 0)
  {
    hide FloorLog10, Shift10;
    var k, d := DigitsFactor(input, maximum), Digits(input, maximum);
    ScaledLarge(input, maximum);
    StripKeepsNumber(Round(Shift10(input, k)), k);
    if input < 0.0 {
      RoundNegated(input, k);
      DigitsBound(input, maximum);
      if k > 0 && d % 10 == 0 { StripKeepsNumber(-d / 10, k - 1); }
    }
  }

  lemma RoundNegated(x: real, k: int)
    requires x < 0.0
    ensures Round(Shift10(x, k)) == -Round(Shift10(Abs(x), k))
  {
    ShiftSum(x, -x, k);
    ShiftZero(k);
    ShiftMonotone(0.0, -x, k);
  }

  /** The digits are at most one more than those of the limit. */
  lemma DigitsBound(input: real, maximum: int)
    requires input != 0.0 && maximum >= 1
    ensures 0 < Digits(input, maximum) <= 10 * maximum
  {
    var l, m := FloorLog10(maximum as real), FloorLog10(Abs(input));
    ScaledLarge(Abs(input), maximum);
    ShiftTwice(1.0, m + 1, l - m);
    ShiftMonotone(Abs(input), Shift10(1.0, m + 1), l - m);
    ShiftNext(1.0, l);
  }

  /** It fails exactly when the number of the scaled input, without decimal zeros at its end, has a value
      that reaches the value limit or a factor above the factor limit. */
  lemma Algorithm1FailsIff(input: real, maximum: int, maximumFactor: int, v: int, f: int)
    requires maximum >= 1 && input != 0.0
    requires var k := DigitsFactor(input, maximum);
             && Shift10(v as real, -f) == Shift10(Round(Shift10(input, k)) as real, -k)
             && (if k <= 0 then f == k else 0 <= f <= k && (f == 0 || v % 10 != 0))
    ensures Algorithm1(input, maximum, maximumFactor)
         == if v >= maximum || f > maximumFactor then None else Some((v, f))
  {
    var k := DigitsFactor(input, maximum);
    StripUnique(Round(Shift10(input, k)), k, v, f);
  }

  lemma {:induction false} StripUnique(value: int, factor: int, v: int, f: int)
    requires Eval(v, f) == Eval(value, factor)
    requires if factor <= 0 then f == factor else 0 <= f <= factor && (f == 0 || v % 10 != 0)
    ensures Strip(value, factor) == (v, f)
    decreases factor
  {
    hide Eval;
    SameNumber(value, factor, v, f);
    if factor > 0 && value % 10 == 0 {
      TenthOf(value, factor);
      StripUnique(value / 10, factor - 1, v, f);
    }
  }

  /** A number with fewer decimals is a multiple of ten with more. */
  lemma SameNumber(value: int, factor: int, v: int, f: int)
    requires Eval(v, f) == Eval(value, factor) && f <= factor
    ensures if f == factor then v == value else value % 10 == 0
  {
    hide Shift10;
    ShiftTwice(value as real, -factor, factor);
    ShiftTwice(v as real, -f, factor);
    var n := ShiftWhole(v, factor - f);
    ShiftNone(value as real);
  }

  lemma ShiftNone(x: real)
    ensures Shift10(x, 0) == x
  {
  }

  lemma {:induction false} ShiftWhole(v: int, d: nat) returns (n: int)
    ensures Shift10(v as real, d) == n as real && (if d == 0 then n == v else n % 10 == 0)
  {
    n := v;
    if d > 0 {
      var m := ShiftWhole(v, d - 1);
      n := 10 * m;
    }
  }

  lemma TenthOf(value: int, factor: int)
    requires value % 10 == 0
    ensures Eval(value / 10, factor - 1) == Eval(value, factor)
  {
    hide Shift10;
    var tenth := value / 10;
    ShiftTwice(tenth as real, 1, -factor);
    ShiftNext(tenth as real, 0);
    ShiftNone(tenth as real);
  }

  /** The scaled input has as many digits as the limit. */
  lemma ScaledDigits(input: real, maximum: int)
    requires input != 0.0 && maximum >= 1
    ensures var x, l := Shift10(Abs(input), DigitsFactor(input, maximum)), FloorLog10(maximum as real);
            Shift10(1.0, l) <= x < Shift10(1.0, l + 1)
  {
    var l, m := FloorLog10(maximum as real), FloorLog10(Abs(input));
    ShiftTwice(1.0, m, l - m);
    ShiftTwice(1.0, m + 1, l - m);
    ShiftMonotone(Shift10(1.0, m), Abs(input), l - m);
    ShiftMonotone(Shift10(1.0, m + 1), Abs(input), l - m);
  }

  method ComputeAlgorithm1(input: real, maximum: int, maximumFactor: int)
    returns (err: int, value: int, factor: int)
    requires maximum >= 1
    ensures (err == GRIB_SUCCESS) == Algorithm1(input, maximum, maximumFactor).Some?
    ensures err == GRIB_SUCCESS || err == GRIB_INTERNAL_ERROR
    ensures err == GRIB_SUCCESS ==> Algorithm1(input, maximum, maximumFactor) == Some((value, factor))
  {
    hide Round;
    if input == 0.0 { return GRIB_SUCCESS, 0, 0; }
    factor := FloorLog10(maximum as real) - FloorLog10(if input < 0.0 then -input else input);
    value := Round(Shift10(input, factor));
    ghost var goal := Strip(value, factor);
    while value % 10 == 0 && factor > 0
      invariant Strip(value, factor) == goal
      decreases factor
    {
      value := value / 10;
      factor := factor - 1;
    }
    if value >= maximum { return GRIB_INTERNAL_ERROR, 0, 0; }
    if factor > maximumFactor { return GRIB_INTERNAL_ERROR, 0, 0; }
    err := GRIB_SUCCESS;
  }

  // ---------------------------------------------------------------- algorithm 2

  /** The value tried for factor k. */
  function Tried(exact: real, k: nat): int { Round(Shift10(exact, k)) }

  /** The search ends at factor k: close enough, or a limit is reached, or the next value would
      exceed its limit. */
  predicate Stops(exact: real, maximum: int, maximumFactor: int, k: nat) {
    || Approximates(exact, Eval(Tried(exact, k), k), EPSILON)
    || Tried(exact, k) >= maximum
    || k >= maximumFactor
    || Tried(exact, k + 1) > maximum
  }

  ghost predicate FirstStop(exact: real, maximum: int, maximumFactor: int, k: nat) {
    Stops(exact, maximum, maximumFactor, k)
    && forall j: nat :: j < k ==> !Stops(exact, maximum, maximumFactor, j)
  }

  /** The limits are respected exactly when the rounded input and the factor zero respect them. */
  lemma FirstStopLimitsIff(exact: real, maximum: int, maximumFactor: int, k: nat)
    requires FirstStop(exact, maximum, maximumFactor, k)
    ensures Tried(exact, k) <= maximum <==> Tried(exact, 0) <= maximum
    ensures k <= maximumFactor <==> 0 <= maximumFactor
  {
    hide Tried;
    if k > 0 {
      assert !Stops(exact, maximum, maximumFactor, k - 1);
      assert !Stops(exact, maximum, maximumFactor, 0);
    }
  }

  /** Seven decimals are always close enough. */
  lemma SevenDecimals(exact: real, maximum: int, maximumFactor: int, k: nat)
    requires FirstStop(exact, maximum, maximumFactor, k)
    ensures k <= 7
  {
    if k > 7 {
      CloseAtSeven(exact);
      assert Stops(exact, maximum, maximumFactor, 7);
    }
  }

  lemma CloseAtSeven(exact: real)
    ensures Approximates(exact, Eval(Tried(exact, 7), 7), EPSILON)
  {
    RoundError(exact, 7);
    assert Shift10(1.0, -1) == 0.1;
    assert Shift10(1.0, -3) == Shift10(1.0, -1) / 100.0;
    assert Shift10(1.0, -5) == Shift10(1.0, -3) / 100.0;
    assert Shift10(1.0, -7) == Shift10(1.0, -5) / 100.0;
  }

  /** value / 10^k is so near, one float step at 1. */
  predicate Near(exact: real, value: int, k: int) {
    -1.0 / 8388608.0 <= exact - Shift10(value as real, -k) <= 1.0 / 8388608.0
  }

  predicate Unfinished(exact: real, maximum: int, maximumFactor: int, j: nat) {
    var value, next := Round(Shift10(exact, j)), Round(Shift10(exact, j + 1));
    !Near(exact, value, j) && value < maximum && j < maximumFactor && next <= maximum
  }

  /** At the factor where the search ends the value is that near, or the value or the factor has reached its
      limit, or the next value would exceed its limit; at every smaller factor none of that is so. */
  lemma FirstStopAccuracy(exact: real, maximum: int, maximumFactor: int, k: nat)
    requires FirstStop(exact, maximum, maximumFactor, k)
    ensures var value, next := Round(Shift10(exact, k)), Round(Shift10(exact, k + 1));
            Near(exact, value, k) || value >= maximum || k >= maximumFactor || next > maximum
    ensures forall j: nat :: j < k ==> Unfinished(exact, maximum, maximumFactor, j)
  {
    hide Round, Shift10, Near, Approximates;
    NearIff(exact, k);
    forall j: nat | j < k
      ensures Unfinished(exact, maximum, maximumFactor, j)
    {
      assert !Stops(exact, maximum, maximumFactor, j);
      NearIff(exact, j);
    }
  }

  lemma NearIff(exact: real, k: nat)
    ensures Near(exact, Round(Shift10(exact, k)), k) <==> Approximates(exact, Eval(Tried(exact, k), k), EPSILON)
  {
    hide Round, Shift10;
  }

  method ComputeAlgorithm2(input: real, maximum: int, maximumFactor: int)
    returns (err: int, value: int, factor: int)
    ensures factor >= 0 && FirstStop(Abs(input), maximum, maximumFactor, factor)
    ensures var exact, v := Abs(input), Round(Shift10(Abs(input), factor));
            || -1.0 / 8388608.0 <= exact - Shift10(v as real, -factor) <= 1.0 / 8388608.0
            || v >= maximum || factor >= maximumFactor || Round(Shift10(exact, factor + 1)) > maximum
    ensures forall j: nat :: j < factor ==> Unfinished(Abs(input), maximum, maximumFactor, j)
    ensures value == if input < 0.0 then -Tried(Abs(input), factor) else Tried(Abs(input), factor)
    ensures err == if value == 0 then GRIB_INTERNAL_ERROR else GRIB_SUCCESS
  {
    hide Round, Eval, Approximates;
    var exact := input;
    var epsilon := FloatEpsilon();
    var isNegative := false;
    if exact < 0.0 {
      isNegative := true;
      exact := exact * -1.0;
    }
    factor := 0;
    var prevFactor := 0;
    value := Round(exact);
    var prevValue := value;
    while !Approximates(exact, Eval(value, factor), epsilon) && value < maximum && factor < maximumFactor
      invariant 0 <= factor && value == Tried(exact, factor)
      invariant prevFactor == factor && prevValue == value
      invariant forall j: nat :: j < factor ==> !Stops(exact, maximum, maximumFactor, j)
      decreases maximumFactor - factor
    {
      factor := factor + 1;
      value := Round(Shift10(exact, factor));
      if value > maximum || factor > maximumFactor {
        value := prevValue;
        factor := prevFactor;
        assert Stops(exact, maximum, maximumFactor, factor);
        break;
      }
      prevFactor := factor;
      prevValue := value;
    }
    FirstStopAccuracy(exact, maximum, maximumFactor, factor);
    if isNegative { value := value * -1; }
    err := if value == 0 then GRIB_INTERNAL_ERROR else GRIB_SUCCESS;
  }

  // ---------------------------------------------------------------- both

  /** When the magnitude of the returned value keeps to the value limit. */
  predicate MagnitudeKept(input: real, maximum: int, maximumFactor: int)
    requires maximum >= 1
  {
    || input == 0.0
    || if Algorithm1(input, maximum, maximumFactor).Some? then
         || input > 0.0 || Digits(input, maximum) <= maximum
         || (DigitsFactor(input, maximum) > 0 && Digits(input, maximum) % 10 == 0)
       else Round(Abs(input)) <= maximum
  }

  /** The result comes from the first algorithm that succeeds.  Returned values keep to the limits
      except when the second one is reached with a positive input that already rounds to more than
      the value limit, or with a negative factor limit. */
  method Compute(input: real, scaledValueMax: int, scaleFactorMax: int)
    returns (err: int, value: int, factor: int)
    requires scaledValueMax >= 1
    ensures var first := Algorithm1(input, scaledValueMax, scaleFactorMax);
            first.Some? ==> err == GRIB_SUCCESS && first.value == (value, factor)
    ensures Algorithm1(input, scaledValueMax, scaleFactorMax).None? ==>
              && factor >= 0 && FirstStop(Abs(input), scaledValueMax, scaleFactorMax, factor)
              && value == (if input < 0.0 then -Tried(Abs(input), factor) else Tried(Abs(input), factor))
              && err == (if value == 0 then GRIB_INTERNAL_ERROR else GRIB_SUCCESS)
              && (|| -1.0 / 8388608.0 <= input - Shift10(value as real, -factor) <= 1.0 / 8388608.0
                  || Abs(value as real) >= scaledValueMax as real || factor >= scaleFactorMax
                  || Round(Shift10(Abs(input), factor + 1)) > scaledValueMax)
              && forall j: nat :: j < factor ==> Unfinished(Abs(input), scaledValueMax, scaleFactorMax, j)
    ensures err == GRIB_SUCCESS ==>
              (value <= scaledValueMax <==>
                 || Algorithm1(input, scaledValueMax, scaleFactorMax).Some?
                 || input < 0.0 || Round(input) <= scaledValueMax)
    ensures err == GRIB_SUCCESS ==>
              (-scaledValueMax <= value <= scaledValueMax <==> MagnitudeKept(input, scaledValueMax, scaleFactorMax))
    ensures err == GRIB_SUCCESS ==>
              (factor <= scaleFactorMax <==>
                 || (Algorithm1(input, scaledValueMax, scaleFactorMax).Some? && input != 0.0)
                 || scaleFactorMax >= 0)
  {
    hide Algorithm1, FirstStop, Digits, DigitsFactor, Round;
    ZeroForZero(scaledValueMax, scaleFactorMax);
    err, value, factor := ComputeAlgorithm1(input, scaledValueMax, scaleFactorMax);
    if err != GRIB_SUCCESS {
      err, value, factor := ComputeAlgorithm2(input, scaledValueMax, scaleFactorMax);
      FirstStopLimitsIff(Abs(input), scaledValueMax, scaleFactorMax, factor);
      TriedAtZero(Abs(input), factor);
      Negated(value as real, factor);
    } else {
      Algorithm1Limits(input, scaledValueMax, scaleFactorMax);
      if input != 0.0 { Algorithm1MagnitudeIff(input, scaledValueMax, scaleFactorMax); }
    }
  }

  lemma Negated(x: real, k: int)
    ensures Shift10(-x, -k) == -Shift10(x, -k)
  {
    ShiftSum(x, -x, -k);
    ShiftZero(-k);
  }

  lemma ZeroForZero(maximum: int, maximumFactor: int)
    requires maximum >= 1
    ensures Algorithm1(0.0, maximum, maximumFactor) == Some((0, 0))
  {
  }

  lemma TriedAtZero(exact: real, k: nat)
    requires exact >= 0.0
    ensures Tried(exact, 0) == Round(exact) && Tried(exact, k) >= 0
  {
    ShiftGrows(exact, k, k);
  }

  lemma Algorithm1Limits(input: real, maximum: int, maximumFactor: int)
    requires maximum >= 1 && Algorithm1(input, maximum, maximumFactor).Some?
    ensures var (v, f) := Algorithm1(input, maximum, maximumFactor).value;
            v <= maximum && (input != 0.0 ==> f <= maximumFactor) && (input == 0.0 ==> f == 0)
  {
    hide Round;
  }

  /** An input of 300 with value limit 255 is returned as it is. */
  lemma LimitNotEnforced()
    ensures Algorithm1(300.0, 255, 0) == None
    ensures FirstStop(300.0, 255, 0, 0) && Tried(300.0, 0) == 300
  {
    assert Shift10(1.0, 1) == 10.0;
    assert Shift10(1.0, 2) == 100.0;
    assert Shift10(1.0, 3) == 1000.0;
    OneLog(255.0, 2);
    OneLog(300.0, 2);
  }

  /** Algorithm 1 compares its limit with the sign: -9.99 with limit 255 becomes -999 / 10^2. */
  lemma NegativeBeyondLimit()
    ensures Algorithm1(-9.99, 255, 2) == Some((-999, 2)) && !MagnitudeKept(-9.99, 255, 2)
  {
    assert Shift10(1.0, 1) == 10.0;
    assert Shift10(1.0, 2) == 100.0;
    assert Shift10(1.0, 3) == 1000.0;
    OneLog(255.0, 2);
    OneLog(9.99, 0);
    assert Shift10(-9.99, 1) == -99.9;
    assert Shift10(-9.99, 2) == -999.0;
    Algorithm1MagnitudeIff(-9.99, 255, 2);
  }

  lemma OneLog(x: real, k: int)
    requires x > 0.0 && Shift10(1.0, k) <= x < Shift10(1.0, k + 1)
    ensures FloorLog10(x) == k
  {
    if FloorLog10(x) < k { ShiftGrows(1.0, FloorLog10(x) + 1, k); }
    if FloorLog10(x) > k { ShiftGrows(1.0, k + 1, FloorLog10(x)); }
  }
}
