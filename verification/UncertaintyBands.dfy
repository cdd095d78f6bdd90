/**
 From fitted parameters to model output: the uncertainty-band factors of
 simulation_engine/calibration/math_helpers.py, the rounding to four decimals in the fit_*.py files and
 the `run` methods in simulation_engine/models. Whatever the training data, a prediction lies strictly inside
 its reported bounds. The standard deviation is a parameter: any number that is not negative.
 */
module UncertaintyBands {
  import opened Basics
  import opened LeastSquares

  datatype Result<+T> = Ok(value: T) | Err(message: string)

  datatype Forecast = Forecast(prediction: real, low: real, high: real)

  ghost predicate Strict(f: Forecast) { f.low < f.prediction < f.high }

  /** Python's `round(x, 4)`: to the nearest multiple of 0.0001, ties to the even one. */
  function Round4(x: real): (r: real)
    ensures x - 0.00005 <= r <= x + 0.00005
  {
    var scaled := x * 10000.0;
    var n := scaled.Floor;
    var rest := scaled - n as real;
    var m := if rest < 0.5 then n else if rest > 0.5 then n + 1 else if n % 2 == 0 then n else n + 1;
    m as real / 10000.0
  }

  function Units(k: int): real { k as real / 10000.0 }

  /** The result is a whole number of units of the fourth decimal, and exactly between two of them the even one. */
  lemma Round4IsNearest(x: real, m: int)
    ensures exists k :: Round4(x) == Units(k)
    ensures x == (m as real + 0.5) / 10000.0 ==> Round4(x) == Units(if m % 2 == 0 then m else m + 1)
  {
    var scaled := x * 10000.0;
    var n := scaled.Floor;
    var rest := scaled - n as real;
    var k := if rest < 0.5 then n else if rest > 0.5 then n + 1 else if n % 2 == 0 then n else n + 1;
    assert Round4(x) == Units(k);
    if x == (m as real + 0.5) / 10000.0 {
      assert scaled == m as real + 0.5;
      assert n == m;
    }
  }

  /** Within half a unit of the fourth decimal. */
  predicate Near(x: real, y: real) { -0.00005 <= x - y <= 0.00005 }

  /** `compute_bounds_factors`. */
  function BoundsFactors(mean: real, stdDev: real, defaultLow: real, defaultHigh: real): (f: (real, real))
    ensures mean > 0.1 ==> 0.1 <= f.0 <= 0.95 && 1.05 <= f.1 <= 3.0
    ensures mean <= 0.1 ==> f == (defaultLow, defaultHigh)
  {
    if mean > 0.1 then
      (Clamp(0.1, 0.95, (mean - stdDev) / mean), Clamp(1.05, 3.0, (mean + stdDev) / mean))
    else (defaultLow, defaultHigh)
  }

  /**
   What the factors mean: applied to the mean prediction they mark one standard deviation below and above it,
   kept between a tenth and 95 % of the mean, and between 105 % and three times the mean.
   */
  lemma FactorsMarkOneDeviation(mean: real, stdDev: real, defaultLow: real, defaultHigh: real)
    requires mean > 0.1
    ensures var f := BoundsFactors(mean, stdDev, defaultLow, defaultHigh);
      && Mul(f.0, mean) == Clamp(0.1 * mean, 0.95 * mean, mean - stdDev)
      && Mul(f.1, mean) == Clamp(1.05 * mean, 3.0 * mean, mean + stdDev)
  {
    ScaledClamp(0.1, 0.95, (mean - stdDev) / mean, mean, mean - stdDev);
    ScaledClamp(1.05, 3.0, (mean + stdDev) / mean, mean, mean + stdDev);
  }

  lemma ScaledClamp(lo: real, hi: real, x: real, k: real, xk: real)
    requires lo <= hi && k > 0.0 && x * k == xk
    ensures lo * k <= hi * k && Mul(Clamp(lo, hi, x), k) == Clamp(lo * k, hi * k, xk)
  {
    ProductSign(hi - lo, k);
    ProductSign(x - lo, k);
    ProductSign(hi - x, k);
  }

  // ---------------------------------------------------------------- flood and plume

  /** The constants of one single-coefficient model. */
  datatype Single = Single(coefficient: real, low: real, high: real, minInput: real, maxInput: real)

  const FLOOD := Single(3.2, 2.8, 3.6, 5.0, 500.0)
  const PLUME := Single(1.8, 1.5, 2.1, 0.5, 50.0)

  datatype SlopeParams = SlopeParams(coefficient: real, low: real, high: real)

  function SumPredictions(s: seq<Point>, c: real): real {
    if s == [] then 0.0 else SumPredictions(s[1..], c) + s[0].x * c
  }

  function FitSingle(m: Single, train: seq<Point>, stdDev: real): SlopeParams
    requires m == FLOOD || m == PLUME
  {
    match FitSlope(train)
    case None => SlopeParams(m.coefficient, m.low, m.high)
    case Some(c) =>
      var mean := Quot(SumPredictions(train, c), if train == [] then 1.0 else |train| as real);
      var (low, high) := BoundsFactors(mean, stdDev, m.low / m.coefficient, m.high / m.coefficient);
      SlopeParams(Round4(c), Round4(Mul(low, c)), Round4(Mul(high, c)))
  }

  function RunSingle(m: Single, p: SlopeParams, input: Option<real>): Result<Forecast> {
    if input.None? then Err("Missing required input")
    else if !(m.minInput <= input.value <= m.maxInput) then Err("Parameter out of bounds")
    else Ok(Forecast(Mul(input.value, p.coefficient), Mul(input.value, p.low), Mul(input.value, p.high)))
  }

  /** The rounded band factors keep their distance from the rounded coefficient. */
  lemma FactorsStayApart(c: real, low: real, high: real)
    requires MIN_SLOPE <= c && low <= 0.95 && 1.05 <= high
    ensures Round4(Mul(low, c)) < Round4(c) < Round4(Mul(high, c))
  {
    ProductSign(0.95 - low, c);
    assert (0.95 - low) * c == 0.95 * c - low * c;
    ProductSign(high - 1.05, c);
    assert (high - 1.05) * c == high * c - 1.05 * c;
    assert Mul(low, c) <= 0.95 * c && Mul(high, c) >= 1.05 * c;
  }

  /** Fitted flood and plume parameters are ordered, for every training set. */
  lemma FittedSlopesAreOrdered(m: Single, train: seq<Point>, stdDev: real)
    requires (m == FLOOD || m == PLUME) && stdDev >= 0.0
    ensures var p := FitSingle(m, train, stdDev); p.low < p.coefficient < p.high
  {
    if FitSlope(train).Some? {
      var c := FitSlope(train).value;
      var mean := Quot(SumPredictions(train, c), if train == [] then 1.0 else |train| as real);
      var (low, high) := BoundsFactors(mean, stdDev, m.low / m.coefficient, m.high / m.coefficient);
      assert low <= 0.95 && 1.05 <= high;
      FactorsStayApart(c, low, high);
    }
  }

  lemma ScaledStrictly(x: real, p: SlopeParams)
    requires x > 0.0 && p.low < p.coefficient < p.high
    ensures Mul(x, p.low) < Mul(x, p.coefficient) < Mul(x, p.high)
  {
    ProductSign(x, p.coefficient - p.low);
    ProductSign(x, p.high - p.coefficient);
  }

  /** Every flood or plume forecast from fitted parameters lies strictly inside its bounds. */
  lemma SlopeForecastIsInside(m: Single, train: seq<Point>, stdDev: real, input: Option<real>)
    requires (m == FLOOD || m == PLUME) && stdDev >= 0.0
    ensures var r := RunSingle(m, FitSingle(m, train, stdDev), input);
      && (r.Ok? <==> input.Some? && m.minInput <= input.value <= m.maxInput)
      && (r.Ok? ==> Strict(r.value))
  {
    FittedSlopesAreOrdered(m, train, stdDev);
    if input.Some? && m.minInput <= input.value <= m.maxInput {
      ScaledStrictly(input.value, FitSingle(m, train, stdDev));
    }
  }

  /**
   The forecast is the fitted line: whatever is observed at an input in range, the squared difference from the
   prediction is the error the fit minimises, for the coefficient; likewise the two bounds for their slopes.
   */
  lemma SlopeForecastIsTheLine(m: Single, p: SlopeParams, x: real, observed: real)
    requires m.minInput <= x <= m.maxInput
    ensures var r := RunSingle(m, p, Some(x)); var at := [Point(x, observed)];
      && r.Ok?
      && SlopeError(at, p.coefficient) == Sq(observed - r.value.prediction)
      && SlopeError(at, p.low) == Sq(observed - r.value.low) && SlopeError(at, p.high) == Sq(observed - r.value.high)
      && (observed == r.value.prediction <==> observed == x * p.coefficient)
  {
    var at := [Point(x, observed)];
    assert at[1..] == [];
  }

  /**
   The fitted parameters: without a fit the constants of the model; otherwise, each within half a unit of the
   fourth decimal, the best slope and the slopes that mark the band around it.
   */
  lemma FittedSlopesAre(m: Single, train: seq<Point>, stdDev: real)
    requires m == FLOOD || m == PLUME
    ensures var p, fit := FitSingle(m, train, stdDev), FitSlope(train);
      && (fit.None? ==> p == SlopeParams(m.coefficient, m.low, m.high))
      && (fit.Some? ==>
            train != [] &&
            var f := BoundsFactors(Quot(SumPredictions(train, fit.value), |train| as real), stdDev, m.low / m.coefficient, m.high / m.coefficient);
            Near(p.coefficient, fit.value) && Near(p.low, Mul(f.0, fit.value)) && Near(p.high, Mul(f.1, fit.value)))
  {
    if FitSlope(train).Some? {
      var c := FitSlope(train).value;
      assert train != [];
      var f := BoundsFactors(Quot(SumPredictions(train, c), |train| as real), stdDev, m.low / m.coefficient, m.high / m.coefficient);
      assert FitSingle(m, train, stdDev) == SlopeParams(Round4(c), Round4(Mul(f.0, c)), Round4(Mul(f.1, c)));
    }
  }

  /** The sum of predictions is the slope times the sum of the inputs. */
  lemma {:induction false} SumOfPredictions(s: seq<Point>, c: real)
    ensures SumPredictions(s, c) == SumInputs(s) * c
    decreases |s|
  {
    if s != [] { SumOfPredictions(s[1..], c); }
  }

  function SumInputs(s: seq<Point>): real { if s == [] then 0.0 else s[0].x + SumInputs(s[1..]) }

  // ---------------------------------------------------------------- wildfire

  datatype FireParams = FireParams(wind: real, temp: real, low: real, high: real)

  function SumFirePredictions(s: seq<Fire>, a: real, b: real): real {
    if s == [] then 0.0 else SumFirePredictions(s[1..], a, b) + (s[0].wind * a + s[0].temp * b)
  }

  function FitFire(train: seq<Fire>, stdDev: real): FireParams {
    match SolveFire(train)
    case None => FireParams(0.4, 0.1, 0.7, 1.3)
    case Some(raw) =>
      var (a, b) := ClampFire(raw);
      var mean := Quot(SumFirePredictions(train, a, b), if train == [] then 1.0 else |train| as real);
      var (low, high) := BoundsFactors(mean, stdDev, 0.7, 1.3);
      FireParams(Round4(a), Round4(b), Round4(low), Round4(high))
  }

  function RunFire(p: FireParams, wind: Option<real>, temp: Option<real>): Result<Forecast> {
    if wind.None? || temp.None? then Err("Missing required input")
    else if !(0.0 <= wind.value <= 80.0) || !(10.0 <= temp.value <= 55.0) then Err("Parameter out of bounds")
    else
      var rate := Mul(wind.value, p.wind) + Mul(temp.value, p.temp);
      Ok(Forecast(rate, Mul(rate, p.low), Mul(rate, p.high)))
  }

  ghost predicate Sane(p: FireParams) { p.wind > 0.0 && p.temp > 0.0 && p.low < 1.0 < p.high }

  lemma FittedFireIsSane(train: seq<Fire>, stdDev: real)
    requires stdDev >= 0.0
    ensures Sane(FitFire(train, stdDev))
  {
  }

  lemma SaneFireIsInside(p: FireParams, wind: real, temp: real)
    requires Sane(p) && 0.0 <= wind && 10.0 <= temp
    ensures var rate := Mul(wind, p.wind) + Mul(temp, p.temp);
      rate > 0.0 && Strict(Forecast(rate, Mul(rate, p.low), Mul(rate, p.high)))
  {
    ProductSign(wind, p.wind);
    ProductSign(temp, p.temp);
    BracketsOne(Mul(wind, p.wind) + Mul(temp, p.temp), p.low, p.high);
  }

  lemma BracketsOne(rate: real, low: real, high: real)
    requires rate > 0.0 && low < 1.0 < high
    ensures Mul(rate, low) < rate < Mul(rate, high)
  {
    ProductSign(rate, 1.0 - low);
    ProductSign(rate, high - 1.0);
  }

  /** Every wildfire forecast from fitted parameters is positive and strictly inside its bounds. */
  lemma FireForecastIsInside(train: seq<Fire>, stdDev: real, wind: Option<real>, temp: Option<real>)
    requires stdDev >= 0.0
    ensures var r := RunFire(FitFire(train, stdDev), wind, temp);
      && (r.Ok? <==> wind.Some? && temp.Some? && 0.0 <= wind.value <= 80.0 && 10.0 <= temp.value <= 55.0)
      && (r.Ok? ==> r.value.prediction > 0.0 && Strict(r.value))
  {
    var p := FitFire(train, stdDev);
    FittedFireIsSane(train, stdDev);
    if wind.Some? && temp.Some? && 0.0 <= wind.value && 10.0 <= temp.value {
      SaneFireIsInside(p, wind.value, temp.value);
    }
  }

  /**
   The forecast is the fitted plane: whatever is observed, its squared difference from the prediction is the error
   the fit minimises at the two coefficients; the bounds are the prediction scaled by the two factors.
   */
  lemma FireForecastIsThePlane(p: FireParams, wind: real, temp: real, observed: real)
    requires 0.0 <= wind <= 80.0 && 10.0 <= temp <= 55.0
    ensures var r := RunFire(p, Some(wind), Some(temp)); var at := [Fire(wind, temp, observed)];
      && r.Ok?
      && FireError(at, p.wind, p.temp) == Sq(observed - r.value.prediction)
      && (observed == r.value.prediction <==> Residual(at[0], p.wind, p.temp) == 0.0)
      && r.value.low == r.value.prediction * p.low && r.value.high == r.value.prediction * p.high
  {
    var at := [Fire(wind, temp, observed)];
    assert at[1..] == [];
  }

  /** Each coefficient is the slope in its own input. */
  lemma FireForecastSlopes(p: FireParams, wind: real, temp: real, d: real)
    requires 0.0 <= wind <= 80.0 && 10.0 <= temp <= 55.0
    ensures 0.0 <= wind + d <= 80.0 ==>
      var r, r' := RunFire(p, Some(wind), Some(temp)), RunFire(p, Some(wind + d), Some(temp));
      r.Ok? && r'.Ok? && r'.value.prediction - r.value.prediction == d * p.wind
    ensures 10.0 <= temp + d <= 55.0 ==>
      var r, r' := RunFire(p, Some(wind), Some(temp)), RunFire(p, Some(wind), Some(temp + d));
      r.Ok? && r'.Ok? && r'.value.prediction - r.value.prediction == d * p.temp
  {
    assert (wind + d) * p.wind == wind * p.wind + d * p.wind;
    assert (temp + d) * p.temp == temp * p.temp + d * p.temp;
  }

  /** The fitted parameters, each within half a unit of the fourth decimal of the clamped fit and its band factors. */
  lemma FittedFireIs(train: seq<Fire>, stdDev: real)
    ensures var p, fit := FitFire(train, stdDev), SolveFire(train);
      && (fit.None? ==> p == FireParams(0.4, 0.1, 0.7, 1.3))
      && (fit.Some? ==>
            train != [] &&
            var ab := ClampFire(fit.value);
            var f := BoundsFactors(Quot(SumFirePredictions(train, ab.0, ab.1), |train| as real), stdDev, 0.7, 1.3);
            Near(p.wind, ab.0) && Near(p.temp, ab.1) && Near(p.low, f.0) && Near(p.high, f.1))
  {
  }

  /** Rounding moves a forecast by at most half a unit of the fourth decimal for each unit of wind and temperature. */
  lemma RoundingMovesForecastLittle(train: seq<Fire>, stdDev: real, wind: real, temp: real)
    requires SolveFire(train).Some? && 0.0 <= wind <= 80.0 && 10.0 <= temp <= 55.0
    ensures var ab := ClampFire(SolveFire(train).value); var r := RunFire(FitFire(train, stdDev), Some(wind), Some(temp));
      r.Ok? && AbsReal(r.value.prediction - (Mul(wind, ab.0) + Mul(temp, ab.1))) <= 0.00005 * (wind + temp)
  {
    FittedFireIs(train, stdDev);
    var ab := ClampFire(SolveFire(train).value);
    CloseCoefficients(FitFire(train, stdDev), ab.0, ab.1, wind, temp);
  }

  lemma CloseCoefficients(p: FireParams, a: real, b: real, wind: real, temp: real)
    requires Near(p.wind, a) && Near(p.temp, b) && 0.0 <= wind <= 80.0 && 10.0 <= temp <= 55.0
    ensures var r := RunFire(p, Some(wind), Some(temp));
      r.Ok? && AbsReal(r.value.prediction - (Mul(wind, a) + Mul(temp, b))) <= 0.00005 * (wind + temp)
  {
    ScaledNear(wind, p.wind, a);
    ScaledNear(temp, p.temp, b);
    var r := RunFire(p, Some(wind), Some(temp));
    assert r.Ok? && r.value.prediction == Mul(wind, p.wind) + Mul(temp, p.temp);
  }

  lemma ScaledNear(k: real, x: real, y: real)
    requires k >= 0.0 && Near(x, y)
    ensures -0.00005 * k <= Mul(k, x) - Mul(k, y) <= 0.00005 * k
  {
    ProductSign(k, x - y + 0.00005);
    ProductSign(k, 0.00005 - (x - y));
    assert Mul(k, x) - Mul(k, y) == k * (x - y);
  }

  /** Predictions and residuals make up what was observed. */
  lemma {:induction false} SumOfFirePredictions(s: seq<Fire>, a: real, b: real)
    ensures SumFirePredictions(s, a, b) + SumResiduals(s, a, b) == SumObserved(s)
    decreases |s|
  {
    if s != [] { SumOfFirePredictions(s[1..], a, b); }
  }

  function SumResiduals(s: seq<Fire>, a: real, b: real): real {
    if s == [] then 0.0 else Residual(s[0], a, b) + SumResiduals(s[1..], a, b)
  }

  function SumObserved(s: seq<Fire>): real { if s == [] then 0.0 else s[0].observed + SumObserved(s[1..]) }

  // ---------------------------------------------------------------- ENSO

  datatype EnsoParams = EnsoParams(elNino: real, laNina: real, low: real, high: real)

  datatype Phase = ElNino | LaNina | Neutral

  /** `sorted` holds the training anomalies in ascending order. */
  function FitEnso(sorted: seq<real>, stdDev: real): EnsoParams {
    var n := |sorted|;
    if n < 5 then EnsoParams(0.5, -0.5, -0.2, 0.2) else
      var elNino := Clamp(0.2, 1.5, sorted[(n as real * 0.9).Floor]);
      var laNina := Clamp(-1.5, -0.2, sorted[(n as real * 0.1).Floor]);
      var offset := Clamp(0.05, 1.0, stdDev);
      EnsoParams(Round4(elNino), Round4(laNina), Round4(-offset), Round4(offset))
  }

  function Classify(p: EnsoParams, anomaly: real): Phase {
    if anomaly >= p.elNino then ElNino else if anomaly <= p.laNina then LaNina else Neutral
  }

  function RunEnso(p: EnsoParams, anomaly: Option<real>): Result<(Phase, Forecast)> {
    if anomaly.None? then Err("Missing required input")
    else if !(-4.0 <= anomaly.value <= 4.0) then Err("Parameter out of bounds")
    else Ok((Classify(p, anomaly.value),
             Forecast(anomaly.value, anomaly.value + p.low, anomaly.value + p.high)))
  }

  /**
   For every training set the La Niña threshold is below the El Niño threshold, so the order of the two
   tests in the classification does not matter, and the anomaly lies strictly inside its bounds.
   */
  lemma EnsoForecastIsInside(sorted: seq<real>, stdDev: real, anomaly: Option<real>)
    requires stdDev >= 0.0
    ensures var p := FitEnso(sorted, stdDev);
      && p.laNina < p.elNino
      && (RunEnso(p, anomaly).Ok? ==>
            && Strict(RunEnso(p, anomaly).value.1)
            && (RunEnso(p, anomaly).value.0 == LaNina <==> anomaly.value <= p.laNina)
            && (RunEnso(p, anomaly).value.0 == ElNino <==> anomaly.value >= p.elNino))
  {
  }

  /** What the ENSO model answers: exactly in range, the anomaly itself with the two offsets around it. */
  lemma EnsoForecastIs(p: EnsoParams, anomaly: Option<real>)
    ensures RunEnso(p, anomaly).Ok? <==> anomaly.Some? && -4.0 <= anomaly.value <= 4.0
    ensures RunEnso(p, anomaly).Ok? ==>
      var f := RunEnso(p, anomaly).value.1;
      f.prediction == anomaly.value && f.low - anomaly.value == p.low && f.high - anomaly.value == p.high
    ensures RunEnso(p, anomaly).Ok? && p.laNina < p.elNino ==>
      && (RunEnso(p, anomaly).value.0 == Neutral <==> p.laNina < anomaly.value < p.elNino)
      && (RunEnso(p, anomaly).value.0 == LaNina <==> anomaly.value <= p.laNina)
  {
  }

  /**
   The fitted thresholds: below five samples the defaults; otherwise, within half a unit of the fourth decimal, the
   values nine tenths and one tenth up the sorted anomalies, kept within their limits, and the deviation kept
   between 0.05 and 1 to either side.
   */
  lemma FittedEnsoIs(sorted: seq<real>, stdDev: real)
    ensures var p, n := FitEnso(sorted, stdDev), |sorted|;
      && (n < 5 ==> p == EnsoParams(0.5, -0.5, -0.2, 0.2))
      && (n >= 5 ==>
            && Near(p.elNino, Clamp(0.2, 1.5, sorted[9 * n / 10])) && Near(p.laNina, Clamp(-1.5, -0.2, sorted[n / 10]))
            && Near(p.high, Clamp(0.05, 1.0, stdDev)) && Near(p.low, -Clamp(0.05, 1.0, stdDev)))
  {
    var n := |sorted|;
    assert (n as real * 0.9).Floor == 9 * n / 10;
    assert (n as real * 0.1).Floor == n / 10;
  }
}
