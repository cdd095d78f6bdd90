/**
 The closed-form least-squares fits of simulation_engine/calibration: two coefficients for wildfire
 spread, one clamped coefficient for flood extent and plume dispersion. Floats are reals.
 */
module LeastSquares {
  import opened Basics

  // ---------------------------------------------------------------- wildfire: two coefficients

  datatype Fire = Fire(wind: real, temp: real, observed: real)

  function SumW2(s: seq<Fire>): real { if s == [] then 0.0 else SumW2(s[1..]) + s[0].wind * s[0].wind }
  function SumT2(s: seq<Fire>): real { if s == [] then 0.0 else SumT2(s[1..]) + s[0].temp * s[0].temp }
  function SumWT(s: seq<Fire>): real { if s == [] then 0.0 else SumWT(s[1..]) + s[0].wind * s[0].temp }
  function SumWY(s: seq<Fire>): real { if s == [] then 0.0 else SumWY(s[1..]) + s[0].wind * s[0].observed }
  function SumTY(s: seq<Fire>): real { if s == [] then 0.0 else SumTY(s[1..]) + s[0].temp * s[0].observed }
  function SumY2(s: seq<Fire>): real { if s == [] then 0.0 else SumY2(s[1..]) + s[0].observed * s[0].observed }

  function Residual(f: Fire, a: real, b: real): real { f.observed - (f.wind * a + f.temp * b) }

  /** Sum of squared errors of the coefficients `a` (wind) and `b` (temperature). */
  function FireError(s: seq<Fire>, a: real, b: real): real {
    if s == [] then 0.0 else FireError(s[1..], a, b) + Sq(Residual(s[0], a, b))
  }

  function Det(s: seq<Fire>): real { SumW2(s) * SumT2(s) - SumWT(s) * SumWT(s) }

  function Cross(p: real, q: real, r: real, t: real): real { p * q - r * t }

  const SINGULAR := 0.000001

  /** The coefficients before clamping; `None` stands for the branches that return the defaults. */
  function SolveFire(s: seq<Fire>): Option<(real, real)> {
    var det := Det(s);
    if |s| < 2 || AbsReal(det) < SINGULAR then None else
      Some((Quot(Cross(SumT2(s), SumWY(s), SumWT(s), SumTY(s)), det),
            Quot(Cross(SumW2(s), SumTY(s), SumWT(s), SumWY(s)), det)))
  }

  const MIN_WIND := 0.01
  const MAX_WIND := 2.0
  const MIN_TEMP := 0.01
  const MAX_TEMP := 1.0

  function ClampFire(ab: (real, real)): (real, real) {
    (Clamp(MIN_WIND, MAX_WIND, ab.0), Clamp(MIN_TEMP, MAX_TEMP, ab.1))
  }

  predicate InLimits(a: real, b: real) { MIN_WIND <= a <= MAX_WIND && MIN_TEMP <= b <= MAX_TEMP }

  /** How much one prediction moves when the coefficients move by `(da, db)`. */
  function Shift(f: Fire, da: real, db: real): real { f.wind * da + f.temp * db }

  /** Sum of squared shifts: how far two coefficient pairs predict apart. */
  function Spread(s: seq<Fire>, da: real, db: real): (q: real)
    ensures q >= 0.0
  {
    if s == [] then 0.0 else
      SquareNonNegative(Shift(s[0], da, db));
      Spread(s[1..], da, db) + Sq(Shift(s[0], da, db))
  }

  lemma SquareNonNegative(x: real)
    ensures x * x >= 0.0
  {
  }

  lemma {:induction false} SpreadExpands(s: seq<Fire>, da: real, db: real)
    ensures Spread(s, da, db) == SumW2(s) * (da * da) + 2.0 * SumWT(s) * (da * db) + SumT2(s) * (db * db)
    decreases |s|
  {
    if s != [] {
      SpreadExpands(s[1..], da, db);
      SpreadTerm(s[0].wind, s[0].temp, da, db);
      var w2, wt, t2 := SumW2(s[1..]), SumWT(s[1..]), SumT2(s[1..]);
      assert SumW2(s) * (da * da) == w2 * (da * da) + s[0].wind * s[0].wind * (da * da);
      assert SumWT(s) * (da * db) == wt * (da * db) + s[0].wind * s[0].temp * (da * db);
      assert SumT2(s) * (db * db) == t2 * (db * db) + s[0].temp * s[0].temp * (db * db);
    }
  }

  lemma SpreadTerm(w: real, t: real, da: real, db: real)
    ensures (w * da + t * db) * (w * da + t * db)
         == w * w * (da * da) + 2.0 * (w * t * (da * db)) + t * t * (db * db)
  {
  }

  /** How the error of one sample changes when the coefficients move by `(da, db)`. */
  lemma ErrorTerm(f: Fire, a: real, b: real, da: real, db: real)
    ensures Sq(Residual(f, a + da, b + db))
         == Sq(Residual(f, a, b)) - 2.0 * Mul(Residual(f, a, b), Shift(f, da, db)) + Sq(Shift(f, da, db))
  {
    var r, d := Residual(f, a, b), Shift(f, da, db);
    assert Residual(f, a + da, b + db) == r - d by {
      assert f.wind * (a + da) == f.wind * a + f.wind * da;
      assert f.temp * (b + db) == f.temp * b + f.temp * db;
    }
    Square(r, d);
  }

  lemma Square(r: real, d: real)
    ensures (r - d) * (r - d) == r * r - 2.0 * (r * d) + d * d
  {
  }

  /** Half the derivatives of the error: the left sides of the normal equations minus the right. */
  function GradA(s: seq<Fire>, a: real, b: real): real { SumW2(s) * a + SumWT(s) * b - SumWY(s) }
  function GradB(s: seq<Fire>, a: real, b: real): real { SumWT(s) * a + SumT2(s) * b - SumTY(s) }

  /** One sample's share of the gradient, on plain numbers. */
  lemma GradShare(f: Fire, a: real, b: real, da: real, db: real,
                  w2: real, wt: real, t2: real, wy: real, ty: real, ga: real, gb: real)
    requires ga == (w2 + f.wind * f.wind) * a + (wt + f.wind * f.temp) * b - (wy + f.wind * f.observed)
    requires gb == (wt + f.wind * f.temp) * a + (t2 + f.temp * f.temp) * b - (ty + f.temp * f.observed)
    ensures ga * da + gb * db
         == (w2 * a + wt * b - wy) * da + (wt * a + t2 * b - ty) * db
            - Mul(Residual(f, a, b), Shift(f, da, db))
  {
    var r := Residual(f, a, b);
    assert ga == w2 * a + wt * b - wy - r * f.wind;
    assert gb == wt * a + t2 * b - ty - r * f.temp;
    Distribute(w2 * a + wt * b - wy, wt * a + t2 * b - ty, r, f.wind, f.temp, da, db, ga, gb);
  }

  lemma Distribute(ga: real, gb: real, r: real, w: real, t: real, da: real, db: real,
                   ga': real, gb': real)
    requires ga' == ga - r * w && gb' == gb - r * t
    ensures ga' * da + gb' * db == ga * da + gb * db - r * (w * da + t * db)
  {
  }

  lemma AddTo(m: real, m': real, p: real, k: real)
    requires m' == m + p
    ensures m' * k == m * k + p * k
  {
  }

  /** Half the slope of the error at `(a, b)` in the direction `(da, db)`. */
  function Lean(s: seq<Fire>, a: real, b: real, da: real, db: real): real {
    Mul(GradA(s, a, b), da) + Mul(GradB(s, a, b), db)
  }

  lemma GradTerm(s: seq<Fire>, a: real, b: real, da: real, db: real)
    requires s != []
    ensures Lean(s, a, b, da, db)
         == Lean(s[1..], a, b, da, db) - Mul(Residual(s[0], a, b), Shift(s[0], da, db))
  {
    var f, r := s[0], s[1..];
    AddTo(SumW2(r), SumW2(s), f.wind * f.wind, a);
    AddTo(SumWT(r), SumWT(s), f.wind * f.temp, b);
    AddTo(SumWT(r), SumWT(s), f.wind * f.temp, a);
    AddTo(SumT2(r), SumT2(s), f.temp * f.temp, b);
    GradShare(f, a, b, da, db, SumW2(r), SumWT(r), SumT2(r), SumWY(r), SumTY(r), GradA(s, a, b), GradB(s, a, b));
  }

  /** The error is exactly quadratic: value, twice the slope, and the spread. */
  lemma {:induction false} ErrorExpands(s: seq<Fire>, a: real, b: real, da: real, db: real)
    ensures FireError(s, a + da, b + db) == FireError(s, a, b) + 2.0 * Lean(s, a, b, da, db) + Spread(s, da, db)
    decreases |s|
  {
    if s == [] {
      assert GradA(s, a, b) == 0.0 && GradB(s, a, b) == 0.0;
    } else {
      ErrorExpands(s[1..], a, b, da, db);
      ErrorTerm(s[0], a, b, da, db);
      GradTerm(s, a, b, da, db);
    }
  }

  /** When there is a fit: at least two samples, and a determinant that does not vanish. */
  lemma FireFitExists(s: seq<Fire>)
    ensures SolveFire(s).Some? <==> |s| >= 2 && Det(s) >= 0.000001
  {
    DetNonNegative(s);
  }

  /** The solver solves the normal equations. */
  lemma SolveFireSolves(s: seq<Fire>)
    requires SolveFire(s).Some?
    ensures var (a, b) := SolveFire(s).value; GradA(s, a, b) == 0.0 && GradB(s, a, b) == 0.0
  {
    var (a, b) := SolveFire(s).value;
    Cramer(SumW2(s), SumT2(s), SumWT(s), SumWY(s), SumTY(s), Det(s), a, b);
  }

  lemma Cramer(w2: real, t2: real, wt: real, wy: real, ty: real, det: real, a: real, b: real)
    requires det == w2 * t2 - wt * wt && det != 0.0
    requires a == Quot(Cross(t2, wy, wt, ty), det) && b == Quot(Cross(w2, ty, wt, wy), det)
    ensures w2 * a + wt * b - wy == 0.0 && wt * a + t2 * b - ty == 0.0
  {
    var na, nb := t2 * wy - wt * ty, w2 * ty - wt * wy;
    assert a * det == na && b * det == nb;
    assert w2 * na + wt * nb == wy * det by {
      assert w2 * na == w2 * t2 * wy - w2 * wt * ty;
      assert wt * nb == wt * w2 * ty - wt * wt * wy;
    }
    assert wt * na + t2 * nb == ty * det by {
      assert wt * na == wt * t2 * wy - wt * wt * ty;
      assert t2 * nb == t2 * w2 * ty - t2 * wt * wy;
    }
    Cancel(w2, wt, a, b, wy, det, na, nb);
    Cancel(wt, t2, a, b, ty, det, na, nb);
  }

  lemma Cancel(p: real, q: real, a: real, b: real, y: real, det: real, na: real, nb: real)
    requires det != 0.0 && a * det == na && b * det == nb && p * na + q * nb == y * det
    ensures p * a + q * b == y
  {
    assert (p * a + q * b) * det == p * (a * det) + q * (b * det);
    var z := p * a + q * b;
    assert z * det == y * det;
    assert (z - y) * det == 0.0;
  }

  /** The determinant is never negative. */
  lemma DetNonNegative(s: seq<Fire>)
    ensures Det(s) >= 0.0
  {
    // w2 * spread(-wt, w2) == w2 * det
    var w2, t2, wt := SumW2(s), SumT2(s), SumWT(s);
    SpreadExpands(s, -wt, w2);
    SpreadExpands(s, 1.0, 0.0);
    assert w2 >= 0.0;
    assert Spread(s, -wt, w2) == w2 * (w2 * t2 - wt * wt) by { CauchyForm(w2, t2, wt); }
    if w2 == 0.0 {
      ZeroWind(s);
    } else {
      ProductSign(w2, w2 * t2 - wt * wt);
    }
  }

  lemma CauchyForm(w2: real, t2: real, wt: real)
    ensures w2 * (-wt * -wt) + 2.0 * wt * (-wt * w2) + t2 * (w2 * w2) == w2 * (w2 * t2 - wt * wt)
  {
  }

  lemma {:induction false} ZeroWind(s: seq<Fire>)
    requires SumW2(s) == 0.0
    ensures SumWT(s) == 0.0
    decreases |s|
  {
    if s != [] {
      SpreadExpands(s[1..], 1.0, 0.0);
      assert SumW2(s[1..]) >= 0.0;
      SquareNonNegative(s[0].wind);
      ZeroProduct(s[0].wind, s[0].wind);
      ZeroWind(s[1..]);
    }
  }

  lemma {:induction false} PositiveDefinite(s: seq<Fire>)
    requires SolveFire(s).Some?
    ensures Det(s) > 0.0 && SumW2(s) > 0.0 && SumT2(s) > 0.0
  {
    DetNonNegative(s);
    SpreadExpands(s, 1.0, 0.0);
    SpreadExpands(s, 0.0, 1.0);
    SquareNonNegative(SumWT(s));
    assert SumW2(s) * SumT2(s) > 0.0;
  }

  /**
   Whenever the fit goes through, the unclamped coefficients have the least sum of squared errors
   among all coefficient pairs, and they are the only pair that attains it.
   */
  lemma {:induction false} SolveFireIsLeastSquares(s: seq<Fire>, a': real, b': real)
    requires SolveFire(s).Some?
    ensures var (a, b) := SolveFire(s).value;
      && FireError(s, a, b) <= FireError(s, a', b')
      && (FireError(s, a, b) == FireError(s, a', b') ==> (a', b') == (a, b))
  {
    var (a, b) := SolveFire(s).value;
    SolveFireSolves(s);
    ErrorExpands(s, a, b, a' - a, b' - b);
    if Spread(s, a' - a, b' - b) == 0.0 {
      SpreadExpands(s, a' - a, b' - b);
      PositiveDefinite(s);
      ZeroSpread(SumW2(s), SumT2(s), SumWT(s), Det(s), a' - a, b' - b);
    }
  }

  /** A positive definite form vanishes only at zero. */
  lemma ZeroSpread(w2: real, t2: real, wt: real, det: real, da: real, db: real)
    requires w2 > 0.0 && det == w2 * t2 - wt * wt && det > 0.0
    requires w2 * (da * da) + 2.0 * wt * (da * db) + t2 * (db * db) == 0.0
    ensures da == 0.0 && db == 0.0
  {
    var u := w2 * da + wt * db;
    CompleteSquare(w2, t2, wt, da, db);
    SquaresVanish(u, det, db, u * u + det * (db * db));
    ZeroProduct(w2, da);
  }

  lemma SquaresVanish(u: real, k: real, v: real, sum: real)
    requires k > 0.0 && sum == u * u + k * (v * v) && sum == 0.0
    ensures u == 0.0 && v == 0.0
  {
    ProductSign(u, u);
    ProductSign(v, v);
    ProductSign(k, v * v);
    ZeroProduct(k, v * v);
    ZeroProduct(v, v);
    ZeroProduct(u, u);
  }

  lemma CompleteSquare(w2: real, t2: real, wt: real, da: real, db: real)
    ensures (w2 * da + wt * db) * (w2 * da + wt * db) + (w2 * t2 - wt * wt) * (db * db)
         == w2 * (w2 * (da * da) + 2.0 * wt * (da * db) + t2 * (db * db))
  {
  }

  // ---------------------------------------------------------------- wildfire: the clamp

  /** Least error among the coefficient pairs within the sanity limits. */
  ghost predicate BestWithinLimits(s: seq<Fire>, a: real, b: real) {
    forall a', b' :: InLimits(a', b') ==> FireError(s, a, b) <= FireError(s, a', b')
  }

  /** Moving one coefficient back into the limits would not lower the error. */
  predicate Settled(lo: real, hi: real, v: real, gradient: real) {
    (v > lo ==> gradient <= 0.0) && (v < hi ==> gradient >= 0.0)
  }

  lemma SettledPushesUp(lo: real, hi: real, v: real, g: real, v': real)
    requires Settled(lo, hi, v, g) && lo <= v <= hi && lo <= v' <= hi
    ensures Mul(g, v' - v) >= 0.0
  {
    ProductSign(g, v' - v);
  }

  /** When a coefficient is not settled, a small admissible step lowers the error strictly. */
  lemma DescentStep(lo: real, hi: real, v: real, g: real, k: real) returns (d: real)
    requires lo <= v <= hi && k > 0.0 && !Settled(lo, hi, v, g)
    ensures lo <= v + d <= hi && 2.0 * Mul(g, d) + Mul(k, Sq(d)) < 0.0
  {
    if g > 0.0 {
      d := -MinReal(v - lo, g / k);
    } else {
      d := MinReal(hi - v, -g / k);
    }
    assert (g / k) * k == g;
    StepLowers(g, k, d);
  }

  lemma StepLowers(g: real, k: real, d: real)
    requires k > 0.0 && g != 0.0
    requires if g > 0.0 then -(g / k) <= d < 0.0 else 0.0 < d <= -g / k
    ensures 2.0 * Mul(g, d) + Mul(k, Sq(d)) < 0.0
  {
    var z := g / k;
    assert z * k == g;
    assert 2.0 * (g * d) + k * (d * d) == k * (d * (2.0 * z + d)) by {
      assert g * d == z * k * d;
    }
    ProductSign(z, k);
    assert -g / k == -z by { assert (-z) * k == -g; }
    ProductSign(d, 2.0 * z + d);
    ProductSign(k, d * (2.0 * z + d));
  }

  /**
   The exact condition for the separately clamped coefficients to be best within the limits: at the
   clamped pair, each normal-equation residual points out of the limits or vanishes. Without an acting
   clamp both residuals vanish (`SolveFireSolves`).
   */
  lemma ClampedFitIsBestExactlyWhen(s: seq<Fire>)
    requires SolveFire(s).Some?
    ensures var (a, b) := ClampFire(SolveFire(s).value);
      BestWithinLimits(s, a, b) <==>
        Settled(MIN_WIND, MAX_WIND, a, GradA(s, a, b)) && Settled(MIN_TEMP, MAX_TEMP, b, GradB(s, a, b))
  {
    var (a, b) := ClampFire(SolveFire(s).value);
    PositiveDefinite(s);
    if Settled(MIN_WIND, MAX_WIND, a, GradA(s, a, b)) && Settled(MIN_TEMP, MAX_TEMP, b, GradB(s, a, b)) {
      forall a', b' | InLimits(a', b') ensures FireError(s, a, b) <= FireError(s, a', b') {
        SettledIsBest(s, a, b, a', b');
      }
    } else {
      UnsettledIsBeaten(s, a, b);
    }
  }

  lemma {:induction false} SettledIsBest(s: seq<Fire>, a: real, b: real, a': real, b': real)
    requires InLimits(a, b) && InLimits(a', b')
    requires Settled(MIN_WIND, MAX_WIND, a, GradA(s, a, b)) && Settled(MIN_TEMP, MAX_TEMP, b, GradB(s, a, b))
    ensures FireError(s, a, b) <= FireError(s, a', b')
  {
    ErrorExpands(s, a, b, a' - a, b' - b);
    LeanIsUphill(s, a, b, a', b', GradA(s, a, b), GradB(s, a, b));
  }

  lemma LeanIsUphill(s: seq<Fire>, a: real, b: real, a': real, b': real, ga: real, gb: real)
    requires InLimits(a, b) && InLimits(a', b') && ga == GradA(s, a, b) && gb == GradB(s, a, b)
    requires Settled(MIN_WIND, MAX_WIND, a, ga) && Settled(MIN_TEMP, MAX_TEMP, b, gb)
    ensures Lean(s, a, b, a' - a, b' - b) >= 0.0
  {
    SettledPushesUp(MIN_WIND, MAX_WIND, a, ga, a');
    SettledPushesUp(MIN_TEMP, MAX_TEMP, b, gb, b');
  }

  lemma {:induction false} UnsettledIsBeaten(s: seq<Fire>, a: real, b: real)
    requires InLimits(a, b) && SumW2(s) > 0.0 && SumT2(s) > 0.0
    requires !Settled(MIN_WIND, MAX_WIND, a, GradA(s, a, b)) || !Settled(MIN_TEMP, MAX_TEMP, b, GradB(s, a, b))
    ensures exists a', b' :: InLimits(a', b') && FireError(s, a', b') < FireError(s, a, b)
  {
    if !Settled(MIN_WIND, MAX_WIND, a, GradA(s, a, b)) {
      var d := DescentStep(MIN_WIND, MAX_WIND, a, GradA(s, a, b), SumW2(s));
      ErrorAlongWind(s, a, b, d);
      assert InLimits(a + d, b) && FireError(s, a + d, b) < FireError(s, a, b);
    } else {
      var d := DescentStep(MIN_TEMP, MAX_TEMP, b, GradB(s, a, b), SumT2(s));
      ErrorAlongTemp(s, a, b, d);
      assert InLimits(a, b + d) && FireError(s, a, b + d) < FireError(s, a, b);
    }
  }

  lemma ErrorAlongWind(s: seq<Fire>, a: real, b: real, d: real)
    ensures FireError(s, a + d, b) == FireError(s, a, b) + 2.0 * Mul(GradA(s, a, b), d) + Mul(SumW2(s), Sq(d))
  {
    ErrorExpands(s, a, b, d, 0.0);
    SpreadExpands(s, d, 0.0);
    OneSided(SumW2(s), SumWT(s), SumT2(s), d, GradA(s, a, b), GradB(s, a, b));
  }

  lemma ErrorAlongTemp(s: seq<Fire>, a: real, b: real, d: real)
    ensures FireError(s, a, b + d) == FireError(s, a, b) + 2.0 * Mul(GradB(s, a, b), d) + Mul(SumT2(s), Sq(d))
  {
    ErrorExpands(s, a, b, 0.0, d);
    SpreadExpands(s, 0.0, d);
    OneSided(SumT2(s), SumWT(s), SumW2(s), d, GradB(s, a, b), GradA(s, a, b));
  }

  /** The quadratic form and the slope when only one coefficient moves. */
  lemma OneSided(p: real, m: real, q: real, d: real, g: real, h: real)
    ensures p * (d * d) + 2.0 * m * (d * 0.0) + q * (0.0 * 0.0) == Mul(p, Sq(d))
    ensures q * (0.0 * 0.0) + 2.0 * m * (0.0 * d) + p * (d * d) == Mul(p, Sq(d))
    ensures Mul(g, d) + Mul(h, 0.0) == Mul(g, d) && Mul(h, 0.0) + Mul(g, d) == Mul(g, d)
  {
  }

  // --- the same condition read off the data and the clamps that act

  /** How far the clamp moves a coefficient: positive when it lifts it, negative when it cuts it, zero when it does not act. */
  function Cut(lo: real, hi: real, x: real): real
    requires lo <= hi
  {
    Clamp(lo, hi, x) - x
  }

  function WindCut(s: seq<Fire>): real
    requires SolveFire(s).Some?
  {
    Cut(MIN_WIND, MAX_WIND, SolveFire(s).value.0)
  }

  function TempCut(s: seq<Fire>): real
    requires SolveFire(s).Some?
  {
    Cut(MIN_TEMP, MAX_TEMP, SolveFire(s).value.1)
  }

  ghost predicate ClampedFitIsBest(s: seq<Fire>)
    requires SolveFire(s).Some?
  {
    var (a, b) := ClampFire(SolveFire(s).value); BestWithinLimits(s, a, b)
  }

  /** The slopes at the clamped pair, in terms of the two cuts. */
  function WindSlope(s: seq<Fire>): real
    requires SolveFire(s).Some?
  {
    Mul(SumW2(s), WindCut(s)) + Mul(SumWT(s), TempCut(s))
  }

  function TempSlope(s: seq<Fire>): real
    requires SolveFire(s).Some?
  {
    Mul(SumWT(s), WindCut(s)) + Mul(SumT2(s), TempCut(s))
  }

  lemma Moved(p: real, q: real, y: real, a: real, b: real, a': real, b': real)
    requires p * a + q * b - y == 0.0
    ensures p * a' + q * b' - y == Mul(p, a' - a) + Mul(q, b' - b)
  {
    assert p * a' == p * a + p * (a' - a);
    assert q * b' == q * b + q * (b' - b);
  }

  lemma {:induction false} SlopesFrom(s: seq<Fire>, a0: real, b0: real, a: real, b: real)
    requires GradA(s, a0, b0) == 0.0 && GradB(s, a0, b0) == 0.0
    ensures GradA(s, a, b) == Mul(SumW2(s), a - a0) + Mul(SumWT(s), b - b0)
    ensures GradB(s, a, b) == Mul(SumWT(s), a - a0) + Mul(SumT2(s), b - b0)
  {
    Moved(SumW2(s), SumWT(s), SumWY(s), a0, b0, a, b);
    Moved(SumWT(s), SumT2(s), SumTY(s), a0, b0, a, b);
  }

  lemma SlopesAtClamp(s: seq<Fire>)
    requires SolveFire(s).Some?
    ensures var (a, b) := ClampFire(SolveFire(s).value);
      GradA(s, a, b) == WindSlope(s) && GradB(s, a, b) == TempSlope(s)
  {
    SolveFireSolves(s);
    var ab0 := SolveFire(s).value;
    var ab := ClampFire(ab0);
    SlopesFrom(s, ab0.0, ab0.1, ab.0, ab.1);
  }

  /** A coefficient on its limit is settled when the slope does not point back inside. */
  predicate SettledByCut(lo: real, hi: real, x: real, slope: real)
    requires lo < hi
  {
    if x < lo || x == lo then slope >= 0.0
    else if x > hi || x == hi then slope <= 0.0
    else slope == 0.0
  }

  lemma BestBySlopes(s: seq<Fire>)
    requires SolveFire(s).Some?
    ensures ClampedFitIsBest(s) <==>
      && SettledByCut(MIN_WIND, MAX_WIND, SolveFire(s).value.0, WindSlope(s))
      && SettledByCut(MIN_TEMP, MAX_TEMP, SolveFire(s).value.1, TempSlope(s))
  {
    SlopesAtClamp(s);
    ClampedFitIsBestExactlyWhen(s);
  }

  lemma ZeroCut(p: real, q: real, d: real)
    ensures Mul(p, 0.0) + Mul(q, d) == Mul(q, d) && Mul(p, d) + Mul(q, 0.0) == Mul(p, d)
  {
  }

  /** No clamp acts: the fit is the best pair within the limits. */
  lemma NoClampActs(s: seq<Fire>)
    requires SolveFire(s).Some? && WindCut(s) == 0.0 && TempCut(s) == 0.0
    ensures ClampedFitIsBest(s)
  {
    ZeroCut(SumW2(s), SumWT(s), 0.0);
    ZeroCut(SumWT(s), SumT2(s), 0.0);
    BestBySlopes(s);
  }

  /**
   Only the wind clamp acts. With the temperature coefficient strictly inside its limits the pair is best
   exactly when wind and temperature are uncorrelated in the data; on a limit, exactly when their correlation
   has the right sign.
   */
  lemma {:induction false} OnlyWindClampActs(s: seq<Fire>)
    requires SolveFire(s).Some? && WindCut(s) != 0.0 && TempCut(s) == 0.0
    ensures var b := SolveFire(s).value.1; var correlation := Mul(SumWT(s), WindCut(s));
      && (MIN_TEMP < b < MAX_TEMP ==> (ClampedFitIsBest(s) <==> SumWT(s) == 0.0))
      && (b == MIN_TEMP ==> (ClampedFitIsBest(s) <==> correlation >= 0.0))
      && (b == MAX_TEMP ==> (ClampedFitIsBest(s) <==> correlation <= 0.0))
  {
    var d := WindCut(s);
    PositiveDefinite(s);
    ZeroCut(SumW2(s), SumWT(s), d);
    ZeroCut(SumWT(s), SumT2(s), d);
    OwnClampSettles(MIN_WIND, MAX_WIND, SolveFire(s).value.0, SumW2(s));
    OtherSettlesExactlyWhen(MIN_TEMP, MAX_TEMP, SolveFire(s).value.1, SumWT(s), d);
    BestBySlopes(s);
  }

  /** An acting clamp settles its own coefficient when nothing else moves. */
  lemma OwnClampSettles(lo: real, hi: real, x: real, k: real)
    requires lo < hi && k > 0.0 && Cut(lo, hi, x) != 0.0
    ensures SettledByCut(lo, hi, x, Mul(k, Cut(lo, hi, x)))
  {
    ProductSign(k, Cut(lo, hi, x));
  }

  /** Whether it settles the other one, which it does not move. */
  lemma OtherSettlesExactlyWhen(lo: real, hi: real, y: real, m: real, d: real)
    requires lo < hi && Cut(lo, hi, y) == 0.0 && d != 0.0
    ensures lo < y < hi ==> (SettledByCut(lo, hi, y, Mul(m, d)) <==> m == 0.0)
    ensures y == lo ==> (SettledByCut(lo, hi, y, Mul(m, d)) <==> Mul(m, d) >= 0.0)
    ensures y == hi ==> (SettledByCut(lo, hi, y, Mul(m, d)) <==> Mul(m, d) <= 0.0)
  {
    ProductSign(m, d);
    assert Mul(0.0, d) == 0.0;
  }

  /** Only the temperature clamp acts, likewise. */
  lemma {:induction false} OnlyTempClampActs(s: seq<Fire>)
    requires SolveFire(s).Some? && WindCut(s) == 0.0 && TempCut(s) != 0.0
    ensures var a := SolveFire(s).value.0; var correlation := Mul(SumWT(s), TempCut(s));
      && (MIN_WIND < a < MAX_WIND ==> (ClampedFitIsBest(s) <==> SumWT(s) == 0.0))
      && (a == MIN_WIND ==> (ClampedFitIsBest(s) <==> correlation >= 0.0))
      && (a == MAX_WIND ==> (ClampedFitIsBest(s) <==> correlation <= 0.0))
  {
    var d := TempCut(s);
    PositiveDefinite(s);
    ZeroCut(SumW2(s), SumWT(s), d);
    ZeroCut(SumWT(s), SumT2(s), d);
    OwnClampSettles(MIN_TEMP, MAX_TEMP, SolveFire(s).value.1, SumT2(s));
    OtherSettlesExactlyWhen(MIN_WIND, MAX_WIND, SolveFire(s).value.0, SumWT(s), d);
    BestBySlopes(s);
  }

  /**
   Both clamps act: the pair is best exactly when each slope has the sign of its own cut, which is so at
   least when the correlation of the data agrees with the signs of the two cuts.
   */
  lemma {:induction false} BothClampsAct(s: seq<Fire>)
    requires SolveFire(s).Some? && WindCut(s) != 0.0 && TempCut(s) != 0.0
    ensures ClampedFitIsBest(s) <==> Mul(WindCut(s), WindSlope(s)) >= 0.0 && Mul(TempCut(s), TempSlope(s)) >= 0.0
    ensures Mul(SumWT(s), Mul(WindCut(s), TempCut(s))) >= 0.0 ==> ClampedFitIsBest(s)
  {
    var da, db := WindCut(s), TempCut(s);
    BestBySlopes(s);
    ProductSign(da, WindSlope(s));
    ProductSign(db, TempSlope(s));
    PositiveDefinite(s);
    OwnCut(SumW2(s), SumWT(s), da, db);
    OwnCut(SumT2(s), SumWT(s), db, da);
    assert Mul(da, db) == Mul(db, da);
  }

  lemma OwnCut(p: real, m: real, d: real, e: real)
    requires p > 0.0
    ensures Mul(d, Mul(p, d) + Mul(m, e)) >= Mul(m, Mul(d, e))
  {
    assert d * (p * d + m * e) == p * (d * d) + m * (d * e);
    ProductSign(d, d);
    ProductSign(p, d * d);
  }

  /** The condition can fail: here the fit is (3, 0), clamped to (2, 0.01), and (2, 0.5) is better. */
  lemma ClampedFitCanBeBeaten()
    ensures var s := [Fire(1.0, 1.0, 3.0), Fire(0.0, 1.0, 0.0)];
      && SolveFire(s) == Some((3.0, 0.0)) && ClampFire((3.0, 0.0)) == (2.0, 0.01)
      && InLimits(2.0, 0.5) && FireError(s, 2.0, 0.5) < FireError(s, 2.0, 0.01)
  {
    var s := [Fire(1.0, 1.0, 3.0), Fire(0.0, 1.0, 0.0)];
    assert s[1..] == [Fire(0.0, 1.0, 0.0)] && s[1..][1..] == [];
    assert SumW2(s) == 1.0 && SumT2(s) == 2.0 && SumWT(s) == 1.0 && SumWY(s) == 3.0 && SumTY(s) == 3.0;
    assert Det(s) == 1.0;
    assert FireError(s, 2.0, 0.5) == 0.5;
    assert FireError(s, 2.0, 0.01) == 0.9802;
  }

  // ---------------------------------------------------------------- flood and plume: one coefficient

  datatype Point = Point(x: real, observed: real)

  function SumX2(s: seq<Point>): real { if s == [] then 0.0 else SumX2(s[1..]) + s[0].x * s[0].x }
  function SumXY(s: seq<Point>): real { if s == [] then 0.0 else SumXY(s[1..]) + s[0].x * s[0].observed }

  function SlopeError(s: seq<Point>, c: real): real {
    if s == [] then 0.0 else
      SlopeError(s[1..], c) + Sq(s[0].observed - s[0].x * c)
  }

  const MIN_SLOPE := 0.1
  const MAX_SLOPE := 10.0

  /** The clamped coefficient; `None` stands for the branches that return the defaults. */
  function FitSlope(s: seq<Point>): (c: Option<real>)
    ensures c.Some? ==> MIN_SLOPE <= c.value <= MAX_SLOPE
  {
    if s == [] || SumX2(s) < SINGULAR then None else Some(Clamp(MIN_SLOPE, MAX_SLOPE, Quot(SumXY(s), SumX2(s))))
  }

  /** When there is a fit: some samples, and inputs that are not all but zero. */
  lemma SlopeFitExists(s: seq<Point>)
    ensures FitSlope(s).Some? <==> s != [] && SumX2(s) >= 0.000001
  {
  }

  function SlopeGrad(s: seq<Point>, c: real): real { SumX2(s) * c - SumXY(s) }

  lemma {:induction false} SlopeErrorExpands(s: seq<Point>, c: real, d: real)
    ensures SlopeError(s, c + d) == SlopeError(s, c) + 2.0 * Mul(SlopeGrad(s, c), d) + Mul(SumX2(s), Sq(d))
    decreases |s|
  {
    if s == [] {
      assert SlopeGrad(s, c) == 0.0;
    } else {
      var x, y, r := s[0].x, s[0].observed, s[1..];
      SlopeErrorExpands(r, c, d);
      SlopeTerm(x, y, c, d);
      SlopeGradNext(s, c);
      AddToMul(SumX2(r), SumX2(s), x * x, Sq(d));
      AddToMul(SlopeGrad(r, c), SlopeGrad(s, c), x * x * c - x * y, d);
    }
  }

  lemma SlopeGradNext(s: seq<Point>, c: real)
    requires s != []
    ensures SlopeGrad(s, c) == SlopeGrad(s[1..], c) + (s[0].x * s[0].x * c - s[0].x * s[0].observed)
  {
    AddTo(SumX2(s[1..]), SumX2(s), s[0].x * s[0].x, c);
  }

  lemma AddToMul(m: real, m': real, p: real, k: real)
    requires m' == m + p
    ensures Mul(m', k) == Mul(m, k) + Mul(p, k)
  {
  }

  lemma SlopeTerm(x: real, y: real, c: real, d: real)
    ensures Sq(y - x * (c + d)) == Sq(y - x * c) + 2.0 * Mul(x * x * c - x * y, d) + Mul(x * x, Sq(d))
  {
    assert y - x * (c + d) == (y - x * c) - x * d;
    Square(y - x * c, x * d);
    assert (y - x * c) * (x * d) == -((x * x * c - x * y) * d);
  }

  /** Even clamped, the coefficient has the least sum of squared errors over the whole permitted range. */
  lemma {:induction false} FitSlopeIsLeastSquares(s: seq<Point>, c': real)
    requires FitSlope(s).Some? && MIN_SLOPE <= c' <= MAX_SLOPE
    ensures SlopeError(s, FitSlope(s).value) <= SlopeError(s, c')
  {
    var c := FitSlope(s).value;
    SlopeErrorExpands(s, c, c' - c);
    ClampedSlopeDescends(SumX2(s), SumXY(s), c, c');
    ProductSign(c' - c, c' - c);
    ProductSign(SumX2(s), Sq(c' - c));
    assert SlopeGrad(s, c) == SumX2(s) * c - SumXY(s);
  }

  lemma ClampedSlopeDescends(x2: real, xy: real, c: real, c': real)
    requires x2 > 0.0 && c == Clamp(MIN_SLOPE, MAX_SLOPE, Quot(xy, x2)) && MIN_SLOPE <= c' <= MAX_SLOPE
    ensures Mul(x2 * c - xy, c' - c) >= 0.0
  {
    var raw := xy / x2;
    assert raw * x2 == xy;
    assert x2 * c - xy == x2 * (c - raw);
    ProductSign(x2, c - raw);
    ProductSign(x2 * c - xy, c' - c);
  }
}
