/**
 The statistics behind longitudinal patterns (workers/jobs/pattern_mining_job.py): the Wilson score lower
 bound and the decision on one candidate. A square root is passed in as a number whose square is the radicand.
 */
module WilsonBound {
  import opened Basics

  ghost predicate IsRoot(root: real, x: real) { root >= 0.0 && Sq(root) == x }

  /** The observed proportion; co-occurrence pairs can outnumber the source events. */
  function Proportion(successes: int, trials: int): (p: real)
    requires trials > 0
    ensures 0.0 <= p <= 1.0
  {
    MinReal(1.0, MaxReal(0.0, successes as real / trials as real))
  }

  function Radicand(p: real, z: real, n: real): real
    requires n > 0.0
  {
    p * (1.0 - p) / n + z * z / (4.0 * (n * n))
  }

  /** The bound before the final clamp. */
  function RawBound(p: real, z: real, n: real, root: real): real
    requires n > 0.0
  {
    (p + z * z / (2.0 * n) - z * root) / (1.0 + z * z / n)
  }

  /** `calculate_wilson_lower_bound`. */
  function LowerBound(successes: int, trials: int, z: real, root: real): real {
    if trials <= 0 || successes <= 0 then 0.0 else
      Clamp(0.0, 1.0, RawBound(Proportion(successes, trials), z, trials as real, root))
  }

  /** The score equation whose roots bound the Wilson interval, with `u` for z squared over n. */
  ghost predicate ScoreEquation(p: real, u: real, x: real) { Score(p, u, x) == 0.0 }

  function Score(p: real, u: real, x: real): real { Sq(p - x) - u * (x * (1.0 - x)) }

  /** Distance of `(1 + u) * x` from the centre of the interval. */
  function Offset(p: real, u: real, x: real): real { (1.0 + u) * x - (p + u / 2.0) }

  /** `RawBound` in terms of `u` and of `q`, z times the root. */
  ghost predicate Bound(p: real, u: real, q: real, x: real) {
    && 0.0 <= p <= 1.0 && u >= 0.0 && q >= 0.0
    && Sq(q) == u * (p * (1.0 - p)) + u * u / 4.0
    && x * (1.0 + u) == p + u / 2.0 - q
  }

  lemma RawBoundIsBound(p: real, z: real, n: real, root: real)
    requires 0.0 <= p <= 1.0 && z >= 0.0 && n > 0.0 && IsRoot(root, Radicand(p, z, n))
    ensures z * z / n >= 0.0 && Bound(p, z * z / n, z * root, RawBound(p, z, n, root))
  {
    var u, q := z * z / n, z * root;
    ProductSign(z, z);
    ProductSign(z, root);
    assert u * n == z * z;
    assert z * z / (2.0 * n) == u / 2.0 by { assert (u / 2.0) * (2.0 * n) == z * z; }
    RadicandScaled(p, z, n, u, root);
  }

  lemma RadicandScaled(p: real, z: real, n: real, u: real, root: real)
    requires n > 0.0 && u * n == z * z && Sq(root) == Radicand(p, z, n)
    ensures Sq(z * root) == u * (p * (1.0 - p)) + u * u / 4.0
  {
    var v := p * (1.0 - p);
    var first, second := v / n, z * z / (4.0 * (n * n));
    assert first * n == v;
    assert second * (4.0 * (n * n)) == z * z;
    assert Sq(z * root) == z * z * Sq(root);
    Substitute(z * z, Sq(root), first, second);
    assert z * z * first == u * v by { Regroup(u, n, first, v); }
    assert z * z * second == u * u / 4.0 by {
      assert second * (4.0 * (n * n)) == u * n;
      assert (4.0 * (second * n) - u) * n == 0.0;
      ZeroProduct(4.0 * (second * n) - u, n);
      Regroup(u, n, second, u / 4.0);
    }
  }

  lemma Substitute(k: real, sum: real, a: real, b: real)
    requires sum == a + b
    ensures k * sum == k * a + k * b
  {
  }

  lemma Regroup(u: real, n: real, a: real, b: real)
    requires a * n == b
    ensures (u * n) * a == u * b
  {
    assert (u * n) * a == u * (a * n);
  }

  /** The square of the centre exceeds the square of the spread by `p * p * (1 + u)`. */
  lemma CentreBeatsSpread(p: real, u: real, q: real, x: real)
    requires Bound(p, u, q, x)
    ensures Sq(p + u / 2.0) == Sq(q) + p * p * (1.0 + u)
  {
  }

  lemma DifferenceOfSquares(a: real, b: real)
    ensures Mul(b - a, b + a) == Sq(b) - Sq(a)
  {
  }

  lemma SquareOrder(a: real, b: real)
    requires a >= 0.0 && Sq(b) <= Sq(a)
    ensures -a <= b <= a
  {
    DifferenceOfSquares(a, b);
    DifferenceOfSquares(a, -b);
    ProductSign(b - a, b + a);
    ProductSign(-b - a, -b + a);
  }

  lemma TiltSquare(p: real, u: real)
    ensures Sq(u / 2.0 - u * p) == u * u / 4.0 - Mul(Sq(u), p * (1.0 - p))
  {
  }

  lemma TiltWithinSpread(p: real, u: real, q: real)
    requires 0.0 <= p <= 1.0 && u >= 0.0 && q >= 0.0 && Sq(q) == u * (p * (1.0 - p)) + u * u / 4.0
    ensures -q <= u / 2.0 - u * p <= q
  {
    TiltSquare(p, u);
    ProductSign(p, 1.0 - p);
    ProductSign(u, p * (1.0 - p));
    ProductSign(u, u);
    ProductSign(Sq(u), p * (1.0 - p));
    SquareOrder(q, u / 2.0 - u * p);
  }

  /** A number whose product with `1 + u` has a sign has that sign. */
  lemma ScaledSign(x: real, u: real)
    requires u >= 0.0 && Mul(x, 1.0 + u) >= 0.0
    ensures x >= 0.0
  {
    ProductSign(x, 1.0 + u);
  }

  lemma BoundNotNegative(p: real, u: real, q: real, x: real)
    requires Bound(p, u, q, x)
    ensures 0.0 <= x
  {
    CentreBeatsSpread(p, u, q, x);
    ProductSign(p, p);
    ProductSign(p * p, 1.0 + u);
    SquareOrder(p + u / 2.0, q);
    ScaledSign(x, u);
  }

  lemma BoundBelowProportion(p: real, u: real, q: real, x: real)
    requires Bound(p, u, q, x)
    ensures x <= p
  {
    TiltWithinSpread(p, u, q);
    assert Mul(p - x, 1.0 + u) == p + u * p - x * (1.0 + u);
    ScaledSign(p - x, u);
  }

  /** The bound lies between 0 and the observed proportion. */
  lemma BoundInRange(p: real, u: real, q: real, x: real)
    requires Bound(p, u, q, x)
    ensures 0.0 <= x <= p
  {
    BoundNotNegative(p, u, q, x);
    BoundBelowProportion(p, u, q, x);
  }

  /** `(1 + u)` times the score, in terms of the distance from the centre. */
  lemma ScoreForm(p: real, u: real, y: real)
    ensures Mul(1.0 + u, Score(p, u, y)) == Sq(Offset(p, u, y)) - Sq(p + u / 2.0) + p * p * (1.0 + u)
  {
    ScoreExpands(p, u, y);
    ScoreAlgebra(1.0 + u, p + u / 2.0, y, p * p, Score(p, u, y));
  }

  lemma ScoreExpands(p: real, u: real, y: real)
    ensures Score(p, u, y) == (1.0 + u) * (y * y) - 2.0 * ((p + u / 2.0) * y) + p * p
  {
  }

  lemma ScoreAlgebra(k: real, c: real, y: real, pp: real, score: real)
    requires score == k * (y * y) - 2.0 * (c * y) + pp
    ensures Mul(k, score) == Sq(k * y - c) - Sq(c) + pp * k
  {
    assert Sq(k * y - c) == k * y * (k * y) - 2.0 * (k * y * c) + c * c;
  }

  lemma ScoreByOffset(p: real, u: real, q: real, x: real, y: real)
    requires Bound(p, u, q, x)
    ensures Mul(1.0 + u, Score(p, u, y)) == Sq(Offset(p, u, y)) - Sq(q)
    ensures Offset(p, u, x) == -q
  {
    CentreBeatsSpread(p, u, q, x);
    ScoreForm(p, u, y);
  }

  /** The score is zero, or not negative, exactly when the offset is at, or beyond, the spread. */
  lemma ScoreSign(p: real, u: real, q: real, x: real, y: real)
    requires Bound(p, u, q, x)
    ensures Score(p, u, y) == 0.0 ==> Sq(Offset(p, u, y)) == Sq(q)
    ensures Score(p, u, y) >= 0.0 ==> Sq(Offset(p, u, y)) >= Sq(q)
    ensures Sq(Offset(p, u, y)) == Sq(q) ==> Score(p, u, y) == 0.0
  {
    ScoreByOffset(p, u, q, x, y);
    ScaleSign(1.0 + u, Score(p, u, y));
  }

  lemma ScaleSign(k: real, e: real)
    requires k > 0.0
    ensures e == 0.0 <==> Mul(k, e) == 0.0
    ensures e >= 0.0 ==> Mul(k, e) >= 0.0
  {
    ProductSign(k, e);
  }

  lemma OffsetOrder(p: real, u: real, x: real, y: real)
    requires u >= 0.0
    ensures x < y <==> Offset(p, u, x) < Offset(p, u, y)
  {
    ProductSign(y - x, 1.0 + u);
    assert (y - x) * (1.0 + u) == Offset(p, u, y) - Offset(p, u, x);
  }

  lemma SqNegated(q: real)
    ensures Sq(-q) == Sq(q)
  {
  }

  /** The bound solves the score equation, and no other solution is smaller. */
  lemma BoundIsSmallerRoot(p: real, u: real, q: real, x: real, y: real)
    requires Bound(p, u, q, x)
    ensures ScoreEquation(p, u, x)
    ensures ScoreEquation(p, u, y) ==> x <= y
  {
    ScoreByOffset(p, u, q, x, x);
    ScoreSign(p, u, q, x, x);
    SqNegated(q);
    ScoreSign(p, u, q, x, y);
    OffsetOrder(p, u, y, x);
    if ScoreEquation(p, u, y) { SquareOrder(q, Offset(p, u, y)); }
  }

  lemma SquareGrows(a: real, b: real)
    requires 0.0 <= a <= b
    ensures Sq(a) <= Sq(b)
  {
    DifferenceOfSquares(a, b);
    ProductSign(b - a, b + a);
  }

  lemma BeyondSpread(d: real, q: real)
    requires q >= 0.0 && Sq(d) >= Sq(q)
    ensures d <= -q || d >= q
  {
    DifferenceOfSquares(d, q);
    ProductSign(q - d, q + d);
  }

  /** `p` lies between the two roots. */
  lemma ProportionIsInside(p: real, u: real, q: real, x: real)
    requires Bound(p, u, q, x)
    ensures Offset(p, u, p) <= q
  {
    TiltWithinSpread(p, u, q);
    assert Offset(p, u, p) == u * p - u / 2.0;
  }

  /** A larger observed proportion never gives a smaller bound. */
  lemma BoundIsMonotone(p: real, p': real, u: real, q: real, q': real, x: real, x': real)
    requires Bound(p, u, q, x) && Bound(p', u, q', x') && p <= p'
    ensures x <= x'
  {
    BoundInRange(p, u, q, x);
    BoundInRange(p', u, q', x');
    ScoreGrows(p, p', u, q, x);
    ScoreSign(p', u, q', x', x);
    BeyondSpread(Offset(p', u, x), q');
    ScoreByOffset(p', u, q', x', x');
    OffsetOrder(p', u, x', x);
    // otherwise x reaches the larger root, which is at least p', and p' is at least x
    ProportionIsInside(p', u, q', x');
    OffsetOrder(p', u, x, p');
  }

  /** At the bound of `p`, the score of a larger proportion is not negative. */
  lemma ScoreGrows(p: real, p': real, u: real, q: real, x: real)
    requires Bound(p, u, q, x) && p <= p'
    ensures Score(p', u, x) >= 0.0
  {
    BoundInRange(p, u, q, x);
    BoundIsSmallerRoot(p, u, q, x, x);
    SquareGrows(p - x, p' - x);
  }

  // ---------------------------------------------------------------- the function itself

  lemma ProportionIsMonotone(s: int, s': int, n: int)
    requires n > 0 && s <= s'
    ensures Proportion(s, n) <= Proportion(s', n)
  {
    assert s as real / n as real <= s' as real / n as real;
  }

  /**
   For a positive number of successes the value before the final clamp is the smaller root of the
   score equation and lies in [0, p], so the clamp never acts.
   */
  lemma LowerBoundIsWilson(successes: int, trials: int, z: real, root: real, y: real)
    requires trials > 0 && successes > 0 && z >= 0.0
    requires IsRoot(root, Radicand(Proportion(successes, trials), z, trials as real))
    ensures var p, u := Proportion(successes, trials), z * z / trials as real;
      var x := LowerBound(successes, trials, z, root);
      && x == RawBound(p, z, trials as real, root)
      && 0.0 <= x <= p
      && ScoreEquation(p, u, x)
      && (ScoreEquation(p, u, y) ==> x <= y)
  {
    var p, n := Proportion(successes, trials), trials as real;
    var u, q, x := z * z / n, z * root, RawBound(p, z, n, root);
    RawBoundIsBound(p, z, n, root);
    BoundInRange(p, u, q, x);
    BoundIsSmallerRoot(p, u, q, x, y);
  }

  /** Without successes or trials the bound is zero. */
  lemma NoSuccessNoBound(successes: int, trials: int, z: real, root: real)
    requires successes <= 0 || trials <= 0
    ensures LowerBound(successes, trials, z, root) == 0.0
  {
  }

  /** More successes never lower the bound. */
  lemma LowerBoundIsMonotone(s: int, s': int, trials: int, z: real, root: real, root': real)
    requires trials > 0 && z >= 0.0 && s <= s'
    requires IsRoot(root, Radicand(Proportion(s, trials), z, trials as real))
    requires IsRoot(root', Radicand(Proportion(s', trials), z, trials as real))
    ensures LowerBound(s, trials, z, root) <= LowerBound(s', trials, z, root')
  {
    if s' > 0 {
      var n := trials as real;
      var p, p' := Proportion(s, trials), Proportion(s', trials);
      RawBoundIsBound(p, z, n, root);
      RawBoundIsBound(p', z, n, root');
      var x, x' := RawBound(p, z, n, root), RawBound(p', z, n, root');
      BoundInRange(p, z * z / n, z * root, x);
      BoundInRange(p', z * z / n, z * root', x');
      ProportionIsMonotone(s, s', trials);
      BoundIsMonotone(p, p', z * z / n, z * root, z * root', x, x');
    }
  }

  // ---------------------------------------------------------------- one candidate

  /** `UncertaintyEstimate`, without its source tag. */
  datatype Estimate = Estimate(point: real, lower: real, upper: real)

  ghost predicate ValidEstimate(e: Estimate) { 0.0 <= e.lower <= e.point <= e.upper <= 1.0 }

  const MARGIN := 0.08

  /** `from_point_estimate`; `None` where it raises. */
  function FromPoint(point: real): Option<Estimate> {
    if !(0.0 <= point <= 1.0) then None
    else Some(Estimate(point, MaxReal(0.0, point - MARGIN), MinReal(1.0, point + MARGIN)))
  }

  /** What the mining loop computes for one pair of types, region and window. */
  datatype Counts = Counts(support: nat, sources: nat, targets: nat, scanned: nat)

  datatype Verdict = Rejected | Accepted(confidence: real, estimate: Estimate) | Crashed

  function Judge(c: Counts, minSupport: int, minConfidence: real, z: real, root: real): Verdict {
    if c.sources == 0 || c.targets == 0 || c.support < minSupport then Rejected else
      var observed := c.support as real / c.sources as real;
      var baseline := c.targets as real / (if c.scanned < 1 then 1 else c.scanned) as real;
      if baseline <= 0.0 || observed / baseline <= 1.0 then Rejected else
        var confidence := LowerBound(c.support, c.sources, z, root);
        if confidence < minConfidence then Rejected else
          match FromPoint(confidence)
          case None => Crashed
          case Some(e) => Accepted(confidence, e)
  }

  // --- what the decision decides

  /** z squared over the number of trials. */
  function Weight(z: real, trials: nat): real
    requires trials > 0
  {
    z * z / trials as real
  }

  /** Lift above one, in whole numbers: more pairs than the targets' share of all events would give. */
  lemma LiftAboveOne(support: nat, sources: nat, targets: nat, all: nat)
    requires sources > 0 && targets > 0 && all > 0
    ensures targets as real / all as real > 0.0
    ensures support as real / sources as real / (targets as real / all as real) > 1.0 <==> support * all > sources * targets
  {
    RatioOfRatios(support as real, sources as real, targets as real, all as real);
    CastProduct(support, all);
    CastProduct(sources, targets);
  }

  lemma RatioOfRatios(s: real, n: real, t: real, a: real)
    requires n > 0.0 && t > 0.0 && a > 0.0
    ensures t / a > 0.0
    ensures s / n / (t / a) > 1.0 <==> s * a > n * t
  {
    var b := t / a;
    assert b * a == t;
    var o := s / n;
    assert o * n == s;
    AboveOne(o, b);
    ScaledOrder(o, b, n * a, s * a, n * t);
  }

  lemma AboveOne(o: real, b: real)
    requires b > 0.0
    ensures o / b > 1.0 <==> o > b
  {
    assert o / b * b == o;
    ProductSign(o / b - 1.0, b);
  }

  lemma ScaledOrder(o: real, b: real, k: real, ok: real, bk: real)
    requires k > 0.0 && ok == o * k && bk == b * k
    ensures o > b <==> ok > bk
  {
    ProductSign(o - b, k);
  }

  /** The least solution of the score equation is at least `least`: every solution is. */
  ghost predicate ScoresAtLeast(p: real, u: real, least: real) {
    forall y :: ScoreEquation(p, u, y) ==> y >= least
  }

  /**
   A candidate is accepted if and only if it has sources and targets, enough support, lift above one, and a
   score equation whose solutions are all at least the demanded confidence. It is then reported with the least
   solution, and with that number widened by 0.08 to either side within the unit interval.
   */
  lemma AcceptedExactlyWhen(c: Counts, minSupport: int, minConfidence: real, z: real, root: real)
    requires z >= 0.0
    requires c.sources > 0 ==> IsRoot(root, Radicand(Proportion(c.support, c.sources), z, c.sources as real))
    ensures var v := Judge(c, minSupport, minConfidence, z, root);
      && (v.Accepted? <==>
            && c.sources > 0 && c.targets > 0 && c.support >= minSupport
            && c.support * (if c.scanned > 1 then c.scanned else 1) > c.sources * c.targets
            && ScoresAtLeast(MinReal(1.0, c.support as real / c.sources as real), Weight(z, c.sources), minConfidence))
      && (v.Accepted? ==>
            && ScoreEquation(MinReal(1.0, c.support as real / c.sources as real), Weight(z, c.sources), v.confidence)
            && ScoresAtLeast(MinReal(1.0, c.support as real / c.sources as real), Weight(z, c.sources), v.confidence)
            && v.estimate.point == v.confidence
            && v.estimate.lower == MaxReal(0.0, v.confidence - 0.08) && v.estimate.upper == MinReal(1.0, v.confidence + 0.08))
  {
    if c.sources > 0 && c.targets > 0 {
      var all := if c.scanned > 1 then c.scanned else 1;
      LiftAboveOne(c.support, c.sources, c.targets, all);
      if c.support > 0 {
        LeastSolution(c.support, c.sources, z, root);
      }
    }
  }

  lemma LeastSolution(support: nat, sources: nat, z: real, root: real)
    requires support > 0 && sources > 0 && z >= 0.0
    requires IsRoot(root, Radicand(Proportion(support, sources), z, sources as real))
    ensures var p, u, x := MinReal(1.0, support as real / sources as real), Weight(z, sources), LowerBound(support, sources, z, root);
      && ScoreEquation(p, u, x) && ScoresAtLeast(p, u, x) && 0.0 <= x <= 1.0
      && forall least :: ScoresAtLeast(p, u, least) <==> x >= least
  {
    var p, u, x := MinReal(1.0, support as real / sources as real), Weight(z, sources), LowerBound(support, sources, z, root);
    assert p == Proportion(support, sources) by { assert support as real / sources as real >= 0.0; }
    LowerBoundIsWilson(support, sources, z, root, 0.0);
    forall y | ScoreEquation(p, u, y) ensures y >= x { LowerBoundIsWilson(support, sources, z, root, y); }
  }

  /** No candidate crashes the loop, and every accepted one carries a valid interval around its bound. */
  lemma AcceptedPatternsAreValid(c: Counts, minSupport: int, minConfidence: real, z: real, root: real)
    requires z >= 0.0
    requires c.sources > 0 ==> IsRoot(root, Radicand(Proportion(c.support, c.sources), z, c.sources as real))
    ensures var v := Judge(c, minSupport, minConfidence, z, root);
      && v != Crashed
      && (v.Accepted? ==>
            && ValidEstimate(v.estimate) && v.estimate.point == v.confidence >= minConfidence
            && v.confidence <= Proportion(c.support, c.sources) && c.support >= 1)
  {
    if c.sources > 0 && c.support > 0 {
      LowerBoundIsWilson(c.support, c.sources, z, root, 0.0);
    }
  }
}

/** Versioned pattern findings (db/repository.py, `PatternFindingRepository.save_pattern_version`). */
module PatternFindings {

  datatype Finding = Finding(hash: string, version: nat, active: bool)

  /** The highest version of a hash, 0 when there is none. */
  function Latest(rows: seq<Finding>, hash: string): (v: nat)
    ensures forall i :: 0 <= i < |rows| && rows[i].hash == hash ==> rows[i].version <= v
    ensures v == 0 || exists i :: 0 <= i < |rows| && rows[i].hash == hash && rows[i].version == v
  {
    if rows == [] then 0 else
      var before, last := Latest(rows[..|rows| - 1], hash), rows[|rows| - 1];
      if last.hash == hash && last.version > before then last.version else before
  }

  function Retire(rows: seq<Finding>, hash: string): (r: seq<Finding>)
    ensures |r| == |rows|
    ensures forall i :: 0 <= i < |rows| ==>
      r[i] == if rows[i].hash == hash then rows[i].(active := false) else rows[i]
  {
    if rows == [] then [] else
      var last := rows[|rows| - 1];
      Retire(rows[..|rows| - 1], hash) + [if last.hash == hash then last.(active := false) else last]
  }

  function Save(rows: seq<Finding>, hash: string): seq<Finding> {
    Retire(rows, hash) + [Finding(hash, Latest(rows, hash) + 1, true)]
  }

  class Repository {
    var rows: seq<Finding>

    constructor ()
      ensures rows == []
    {
      rows := [];
    }

    method SavePatternVersion(hash: string) returns (saved: Finding)
      modifies this
      ensures rows == Save(old(rows), hash) && saved == rows[|rows| - 1]
    {
      ghost var before := rows;
      var nextVersion := Latest(rows, hash) + 1;
      for i := 0 to |rows|
        invariant |rows| == |before|
        invariant forall j :: 0 <= j < i ==>
          rows[j] == if before[j].hash == hash then before[j].(active := false) else before[j]
        invariant forall j :: i <= j < |rows| ==> rows[j] == before[j]
      {
        if rows[i].hash == hash && rows[i].active {
          rows := rows[i := rows[i].(active := false)];
        }
      }
      assert rows == Retire(before, hash);
      saved := Finding(hash, nextVersion, true);
      rows := rows + [saved];
    }
  }

  function Replay(saves: seq<string>): seq<Finding> {
    if saves == [] then [] else Save(Replay(saves[..|saves| - 1]), saves[|saves| - 1])
  }

  function Occurrences(saves: seq<string>, hash: string): nat { multiset(saves)[hash] }

  /** Row `i` is version number "how often its hash was saved so far", and active exactly if it is the last. */
  ghost predicate RowFits(saves: seq<string>, rows: seq<Finding>, i: nat)
    requires i < |saves| == |rows|
  {
    && rows[i].hash == saves[i]
    && rows[i].version == Occurrences(saves[..i + 1], saves[i])
    && (rows[i].active <==> saves[i] !in saves[i + 1..])
  }

  lemma OccurrencesAppend(saves: seq<string>, hash: string, h: string)
    ensures Occurrences(saves + [hash], h) == Occurrences(saves, h) + if h == hash then 1 else 0
  {
  }

  lemma OccurrencesGrow(saves: seq<string>, i: nat, h: string)
    requires i <= |saves|
    ensures Occurrences(saves[..i], h) <= Occurrences(saves, h)
  {
    assert saves == saves[..i] + saves[i..];
  }

  /** The latest version equals the number of saves. */
  lemma {:induction false} LatestCounts(saves: seq<string>, rows: seq<Finding>, h: string)
    requires |saves| == |rows| && forall i :: 0 <= i < |saves| ==> RowFits(saves, rows, i)
    ensures Latest(rows, h) == Occurrences(saves, h)
    decreases |saves|
  {
    if h in saves {
      var i := LastIndex(saves, h);
      assert RowFits(saves, rows, i);
      assert saves == saves[..i + 1] + saves[i + 1..];
      assert rows[i].version == Occurrences(saves, h);
      if Latest(rows, h) != 0 {
        var j :| 0 <= j < |rows| && rows[j].hash == h && rows[j].version == Latest(rows, h);
        assert RowFits(saves, rows, j);
        OccurrencesGrow(saves, j + 1, h);
      }
    } else {
      forall j | 0 <= j < |rows| ensures rows[j].hash != h { assert RowFits(saves, rows, j); }
    }
  }

  lemma {:induction false} LastIndex(saves: seq<string>, h: string) returns (i: nat)
    requires h in saves
    ensures i < |saves| && saves[i] == h && h !in saves[i + 1..]
    decreases |saves|
  {
    i := |saves| - 1;
    if saves[i] != h {
      i := LastIndex(saves[..|saves| - 1], h);
      assert saves[i + 1..] == saves[..|saves| - 1][i + 1..] + [saves[|saves| - 1]];
    }
  }

  /** One save keeps every row fitting. */
  lemma SaveFits(saves: seq<string>, rows: seq<Finding>, hash: string, i: nat)
    requires |saves| == |rows| && forall k :: 0 <= k < |saves| ==> RowFits(saves, rows, k)
    requires i <= |saves|
    ensures RowFits(saves + [hash], Save(rows, hash), i)
  {
    var all := saves + [hash];
    LatestCounts(saves, rows, hash);
    OccurrencesAppend(saves, hash, hash);
    if i < |saves| {
      assert RowFits(saves, rows, i);
      assert all[..i + 1] == saves[..i + 1];
      assert all[i + 1..] == saves[i + 1..] + [hash];
    } else {
      assert all[..i + 1] == all && all[i + 1..] == [];
    }
  }

  /**
   Over every sequence of saves, row `i` records save number `i`: the versions of one hash are
   1, 2, 3 and so on in order, and exactly the latest save of each hash is active.
   */
  lemma {:induction false} VersionsAreConsecutive(saves: seq<string>)
    ensures |Replay(saves)| == |saves|
    ensures forall i :: 0 <= i < |saves| ==> RowFits(saves, Replay(saves), i)
    decreases |saves|
  {
    if saves != [] {
      var before, hash := saves[..|saves| - 1], saves[|saves| - 1];
      assert saves == before + [hash];
      VersionsAreConsecutive(before);
      forall i | 0 <= i < |saves| ensures RowFits(saves, Replay(saves), i) {
        SaveFits(before, Replay(before), hash, i);
      }
    }
  }
}
