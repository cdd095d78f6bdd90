/** Expected calibration error over equal-width bins (eval/metrics/calibration.py). */
module CalibrationError {
  import opened Basics

  datatype Prediction = Prediction(confidence: real, correct: bool)

  datatype Result = Ok(ece: real) | EmptyInput | ZeroBins

  // ---------------------------------------------------------------- the code

  /** Membership in bin `i` of `n`; the last bin is closed on the right. */
  predicate InBin(c: real, i: nat, n: nat)
    requires n >= 1
  {
    var size := 1.0 / n as real;
    var lower := i as real * size;
    lower <= c && if i == n - 1 then c <= lower + size else c < lower + size
  }

  function Bin(ps: seq<Prediction>, i: nat, n: nat): (b: seq<Prediction>)
    requires n >= 1
    ensures |b| <= |ps|
  {
    if ps == [] then [] else
      Bin(ps[..|ps| - 1], i, n) + if InBin(ps[|ps| - 1].confidence, i, n) then [ps[|ps| - 1]] else []
  }

  function SumConfidence(ps: seq<Prediction>): real {
    if ps == [] then 0.0 else SumConfidence(ps[..|ps| - 1]) + ps[|ps| - 1].confidence
  }

  function CountCorrect(ps: seq<Prediction>): nat {
    if ps == [] then 0 else CountCorrect(ps[..|ps| - 1]) + if ps[|ps| - 1].correct then 1 else 0
  }

  /** The contribution of one bin. */
  function BinError(b: seq<Prediction>, total: nat): real
    requires total >= 1
  {
    if b == [] then 0.0 else
      var size := |b| as real;
      var gap := AbsReal(Quot(SumConfidence(b), size) - Quot(CountCorrect(b) as real, size));
      Mul(Quot(size, total as real), gap)
  }

  function Total(xs: seq<real>): real {
    if xs == [] then 0.0 else Total(xs[..|xs| - 1]) + xs[|xs| - 1]
  }

  /** The contributions of all bins. */
  function Errors(ps: seq<Prediction>, n: nat): (es: seq<real>)
    requires n >= 1 && ps != []
    ensures |es| == n
  {
    seq(n, i requires 0 <= i < n => BinError(Bin(ps, i, n), |ps|))
  }

  function Ece(ps: seq<Prediction>, n: nat): real
    requires n >= 1 && ps != []
  {
    Total(Errors(ps, n))
  }

  /** The loop body on a bin that is not empty. */
  method Contribution(inBin: seq<Prediction>, total: nat) returns (e: real)
    requires inBin != [] && total >= 1
    ensures e == BinError(inBin, total)
  {
    var avgConf := Quot(SumConfidence(inBin), |inBin| as real);
    var avgAcc := Quot(CountCorrect(inBin) as real, |inBin| as real);
    e := Mul(Quot(|inBin| as real, total as real), AbsReal(avgConf - avgAcc));
  }

  method CalculateCalibration(ps: seq<Prediction>, nBins: int) returns (r: Result)
    ensures ps == [] ==> r == EmptyInput
    ensures ps != [] && nBins == 0 ==> r == ZeroBins
    ensures ps != [] && nBins < 0 ==> r == Ok(0.0)
    ensures ps != [] && nBins > 0 ==> r == Ok(Ece(ps, nBins))
  {
    if ps == [] {
      return EmptyInput;
    }
    if nBins == 0 {
      return ZeroBins;
    }
    if nBins < 0 {
      return Ok(0.0);  // the range is empty
    }
    var ece := 0.0;
    ghost var es := Errors(ps, nBins);
    for i := 0 to nBins
      invariant ece == Total(es[..i])
    {
      var inBin := Bin(ps, i, nBins);
      assert es[..i + 1][..i] == es[..i];
      if inBin != [] {
        var e := Contribution(inBin, |ps|);
        ece := ece + e;
      }
    }
    assert es[..nBins] == es;
    return Ok(ece);
  }

  // ---------------------------------------------------------------- each prediction has one bin

  /** The bin of a confidence. */
  function BinOf(c: real, n: nat): int
    requires n >= 1
  {
    var k := (c * n as real).Floor;
    if k >= n then n - 1 else k
  }

  lemma BinEdges(c: real, i: nat, n: nat)
    requires n >= 1
    ensures var size := 1.0 / n as real;
      && (i as real * size <= c <==> i as real <= c * n as real)
      && (c < i as real * size + size <==> c * n as real < i as real + 1.0)
      && (c <= i as real * size + size <==> c * n as real <= i as real + 1.0)
  {
    var m := n as real;
    var size := 1.0 / m;
    assert size * m == 1.0;
    var lower := i as real * size;
    assert lower * m == i as real;
    ScaleOrder(lower, c, m);
    ScaleOrder(c, lower + size, m);
    assert (lower + size) * m == i as real + 1.0;
  }

  lemma ScaleOrder(x: real, y: real, m: real)
    requires m > 0.0
    ensures x <= y <==> x * m <= y * m
    ensures x < y <==> x * m < y * m
  {
    ProductSign(y - x, m);
    assert Mul(y - x, m) == y * m - x * m;
  }

  /** Every confidence in [0, 1] lies in exactly one bin, the one `BinOf` gives. */
  lemma ExactlyOneBin(c: real, i: nat, n: nat)
    requires n >= 1 && i < n && 0.0 <= c <= 1.0
    ensures InBin(c, i, n) <==> i == BinOf(c, n)
    ensures 0 <= BinOf(c, n) < n
  {
    BinEdges(c, i, n);
    ScaleOrder(0.0, c, n as real);
    ScaleOrder(c, 1.0, n as real);
  }

  // ---------------------------------------------------------------- bins as signed sums

  /** Confidence minus correctness. */
  function Excess(p: Prediction): real { p.confidence - if p.correct then 1.0 else 0.0 }

  function SumExcess(ps: seq<Prediction>): real {
    if ps == [] then 0.0 else SumExcess(ps[..|ps| - 1]) + Excess(ps[|ps| - 1])
  }

  /** Signed excess of the predictions whose bin number is `i`. */
  function ExcessIn(ps: seq<Prediction>, i: int, n: nat): real
    requires n >= 1
  {
    if ps == [] then 0.0 else
      ExcessIn(ps[..|ps| - 1], i, n) + if BinOf(ps[|ps| - 1].confidence, n) == i then Excess(ps[|ps| - 1]) else 0.0
  }

  ghost predicate InUnit(ps: seq<Prediction>) { forall i :: 0 <= i < |ps| ==> 0.0 <= ps[i].confidence <= 1.0 }

  lemma {:induction false} ExcessIsDifference(ps: seq<Prediction>)
    ensures SumExcess(ps) == SumConfidence(ps) - CountCorrect(ps) as real
    decreases |ps|
  {
    if ps != [] { ExcessIsDifference(ps[..|ps| - 1]); }
  }

  lemma {:induction false} BinExcess(ps: seq<Prediction>, i: nat, n: nat)
    requires n >= 1 && i < n && InUnit(ps)
    ensures SumExcess(Bin(ps, i, n)) == ExcessIn(ps, i, n)
    decreases |ps|
  {
    if ps != [] {
      var before, last := ps[..|ps| - 1], ps[|ps| - 1];
      BinExcess(before, i, n);
      ExactlyOneBin(last.confidence, i, n);
      SumExcessAppend(Bin(before, i, n), last);
      assert Bin(ps, i, n) == if InBin(last.confidence, i, n) then Bin(before, i, n) + [last] else Bin(before, i, n);
    }
  }

  lemma {:induction false} SumExcessAppend(b: seq<Prediction>, last: Prediction)
    ensures SumExcess(b + [last]) == SumExcess(b) + Excess(last)
  {
    assert (b + [last])[..|b|] == b;
  }

  /** The weighted gap of a bin is its absolute signed excess over the number of predictions. */
  lemma {:induction false} BinErrorIsExcess(b: seq<Prediction>, total: nat)
    requires total >= 1
    ensures BinError(b, total) == Quot(AbsReal(SumExcess(b)), total as real)
  {
    if b == [] {
      assert Quot(0.0, total as real) == 0.0;
    } else {
      ExcessIsDifference(b);
      WeightedGap(SumConfidence(b), CountCorrect(b) as real, |b| as real, total as real);
    }
  }

  lemma WeightedGap(x: real, y: real, size: real, total: real)
    requires size > 0.0 && total > 0.0
    ensures Mul(Quot(size, total), AbsReal(Quot(x, size) - Quot(y, size))) == Quot(AbsReal(x - y), total)
  {
    var d := Quot(x, size) - Quot(y, size);
    assert d * size == x - y by { assert Quot(x, size) * size == x && Quot(y, size) * size == y; }
    ProductSign(d, size);
    assert Mul(d, size) == x - y;
    assert AbsReal(d) * size == AbsReal(x - y);
    var w := Quot(size, total);
    assert w * total == size;
    var r := Mul(w, AbsReal(d));
    assert r * total == AbsReal(x - y) by { assert r * total == (w * total) * AbsReal(d); }
    SameQuotient(r, AbsReal(x - y), total);
  }

  lemma SameQuotient(r: real, x: real, total: real)
    requires total > 0.0 && r * total == x
    ensures r == Quot(x, total)
  {
  }

  /** Sum of the absolute excesses of the first `k` bins. */
  function SumAbs(ps: seq<Prediction>, n: nat, k: nat): real
    requires n >= 1
  {
    if k == 0 then 0.0 else SumAbs(ps, n, k - 1) + AbsReal(ExcessIn(ps, k - 1, n))
  }

  lemma {:induction false} BinErrorByNumber(ps: seq<Prediction>, i: nat, n: nat)
    requires n >= 1 && ps != [] && InUnit(ps) && i < n
    ensures BinError(Bin(ps, i, n), |ps|) == Quot(AbsReal(ExcessIn(ps, i, n)), |ps| as real)
  {
    BinErrorIsExcess(Bin(ps, i, n), |ps|);
    BinExcess(ps, i, n);
  }

  lemma {:induction false} TotalOfQuotients(xs: seq<real>, ys: seq<real>, total: real)
    requires |xs| == |ys| && total > 0.0 && forall i :: 0 <= i < |xs| ==> xs[i] == Quot(ys[i], total)
    ensures Total(xs) == Quot(Total(ys), total)
    decreases |xs|
  {
    if xs == [] {
      ZeroQuotient(total);
    } else {
      TotalOfQuotients(xs[..|xs| - 1], ys[..|ys| - 1], total);
      AddQuotients(Total(ys[..|ys| - 1]), ys[|ys| - 1], total, Total(ys));
    }
  }

  ghost function Gaps(ps: seq<Prediction>, n: nat): (gs: seq<real>)
    requires n >= 1
    ensures |gs| == n
  {
    seq(n, i requires 0 <= i < n => AbsReal(ExcessIn(ps, i, n)))
  }

  lemma {:induction false} TotalOfGaps(ps: seq<Prediction>, n: nat, k: nat)
    requires n >= 1 && k <= n
    ensures Total(Gaps(ps, n)[..k]) == SumAbs(ps, n, k)
    decreases k
  {
    if k > 0 {
      TotalOfGaps(ps, n, k - 1);
      assert Gaps(ps, n)[..k][..k - 1] == Gaps(ps, n)[..k - 1];
    }
  }

  /** The error is the sum of the absolute excesses over the number of predictions. */
  lemma {:induction false} EceIsSumAbs(ps: seq<Prediction>, n: nat)
    requires n >= 1 && ps != [] && InUnit(ps)
    ensures Ece(ps, n) == Quot(SumAbs(ps, n, n), |ps| as real)
  {
    var es, gs := Errors(ps, n), Gaps(ps, n);
    forall i | 0 <= i < n ensures es[i] == Quot(gs[i], |ps| as real) {
      BinErrorByNumber(ps, i, n);
    }
    TotalOfQuotients(es, gs, |ps| as real);
    TotalOfGaps(ps, n, n);
    assert gs[..n] == gs;
  }

  lemma ZeroQuotient(total: real)
    requires total > 0.0
    ensures Quot(0.0, total) == 0.0 && Quot(total, total) == 1.0
  {
    SameQuotient(0.0, 0.0, total);
    SameQuotient(1.0, total, total);
  }

  lemma AddQuotients(x: real, y: real, total: real, sum: real)
    requires total > 0.0 && sum == x + y
    ensures Quot(x, total) + Quot(y, total) == Quot(sum, total)
  {
    var r := Quot(x, total) + Quot(y, total);
    assert r * total == sum by { assert Quot(x, total) * total == x && Quot(y, total) * total == y; }
    SameQuotient(r, sum, total);
  }

  // ---------------------------------------------------------------- bounds

  /** Signed excess over the first `k` bins. */
  function ExcessUpTo(ps: seq<Prediction>, n: nat, k: nat): real
    requires n >= 1
  {
    if k == 0 then 0.0 else ExcessUpTo(ps, n, k - 1) + ExcessIn(ps, k - 1, n)
  }

  lemma {:induction false} ExcessUpToSplits(ps: seq<Prediction>, n: nat, k: nat)
    requires n >= 1 && ps != []
    ensures ExcessUpTo(ps, n, k) == ExcessUpTo(ps[..|ps| - 1], n, k)
      + if 0 <= BinOf(ps[|ps| - 1].confidence, n) < k then Excess(ps[|ps| - 1]) else 0.0
    decreases k
  {
    if k > 0 { ExcessUpToSplits(ps, n, k - 1); }
  }

  /** The bins together hold every prediction once. */
  lemma {:induction false} BinsCoverExcess(ps: seq<Prediction>, n: nat)
    requires n >= 1 && InUnit(ps)
    ensures ExcessUpTo(ps, n, n) == SumExcess(ps)
    decreases |ps|
  {
    if ps == [] {
      NoExcess(n, n);
    } else {
      BinsCoverExcess(ps[..|ps| - 1], n);
      ExcessUpToSplits(ps, n, n);
      ExactlyOneBin(ps[|ps| - 1].confidence, 0, n);
    }
  }

  lemma {:induction false} NoExcess(n: nat, k: nat)
    requires n >= 1
    ensures ExcessUpTo([], n, k) == 0.0 && SumAbs([], n, k) == 0.0
    decreases k
  {
    if k > 0 { NoExcess(n, k - 1); }
  }

  lemma {:induction false} TriangleUpTo(ps: seq<Prediction>, n: nat, k: nat)
    requires n >= 1
    ensures 0.0 <= AbsReal(ExcessUpTo(ps, n, k)) <= SumAbs(ps, n, k)
    decreases k
  {
    if k > 0 { TriangleUpTo(ps, n, k - 1); }
  }

  /** Adding a prediction raises the sum of absolute excesses by at most one. */
  lemma {:induction false} SumAbsStep(ps: seq<Prediction>, n: nat, k: nat)
    requires n >= 1 && ps != [] && 0.0 <= ps[|ps| - 1].confidence <= 1.0
    ensures SumAbs(ps, n, k) <= SumAbs(ps[..|ps| - 1], n, k)
      + if 0 <= BinOf(ps[|ps| - 1].confidence, n) < k then 1.0 else 0.0
    decreases k
  {
    if k > 0 { SumAbsStep(ps, n, k - 1); }
  }

  lemma {:induction false} SumAbsAtMostCount(ps: seq<Prediction>, n: nat)
    requires n >= 1 && InUnit(ps)
    ensures SumAbs(ps, n, n) <= |ps| as real
    decreases |ps|
  {
    if ps == [] {
      NoExcess(n, n);
    } else {
      SumAbsAtMostCount(ps[..|ps| - 1], n);
      SumAbsStep(ps, n, n);
    }
  }

  lemma QuotientOrder(x: real, y: real, total: real)
    requires total > 0.0 && x <= y
    ensures Quot(x, total) <= Quot(y, total)
  {
    assert Quot(x, total) * total == x && Quot(y, total) * total == y;
    ScaleOrder(Quot(x, total), Quot(y, total), total);
  }

  /** The gap between the means is the absolute total excess over the number of predictions. */
  lemma {:induction false} OverallGap(ps: seq<Prediction>)
    requires ps != []
    ensures AbsReal(Quot(SumConfidence(ps), |ps| as real) - Quot(CountCorrect(ps) as real, |ps| as real))
         == Quot(AbsReal(SumExcess(ps)), |ps| as real)
  {
    var total := |ps| as real;
    ExcessIsDifference(ps);
    WeightedGap(SumConfidence(ps), CountCorrect(ps) as real, total, total);
    ZeroQuotient(total);
  }

  lemma {:induction false} SumAbsRange(ps: seq<Prediction>, n: nat)
    requires n >= 1 && InUnit(ps)
    ensures 0.0 <= AbsReal(SumExcess(ps)) <= SumAbs(ps, n, n) <= |ps| as real
  {
    TriangleUpTo(ps, n, n);
    SumAbsAtMostCount(ps, n);
    BinsCoverExcess(ps, n);
  }

  /**
   The error lies in [0, 1] and is never below the gap between the overall mean confidence and the
   overall accuracy.
   */
  lemma {:induction false} EceBounds(ps: seq<Prediction>, n: nat)
    requires n >= 1 && ps != [] && InUnit(ps)
    ensures 0.0 <= Ece(ps, n) <= 1.0
    ensures Ece(ps, n) >= AbsReal(Quot(SumConfidence(ps), |ps| as real) - Quot(CountCorrect(ps) as real, |ps| as real))
  {
    var total, sum := |ps| as real, SumAbs(ps, n, n);
    EceIsSumAbs(ps, n);
    SumAbsRange(ps, n);
    OverallGap(ps);
    ZeroQuotient(total);
    QuotientOrder(0.0, sum, total);
    QuotientOrder(sum, total, total);
    QuotientOrder(AbsReal(SumExcess(ps)), sum, total);
  }

  // ---------------------------------------------------------------- refinement

  /** Splitting every bin into `k` equal ones sends fine bin `j` into coarse bin `j / k`. */
  lemma FineBin(c: real, n: nat, k: nat)
    requires n >= 1 && k >= 1 && 0.0 <= c <= 1.0
    ensures n * k >= 1 && 0 <= BinOf(c, n * k) < n * k
    ensures BinOf(c, n * k) / k == BinOf(c, n)
  {
    ProductPositive(n, k);
    ExactlyOneBin(c, 0, n * k);
    ExactlyOneBin(c, 0, n);
    ScaleOrder(c, 1.0, n as real);
    ScaleOrder(0.0, c, n as real);
    FineProduct(c, n, k);
    FineFloor(c * n as real, n, k, c * (n * k) as real);
  }

  lemma FineProduct(c: real, n: nat, k: nat)
    ensures c * (n * k) as real == c * n as real * k as real
  {
    CastProduct(n, k);
  }

  /** Capping the fine floor and dividing by `k` gives the capped coarse floor. */
  lemma FineFloor(coarse: real, n: nat, k: nat, fine: real)
    requires n >= 1 && k >= 1 && 0.0 <= coarse <= n as real && fine == coarse * k as real
    ensures (if fine.Floor >= n * k then n * k - 1 else fine.Floor) / k
         == if coarse.Floor >= n then n - 1 else coarse.Floor
  {
    if coarse.Floor >= n {
      CastProduct(n, k);
      assert fine == (n * k) as real;
      LastFineBin(n, k);
    } else {
      FloorOfFloor(coarse, k, fine);
      FineBelow(coarse, n, k, fine);
    }
  }

  lemma ProductPositive(n: nat, k: nat)
    requires n >= 1 && k >= 1
    ensures n * k >= 1
  {
  }

  lemma LastFineBin(n: nat, k: nat)
    requires n >= 1 && k >= 1
    ensures (n * k - 1) / k == n - 1
  {
    DivideBounds(n * k - 1, k, n - 1);
  }

  lemma DivideBounds(x: int, k: nat, q: int)
    requires k >= 1 && q * k <= x < (q + 1) * k
    ensures x / k == q
  {
    var d := x / k;
    assert x == d * k + x % k;
    assert (d - q) * k < k && (q - d) * k < k;
    StepBound(d - q, k);
    StepBound(q - d, k);
  }

  lemma FineBelow(coarse: real, hi: int, k: nat, fine: real)
    requires k >= 1 && fine == coarse * k as real && coarse < hi as real
    ensures fine.Floor < hi * k
  {
    ScaleOrder(coarse, hi as real, k as real);
    CastProduct(hi, k);
  }

  lemma FineAbove(coarse: real, lo: int, k: nat, fine: real)
    requires k >= 1 && fine == coarse * k as real && lo as real <= coarse
    ensures lo * k <= fine.Floor
  {
    ScaleOrder(lo as real, coarse, k as real);
    CastProduct(lo, k);
  }

  lemma FloorOfFloor(coarse: real, k: nat, fine: real)
    requires k >= 1 && coarse >= 0.0 && fine == coarse * k as real
    ensures fine.Floor / k == coarse.Floor
  {
    var q := coarse.Floor;
    FineAbove(coarse, q, k, fine);
    FineBelow(coarse, q + 1, k, fine);
    DivideBounds(fine.Floor, k, q);
  }

  /** Signed excess of the first `m` of the `k` parts of coarse bin `i`. */
  function ExcessOfParts(ps: seq<Prediction>, n: nat, i: nat, k: nat, m: nat): real
    requires n * k >= 1
  {
    if m == 0 then 0.0 else ExcessOfParts(ps, n, i, k, m - 1) + ExcessIn(ps, i * k + m - 1, n * k)
  }

  lemma {:induction false} ExcessOfPartsSplits(ps: seq<Prediction>, n: nat, i: nat, k: nat, m: nat)
    requires n * k >= 1 && ps != []
    ensures ExcessOfParts(ps, n, i, k, m) == ExcessOfParts(ps[..|ps| - 1], n, i, k, m)
      + if i * k <= BinOf(ps[|ps| - 1].confidence, n * k) < i * k + m then Excess(ps[|ps| - 1]) else 0.0
    decreases m
  {
    if m > 0 { ExcessOfPartsSplits(ps, n, i, k, m - 1); }
  }

  /** A coarse bin holds exactly what its parts hold. */
  lemma {:induction false} PartsMakeTheBin(ps: seq<Prediction>, n: nat, i: nat, k: nat)
    requires n >= 1 && k >= 1 && n * k >= 1 && InUnit(ps)
    ensures ExcessOfParts(ps, n, i, k, k) == ExcessIn(ps, i, n)
    decreases |ps|
  {
    if ps == [] {
      NoParts(n, i, k, k);
    } else {
      PartsMakeTheBin(ps[..|ps| - 1], n, i, k);
      ExcessOfPartsSplits(ps, n, i, k, k);
      var c := ps[|ps| - 1].confidence;
      FineBin(c, n, k);
      SameQuotientBin(BinOf(c, n * k), k, i);
    }
  }

  lemma SameQuotientBin(x: int, k: nat, i: int)
    requires k >= 1
    ensures x / k == i <==> i * k <= x < i * k + k
  {
    assert x == (x / k) * k + x % k;
    if i * k <= x < i * k + k { DivideBounds(x, k, i); }
  }

  lemma {:induction false} NoParts(n: nat, i: nat, k: nat, m: nat)
    requires n * k >= 1
    ensures ExcessOfParts([], n, i, k, m) == 0.0
    decreases m
  {
    if m > 0 { NoParts(n, i, k, m - 1); }
  }

  /** The parts of coarse bin `i` add at least its absolute excess. */
  lemma {:induction false} PartsTriangle(ps: seq<Prediction>, n: nat, i: nat, k: nat, m: nat)
    requires n * k >= 1
    ensures SumAbs(ps, n * k, i * k + m) >= SumAbs(ps, n * k, i * k) + AbsReal(ExcessOfParts(ps, n, i, k, m))
    decreases m
  {
    if m > 0 { PartsTriangle(ps, n, i, k, m - 1); }
  }

  lemma {:induction false} FineSumDominates(ps: seq<Prediction>, n: nat, k: nat, i: nat)
    requires n >= 1 && k >= 1 && n * k >= 1 && InUnit(ps)
    ensures SumAbs(ps, n * k, i * k) >= SumAbs(ps, n, i)
    decreases i
  {
    if i > 0 {
      FineSumDominates(ps, n, k, i - 1);
      PartsTriangle(ps, n, i - 1, k, k);
      PartsMakeTheBin(ps, n, i - 1, k);
      assert (i - 1) * k + k == i * k;
    }
  }

  /** Splitting every bin into `k` equal bins never lowers the error. */
  lemma SplittingNeverLowers(ps: seq<Prediction>, n: nat, k: nat)
    requires n >= 1 && k >= 1 && n * k >= 1 && ps != [] && InUnit(ps)
    ensures Ece(ps, n * k) >= Ece(ps, n)
  {
    EceIsSumAbs(ps, n);
    EceIsSumAbs(ps, n * k);
    FineSumDominates(ps, n, k, n);
    QuotientOrder(SumAbs(ps, n, n), SumAbs(ps, n * k, n * k), |ps| as real);
  }
}
