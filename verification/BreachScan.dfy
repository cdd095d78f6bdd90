/** The sustained-breach scans and the scaling verdict (workers/scaling_policy.py). */
module BreachScan {
  import opened Basics

  datatype Sample = Sample(ts: real, queueDepth: int, utilization: real)

  ghost predicate Sorted(ss: seq<Sample>) {
    forall i, j :: 0 <= i <= j < |ss| ==> ss[i].ts <= ss[j].ts
  }

  /** Samples `i` to `j` are all in breach, with no adjacent gap above `maxGap`. */
  ghost predicate Stretch(ss: seq<Sample>, breach: Sample -> bool, maxGap: real, i: int, j: int) {
    && 0 <= i <= j < |ss|
    && (forall k :: i <= k <= j ==> breach(ss[k]))
    && (forall k :: i < k <= j ==> ss[k].ts - ss[k - 1].ts <= maxGap)
  }

  ghost predicate LongStretch(ss: seq<Sample>, breach: Sample -> bool, maxGap: real, sustained: real, i: int, j: int) {
    Stretch(ss, breach, maxGap, i, j) && ss[j].ts - ss[i].ts >= sustained
  }

  /** Some contiguous stretch lasts at least `sustained` seconds. */
  ghost predicate Sustained(ss: seq<Sample>, breach: Sample -> bool, maxGap: real, sustained: real) {
    exists i, j :: LongStretch(ss, breach, maxGap, sustained, i, j)
  }

  /** The stretch that ends at `j` cannot begin before `i`. */
  ghost predicate Begins(ss: seq<Sample>, breach: Sample -> bool, maxGap: real, i: int, j: int) {
    Stretch(ss, breach, maxGap, i, j) && (i == 0 || !breach(ss[i - 1]) || ss[i].ts - ss[i - 1].ts > maxGap)
  }

  lemma BeginsIsEarliest(ss: seq<Sample>, breach: Sample -> bool, maxGap: real, i: int, i': int, j: int)
    requires Begins(ss, breach, maxGap, i, j) && Stretch(ss, breach, maxGap, i', j)
    ensures i <= i'
  {
  }

  lemma StretchGrows(ss: seq<Sample>, breach: Sample -> bool, maxGap: real, i: int, j: int)
    requires Begins(ss, breach, maxGap, i, j) && j + 1 < |ss| && breach(ss[j + 1])
    ensures var i' := if ss[j + 1].ts - ss[j].ts > maxGap then j + 1 else i;
      Begins(ss, breach, maxGap, i', j + 1)
  {
  }

  /** The scan shared by both criteria. */
  method Scan(ss: seq<Sample>, breach: Sample -> bool, sustained: real, maxGap: real) returns (found: bool)
    requires Sorted(ss)
    ensures found <==> Sustained(ss, breach, maxGap, sustained)
  {
    var start: Option<real> := None;
    var last: Option<real> := None;
    ghost var i := 0;
    for k := 0 to |ss|
      invariant start.None? <==> last.None?
      invariant start.None? ==> k == 0 || !breach(ss[k - 1])
      invariant start.Some? ==>
        k > 0 && Begins(ss, breach, maxGap, i, k - 1) && start.value == ss[i].ts && last.value == ss[k - 1].ts
      invariant forall a, b :: 0 <= b < k ==> !LongStretch(ss, breach, maxGap, sustained, a, b)
    {
      var s := ss[k];
      if breach(s) {
        if start.None? {
          start := Some(s.ts);
          i := k;
        } else {
          StretchGrows(ss, breach, maxGap, i, k - 1);
          if last.Some? && s.ts - last.value > maxGap {
            start := Some(s.ts);
            i := k;
          }
        }
        assert Begins(ss, breach, maxGap, i, k);
        if start.Some? && s.ts - start.value >= sustained {
          assert LongStretch(ss, breach, maxGap, sustained, i, k);
          return true;
        }
        forall a ensures !LongStretch(ss, breach, maxGap, sustained, a, k) {
          if Stretch(ss, breach, maxGap, a, k) { BeginsIsEarliest(ss, breach, maxGap, i, a, k); }
        }
        last := Some(s.ts);
      } else {
        start := None;
        last := None;
      }
    }
    return false;
  }

  function DeepQueue(threshold: int): Sample -> bool { (s: Sample) => s.queueDepth > threshold }

  function BusyWorkers(threshold: real): Sample -> bool { (s: Sample) => s.utilization >= threshold }

  /** A sample is in breach with a queue deeper than the threshold, or workers at least as busy as it. */
  lemma BreachMeans(s: Sample, depth: int, utilization: real)
    ensures DeepQueue(depth)(s) <==> depth < s.queueDepth
    ensures BusyWorkers(utilization)(s) <==> utilization <= s.utilization
  {
  }

  method QueueDepthBreach(ss: seq<Sample>, threshold: int, sustained: real, maxGap: real) returns (found: bool)
    requires Sorted(ss)
    ensures found <==> Sustained(ss, DeepQueue(threshold), maxGap, sustained)
  {
    found := Scan(ss, DeepQueue(threshold), sustained, maxGap);
  }

  method UtilizationBreach(ss: seq<Sample>, threshold: real, sustained: real, maxGap: real) returns (found: bool)
    requires Sorted(ss)
    ensures found <==> Sustained(ss, BusyWorkers(threshold), maxGap, sustained)
  {
    found := Scan(ss, BusyWorkers(threshold), sustained, maxGap);
  }

  datatype Verdict = Triggered | TransientSpike | NeverCrossed

  function MaxDepth(ss: seq<Sample>): (m: int)
    ensures forall i :: 0 <= i < |ss| ==> ss[i].queueDepth <= m
    ensures |ss| > 0 ==> exists i :: 0 <= i < |ss| && ss[i].queueDepth == m
  {
    if ss == [] then 0
    else if |ss| == 1 then ss[0].queueDepth
    else
      var m := MaxDepth(ss[..|ss| - 1]);
      if ss[|ss| - 1].queueDepth > m then ss[|ss| - 1].queueDepth else m
  }

  function MaxUtilization(ss: seq<Sample>): (m: real)
    ensures forall i :: 0 <= i < |ss| ==> ss[i].utilization <= m
    ensures |ss| > 0 ==> exists i :: 0 <= i < |ss| && ss[i].utilization == m
  {
    if ss == [] then 0.0
    else if |ss| == 1 then ss[0].utilization
    else
      var m := MaxUtilization(ss[..|ss| - 1]);
      if ss[|ss| - 1].utilization > m then ss[|ss| - 1].utilization else m
  }

  /**
   The verdict over a window of samples. It is `Triggered` exactly for a sustained breach, and then the
   threshold was also crossed; with samples at hand, `NeverCrossed` means that no sample is in breach.
   */
  method HistoricalVerdict(ss: seq<Sample>, depth: int, depthSeconds: real, utilization: real,
                           utilizationSeconds: real, samplingInterval: real)
    returns (verdict: Verdict, crossed: bool)
    requires Sorted(ss)
    ensures var maxGap := MaxReal(600.0, 2.0 * samplingInterval);
      verdict == Triggered <==>
        Sustained(ss, DeepQueue(depth), maxGap, depthSeconds)
        || Sustained(ss, BusyWorkers(utilization), maxGap, utilizationSeconds)
    ensures verdict == Triggered ==> crossed
    ensures verdict == NeverCrossed <==> !crossed
    ensures |ss| > 0 ==> (crossed <==> exists i :: 0 <= i < |ss| && (ss[i].queueDepth > depth || ss[i].utilization >= utilization))
  {
    crossed := MaxDepth(ss) > depth || MaxUtilization(ss) >= utilization;
    var maxGap := MaxReal(600.0, 2.0 * samplingInterval);
    var deep := QueueDepthBreach(ss, depth, depthSeconds, maxGap);
    var busy := UtilizationBreach(ss, utilization, utilizationSeconds, maxGap);
    if deep || busy {
      SustainedCrosses(ss, depth, depthSeconds, utilization, utilizationSeconds, maxGap);
      verdict := Triggered;
    } else if crossed {
      verdict := TransientSpike;
    } else {
      verdict := NeverCrossed;
    }
  }

  lemma {:induction false} SustainedCrosses(ss: seq<Sample>, depth: int, depthSeconds: real, utilization: real,
                                            utilizationSeconds: real, maxGap: real)
    requires Sustained(ss, DeepQueue(depth), maxGap, depthSeconds)
          || Sustained(ss, BusyWorkers(utilization), maxGap, utilizationSeconds)
    ensures MaxDepth(ss) > depth || MaxUtilization(ss) >= utilization
  {
    if Sustained(ss, DeepQueue(depth), maxGap, depthSeconds) {
      var i, j :| LongStretch(ss, DeepQueue(depth), maxGap, depthSeconds, i, j);
      assert DeepQueue(depth)(ss[i]);
    } else {
      var i, j :| LongStretch(ss, BusyWorkers(utilization), maxGap, utilizationSeconds, i, j);
      assert BusyWorkers(utilization)(ss[i]);
    }
  }
}
