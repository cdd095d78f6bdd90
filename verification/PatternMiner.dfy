/**
 The mining run of workers/jobs/pattern_mining_job.py (`execute_pattern_mining`): the co-occurrence count, the
 four nested loops over candidates, and the hash under which an accepted pattern is saved. Event types are
 given stripped and lower-cased, dates in seconds.
 */
module PatternMiner {
  import opened Basics
  import opened Sorting
  import opened WilsonBound
  import opened Texts
  import PatternFindings

  datatype Event = Event(id: string, kind: string, region: Option<string>, date: real)

  datatype Pattern = Pattern(source: string, target: string, region: Option<string>, days: nat)

  /** `root` is the square root. */
  datatype Config = Config(minSupport: int, minConfidence: real, root: real -> real)

  ghost predicate HasRoots(c: Config) { forall x: real :: x >= 0.0 ==> IsRoot(c.root(x), x) }

  const WINDOWS: seq<nat> := [7, 14, 30]

  const Z := 1.96

  // ---------------------------------------------------------------- counting co-occurrences

  function Matching(events: seq<Event>, kind: string, region: Option<string>): (m: seq<Event>)
    ensures forall e :: e in m <==> e in events && e.kind == kind && e.region == region
  {
    if events == [] then [] else
      var last := events[|events| - 1];
      Matching(events[..|events| - 1], kind, region) + if last.kind == kind && last.region == region then [last] else []
  }

  predicate Follows(s: Event, t: Event, days: nat) { 0.0 < t.date - s.date <= days as real * 86400.0 }

  /** The target comes after the source, by at most so many days. */
  lemma FollowsMeans(s: Event, t: Event, days: nat)
    ensures Follows(s, t, days) <==> s.date < t.date && t.date <= s.date + days as real * 86400.0
  {
  }

  /** The pairs of positions whose events co-occur. */
  ghost function Pairs(src: seq<Event>, tgt: seq<Event>, days: nat): set<(nat, nat)> {
    set i: nat, j: nat | i < |src| && j < |tgt| && Follows(src[i], tgt[j], days) :: (i, j)
  }

  ghost function PairsBefore(src: seq<Event>, tgt: seq<Event>, days: nat, k: nat, l: nat): set<(nat, nat)> {
    set i: nat, j: nat | i < |src| && j < |tgt| && Follows(src[i], tgt[j], days) && (i < k || (i == k && j < l)) :: (i, j)
  }

  ghost predicate Supports(src: seq<Event>, tgt: seq<Event>, pairs: set<(nat, nat)>, id: string) {
    exists q :: q in pairs && q.0 < |src| && q.1 < |tgt| && (id == src[q.0].id || id == tgt[q.1].id)
  }

  lemma NextPair(src: seq<Event>, tgt: seq<Event>, days: nat, k: nat, l: nat)
    requires k < |src| && l < |tgt|
    ensures PairsBefore(src, tgt, days, k, l + 1)
         == PairsBefore(src, tgt, days, k, l) + if Follows(src[k], tgt[l], days) then {(k, l)} else {}
    ensures (k, l) !in PairsBefore(src, tgt, days, k, l)
  {
  }

  ghost predicate Collects(src: seq<Event>, tgt: seq<Event>, pairs: set<(nat, nat)>, ids: set<string>) {
    forall id :: id in ids <==> Supports(src, tgt, pairs, id)
  }

  method CountFollowing(src: seq<Event>, tgt: seq<Event>, days: nat) returns (support: nat, ids: set<string>)
    ensures support == |Pairs(src, tgt, days)|
    ensures Collects(src, tgt, Pairs(src, tgt, days), ids)
  {
    support, ids := 0, {};
    ghost var pairs := PairsBefore(src, tgt, days, 0, 0);
    assert pairs == {};
    for k := 0 to |src|
      invariant pairs == PairsBefore(src, tgt, days, k, 0)
      invariant support == |pairs| && Collects(src, tgt, pairs, ids)
    {
      for l := 0 to |tgt|
        invariant pairs == PairsBefore(src, tgt, days, k, l)
        invariant support == |pairs| && Collects(src, tgt, pairs, ids)
      {
        NextPair(src, tgt, days, k, l);
        if Follows(src[k], tgt[l], days) {
          CollectPair(src, tgt, pairs, ids, k, l);
          pairs := pairs + {(k, l)};
          support := support + 1;
          ids := ids + {src[k].id, tgt[l].id};
        }
      }
      NextSource(src, tgt, days, k);
    }
    AllPairs(src, tgt, days);
  }

  lemma NextSource(src: seq<Event>, tgt: seq<Event>, days: nat, k: nat)
    ensures PairsBefore(src, tgt, days, k, |tgt|) == PairsBefore(src, tgt, days, k + 1, 0)
  {
  }

  lemma AllPairs(src: seq<Event>, tgt: seq<Event>, days: nat)
    ensures PairsBefore(src, tgt, days, |src|, 0) == Pairs(src, tgt, days)
  {
  }

  lemma CollectPair(
    src: seq<Event>, tgt: seq<Event>, pairs: set<(nat, nat)>, ids: set<string>, k: nat, l: nat)
    requires k < |src| && l < |tgt| && Collects(src, tgt, pairs, ids)
    ensures Collects(src, tgt, pairs + {(k, l)}, ids + {src[k].id, tgt[l].id})
  {
    var more := pairs + {(k, l)};
    forall id ensures id in ids + {src[k].id, tgt[l].id} <==> Supports(src, tgt, more, id) {
      assert (k, l) in more;
      if Supports(src, tgt, pairs, id) {
        var q :| q in pairs && q.0 < |src| && q.1 < |tgt| && (id == src[q.0].id || id == tgt[q.1].id);
        assert q in more;
      }
    }
  }

  // ---------------------------------------------------------------- one candidate

  ghost function CountsOf(events: seq<Event>, p: Pattern): Counts {
    var src, tgt := Matching(events, p.source, p.region), Matching(events, p.target, p.region);
    Counts(|Pairs(src, tgt, p.days)|, |src|, |tgt|, |events|)
  }

  function Root(c: Config, n: Counts): real {
    if n.sources == 0 then 0.0 else c.root(Radicand(Proportion(n.support, n.sources), Z, n.sources as real))
  }

  function Decide(c: Config, n: Counts): Verdict { Judge(n, c.minSupport, c.minConfidence, Z, Root(c, n)) }

  ghost function VerdictOn(events: seq<Event>, c: Config, p: Pattern): Verdict { Decide(c, CountsOf(events, p)) }

  /** How many events there are of a type in a region. */
  ghost function Number(events: seq<Event>, kind: string, region: Option<string>): nat { |Positions(events, kind, region)| }

  ghost function Positions(events: seq<Event>, kind: string, region: Option<string>): set<nat> {
    set i: nat | i < |events| && events[i].kind == kind && events[i].region == region
  }

  lemma PositionsNext(events: seq<Event>, kind: string, region: Option<string>)
    requires events != []
    ensures var last := |events| - 1;
      && last !in Positions(events[..last], kind, region)
      && Positions(events, kind, region) == Positions(events[..last], kind, region)
           + if events[last].kind == kind && events[last].region == region then {last} else {}
  {
  }

  /** The events of a type in a region, all of them, in order. */
  lemma {:induction false} MatchingPicks(events: seq<Event>, kind: string, region: Option<string>) returns (places: seq<nat>)
    ensures Picks(events, (e: Event) => e.kind == kind && e.region == region, places)
    ensures var m := Matching(events, kind, region); |m| == |places| && forall k :: 0 <= k < |places| ==> m[k] == events[places[k]]
    decreases |events|
  {
    places := [];
    if events != [] {
      var keep := (e: Event) => e.kind == kind && e.region == region;
      var before := MatchingPicks(events[..|events| - 1], kind, region);
      places := PickNext(events, keep, before);
      PicksNext(events, keep, before);
    }
  }

  lemma {:induction false} MatchingCounts(events: seq<Event>, kind: string, region: Option<string>)
    ensures |Matching(events, kind, region)| == Number(events, kind, region)
    decreases |events|
  {
    if events == [] {
      assert Positions(events, kind, region) == {};
    } else {
      MatchingCounts(events[..|events| - 1], kind, region);
      PositionsNext(events, kind, region);
    }
  }

  /**
   What makes a pattern worth saving, said of the events: both types occur in the region, enough pairs follow
   each other within the window, more of them than the target type's share of all events would give, and the
   score equation of that proportion has no solution below the demanded confidence.
   */
  ghost predicate Qualifies(events: seq<Event>, c: Config, p: Pattern) {
    var pairs := |Pairs(Matching(events, p.source, p.region), Matching(events, p.target, p.region), p.days)|;
    var sources, targets := Number(events, p.source, p.region), Number(events, p.target, p.region);
    && sources > 0 && targets > 0 && pairs >= c.minSupport
    && pairs * (if |events| > 1 then |events| else 1) > sources * targets
    && ScoresAtLeast(MinReal(1.0, pairs as real / sources as real), 1.96 * 1.96 / sources as real, c.minConfidence)
  }

  lemma AcceptedIsQualified(events: seq<Event>, c: Config, p: Pattern)
    requires HasRoots(c)
    ensures VerdictOn(events, c, p).Accepted? <==> Qualifies(events, c, p)
  {
    var n := CountsOf(events, p);
    MatchingCounts(events, p.source, p.region);
    MatchingCounts(events, p.target, p.region);
    if n.sources > 0 { RootIsRoot(c, n); }
    AcceptedExactlyWhen(n, c.minSupport, c.minConfidence, Z, Root(c, n));
  }

  lemma RadicandNotNegative(p: real, n: real)
    requires 0.0 <= p <= 1.0 && n > 0.0
    ensures Radicand(p, Z, n) >= 0.0
  {
    ProductSign(p, 1.0 - p);
    ProductSign(n, n);
    NotNegativeQuotient(p * (1.0 - p), n);
    NotNegativeQuotient(Z * Z, 4.0 * (n * n));
  }

  lemma NotNegativeQuotient(x: real, y: real)
    requires x >= 0.0 && y > 0.0
    ensures x / y >= 0.0
  {
  }

  lemma RootIsRoot(c: Config, n: Counts)
    requires HasRoots(c) && n.sources > 0
    ensures IsRoot(Root(c, n), Radicand(Proportion(n.support, n.sources), Z, n.sources as real))
  {
    RadicandNotNegative(Proportion(n.support, n.sources), n.sources as real);
  }

  lemma NeverCrashes(events: seq<Event>, c: Config, p: Pattern)
    requires HasRoots(c)
    ensures VerdictOn(events, c, p) != Crashed
  {
    var n := CountsOf(events, p);
    if n.sources > 0 { RootIsRoot(c, n); }
    AcceptedPatternsAreValid(n, c.minSupport, c.minConfidence, Z, Root(c, n));
  }

  // ---------------------------------------------------------------- a wider window

  lemma WiderWindowSupports(src: seq<Event>, tgt: seq<Event>, days: nat, days': nat)
    requires days <= days'
    ensures |Pairs(src, tgt, days)| <= |Pairs(src, tgt, days')|
  {
    assert days as real * 86400.0 <= days' as real * 86400.0;
    SubsetCardinality(Pairs(src, tgt, days), Pairs(src, tgt, days'));
  }

  lemma LargerRatio(s: nat, s': nat, n: nat, baseline: real)
    requires s <= s' && n > 0 && baseline > 0.0
    ensures s as real / n as real / baseline <= s' as real / n as real / baseline
  {
    RatioOrder(s as real, s' as real, n as real);
    RatioOrder(s as real / n as real, s' as real / n as real, baseline);
  }

  lemma RatioOrder(x: real, y: real, n: real)
    requires x <= y && n > 0.0
    ensures x / n <= y / n
  {
  }

  /** More support, all else equal, never turns an accepted candidate down. */
  lemma MoreSupportIsAccepted(c: Config, n: Counts, n': Counts)
    requires HasRoots(c) && n' == n.(support := n'.support) && n.support <= n'.support
    requires Decide(c, n).Accepted?
    ensures Decide(c, n').Accepted? && Decide(c, n).confidence <= Decide(c, n').confidence
  {
    RootIsRoot(c, n);
    RootIsRoot(c, n');
    LowerBoundIsMonotone(n.support, n'.support, n.sources, Z, Root(c, n), Root(c, n'));
    var baseline := n.targets as real / (if n.scanned < 1 then 1 else n.scanned) as real;
    LargerRatio(n.support, n'.support, n.sources, baseline);
    AcceptedPatternsAreValid(n', c.minSupport, c.minConfidence, Z, Root(c, n'));
  }

  /** A pattern found with one window is found, with no less confidence, with every wider one. */
  lemma WiderWindowKeepsPattern(events: seq<Event>, c: Config, p: Pattern, days': nat)
    requires HasRoots(c) && p.days <= days' && Qualifies(events, c, p)
    ensures Qualifies(events, c, p.(days := days'))
    ensures VerdictOn(events, c, p).Accepted? && VerdictOn(events, c, p.(days := days')).Accepted?
    ensures VerdictOn(events, c, p).confidence <= VerdictOn(events, c, p.(days := days')).confidence
  {
    AcceptedIsQualified(events, c, p);
    AcceptedIsQualified(events, c, p.(days := days'));
    WiderWindowSupports(Matching(events, p.source, p.region), Matching(events, p.target, p.region), p.days, days');
    MoreSupportIsAccepted(c, CountsOf(events, p), CountsOf(events, p.(days := days')));
  }

  // ---------------------------------------------------------------- the four loops

  /** An accepted pattern with the identifiers of the events that support it. */
  datatype Found = Found(pattern: Pattern, ids: set<string>)

  /** What a part of the loops has counted and accepted. */
  datatype Tally = Tally(candidates: nat, accepted: seq<Found>, rejected: nat)

  function Patterns(found: seq<Found>): (ps: seq<Pattern>)
    ensures |ps| == |found| && forall i :: 0 <= i < |found| ==> ps[i] == found[i].pattern
  {
    seq(|found|, i requires 0 <= i < |found| => found[i].pattern)
  }

  /** The identifiers are exactly those of the events in some co-occurring pair. */
  ghost predicate Supported(events: seq<Event>, f: Found) {
    var p := f.pattern;
    var src, tgt := Matching(events, p.source, p.region), Matching(events, p.target, p.region);
    Collects(src, tgt, Pairs(src, tgt, p.days), f.ids)
  }

  /** The patterns of a group that qualify, each once. */
  ghost predicate AcceptsExactly(events: seq<Event>, c: Config, group: set<Pattern>, ps: seq<Pattern>) {
    NoRepeats(ps) && forall p :: p in ps <==> p in group && Qualifies(events, c, p)
  }

  ghost predicate AllSupported(events: seq<Event>, found: seq<Found>) {
    forall i :: 0 <= i < |found| ==> Supported(events, found[i])
  }

  /** `t` is the tally of the candidates in `group`. */
  ghost predicate Tallies(events: seq<Event>, c: Config, group: set<Pattern>, t: Tally) {
    && t.candidates == |group| == |t.accepted| + t.rejected
    && AcceptsExactly(events, c, group, Patterns(t.accepted)) && AllSupported(events, t.accepted)
  }

  function Join(a: Tally, b: Tally): Tally {
    Tally(a.candidates + b.candidates, a.accepted + b.accepted, a.rejected + b.rejected)
  }

  lemma JoinTallies(events: seq<Event>, c: Config, group: set<Pattern>, t: Tally, group': set<Pattern>, t': Tally)
    requires Tallies(events, c, group, t) && Tallies(events, c, group', t') && group !! group'
    ensures Tallies(events, c, group + group', Join(t, t'))
  {
    PatternsAppend(t.accepted, t'.accepted);
    JoinAccepted(events, c, group, Patterns(t.accepted), group', Patterns(t'.accepted));
    JoinSupported(events, t.accepted, t'.accepted);
    DisjointUnion(group, group');
  }

  lemma PatternsAppend(a: seq<Found>, b: seq<Found>)
    ensures Patterns(a + b) == Patterns(a) + Patterns(b)
  {
  }

  lemma DisjointUnion(a: set<Pattern>, b: set<Pattern>)
    requires a !! b
    ensures |a + b| == |a| + |b|
  {
  }

  lemma JoinAccepted(events: seq<Event>, c: Config, group: set<Pattern>, ps: seq<Pattern>,
                     group': set<Pattern>, ps': seq<Pattern>)
    requires AcceptsExactly(events, c, group, ps) && AcceptsExactly(events, c, group', ps') && group !! group'
    ensures AcceptsExactly(events, c, group + group', ps + ps')
  {
    DistinctAppend(ps, ps');
  }

  lemma JoinSupported(events: seq<Event>, found: seq<Found>, found': seq<Found>)
    requires AllSupported(events, found) && AllSupported(events, found')
    ensures AllSupported(events, found + found')
  {
  }

  method TryOne(events: seq<Event>, c: Config, p: Pattern) returns (t: Tally)
    requires HasRoots(c)
    ensures Tallies(events, c, {p}, t)
  {
    var src, tgt := Matching(events, p.source, p.region), Matching(events, p.target, p.region);
    t := Tally(1, [], 1);
    AcceptedIsQualified(events, c, p);
    NeverCrashes(events, c, p);
    var support, ids := CountFollowing(src, tgt, p.days);
    var verdict := Decide(c, Counts(support, |src|, |tgt|, |events|));
    assert verdict != Crashed;
    if verdict.Accepted? {
      assert Supported(events, Found(p, ids));
      t := Tally(1, [Found(p, ids)], 0);
      assert Patterns(t.accepted) == [p];
    }
  }

  ghost function OfWindows(s: string, t: string, region: Option<string>, windows: seq<nat>): set<Pattern> {
    set d | d in windows :: Pattern(s, t, region, d)
  }

  ghost function OfRegions(s: string, t: string, regions: seq<Option<string>>): set<Pattern> {
    set r, d | r in regions && d in WINDOWS :: Pattern(s, t, r, d)
  }

  ghost function OfTargets(s: string, targets: seq<string>, regions: seq<Option<string>>): set<Pattern> {
    set t, r, d | t in targets && t != s && r in regions && d in WINDOWS :: Pattern(s, t, r, d)
  }

  /** Every ordered pair of different types, in every region, with every window. */
  ghost function Candidates(sources: seq<string>, targets: seq<string>, regions: seq<Option<string>>): set<Pattern> {
    set s, t, r, d | s in sources && t in targets && t != s && r in regions && d in WINDOWS :: Pattern(s, t, r, d)
  }

  lemma NextWindow(s: string, t: string, region: Option<string>, windows: seq<nat>, i: nat)
    requires i < |windows| && NoRepeats(windows)
    ensures var before := OfWindows(s, t, region, windows[..i]);
      && Pattern(s, t, region, windows[i]) !in before
      && OfWindows(s, t, region, windows[..i + 1]) == before + {Pattern(s, t, region, windows[i])}
  {
    assert windows[..i + 1] == windows[..i] + [windows[i]];
  }

  lemma NextRegion(s: string, t: string, regions: seq<Option<string>>, i: nat)
    requires i < |regions| && NoRepeats(regions)
    ensures var before, next := OfRegions(s, t, regions[..i]), OfWindows(s, t, regions[i], WINDOWS);
      before !! next && OfRegions(s, t, regions[..i + 1]) == before + next
  {
    assert regions[..i + 1] == regions[..i] + [regions[i]];
  }

  lemma NextTarget(s: string, types: seq<string>, regions: seq<Option<string>>, i: nat)
    requires i < |types| && NoRepeats(types)
    ensures var before, next := OfTargets(s, types[..i], regions), OfRegions(s, types[i], regions);
      before !! next && OfTargets(s, types[..i + 1], regions) == if types[i] == s then before else before + next
  {
    assert types[..i + 1] == types[..i] + [types[i]];
  }

  lemma NextSourceType(types: seq<string>, regions: seq<Option<string>>, i: nat)
    requires i < |types| && NoRepeats(types)
    ensures var before, next := Candidates(types[..i], types, regions), OfTargets(types[i], types, regions);
      before !! next && Candidates(types[..i + 1], types, regions) == before + next
  {
    assert types[..i + 1] == types[..i] + [types[i]];
  }

  method TryWindows(events: seq<Event>, c: Config, s: string, t: string, region: Option<string>, windows: seq<nat>)
    returns (tally: Tally)
    requires HasRoots(c) && NoRepeats(windows)
    ensures Tallies(events, c, OfWindows(s, t, region, windows), tally)
  {
    tally := Tally(0, [], 0);
    assert OfWindows(s, t, region, []) == {};
    for i := 0 to |windows|
      invariant Tallies(events, c, OfWindows(s, t, region, windows[..i]), tally)
    {
      var one := TryOne(events, c, Pattern(s, t, region, windows[i]));
      TallyNextWindow(events, c, s, t, region, windows, i, tally, one);
      tally := Join(tally, one);
    }
    assert windows[..|windows|] == windows;
  }

  lemma TallyNextRegion(events: seq<Event>, c: Config, s: string, t: string, regions: seq<Option<string>>, i: nat, tally: Tally, part: Tally)
    requires i < |regions| && NoRepeats(regions) && Tallies(events, c, OfRegions(s, t, regions[..i]), tally)
    requires Tallies(events, c, OfWindows(s, t, regions[i], WINDOWS), part)
    ensures Tallies(events, c, OfRegions(s, t, regions[..i + 1]), Join(tally, part))
  {
    NextRegion(s, t, regions, i);
    JoinTallies(events, c, OfRegions(s, t, regions[..i]), tally, OfWindows(s, t, regions[i], WINDOWS), part);
  }

  lemma TallyNextTarget(events: seq<Event>, c: Config, s: string, types: seq<string>, regions: seq<Option<string>>, i: nat, tally: Tally, part: Tally)
    requires i < |types| && NoRepeats(types) && types[i] != s && Tallies(events, c, OfTargets(s, types[..i], regions), tally)
    requires Tallies(events, c, OfRegions(s, types[i], regions), part)
    ensures Tallies(events, c, OfTargets(s, types[..i + 1], regions), Join(tally, part))
  {
    NextTarget(s, types, regions, i);
    JoinTallies(events, c, OfTargets(s, types[..i], regions), tally, OfRegions(s, types[i], regions), part);
  }

  lemma TallyNextSource(events: seq<Event>, c: Config, types: seq<string>, regions: seq<Option<string>>, i: nat, tally: Tally, part: Tally)
    requires i < |types| && NoRepeats(types) && Tallies(events, c, Candidates(types[..i], types, regions), tally)
    requires Tallies(events, c, OfTargets(types[i], types, regions), part)
    ensures Tallies(events, c, Candidates(types[..i + 1], types, regions), Join(tally, part))
  {
    NextSourceType(types, regions, i);
    JoinTallies(events, c, Candidates(types[..i], types, regions), tally, OfTargets(types[i], types, regions), part);
  }

  lemma TallyNextWindow(events: seq<Event>, c: Config, s: string, t: string, region: Option<string>,
                        windows: seq<nat>, i: nat, tally: Tally, one: Tally)
    requires i < |windows| && NoRepeats(windows)
    requires Tallies(events, c, OfWindows(s, t, region, windows[..i]), tally)
    requires Tallies(events, c, {Pattern(s, t, region, windows[i])}, one)
    ensures Tallies(events, c, OfWindows(s, t, region, windows[..i + 1]), Join(tally, one))
  {
    NextWindow(s, t, region, windows, i);
    JoinTallies(events, c, OfWindows(s, t, region, windows[..i]), tally, {Pattern(s, t, region, windows[i])}, one);
  }

  method TryRegions(events: seq<Event>, c: Config, s: string, t: string, regions: seq<Option<string>>) returns (tally: Tally)
    requires HasRoots(c) && NoRepeats(regions)
    ensures Tallies(events, c, OfRegions(s, t, regions), tally)
  {
    tally := Tally(0, [], 0);
    assert OfRegions(s, t, []) == {};
    for i := 0 to |regions|
      invariant Tallies(events, c, OfRegions(s, t, regions[..i]), tally)
    {
      var part := TryWindows(events, c, s, t, regions[i], WINDOWS);
      TallyNextRegion(events, c, s, t, regions, i, tally, part);
      tally := Join(tally, part);
    }
    assert regions[..|regions|] == regions;
  }

  method TryTargets(events: seq<Event>, c: Config, s: string, types: seq<string>, regions: seq<Option<string>>) returns (tally: Tally)
    requires HasRoots(c) && NoRepeats(types) && NoRepeats(regions)
    ensures Tallies(events, c, OfTargets(s, types, regions), tally)
  {
    tally := Tally(0, [], 0);
    assert OfTargets(s, [], regions) == {};
    for i := 0 to |types|
      invariant Tallies(events, c, OfTargets(s, types[..i], regions), tally)
    {
      if types[i] == s {
        NextTarget(s, types, regions, i);
        continue;
      }
      var part := TryRegions(events, c, s, types[i], regions);
      TallyNextTarget(events, c, s, types, regions, i, tally, part);
      tally := Join(tally, part);
    }
    assert types[..|types|] == types;
  }

  method TrySources(events: seq<Event>, c: Config, types: seq<string>, regions: seq<Option<string>>) returns (tally: Tally)
    requires HasRoots(c) && NoRepeats(types) && NoRepeats(regions)
    ensures Tallies(events, c, Candidates(types, types, regions), tally)
  {
    tally := Tally(0, [], 0);
    assert Candidates([], types, regions) == {};
    for i := 0 to |types|
      invariant Tallies(events, c, Candidates(types[..i], types, regions), tally)
    {
      var part := TryTargets(events, c, types[i], types, regions);
      TallyNextSource(events, c, types, regions, i, tally, part);
      tally := Join(tally, part);
    }
    assert types[..|types|] == types;
  }

  // ---------------------------------------------------------------- the run

  datatype Outcome = Mined(tally: Tally) | TypeError

  /** Sorting labels fails when a missing label meets a present one. */
  predicate Sortable(regions: seq<Option<string>>) { None in regions ==> |regions| == 1 }

  /** `types` and `regions` enumerate what occurs in the events, once each, in any order. */
  ghost predicate Enumerate(events: seq<Event>, types: seq<string>, regions: seq<Option<string>>) {
    && NoRepeats(types) && NoRepeats(regions)
    && (forall k :: k in types <==> exists e :: e in events && e.kind == k)
    && (forall r :: r in regions <==> exists e :: e in events && e.region == r)
  }

  ghost predicate Mixed(events: seq<Event>) {
    exists e, e' :: e in events && e' in events && e.region == None && e'.region != None
  }

  lemma SortableExactlyWhen(events: seq<Event>, types: seq<string>, regions: seq<Option<string>>)
    requires Enumerate(events, types, regions)
    ensures Sortable(regions) <==> !Mixed(events)
  {
    if Mixed(events) {
      var e, e' :| e in events && e' in events && e.region == None && e'.region != None;
      assert e.region in regions && e'.region in regions;
    }
    if !Sortable(regions) {
      var i :| 0 <= i < |regions| && regions[i] == None;
      var j := if i == 0 then 1 else 0;
      assert regions[i] in regions && regions[j] in regions;
      var e :| e in events && e.region == regions[i];
      var e' :| e' in events && e'.region == regions[j];
    }
  }

  method ExecutePatternMining(events: seq<Event>, c: Config, types: seq<string>, regions: seq<Option<string>>)
    returns (o: Outcome)
    requires HasRoots(c) && Enumerate(events, types, regions)
    ensures o.TypeError? <==> |events| >= 2 && Mixed(events)
    ensures |events| < 2 ==> o == Mined(Tally(0, [], 0))
    ensures |events| >= 2 && o.Mined? ==> Tallies(events, c, Candidates(types, types, regions), o.tally)
  {
    if |events| < 2 {
      return Mined(Tally(0, [], 0));
    }
    SortableExactlyWhen(events, types, regions);
    if !Sortable(regions) {
      return TypeError;
    }
    var tally := TrySources(events, c, types, regions);
    o := Mined(tally);
  }

  // ---------------------------------------------------------------- the hash

  function WindowText(days: nat): (t: string)
    requires days in WINDOWS
    ensures ColonFree(t)
  {
    if days == 7 then "7" else if days == 14 then "14" else "30"
  }

  /** The folded label of a region; `fold` strips and lower-cases. */
  function Label(fold: string -> string, region: Option<string>): string {
    fold(match region case None => "" case Some(r) => r)
  }

  /** The text that is hashed, with version 1.0. */
  function RawKey(fold: string -> string, p: Pattern): string
    requires p.days in WINDOWS
  {
    "1.0" + ":" + (p.source + ":" + (p.target + ":" + (Label(fold, p.region) + ":" + WindowText(p.days))))
  }

  ghost predicate SameIdentity(fold: string -> string, p: Pattern, q: Pattern) {
    p.source == q.source && p.target == q.target && p.days == q.days && Label(fold, p.region) == Label(fold, q.region)
  }

  /** For types without a colon the hashed text tells two candidates apart unless their regions fold together. */
  lemma RawKeyIdentifies(fold: string -> string, p: Pattern, q: Pattern)
    requires p.days in WINDOWS && q.days in WINDOWS
    requires ColonFree(p.source) && ColonFree(p.target)
    requires ColonFree(q.source) && ColonFree(q.target)
    ensures RawKey(fold, p) == RawKey(fold, q) <==> SameIdentity(fold, p, q)
  {
    if RawKey(fold, p) == RawKey(fold, q) {
      var p1, q1 := Label(fold, p.region) + ":" + WindowText(p.days), Label(fold, q.region) + ":" + WindowText(q.days);
      SplitUnique("1.0", p.source + ":" + (p.target + ":" + p1), "1.0", q.source + ":" + (q.target + ":" + q1));
      SplitUnique(p.source, p.target + ":" + p1, q.source, q.target + ":" + q1);
      SplitUnique(p.target, p1, q.target, q1);
      LastSplitUnique(Label(fold, p.region), WindowText(p.days), Label(fold, q.region), WindowText(q.days));
    }
  }

  /** Types, folded region: the part of the text before the window. */
  function Joined(fold: string -> string, p: Pattern): string {
    p.source + ":" + (p.target + ":" + Label(fold, p.region))
  }

  /** For all types: the texts agree exactly when the windows and the joined parts do. */
  lemma RawKeyAgreesExactlyWhen(fold: string -> string, p: Pattern, q: Pattern)
    requires p.days in WINDOWS && q.days in WINDOWS
    ensures RawKey(fold, p) == RawKey(fold, q) <==> p.days == q.days && Joined(fold, p) == Joined(fold, q)
  {
    RawKeySplits(fold, p);
    RawKeySplits(fold, q);
    if RawKey(fold, p) == RawKey(fold, q) {
      LastSplitUnique("1.0" + ":" + Joined(fold, p), WindowText(p.days), "1.0" + ":" + Joined(fold, q), WindowText(q.days));
      SplitUnique("1.0", Joined(fold, p), "1.0", Joined(fold, q));
    }
  }

  lemma RawKeySplits(fold: string -> string, p: Pattern)
    requires p.days in WINDOWS
    ensures RawKey(fold, p) == "1.0" + ":" + Joined(fold, p) + ":" + WindowText(p.days)
  {
    var rest := ":" + WindowText(p.days);
    assert Label(fold, p.region) + ":" + WindowText(p.days) == Label(fold, p.region) + rest;
    assert p.target + ":" + (Label(fold, p.region) + rest) == (p.target + ":" + Label(fold, p.region)) + rest;
    assert p.source + ":" + ((p.target + ":" + Label(fold, p.region)) + rest) == Joined(fold, p) + rest;
    assert "1.0" + ":" + (Joined(fold, p) + rest) == "1.0" + ":" + Joined(fold, p) + rest;
  }

  /** With a colon in a type two different candidates share the text, for any three texts joined in two ways. */
  lemma ColonConfusesKeys(fold: string -> string, region: Option<string>, days: nat, x: string, y: string, z: string)
    requires days in WINDOWS
    ensures RawKey(fold, Pattern(x + ":" + y, z, region, days)) == RawKey(fold, Pattern(x, y + ":" + z, region, days))
  {
    var rest := ":" + Label(fold, region);
    assert (x + ":" + y) + ":" + (z + rest) == x + ":" + ((y + ":" + z) + rest);
    RawKeyAgreesExactlyWhen(fold, Pattern(x + ":" + y, z, region, days), Pattern(x, y + ":" + z, region, days));
  }

  function Hashes(hash: string -> string, fold: string -> string, ps: seq<Pattern>): (hs: seq<string>)
    requires forall p :: p in ps ==> p.days in WINDOWS
    ensures |hs| == |ps| && forall i :: 0 <= i < |ps| ==> hs[i] == hash(RawKey(fold, ps[i]))
  {
    seq(|ps|, i requires 0 <= i < |ps| => hash(RawKey(fold, ps[i])))
  }

  ghost predicate NoCollisions(hash: string -> string) { forall a, b :: hash(a) == hash(b) ==> a == b }

  /** No later pattern of the run is hashed from the same text. */
  ghost predicate LastOfItsKey(fold: string -> string, ps: seq<Pattern>, i: nat)
    requires i < |ps| && forall p :: p in ps ==> p.days in WINDOWS
  {
    forall j :: i < j < |ps| ==> RawKey(fold, ps[j]) != RawKey(fold, ps[i])
  }

  /**
   After a run saves its accepted patterns, whatever was saved before, a pattern's row is active exactly when
   no later pattern of the same run is hashed from the same text.
   */
  lemma {:induction false} SavedPatternIsActiveExactlyWhen(
    hash: string -> string, fold: string -> string, past: seq<string>, ps: seq<Pattern>, i: nat)
    requires NoCollisions(hash) && i < |ps| && forall p :: p in ps ==> p.days in WINDOWS
    ensures var rows := PatternFindings.Replay(past + Hashes(hash, fold, ps));
      && |rows| == |past| + |ps| && rows[|past| + i].hash == hash(RawKey(fold, ps[i]))
      && (rows[|past| + i].active <==> LastOfItsKey(fold, ps, i))
  {
    var hs := Hashes(hash, fold, ps);
    LaterSaveRetires(past, hs, i);
    forall j | i < j < |ps| ensures hs[j] == hs[i] <==> RawKey(fold, ps[j]) == RawKey(fold, ps[i]) {
    }
  }

  lemma {:induction false} LaterSaveRetires(past: seq<string>, hs: seq<string>, i: nat)
    requires i < |hs|
    ensures var rows := PatternFindings.Replay(past + hs);
      && |rows| == |past| + |hs| && rows[|past| + i].hash == hs[i]
      && (rows[|past| + i].active <==> forall j :: i < j < |hs| ==> hs[j] != hs[i])
  {
    var saves := past + hs;
    PatternFindings.VersionsAreConsecutive(saves);
    assert PatternFindings.RowFits(saves, PatternFindings.Replay(saves), |past| + i);
    assert saves[|past| + i + 1..] == hs[i + 1..];
    OccursLater(hs, i);
  }

  lemma OccursLater(hs: seq<string>, i: nat)
    requires i < |hs|
    ensures hs[i] in hs[i + 1..] <==> exists j :: i < j < |hs| && hs[j] == hs[i]
  {
    if j :| i < j < |hs| && hs[j] == hs[i] {
      assert hs[i + 1..][j - i - 1] == hs[j];
    }
  }

  /** Where no type holds a colon: exactly when no later pattern differs from it in at most the spelling of the region. */
  lemma LastOfItsRegion(fold: string -> string, ps: seq<Pattern>, i: nat)
    requires i < |ps| && forall p :: p in ps ==> p.days in WINDOWS && ColonFree(p.source) && ColonFree(p.target)
    ensures LastOfItsKey(fold, ps, i) <==> forall j :: i < j < |ps| ==> !SameIdentity(fold, ps[i], ps[j])
  {
    forall j | i < j < |ps| ensures RawKey(fold, ps[j]) == RawKey(fold, ps[i]) <==> SameIdentity(fold, ps[i], ps[j]) {
      assert ps[i] in ps && ps[j] in ps;
      RawKeyIdentifies(fold, ps[i], ps[j]);
    }
  }

  // ---------------------------------------------------------------- the run and its saves

  /** A table after saving some hashes in order. */
  ghost function SaveEach(rows: seq<PatternFindings.Finding>, hs: seq<string>): seq<PatternFindings.Finding>
    decreases |hs|
  {
    if hs == [] then rows else PatternFindings.Save(SaveEach(rows, hs[..|hs| - 1]), hs[|hs| - 1])
  }

  lemma {:induction false} ReplayLast(before: seq<string>, h: string)
    ensures PatternFindings.Replay(before + [h]) == PatternFindings.Save(PatternFindings.Replay(before), h)
  {
    assert (before + [h])[..|before|] == before;
  }

  lemma {:induction false} SaveEachReplays(past: seq<string>, hs: seq<string>)
    ensures SaveEach(PatternFindings.Replay(past), hs) == PatternFindings.Replay(past + hs)
    decreases |hs|
  {
    if hs == [] {
      assert past + hs == past;
    } else {
      SaveEachReplays(past, hs[..|hs| - 1]);
      AppendLast(past, hs);
      ReplayLast(past + hs[..|hs| - 1], hs[|hs| - 1]);
    }
  }

  lemma AppendLast(past: seq<string>, hs: seq<string>)
    requires hs != []
    ensures past + hs == (past + hs[..|hs| - 1]) + [hs[|hs| - 1]]
  {
  }

  method SaveAll(repo: PatternFindings.Repository, hs: seq<string>)
    modifies repo
    ensures repo.rows == SaveEach(old(repo.rows), hs)
  {
    for i := 0 to |hs|
      invariant repo.rows == SaveEach(old(repo.rows), hs[..i])
    {
      assert hs[..i + 1][..i] == hs[..i];
      var saved := repo.SavePatternVersion(hs[i]);
    }
    assert hs[..|hs|] == hs;
  }

  /** The rows a run adds to the table, one per pattern. */
  ghost predicate SavedRows(rows: seq<PatternFindings.Finding>, past: nat, fold: string -> string, ps: seq<Pattern>)
    requires forall p :: p in ps ==> p.days in WINDOWS
  {
    |rows| == past + |ps| && forall i :: 0 <= i < |ps| ==> (rows[past + i].active <==> LastOfItsKey(fold, ps, i))
  }

  lemma {:induction false} SavedRowsAre(hash: string -> string, fold: string -> string, past: seq<string>, ps: seq<Pattern>)
    requires NoCollisions(hash) && forall p :: p in ps ==> p.days in WINDOWS
    ensures SavedRows(PatternFindings.Replay(past + Hashes(hash, fold, ps)), |past|, fold, ps)
  {
    PatternFindings.VersionsAreConsecutive(past + Hashes(hash, fold, ps));
    var rows := PatternFindings.Replay(past + Hashes(hash, fold, ps));
    forall i | 0 <= i < |ps| ensures rows[|past| + i].active <==> LastOfItsKey(fold, ps, i) {
      SavedPatternIsActiveExactlyWhen(hash, fold, past, ps, i);
    }
  }

  /**
   The whole job on a table left behind by any earlier saves: it fails exactly when labelled and unlabelled
   events meet, and then saves nothing; otherwise it saves each accepted pattern once, in order, and the row
   of a pattern is active exactly when no later pattern of the run is hashed from the same text.
   */
  method RunJob(repo: PatternFindings.Repository, ghost past: seq<string>, events: seq<Event>, c: Config, types: seq<string>,
                regions: seq<Option<string>>, hash: string -> string, fold: string -> string)
    returns (o: Outcome)
    requires HasRoots(c) && Enumerate(events, types, regions) && NoCollisions(hash)
    requires repo.rows == PatternFindings.Replay(past)
    modifies repo
    ensures o.TypeError? <==> |events| >= 2 && Mixed(events)
    ensures o.TypeError? || |events| < 2 ==> repo.rows == old(repo.rows)
    ensures |events| >= 2 && o.Mined? ==>
      var ps := Patterns(o.tally.accepted);
      && Tallies(events, c, Candidates(types, types, regions), o.tally)
      && (forall p :: p in ps ==> p.days in WINDOWS)
      && repo.rows == PatternFindings.Replay(past + Hashes(hash, fold, ps))
      && SavedRows(repo.rows, |past|, fold, ps)
  {
    o := ExecutePatternMining(events, c, types, regions);
    if o.TypeError? || |events| < 2 {
      return;
    }
    var ps := Patterns(o.tally.accepted);
    WindowsOnly(events, c, types, regions, ps);
    SaveAll(repo, Hashes(hash, fold, ps));
    SaveEachReplays(past, Hashes(hash, fold, ps));
    SavedRowsAre(hash, fold, past, ps);
  }

  lemma WindowsOnly(events: seq<Event>, c: Config, types: seq<string>, regions: seq<Option<string>>, ps: seq<Pattern>)
    requires AcceptsExactly(events, c, Candidates(types, types, regions), ps)
    ensures forall p :: p in ps ==> p.days in WINDOWS
  {
  }
}
