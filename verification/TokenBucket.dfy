/**
 The rate limiter's Lua token bucket (gateway/rate_limiter_redis.py): lazy refill, key expiry, no
 write on a denial. It is proved to be indistinguishable from a `Fluid` bucket that refills
 continuously, is updated by every request and never expires; the rate bound, the irrelevance of
 denied requests and the exactness of Retry-After are then read off the fluid bucket.
 */
module TokenBucket {
  import opened Basics

  /** The script arguments that are fixed for one key. */
  datatype Quota = Quota(capacity: real, rate: real) {
    predicate Valid() { capacity > 0.0 && rate > 0.0 }

    /** Tokens added over `elapsed` seconds. */
    function Gain(elapsed: real): real { elapsed * rate }

    /** Seconds given to EXPIRE. */
    function Ttl(): int
      requires Valid()
    {
      Ceil(capacity / rate)
    }
  }

  /** The Redis hash together with the instant at which Redis may drop it. */
  datatype Entry = Entry(tokens: real, lastUpdated: real, expiresAt: real)

  /**
   One evaluation of the script. `swept` says whether Redis, once the key's lifetime has passed,
   reports it missing; it has no effect before that instant.
   */
  datatype Request = Request(now: real, cost: real, swept: bool)

  datatype Reply = Reply(allowed: bool, tokens: real, retryAfter: int)

  // ---------------------------------------------------------------- the script

  /** What HMGET sees. */
  function Visible(stored: Option<Entry>, r: Request): Option<Entry> {
    if stored.Some? && r.swept && r.now >= stored.value.expiresAt then None else stored
  }

  /** The token count the script computes before it decides. */
  function Level(q: Quota, stored: Option<Entry>, now: real): real {
    match stored
    case None => q.capacity
    case Some(e) => MinReal(q.capacity, e.tokens + q.Gain(MaxReal(0.0, now - e.lastUpdated)))
  }

  function Step(q: Quota, stored: Option<Entry>, r: Request): (Option<Entry>, Reply)
    requires q.Valid()
  {
    var seen := Visible(stored, r);
    var tokens := Level(q, seen, r.now);
    if tokens >= r.cost then
      (Some(Entry(tokens - r.cost, r.now, r.now + q.Ttl() as real)), Reply(true, tokens - r.cost, 0))
    else
      (seen, Reply(false, tokens, Ceil((r.cost - tokens) / q.rate)))
  }

  /** The bucket of one key as the object the script mutates. */
  class RedisBucket {
    var stored: Option<Entry>

    constructor ()
      ensures stored == None
    {
      stored := None;
    }

    method Eval(q: Quota, r: Request) returns (reply: Reply)
      requires q.Valid()
      modifies this
      ensures (stored, reply) == Step(q, old(stored), r)
    {
      if stored.Some? && r.swept && r.now >= stored.value.expiresAt {
        stored := None;  // Redis drops the key
      }
      var tokens, lastUpdated;
      if stored.None? {
        tokens := q.capacity;
        lastUpdated := r.now;
      } else {
        var delta := MaxReal(0.0, r.now - stored.value.lastUpdated);
        tokens := MinReal(q.capacity, stored.value.tokens + q.Gain(delta));
        lastUpdated := r.now;
      }
      if tokens >= r.cost {
        tokens := tokens - r.cost;
        stored := Some(Entry(tokens, lastUpdated, r.now + Ceil(q.capacity / q.rate) as real));
        reply := Reply(true, tokens, 0);
      } else {
        var needed := r.cost - tokens;
        reply := Reply(false, tokens, Ceil(needed / q.rate));
      }
    }
  }

  // ---------------------------------------------------------------- runs

  function Run(q: Quota, stored: Option<Entry>, rs: seq<Request>): (replies: seq<Reply>)
    requires q.Valid()
    ensures |replies| == |rs|
    decreases |rs|
  {
    if rs == [] then [] else
      var (stored', reply) := Step(q, stored, rs[0]);
      [reply] + Run(q, stored', rs[1..])
  }

  function After(q: Quota, stored: Option<Entry>, rs: seq<Request>): Option<Entry>
    requires q.Valid()
    decreases |rs|
  {
    if rs == [] then stored else After(q, Step(q, stored, rs[0]).0, rs[1..])
  }

  /** Request times never go back, and no cost is negative. */
  predicate Timely(from: real, rs: seq<Request>)
    decreases |rs|
  {
    rs == [] || (from <= rs[0].now && rs[0].cost >= 0.0 && Timely(rs[0].now, rs[1..]))
  }

  /** A state some request at or before `now` could have left behind. */
  ghost predicate Sound(q: Quota, stored: Option<Entry>, now: real)
    requires q.Valid()
  {
    stored.Some? ==>
      && 0.0 <= stored.value.tokens <= q.capacity
      && stored.value.lastUpdated <= now
      && stored.value.expiresAt == stored.value.lastUpdated + q.Ttl() as real
  }

  // ---------------------------------------------------------------- the fluid bucket

  datatype Fluid = Fluid(level: real, at: real)

  function Refill(q: Quota, f: Fluid, now: real): real {
    MinReal(q.capacity, f.level + q.Gain(now - f.at))
  }

  function FluidStep(q: Quota, f: Fluid, r: Request): (Fluid, Reply)
    requires q.Valid()
  {
    var level := Refill(q, f, r.now);
    if level >= r.cost then
      (Fluid(level - r.cost, r.now), Reply(true, level - r.cost, 0))
    else
      (Fluid(level, r.now), Reply(false, level, Ceil((r.cost - level) / q.rate)))
  }

  function FluidRun(q: Quota, f: Fluid, rs: seq<Request>): (replies: seq<Reply>)
    requires q.Valid()
    ensures |replies| == |rs|
    decreases |rs|
  {
    if rs == [] then [] else
      var (f', reply) := FluidStep(q, f, rs[0]);
      [reply] + FluidRun(q, f', rs[1..])
  }

  // ---------------------------------------------------------------- refinement

  lemma TtlRefillsCompletely(q: Quota, elapsed: real)
    requires q.Valid() && elapsed >= q.Ttl() as real
    ensures q.Gain(elapsed) >= q.capacity
  {
    assert elapsed >= q.capacity / q.rate;
    assert elapsed * q.rate >= q.capacity / q.rate * q.rate;
  }

  lemma GainGrows(q: Quota, d: real, d': real)
    requires q.Valid() && d <= d'
    ensures q.Gain(d) <= q.Gain(d')
    ensures q.Gain(0.0) == 0.0
  {
    assert (d' - d) * q.rate >= 0.0;
  }

  lemma GainAdds(q: Quota, d: real, d': real)
    ensures q.Gain(d + d') == q.Gain(d) + q.Gain(d')
  {
  }

  /** Dropping the key when it may be dropped does not change the level now or later. */
  lemma VisibleLevel(q: Quota, stored: Option<Entry>, r: Request, t: real)
    requires q.Valid() && Sound(q, stored, r.now) && r.now <= t
    ensures Level(q, Visible(stored, r), t) == Level(q, stored, t)
  {
    if Visible(stored, r) != stored {
      TtlRefillsCompletely(q, t - stored.value.lastUpdated);
    }
  }

  /** Lazy refill over a gap equals refill in two stages. */
  lemma LevelAdvances(q: Quota, stored: Option<Entry>, t: real, t': real)
    requires q.Valid() && Sound(q, stored, t) && t <= t'
    ensures Level(q, stored, t') == Refill(q, Fluid(Level(q, stored, t), t), t')
  {
    GainGrows(q, 0.0, t' - t);
    if stored.Some? {
      var last := stored.value.lastUpdated;
      GainAdds(q, t - last, t' - t);
    }
  }

  lemma StepSound(q: Quota, stored: Option<Entry>, r: Request, from: real)
    requires q.Valid() && Sound(q, stored, from) && from <= r.now && r.cost >= 0.0
    ensures Sound(q, Step(q, stored, r).0, r.now)
    ensures 0.0 <= Level(q, stored, r.now) <= q.capacity
  {
    if stored.Some? {
      GainGrows(q, 0.0, r.now - stored.value.lastUpdated);
    }
    VisibleLevel(q, stored, r, r.now);
  }

  /** One script evaluation is one fluid step on the level it can see. */
  lemma StepRefinesFluid(q: Quota, stored: Option<Entry>, r: Request, from: real)
    requires q.Valid() && Sound(q, stored, from) && from <= r.now && r.cost >= 0.0
    ensures Step(q, stored, r).1 == FluidStep(q, Fluid(Level(q, stored, from), from), r).1
    ensures Fluid(Level(q, Step(q, stored, r).0, r.now), r.now)
         == FluidStep(q, Fluid(Level(q, stored, from), from), r).0
  {
    VisibleLevel(q, stored, r, r.now);
    LevelAdvances(q, stored, from, r.now);
    StepSound(q, stored, r, from);
  }

  /** Every timely run, whatever Redis does with expired keys, replies as the fluid bucket does. */
  lemma {:induction false} RunRefinesFluid(q: Quota, stored: Option<Entry>, from: real, rs: seq<Request>)
    requires q.Valid() && Sound(q, stored, from) && Timely(from, rs)
    ensures Run(q, stored, rs) == FluidRun(q, Fluid(Level(q, stored, from), from), rs)
    decreases |rs|
  {
    if rs != [] {
      StepRefinesFluid(q, stored, rs[0], from);
      StepSound(q, stored, rs[0], from);
      RunRefinesFluid(q, Step(q, stored, rs[0]).0, rs[0].now, rs[1..]);
    }
  }

  /** Stored tokens stay within 0 and the capacity over every timely run. */
  lemma {:induction false} RunStaysSound(q: Quota, stored: Option<Entry>, from: real, rs: seq<Request>)
    requires q.Valid() && Sound(q, stored, from) && Timely(from, rs)
    ensures Sound(q, After(q, stored, rs), if rs == [] then from else rs[|rs| - 1].now)
    decreases |rs|
  {
    if rs != [] {
      StepSound(q, stored, rs[0], from);
      RunStaysSound(q, Step(q, stored, rs[0]).0, rs[0].now, rs[1..]);
    }
  }

  // ---------------------------------------------------------------- which requests are admitted

  /** The cost admitted by the requests from number `i` up to number `k`. */
  function Spent(rs: seq<Request>, replies: seq<Reply>, i: nat, k: nat): real
    requires |rs| == |replies| && k <= |rs|
  {
    if k <= i then 0.0 else Spent(rs, replies, i, k - 1) + if replies[k - 1].allowed then rs[k - 1].cost else 0.0
  }

  /**
   There is room for `x` at `now` after the first `k` requests: it is no more than the capacity, and since every
   earlier admission, what has been admitted from it on and `x` are no more than the capacity and the gain since.
   */
  ghost predicate Room(q: Quota, rs: seq<Request>, replies: seq<Reply>, k: nat, now: real, x: real)
    requires |rs| == |replies| && k <= |rs|
  {
    x <= q.capacity && forall i :: 0 <= i < k && replies[i].allowed ==> RoomSince(q, rs, replies, i, k, now, x)
  }

  predicate RoomSince(q: Quota, rs: seq<Request>, replies: seq<Reply>, i: nat, k: nat, now: real, x: real)
    requires |rs| == |replies| && i < k <= |rs|
  {
    Spent(rs, replies, i, k) + x <= q.capacity + q.Gain(now - rs[i].now)
  }

  lemma {:induction false} AfterAppend(q: Quota, stored: Option<Entry>, rs: seq<Request>, k: nat)
    requires q.Valid() && k < |rs|
    ensures After(q, stored, rs[..k + 1]) == Step(q, After(q, stored, rs[..k]), rs[k]).0
    ensures Run(q, stored, rs)[k] == Step(q, After(q, stored, rs[..k]), rs[k]).1
    decreases k
  {
    if k == 0 {
      assert rs[..1][1..] == [] && rs[..0] == [];
      assert After(q, stored, rs[..1]) == After(q, Step(q, stored, rs[0]).0, []);
    } else {
      assert rs[..k + 1][1..] == rs[1..][..k] && rs[..k][1..] == rs[1..][..k - 1];
      AfterAppend(q, Step(q, stored, rs[0]).0, rs[1..], k - 1);
    }
  }

  lemma {:induction false} TimelyAt(from: real, rs: seq<Request>, i: nat, j: nat)
    requires Timely(from, rs) && i <= j < |rs|
    ensures from <= rs[i].now <= rs[j].now && rs[j].cost >= 0.0
    decreases j
  {
    if j > 0 { TimelyAt(rs[0].now, rs[1..], if i == 0 then 0 else i - 1, j - 1); }
  }

  lemma {:induction false} TimelyPrefix(from: real, rs: seq<Request>, k: nat)
    requires Timely(from, rs) && k <= |rs|
    ensures Timely(from, rs[..k])
    decreases |rs|
  {
    if k > 0 {
      assert rs[..k][1..] == rs[1..][..k - 1];
      TimelyPrefix(rs[0].now, rs[1..], k - 1);
    }
  }

  /** The level behind a request: what was there, less what it took, and the gain since. */
  lemma LevelAfterStep(q: Quota, stored: Option<Entry>, r: Request, from: real, now: real)
    requires q.Valid() && Sound(q, stored, from) && from <= r.now <= now && r.cost >= 0.0
    ensures var (stored', reply) := Step(q, stored, r);
      && (reply.allowed <==> Level(q, stored, r.now) >= r.cost)
      && reply.tokens == Level(q, stored, r.now) - (if reply.allowed then r.cost else 0.0)
      && Level(q, stored', now) == MinReal(q.capacity, reply.tokens + q.Gain(now - r.now))
  {
    VisibleLevel(q, stored, r, r.now);
    StepSound(q, stored, r, from);
    LevelAdvances(q, Step(q, stored, r).0, r.now, now);
    GainGrows(q, 0.0, 0.0);
  }

  /** The conditions for room behind one more request, read off those before it. */
  lemma RoomNext(q: Quota, rs: seq<Request>, replies: seq<Reply>, from: real, k: nat, now: real, x: real)
    requires q.Valid() && |rs| == |replies| && k < |rs| && Timely(from, rs) && rs[k].now <= now
    ensures var s := if replies[k].allowed then rs[k].cost else 0.0;
      Room(q, rs, replies, k + 1, now, x) <==>
        x <= q.capacity && Room(q, rs, replies, k, rs[k].now, x + s - q.Gain(now - rs[k].now))
  {
    var s, g, next := if replies[k].allowed then rs[k].cost else 0.0, q.Gain(now - rs[k].now), k + 1;
    var t, y := rs[k].now, x + s - g;
    GainGrows(q, 0.0, now - t);
    forall i: nat | i < k ensures RoomSince(q, rs, replies, i, next, now, x) <==> RoomSince(q, rs, replies, i, k, t, y) {
      GainAdds(q, t - rs[i].now, now - t);
      assert t - rs[i].now + (now - t) == now - rs[i].now;
    }
    assert Spent(rs, replies, k, next) == Spent(rs, replies, k, k) + s;
    if Room(q, rs, replies, next, now, x) {
      if replies[k].allowed { assert RoomSince(q, rs, replies, k, next, now, x); }
      assert Room(q, rs, replies, k, t, y);
    }
    if x <= q.capacity && Room(q, rs, replies, k, t, y) {
      assert replies[k].allowed ==> RoomSince(q, rs, replies, k, next, now, x);
      assert Room(q, rs, replies, next, now, x);
    }
  }

  lemma {:induction false} LevelIsRoom(q: Quota, from: real, rs: seq<Request>, k: nat, now: real, x: real)
    requires q.Valid() && Timely(from, rs) && k <= |rs| && from <= now && (k > 0 ==> rs[k - 1].now <= now)
    ensures x <= Level(q, After(q, None, rs[..k]), now) <==> Room(q, rs, Run(q, None, rs), k, now, x)
    decreases k
  {
    if k == 0 {
      assert rs[..0] == [];
    } else {
      var r, replies := rs[k - 1], Run(q, None, rs);
      var before := After(q, None, rs[..k - 1]);
      TimelyAt(from, rs, if k == 1 then 0 else k - 2, k - 1);
      TimelyPrefix(from, rs, k - 1);
      RunStaysSound(q, None, from, rs[..k - 1]);
      AfterAppend(q, None, rs, k - 1);
      LevelAfterStep(q, before, r, if k == 1 then from else rs[k - 2].now, now);
      var s, g := if replies[k - 1].allowed then r.cost else 0.0, q.Gain(now - r.now);
      LevelIsRoom(q, from, rs, k - 1, r.now, x + s - g);
      RoomNext(q, rs, replies, from, k - 1, now, x);
    }
  }

  /**
   The decisions of every timely run, said of admissions alone: request `k` is admitted if and only if there is
   room for its cost, and the tokens the reply reports are the most there is room for right behind it.
   */
  lemma AdmittedExactlyWhenRoom(q: Quota, from: real, rs: seq<Request>, k: nat, x: real)
    requires q.Valid() && Timely(from, rs) && k < |rs|
    ensures var replies := Run(q, None, rs);
      && (replies[k].allowed <==> Room(q, rs, replies, k, rs[k].now, rs[k].cost))
      && (replies[k].allowed ==> replies[k].retryAfter == 0)
      && (x <= replies[k].tokens <==> Room(q, rs, replies, k + 1, rs[k].now, x))
  {
    TimelyAt(from, rs, if k == 0 then 0 else k - 1, k);
    LevelIsRoom(q, from, rs, k, rs[k].now, rs[k].cost);
    LevelIsRoom(q, from, rs, k + 1, rs[k].now, x);
    TimelyPrefix(from, rs, k);
    RunStaysSound(q, None, from, rs[..k]);
    AfterAppend(q, None, rs, k);
    LevelAfterStep(q, After(q, None, rs[..k]), rs[k], if k == 0 then from else rs[k - 1].now, rs[k].now);
    RunStaysSound(q, None, from, rs[..k]);
    StepSound(q, After(q, None, rs[..k]), rs[k], if k == 0 then from else rs[k - 1].now);
    GainGrows(q, 0.0, 0.0);
  }

  // ---------------------------------------------------------------- expiry

  /** The same requests, with Redis making other choices about expired keys. */
  predicate SameTraffic(rs: seq<Request>, rs': seq<Request>) {
    |rs| == |rs'| && forall i :: 0 <= i < |rs| ==> rs[i].now == rs'[i].now && rs[i].cost == rs'[i].cost
  }

  lemma {:induction false} FluidIgnoresSweeping(q: Quota, f: Fluid, rs: seq<Request>, rs': seq<Request>)
    requires q.Valid() && SameTraffic(rs, rs')
    ensures FluidRun(q, f, rs) == FluidRun(q, f, rs')
    decreases |rs|
  {
    if rs != [] {
      assert FluidStep(q, f, rs[0]) == FluidStep(q, f, rs'[0]);
      FluidIgnoresSweeping(q, FluidStep(q, f, rs[0]).0, rs[1..], rs'[1..]);
    }
  }

  lemma {:induction false} TimelyIgnoresSweeping(from: real, rs: seq<Request>, rs': seq<Request>)
    requires SameTraffic(rs, rs') && Timely(from, rs)
    ensures Timely(from, rs')
    decreases |rs|
  {
    if rs != [] {
      TimelyIgnoresSweeping(rs[0].now, rs[1..], rs'[1..]);
    }
  }

  /** Key expiry is unobservable: with or without it, every reply of every run is the same. */
  lemma {:induction false} ExpiryIsUnobservable(q: Quota, from: real, rs: seq<Request>, rs': seq<Request>)
    requires q.Valid() && Timely(from, rs) && SameTraffic(rs, rs')
    ensures Run(q, None, rs) == Run(q, None, rs')
  {
    TimelyIgnoresSweeping(from, rs, rs');
    RunRefinesFluid(q, None, from, rs);
    RunRefinesFluid(q, None, from, rs');
    FluidIgnoresSweeping(q, Fluid(q.capacity, from), rs, rs');
  }

  // ---------------------------------------------------------------- the rate bound

  /** Cost admitted at instants within `[a, b]`. */
  function AdmittedWithin(rs: seq<Request>, replies: seq<Reply>, a: real, b: real): real
    requires |rs| == |replies|
  {
    if rs == [] then 0.0 else
      (if replies[0].allowed && a <= rs[0].now <= b then rs[0].cost else 0.0)
      + AdmittedWithin(rs[1..], replies[1..], a, b)
  }

  /** What a fluid bucket can still admit up to time `b`. */
  function Allowance(q: Quota, f: Fluid, a: real, b: real): real {
    if f.at < a then q.capacity + q.Gain(b - a)
    else if f.at <= b then f.level + q.Gain(b - f.at)
    else 0.0
  }

  lemma AllowanceStep(q: Quota, f: Fluid, r: Request, a: real, b: real)
    requires q.Valid() && a <= b && f.at <= r.now && 0.0 <= r.cost && 0.0 <= f.level <= q.capacity
    ensures var (f', reply) := FluidStep(q, f, r);
      && 0.0 <= f'.level <= q.capacity
      && (if reply.allowed && a <= r.now <= b then r.cost else 0.0) + Allowance(q, f', a, b) <= Allowance(q, f, a, b)
  {
    GainGrows(q, 0.0, r.now - f.at);
    GainGrows(q, 0.0, b - a);
    if a <= r.now <= b {
      GainGrows(q, b - r.now, b - a);
      if f.at >= a {
        GainAdds(q, b - r.now, r.now - f.at);
      }
    } else if f.at <= b {
      GainGrows(q, 0.0, b - f.at);
    }
  }

  lemma {:induction false} FluidAdmitsWithinAllowance(q: Quota, f: Fluid, rs: seq<Request>, a: real, b: real)
    requires q.Valid() && a <= b && Timely(f.at, rs) && 0.0 <= f.level <= q.capacity
    ensures AdmittedWithin(rs, FluidRun(q, f, rs), a, b) <= Allowance(q, f, a, b)
    decreases |rs|
  {
    if rs == [] {
      GainGrows(q, 0.0, b - a);
      if f.at <= b { GainGrows(q, 0.0, b - f.at); }
    } else {
      AllowanceStep(q, f, rs[0], a, b);
      var (f', reply) := FluidStep(q, f, rs[0]);
      FluidAdmitsWithinAllowance(q, f', rs[1..], a, b);
      assert FluidRun(q, f, rs)[1..] == FluidRun(q, f', rs[1..]);
    }
  }

  /**
   Over every timely run and every time interval, the admitted cost is at most the capacity plus
   the refill rate times the length of the interval.
   */
  lemma {:induction false} AdmittedCostIsBounded(q: Quota, from: real, rs: seq<Request>, a: real, b: real)
    requires q.Valid() && Timely(from, rs) && a <= b
    ensures AdmittedWithin(rs, Run(q, None, rs), a, b) <= q.capacity + q.Gain(b - a)
  {
    RunRefinesFluid(q, None, from, rs);
    FluidAdmitsWithinAllowance(q, Fluid(q.capacity, from), rs, a, b);
    GainGrows(q, 0.0, b - a);
    if a <= from <= b { GainGrows(q, b - from, b - a); }
  }

  // --- request times that go back

  /** How far request times go back in total, the first one compared with `from`. */
  function Backward(from: real, rs: seq<Request>): real
    decreases |rs|
  {
    if rs == [] then 0.0 else MaxReal(0.0, from - rs[0].now) + Backward(rs[0].now, rs[1..])
  }

  /** How far the request times of a run go back in total. */
  function SetBack(rs: seq<Request>): real { if rs == [] then 0.0 else Backward(rs[0].now, rs) }

  predicate Costed(rs: seq<Request>) { forall i :: 0 <= i < |rs| ==> rs[i].cost >= 0.0 }

  /** A state any requests could have left behind, in whatever order they were stamped. */
  ghost predicate Kept(q: Quota, stored: Option<Entry>)
    requires q.Valid()
  {
    stored.Some? ==>
      0.0 <= stored.value.tokens <= q.capacity && stored.value.expiresAt == stored.value.lastUpdated + q.Ttl() as real
  }

  /** What can still be admitted within `[a, b]`, all instants in tokens: from `level` at `t`, if time only moved on. */
  function Reserve(capacity: real, level: real, t: real, a: real, b: real): real {
    if t < a then MinReal(capacity, level + (a - t)) + (b - a) else MaxReal(0.0, level + (b - t))
  }

  /** Moving from `t` to `n` costs the reserve what is admitted within the interval, up to the step back. */
  lemma ReserveMoves(capacity: real, level: real, t: real, n: real, spent: real, level': real, a: real, b: real)
    requires a <= b && 0.0 <= level <= capacity && 0.0 <= spent && 0.0 <= level'
    requires level' + spent <= capacity && level' + spent <= level + MaxReal(0.0, n - t)
    ensures (if a <= n <= b then spent else 0.0) + Reserve(capacity, level', n, a, b)
         <= Reserve(capacity, level, t, a, b) + MaxReal(0.0, t - n)
  {
  }

  lemma VisibleLevelAnyTime(q: Quota, stored: Option<Entry>, r: Request)
    requires q.Valid() && Kept(q, stored)
    ensures Level(q, Visible(stored, r), r.now) == Level(q, stored, r.now) && Kept(q, Visible(stored, r))
  {
    if Visible(stored, r) != stored {
      TtlRefillsCompletely(q, r.now - stored.value.lastUpdated);
    }
  }

  lemma LevelGrowsAtMost(q: Quota, stored: Option<Entry>, t: real, n: real)
    requires q.Valid() && Kept(q, stored)
    ensures 0.0 <= Level(q, stored, n) <= q.capacity
    ensures Level(q, stored, n) <= Level(q, stored, t) + q.Gain(MaxReal(0.0, n - t))
  {
    GainGrows(q, 0.0, MaxReal(0.0, n - t));
    if stored.Some? {
      var last := stored.value.lastUpdated;
      var before, after := MaxReal(0.0, t - last), MaxReal(0.0, n - last);
      GainGrows(q, 0.0, before);
      GainGrows(q, 0.0, after);
      GainGrows(q, after, before + MaxReal(0.0, n - t));
      GainAdds(q, before, MaxReal(0.0, n - t));
    }
  }

  /** Instants measured in tokens keep their order and their distances. */
  lemma TokenTime(q: Quota, x: real, y: real)
    requires q.Valid()
    ensures x < y <==> q.Gain(x) < q.Gain(y)
    ensures q.Gain(y - x) == q.Gain(y) - q.Gain(x)
    ensures q.Gain(MaxReal(0.0, y - x)) == MaxReal(0.0, q.Gain(y) - q.Gain(x))
  {
    GainAdds(q, x, y - x);
    if x < y { ProductSign(y - x, q.rate); }
    if y < x { ProductSign(x - y, q.rate); GainAdds(q, y, x - y); }
    GainGrows(q, 0.0, 0.0);
  }

  lemma StepSpends(q: Quota, stored: Option<Entry>, r: Request, t: real)
    requires q.Valid() && Kept(q, stored) && r.cost >= 0.0
    ensures var (stored', reply) := Step(q, stored, r); var spent := if reply.allowed then r.cost else 0.0;
      && Kept(q, stored') && 0.0 <= Level(q, stored', r.now)
      && Level(q, stored', r.now) + spent <= q.capacity
      && Level(q, stored', r.now) + spent <= Level(q, stored, t) + q.Gain(MaxReal(0.0, r.now - t))
  {
    VisibleLevelAnyTime(q, stored, r);
    LevelGrowsAtMost(q, stored, t, r.now);
    GainGrows(q, 0.0, 0.0);
    var (stored', reply) := Step(q, stored, r);
    if reply.allowed {
      assert stored'.Some? && Level(q, stored', r.now) == MinReal(q.capacity, stored'.value.tokens + q.Gain(0.0));
    }
  }

  lemma {:induction false} RunWithinReserve(q: Quota, stored: Option<Entry>, t: real, rs: seq<Request>, a: real, b: real)
    requires q.Valid() && Kept(q, stored) && Costed(rs) && a <= b
    ensures AdmittedWithin(rs, Run(q, stored, rs), a, b)
         <= Reserve(q.capacity, Level(q, stored, t), q.Gain(t), q.Gain(a), q.Gain(b)) + q.Gain(Backward(t, rs))
    decreases |rs|
  {
    LevelGrowsAtMost(q, stored, t, t);
    TokenTime(q, a, b);
    if rs == [] {
      GainGrows(q, 0.0, 0.0);
      TokenTime(q, t, a);
    } else {
      var r := rs[0];
      var (stored', reply) := Step(q, stored, r);
      var spent := if reply.allowed then r.cost else 0.0;
      StepSpends(q, stored, r, t);
      RunWithinReserve(q, stored', r.now, rs[1..], a, b);
      TokenTime(q, t, r.now);
      TokenTime(q, r.now, t);
      TokenTime(q, r.now, a);
      TokenTime(q, b, r.now);
      ReserveMoves(q.capacity, Level(q, stored, t), q.Gain(t), q.Gain(r.now), spent, Level(q, stored', r.now), q.Gain(a), q.Gain(b));
      GainAdds(q, MaxReal(0.0, t - r.now), Backward(r.now, rs[1..]));
    }
  }

  /**
   Whatever the order of the request times, over every run and every interval the admitted cost is at most
   the capacity plus the rate times the interval's length and the total by which the times go back.
   */
  lemma {:induction false} AdmittedCostIsBoundedAnyTime(q: Quota, rs: seq<Request>, a: real, b: real)
    requires q.Valid() && Costed(rs) && a <= b
    ensures AdmittedWithin(rs, Run(q, None, rs), a, b) <= q.capacity + q.Gain(b - a + SetBack(rs))
  {
    GainAdds(q, b - a, SetBack(rs));
    GainGrows(q, 0.0, b - a);
    if rs != [] {
      var t := rs[0].now;
      RunWithinReserve(q, None, t, rs, a, b);
      TokenTime(q, a, b);
      TokenTime(q, t, a);
    }
  }

  /** Three requests, the middle one stamped before the other two and costing `e`. */
  function StepBack(q: Quota, early: real, late: real, e: real, g: real, swept: bool): seq<Request> {
    [Request(late, q.capacity - e, swept), Request(early, e, swept), Request(late, g, swept)]
  }

  lemma {:induction false} RunThree(q: Quota, a: Request, b: Request, c: Request)
    requires q.Valid()
    ensures var (s1, r1) := Step(q, None, a); var (s2, r2) := Step(q, s1, b);
      Run(q, None, [a, b, c]) == [r1, r2, Step(q, s2, c).1]
  {
    var (s1, r1) := Step(q, None, a);
    var (s2, r2) := Step(q, s1, b);
    var (s3, r3) := Step(q, s2, c);
    assert [a, b, c][1..] == [b, c] && [b, c][1..] == [c] && [c][1..] == [];
    assert Run(q, s2, [c]) == [r3];
    assert Run(q, s1, [b, c]) == [r2, r3];
  }

  lemma {:induction false} AdmittedThree(a: Request, b: Request, c: Request, ra: Reply, rb: Reply, rc: Reply, t: real)
    requires ra.allowed && rc.allowed && a.now == c.now == t != b.now
    ensures AdmittedWithin([a, b, c], [ra, rb, rc], t, t) == a.cost + c.cost
  {
    assert [a, b, c][1..] == [b, c] && [b, c][1..] == [c] && [c][1..] == [];
    assert [ra, rb, rc][1..] == [rb, rc] && [rb, rc][1..] == [rc] && [rc][1..] == [];
    assert AdmittedWithin([c], [rc], t, t) == c.cost;
    assert AdmittedWithin([b, c], [rb, rc], t, t) == c.cost;
  }

  /**
   The excess is real: for every quota and every two instants, one request stamped with the earlier instant
   between two stamped with the later one lets the capacity and the gain of the time in between through at
   the later instant, less what that request costs. It moves `last_updated` back, and that time is refilled
   again. A request that costs nothing attains the bound above.
   */
  lemma ClockStepBackOveradmits(q: Quota, early: real, late: real, e: real, swept: bool)
    requires q.Valid() && early < late && 0.0 <= e <= q.capacity
    ensures var g := MinReal(q.capacity, q.Gain(late - early)); var rs := StepBack(q, early, late, e, g, swept);
      && Costed(rs) && g > 0.0 && SetBack(rs) == late - early
      && AdmittedWithin(rs, Run(q, None, rs), late, late) == q.capacity + g - e
  {
    var g := MinReal(q.capacity, q.Gain(late - early));
    GainGrows(q, 0.0, late - early);
    assert g > 0.0 by { ProductSign(late - early, q.rate); }
    var ttl := q.Ttl() as real;
    assert ttl > 0.0 by { assert q.capacity / q.rate > 0.0; }
    var rs := StepBack(q, early, late, e, g, swept);
    var (s1, r1) := Step(q, None, rs[0]);
    assert r1.allowed && s1 == Some(Entry(e, late, late + ttl));
    var (s2, r2) := Step(q, s1, rs[1]);
    assert r2.allowed && s2 == Some(Entry(0.0, early, early + ttl)) by {
      assert Level(q, s1, early) == MinReal(q.capacity, e + q.Gain(0.0));
    }
    var r3 := Step(q, s2, rs[2]).1;
    assert r3.allowed;
    RunThree(q, rs[0], rs[1], rs[2]);
    AdmittedThree(rs[0], rs[1], rs[2], r1, r2, r3, late);
    BackwardThree(rs[0], rs[1], rs[2]);
  }

  lemma BackwardThree(x: Request, y: Request, z: Request)
    ensures SetBack([x, y, z]) == MaxReal(0.0, x.now - y.now) + MaxReal(0.0, y.now - z.now)
  {
    assert [x, y, z][1..] == [y, z] && [y, z][1..] == [z] && [z][1..] == [];
    assert Backward(y.now, [z]) == MaxReal(0.0, y.now - z.now) + Backward(z.now, []);
    assert Backward(x.now, [y, z]) == MaxReal(0.0, x.now - y.now) + Backward(y.now, [z]);
  }

  // ---------------------------------------------------------------- denied requests

  /** The elements of `s` whose flag is set, in order. */
  function Select<T>(s: seq<T>, keep: seq<bool>): seq<T>
    requires |s| == |keep|
  {
    if s == [] then [] else (if keep[0] then [s[0]] else []) + Select(s[1..], keep[1..])
  }

  lemma {:induction false} TimelySelect(from: real, rs: seq<Request>, keep: seq<bool>, later: real)
    requires |rs| == |keep| && from <= later && Timely(later, rs)
    ensures Timely(from, Select(rs, keep))
    decreases |rs|
  {
    if rs != [] {
      if keep[0] {
        TimelySelect(rs[0].now, rs[1..], keep[1..], rs[0].now);
        assert Select(rs, keep)[1..] == Select(rs[1..], keep[1..]);
      } else {
        TimelySelect(from, rs[1..], keep[1..], rs[0].now);
        assert Select(rs, keep) == Select(rs[1..], keep[1..]);
      }
    }
  }

  /** Two fluid states that agree once both have been refilled to the later of the two times. */
  ghost predicate Aligned(q: Quota, early: Fluid, late: Fluid) {
    early.at <= late.at && late.level == Refill(q, early, late.at)
  }

  lemma AlignedRefill(q: Quota, early: Fluid, late: Fluid, now: real)
    requires q.Valid() && Aligned(q, early, late) && late.at <= now
    ensures Refill(q, early, now) == Refill(q, late, now)
  {
    GainGrows(q, 0.0, now - late.at);
    GainAdds(q, now - late.at, late.at - early.at);
  }

  /** Only denied requests are dropped. */
  ghost predicate DropsOnlyDenied(replies: seq<Reply>, keep: seq<bool>)
    requires |replies| == |keep|
  {
    forall i :: 0 <= i < |keep| && !keep[i] ==> !replies[i].allowed
  }

  lemma {:induction false} FluidIgnoresDenied(q: Quota, early: Fluid, late: Fluid, rs: seq<Request>, keep: seq<bool>)
    requires q.Valid() && |rs| == |keep| && Aligned(q, early, late) && Timely(late.at, rs)
    requires DropsOnlyDenied(FluidRun(q, late, rs), keep)
    ensures FluidRun(q, early, Select(rs, keep)) == Select(FluidRun(q, late, rs), keep)
    decreases |rs|
  {
    if rs != [] {
      AlignedRefill(q, early, late, rs[0].now);
      var (late', reply) := FluidStep(q, late, rs[0]);
      var rest := FluidRun(q, late', rs[1..]);
      assert FluidRun(q, late, rs) == [reply] + rest;
      assert DropsOnlyDenied(rest, keep[1..]) by { DropsTail(reply, rest, keep); }
      if keep[0] {
        GainGrows(q, 0.0, 0.0);
        FluidStepLevel(q, late, rs[0]);
        FluidIgnoresDenied(q, late', late', rs[1..], keep[1..]);
        SelectCons(rs, keep);
        SelectCons([reply] + rest, keep);
        assert FluidStep(q, early, rs[0]) == (late', reply);
      } else {
        FluidIgnoresDenied(q, early, late', rs[1..], keep[1..]);
        SelectCons(rs, keep);
        SelectCons([reply] + rest, keep);
      }
    }
  }

  lemma DropsTail(reply: Reply, rest: seq<Reply>, keep: seq<bool>)
    requires |rest| + 1 == |keep| && DropsOnlyDenied([reply] + rest, keep)
    ensures DropsOnlyDenied(rest, keep[1..])
    ensures !keep[0] ==> !reply.allowed
  {
    assert forall i :: 0 <= i < |rest| ==> rest[i] == ([reply] + rest)[i + 1];
    assert ([reply] + rest)[0] == reply;
  }

  lemma {:induction false} SelectCons<T>(s: seq<T>, keep: seq<bool>)
    requires |s| == |keep| > 0
    ensures Select(s, keep) == (if keep[0] then [s[0]] else []) + Select(s[1..], keep[1..])
    ensures keep[0] ==> Select(s, keep)[1..] == Select(s[1..], keep[1..])
    ensures !keep[0] ==> Select(s, keep) == Select(s[1..], keep[1..])
  {
  }

  lemma FluidStepLevel(q: Quota, f: Fluid, r: Request)
    requires q.Valid() && r.cost >= 0.0
    ensures FluidStep(q, f, r).0.level <= q.capacity
  {
  }

  /** Removing any of the denied requests from a run leaves every other reply as it was. */
  lemma {:induction false} DeniedRequestsAreInvisible(q: Quota, from: real, rs: seq<Request>, keep: seq<bool>)
    requires q.Valid() && Timely(from, rs) && |rs| == |keep|
    requires DropsOnlyDenied(Run(q, None, rs), keep)
    ensures Run(q, None, Select(rs, keep)) == Select(Run(q, None, rs), keep)
  {
    var full := Fluid(q.capacity, from);
    TimelySelect(from, rs, keep, from);
    RunRefinesFluid(q, None, from, rs);
    RunRefinesFluid(q, None, from, Select(rs, keep));
    GainGrows(q, 0.0, 0.0);
    FluidIgnoresDenied(q, full, full, rs, keep);
  }

  // ---------------------------------------------------------------- Retry-After

  ghost predicate AllDenied(replies: seq<Reply>) {
    forall i :: 0 <= i < |replies| ==> !replies[i].allowed
  }

  /** While every request is denied, the fluid bucket only refills. */
  lemma {:induction false} DeniedRunOnlyRefills(q: Quota, f: Fluid, rs: seq<Request>, retry: Request)
    requires q.Valid() && Timely(f.at, rs + [retry])
    requires AllDenied(FluidRun(q, f, rs + [retry])[..|rs|])
    ensures FluidRun(q, f, rs + [retry])[|rs|].allowed <==> Refill(q, f, retry.now) >= retry.cost
    ensures f.at <= retry.now
    decreases |rs|
  {
    var all := rs + [retry];
    if rs != [] {
      var (f', reply) := FluidStep(q, f, rs[0]);
      assert all[1..] == rs[1..] + [retry];
      var rest := FluidRun(q, f', rs[1..] + [retry]);
      assert FluidRun(q, f, all) == [reply] + rest;
      assert AllDenied(rest[..|rs| - 1]) && !reply.allowed by {
        assert FluidRun(q, f, all)[..|rs|] == [reply] + rest[..|rs| - 1];
        DeniedTail(reply, rest[..|rs| - 1]);
      }
      DeniedRunOnlyRefills(q, f', rs[1..], retry);
      AlignedRefill(q, f, f', retry.now);
    }
  }

  lemma DeniedTail(reply: Reply, rest: seq<Reply>)
    requires AllDenied([reply] + rest)
    ensures AllDenied(rest) && !reply.allowed
  {
    assert forall i :: 0 <= i < |rest| ==> rest[i] == ([reply] + rest)[i + 1];
    assert ([reply] + rest)[0] == reply;
  }

  /** `d` whole seconds supply the missing tokens exactly when `d` reaches the announced wait. */
  lemma WaitIsExact(q: Quota, level: real, cost: real, d: nat)
    requires q.Valid() && level < cost <= q.capacity
    ensures MinReal(q.capacity, level + q.Gain(d as real)) >= cost <==> d >= Ceil((cost - level) / q.rate)
  {
    var wait := (cost - level) / q.rate;
    WaitRefills(q, cost - level);
    TokenTime(q, d as real, wait);
  }

  lemma WaitRefills(q: Quota, needed: real)
    requires q.Valid()
    ensures q.Gain(needed / q.rate) == needed
  {
  }

  lemma {:induction false} FluidRetryIsExact(q: Quota, f: Fluid, denied: seq<Request>, retry: Request, d: nat)
    requires q.Valid() && denied != [] && Timely(f.at, denied + [retry])
    requires denied[0].cost == retry.cost <= q.capacity && retry.now == denied[0].now + d as real
    requires AllDenied(FluidRun(q, f, denied + [retry])[..|denied|])
    ensures FluidRun(q, f, denied + [retry])[|denied|].allowed <==> d >= FluidStep(q, f, denied[0]).1.retryAfter
  {
    assert FluidRun(q, f, denied + [retry])[0] == FluidStep(q, f, denied[0]).1;
    DeniedRunOnlyRefills(q, f, denied, retry);
    var refilled := Fluid(Refill(q, f, denied[0].now), denied[0].now);
    assert (denied + [retry])[0] == denied[0];
    AlignedRefill(q, f, refilled, retry.now);
    WaitIsExact(q, refilled.level, retry.cost, d);
  }

  /**
   Exactness of Retry-After. Take any state a run can leave, and requests that are all denied from
   there on. A later retry of the first one's cost, a whole number `d` of seconds after it, is
   admitted exactly when `d` has reached the `retryAfter` the first one was given.
   */
  lemma {:induction false} RetryAfterIsExact(q: Quota, stored: Option<Entry>, from: real, denied: seq<Request>, retry: Request, d: nat)
    requires q.Valid() && Sound(q, stored, from) && denied != [] && Timely(from, denied + [retry])
    requires denied[0].cost == retry.cost <= q.capacity && retry.now == denied[0].now + d as real
    requires AllDenied(Run(q, stored, denied + [retry])[..|denied|])
    ensures Run(q, stored, denied + [retry])[|denied|].allowed <==> d >= Step(q, stored, denied[0]).1.retryAfter
  {
    var f := Fluid(Level(q, stored, from), from);
    RunRefinesFluid(q, stored, from, denied + [retry]);
    FluidRetryIsExact(q, f, denied, retry, d);
    assert (denied + [retry])[0] == denied[0];
    StepRefinesFluid(q, stored, denied[0], from);
  }

  /** A cost above the capacity is never admitted, whatever the history. */
  lemma OversizedCostNeverAdmitted(q: Quota, stored: Option<Entry>, r: Request)
    requires q.Valid() && r.cost > q.capacity
    ensures !Step(q, stored, r).1.allowed
  {
  }

  // ---------------------------------------------------------------- the gateway check

  datatype Role = Admin | Researcher | User | Authenticated | Public

  datatype Scope = PasswordReset | ResearchApi | Other

  /** `researchRpm` is `None` when the configured string does not start with a number. */
  datatype Settings = Settings(
    enabled: bool, requestsPerMinute: int, burst: int,
    resetRequests: int, resetWindowSeconds: int, researchRpm: Option<int>)

  predicate PositiveRates(s: Settings) {
    s.requestsPerMinute > 0 && s.resetRequests > 0 && (s.researchRpm.Some? ==> s.researchRpm.value > 0)
  }

  function MaxInt(x: int, y: int): int { if x >= y then x else y }

  function MinInt(x: int, y: int): int { if x <= y then x else y }

  function RoleQuota(s: Settings, role: Role): (int, int) {
    match role
    case Admin => (s.requestsPerMinute * 10, s.burst * 5)
    case Researcher => (s.requestsPerMinute * 3, s.burst * 2)
    case User => (s.requestsPerMinute, s.burst)
    case Authenticated => (s.requestsPerMinute, s.burst)
    case Public => (MinInt(s.requestsPerMinute, 10), MinInt(s.burst, 5))
  }

  /** The settings apply as they are to users; researchers and admins get more, the public at most 10 and 5. */
  lemma RolesGet(s: Settings)
    ensures RoleQuota(s, User) == RoleQuota(s, Authenticated) == (s.requestsPerMinute, s.burst)
    ensures RoleQuota(s, Researcher) == (3 * RoleQuota(s, User).0, 2 * RoleQuota(s, User).1)
    ensures RoleQuota(s, Admin) == (10 * RoleQuota(s, User).0, 5 * RoleQuota(s, User).1)
    ensures var (rpm, burst) := RoleQuota(s, Public);
      && rpm <= 10 && rpm <= s.requestsPerMinute && (rpm == 10 || rpm == s.requestsPerMinute)
      && burst <= 5 && burst <= s.burst && (burst == 5 || burst == s.burst)
  {
  }

  /** Every request the gateway checks costs one token, and every bucket can hold that token. */
  function QuotaFor(s: Settings, role: Role, scope: Scope): (q: Quota)
    ensures q.capacity >= 1.0
    ensures PositiveRates(s) ==> q.Valid()
  {
    match scope
    case PasswordReset =>
      Quota(MaxInt(1, s.resetRequests) as real, s.resetRequests as real / MaxInt(1, s.resetWindowSeconds) as real)
    case ResearchApi =>
      var rpm := if s.researchRpm.Some? then s.researchRpm.value else 60;
      Quota(MaxInt(1, rpm) as real, rpm as real / 60.0)
    case Other =>
      var (rpm, burst) := RoleQuota(s, role);
      Quota(MaxInt(1, burst) as real, rpm as real / 60.0)
  }

  /** The 429 header needs no `max(1, ...)`: a denial always asks for at least one second. */
  lemma DenialWaitsAtLeastOneSecond(q: Quota, stored: Option<Entry>, r: Request)
    requires q.Valid() && !Step(q, stored, r).1.allowed
    ensures Step(q, stored, r).1.retryAfter >= 1
  {
    var level := Level(q, Visible(stored, r), r.now);
    assert (r.cost - level) / q.rate > 0.0;
  }

  /** What the gateway sees of one evaluation: its reply, or an exception although the script may have run. */
  datatype Delivery = Answered | Lost(executed: bool)

  /** One checked request: EVALSHA, and EVAL when that raised; `swept` and `sweptAgain` are Redis's choices. */
  datatype Visit = Visit(now: real, first: Delivery, second: Delivery, swept: bool, sweptAgain: bool)

  predicate Ran(d: Delivery) { d == Answered || d.executed }

  /** The evaluations that took place. */
  function Evaluations(v: Visit): seq<Request> {
    (if Ran(v.first) then [Request(v.now, 1.0, v.swept)] else [])
    + (if v.first != Answered && Ran(v.second) then [Request(v.now, 1.0, v.sweptAgain)] else [])
  }

  /** The gateway lets an admitted request pass, and also one about which Redis gave no answer. */
  datatype Verdict = Admitted | FailedOpen | TooManyRequests(retryAfter: int)

  /** The last evaluation decides, if its reply arrived. */
  function VerdictOf(q: Quota, stored: Option<Entry>, v: Visit): Verdict
    requires q.Valid()
  {
    if v.first != Answered && v.second != Answered then FailedOpen else
      var replies := Run(q, stored, Evaluations(v));
      var last := replies[|replies| - 1];
      if last.allowed then Admitted else TooManyRequests(last.retryAfter)
  }

  /**
   `RedisRateLimiter.check` for one identity and scope. It rejects exactly when limiting applies, Redis
   answers and the script denies. An excluded path, a disabled limiter and an unreachable Redis leave the
   bucket alone; a lost reply can cost the caller two tokens.
   */
  method Check(bucket: RedisBucket, s: Settings, role: Role, scope: Scope, excludedPath: bool, connected: bool, v: Visit)
    returns (verdict: Option<Verdict>)
    requires PositiveRates(s)
    modifies bucket
    ensures verdict.None? <==> excludedPath || !s.enabled
    ensures var q := QuotaFor(s, role, scope);
      if verdict.None? || !connected
      then bucket.stored == old(bucket.stored) && (verdict.Some? ==> verdict.value == FailedOpen)
      else bucket.stored == After(q, old(bucket.stored), Evaluations(v)) && verdict.value == VerdictOf(q, old(bucket.stored), v)
    ensures verdict.Some? && verdict.value.TooManyRequests? ==> verdict.value.retryAfter >= 1
  {
    if excludedPath || !s.enabled {
      return None;
    }
    var q := QuotaFor(s, role, scope);
    if !connected {
      return Some(FailedOpen);
    }
    ghost var was := bucket.stored;
    var first, again := Request(v.now, 1.0, v.swept), Request(v.now, 1.0, v.sweptAgain);
    EvaluationSteps(q, was, v);
    if Ran(v.first) {
      var reply := bucket.Eval(q, first);
      if v.first == Answered {
        if reply.allowed {
          return Some(Admitted);
        }
        DenialWaitsAtLeastOneSecond(q, was, first);
        return Some(TooManyRequests(MaxInt(1, reply.retryAfter)));
      }
    }
    ghost var between := bucket.stored;
    if Ran(v.second) {
      var reply := bucket.Eval(q, again);
      if v.second == Answered {
        if reply.allowed {
          return Some(Admitted);
        }
        DenialWaitsAtLeastOneSecond(q, between, again);
        return Some(TooManyRequests(MaxInt(1, reply.retryAfter)));
      }
    }
    return Some(FailedOpen);
  }

  /** The run of one visit's evaluations, one step at a time. */
  lemma {:induction false} EvaluationSteps(q: Quota, stored: Option<Entry>, v: Visit)
    requires q.Valid()
    ensures var first, again := Request(v.now, 1.0, v.swept), Request(v.now, 1.0, v.sweptAgain);
      var (s1, r1) := if Ran(v.first) then Step(q, stored, first) else (stored, Reply(false, 0.0, 0));
      var (s2, r2) := if v.first != Answered && Ran(v.second) then Step(q, s1, again) else (s1, r1);
      && After(q, stored, Evaluations(v)) == s2
      && (Evaluations(v) != [] ==>
            var replies := Run(q, stored, Evaluations(v)); replies[|replies| - 1] == r2)
  {
    var first, again := Request(v.now, 1.0, v.swept), Request(v.now, 1.0, v.sweptAgain);
    if Ran(v.first) && v.first != Answered && Ran(v.second) {
      var s1 := Step(q, stored, first).0;
      assert Evaluations(v)[1..] == [again] && [again][1..] == [];
      assert Run(q, s1, [again]) == [Step(q, s1, again).1];
      assert After(q, s1, [again]) == After(q, Step(q, s1, again).0, []);
    } else if Evaluations(v) != [] {
      assert Evaluations(v)[1..] == [];
    }
  }

  /** The verdict follows the script, on one token: the reply that arrives decides, and without one the request passes. */
  lemma VerdictFollowsScript(q: Quota, stored: Option<Entry>, v: Visit)
    requires q.Valid()
    ensures var (stored', first) := Step(q, stored, Request(v.now, 1.0, v.swept));
      var second := Step(q, if Ran(v.first) then stored' else stored, Request(v.now, 1.0, v.sweptAgain)).1;
      var decisive := if v.first == Answered then first else second;
      && (v.first == Answered || v.second == Answered ==>
            VerdictOf(q, stored, v) == if decisive.allowed then Admitted else TooManyRequests(decisive.retryAfter))
      && (v.first != Answered && v.second != Answered ==> VerdictOf(q, stored, v) == FailedOpen)
  {
    EvaluationSteps(q, stored, v);
  }

  // ---------------------------------------------------------------- the rate bound at the gateway

  function AllEvaluations(vs: seq<Visit>): seq<Request> {
    if vs == [] then [] else Evaluations(vs[0]) + AllEvaluations(vs[1..])
  }

  /** How many visits within `[a, b]` are admitted. */
  function AdmittedVisits(q: Quota, stored: Option<Entry>, vs: seq<Visit>, a: real, b: real): nat
    requires q.Valid()
    decreases |vs|
  {
    if vs == [] then 0 else
      (if VerdictOf(q, stored, vs[0]) == Admitted && a <= vs[0].now <= b then 1 else 0)
      + AdmittedVisits(q, After(q, stored, Evaluations(vs[0])), vs[1..], a, b)
  }

  predicate InOrder(from: real, vs: seq<Visit>)
    decreases |vs|
  {
    vs == [] || (from <= vs[0].now && InOrder(vs[0].now, vs[1..]))
  }

  lemma {:induction false} TimelyPrepend(from: real, now: real, first: seq<Request>, rest: seq<Request>)
    requires from <= now && Timely(now, rest)
    requires forall i :: 0 <= i < |first| ==> first[i].now == now && first[i].cost >= 0.0
    ensures Timely(from, first + rest)
    decreases |first|
  {
    if first == [] {
      assert first + rest == rest;
      TimelyEarlier(from, now, rest);
    } else {
      assert (first + rest)[1..] == first[1..] + rest;
      TimelyPrepend(now, now, first[1..], rest);
    }
  }

  lemma {:induction false} TimelyEarlier(from: real, now: real, rs: seq<Request>)
    requires from <= now && Timely(now, rs)
    ensures Timely(from, rs)
  {
  }

  lemma {:induction false} EvaluationsAreTimely(from: real, vs: seq<Visit>)
    requires InOrder(from, vs)
    ensures Timely(from, AllEvaluations(vs))
    decreases |vs|
  {
    if vs != [] {
      EvaluationsAreTimely(vs[0].now, vs[1..]);
      TimelyPrepend(from, vs[0].now, Evaluations(vs[0]), AllEvaluations(vs[1..]));
    }
  }

  lemma {:induction false} RunAppend(q: Quota, stored: Option<Entry>, rs: seq<Request>, more: seq<Request>)
    requires q.Valid()
    ensures Run(q, stored, rs + more) == Run(q, stored, rs) + Run(q, After(q, stored, rs), more)
    decreases |rs|
  {
    if rs == [] {
      assert rs + more == more;
    } else {
      assert (rs + more)[1..] == rs[1..] + more;
      RunAppend(q, Step(q, stored, rs[0]).0, rs[1..], more);
    }
  }

  lemma {:induction false} AdmittedAppend(rs: seq<Request>, replies: seq<Reply>, rs': seq<Request>, replies': seq<Reply>, a: real, b: real)
    requires |rs| == |replies| && |rs'| == |replies'|
    ensures AdmittedWithin(rs + rs', replies + replies', a, b) == AdmittedWithin(rs, replies, a, b) + AdmittedWithin(rs', replies', a, b)
    decreases |rs|
  {
    if rs == [] {
      assert rs + rs' == rs' && replies + replies' == replies';
    } else {
      assert (rs + rs')[1..] == rs[1..] + rs' && (replies + replies')[1..] == replies[1..] + replies';
      AdmittedAppend(rs[1..], replies[1..], rs', replies', a, b);
    }
  }

  /** An admitted visit is paid for by one of its evaluations. */
  lemma {:induction false} VisitIsPaid(q: Quota, stored: Option<Entry>, v: Visit, a: real, b: real)
    requires q.Valid()
    ensures AdmittedWithin(Evaluations(v), Run(q, stored, Evaluations(v)), a, b)
      >= if VerdictOf(q, stored, v) == Admitted && a <= v.now <= b then 1.0 else 0.0
  {
    var rs := Evaluations(v);
    var replies := Run(q, stored, rs);
    EvaluationSteps(q, stored, v);
    if |rs| == 1 {
      assert rs[1..] == [] && replies[1..] == [];
    } else if |rs| == 2 {
      assert rs[1..][1..] == [] && replies[1..][1..] == [];
      assert replies[1..][0] == replies[1] && rs[1..][0] == rs[1];
      assert AdmittedWithin(rs[1..], replies[1..], a, b) == if replies[1].allowed && a <= v.now <= b then 1.0 else 0.0;
    }
  }

  lemma {:induction false} VisitsArePaid(q: Quota, stored: Option<Entry>, vs: seq<Visit>, a: real, b: real)
    requires q.Valid()
    ensures AdmittedVisits(q, stored, vs, a, b) as real <= AdmittedWithin(AllEvaluations(vs), Run(q, stored, AllEvaluations(vs)), a, b)
    decreases |vs|
  {
    if vs != [] {
      var rs, rest := Evaluations(vs[0]), AllEvaluations(vs[1..]);
      var stored' := After(q, stored, rs);
      VisitIsPaid(q, stored, vs[0], a, b);
      VisitsArePaid(q, stored', vs[1..], a, b);
      RunAppend(q, stored, rs, rest);
      AdmittedAppend(rs, Run(q, stored, rs), rest, Run(q, stored', rest), a, b);
    }
  }

  /** Lost replies and second evaluations never let more requests be admitted than the quota allows. */
  lemma {:induction false} AdmittedVisitsAreBounded(q: Quota, from: real, vs: seq<Visit>, a: real, b: real)
    requires q.Valid() && InOrder(from, vs) && a <= b
    ensures AdmittedVisits(q, None, vs, a, b) as real <= q.capacity + q.Gain(b - a)
  {
    EvaluationsAreTimely(from, vs);
    VisitsArePaid(q, None, vs, a, b);
    AdmittedCostIsBounded(q, from, AllEvaluations(vs), a, b);
  }

  /** The settings' numbers for a caller: requests per window, the window in seconds, and the burst. */
  function PerWindow(s: Settings, role: Role, scope: Scope): int {
    match scope
    case PasswordReset => s.resetRequests
    case ResearchApi => if s.researchRpm.Some? then s.researchRpm.value else 60
    case Other => RoleQuota(s, role).0
  }

  function WindowSeconds(s: Settings, scope: Scope): int {
    if scope == PasswordReset then MaxInt(1, s.resetWindowSeconds) else 60
  }

  function Burst(s: Settings, role: Role, scope: Scope): int {
    MaxInt(1, if scope == Other then RoleQuota(s, role).1 else PerWindow(s, role, scope))
  }

  /**
   What the settings promise: in any window of the configured length a caller gets at most the configured
   number of requests and once the burst.
   */
  lemma RequestsPerWindowAreBounded(s: Settings, role: Role, scope: Scope, from: real, vs: seq<Visit>, a: real)
    requires PositiveRates(s) && InOrder(from, vs)
    ensures AdmittedVisits(QuotaFor(s, role, scope), None, vs, a, a + WindowSeconds(s, scope) as real)
         <= Burst(s, role, scope) + PerWindow(s, role, scope)
  {
    var q, w := QuotaFor(s, role, scope), WindowSeconds(s, scope) as real;
    QuotaNumbers(s, role, scope);
    AdmittedVisitsAreBounded(q, from, vs, a, a + w);
    assert a + w - a == w;
  }

  lemma QuotaNumbers(s: Settings, role: Role, scope: Scope)
    requires PositiveRates(s)
    ensures var q, w := QuotaFor(s, role, scope), WindowSeconds(s, scope) as real;
      w > 0.0 && q.capacity == Burst(s, role, scope) as real
      && q.Gain(w) == PerWindow(s, role, scope) as real
  {
    var q, w, n := QuotaFor(s, role, scope), WindowSeconds(s, scope) as real, PerWindow(s, role, scope) as real;
    assert q.rate == n / w by {
      match scope
      case PasswordReset =>
      case ResearchApi =>
      case Other =>
    }
    WholeWindow(n, w);
  }

  lemma WholeWindow(n: real, w: real)
    requires w > 0.0
    ensures w * (n / w) == n
  {
  }
}
