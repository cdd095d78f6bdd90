/**
 The Redis-backed circuit breaker (resilience/circuit_breaker.py). Each operation is a read of one
 shared record, a computation, and perhaps a write; the reads and writes of different workers
 interleave freely, and either may fail.
 */
module CircuitBreaker {
  import opened Basics

  datatype Status = Closed | Open | HalfOpen

  datatype Record = Record(status: Status, failures: nat, openedAt: Option<real>)

  const INITIAL := Record(Closed, 0, None)

  datatype Config = Config(threshold: nat, halfOpenTimeout: real)

  // ---------------------------------------------------------------- the computations

  /** `_get_state`: a missing key and a failed read both look like a fresh, closed circuit. */
  function Load(stored: Option<Record>, readOk: bool): Record {
    if readOk && stored.Some? then stored.value else INITIAL
  }

  /** `_set_state`: a failed write leaves the record as it was. */
  function Store(stored: Option<Record>, target: Option<Record>, writeOk: bool): Option<Record> {
    if writeOk && target.Some? then target else stored
  }

  /** The record `record_failure` writes after reading `r`. */
  function AfterFailure(c: Config, r: Record, now: real): Record {
    var failures := r.failures + 1;
    if r.status != Open && failures >= c.threshold then Record(Open, failures, Some(now))
    else r.(failures := failures)
  }

  /** The record `record_success` writes after reading `r`, if it writes at all. */
  function AfterSuccess(r: Record): Option<Record> {
    if r.status != Closed || r.failures != 0 then Some(INITIAL) else None
  }

  predicate WindowElapsed(c: Config, r: Record, now: real) {
    r.status == Open && r.openedAt.Some? && now - r.openedAt.value >= c.halfOpenTimeout
  }

  /** The answer of `is_open` after reading `r`. */
  predicate Blocks(c: Config, r: Record, now: real) {
    r.status == Open && r.openedAt.Some? && now - r.openedAt.value < c.halfOpenTimeout
  }

  /** The record `is_open` writes after reading `r`, if it writes at all. */
  function AfterQuery(c: Config, r: Record, now: real): Option<Record> {
    if WindowElapsed(c, r, now) then Some(r.(status := HalfOpen)) else None
  }

  /** What Redis errors do: a failed read and a missing record look fresh and closed, a failed write changes nothing. */
  lemma RedisErrors(stored: Option<Record>, r: Record, ok: bool)
    ensures Load(stored, false) == Load(None, ok) == Record(Closed, 0, None) && Load(Some(r), true) == r
    ensures Store(stored, Some(r), false) == Store(stored, None, ok) == stored && Store(stored, Some(r), true) == Some(r)
  {
  }

  // ---------------------------------------------------------------- one worker at a time

  /** The shared record and the three operations on it, each run without interruption. */
  class SharedBreaker {
    const config: Config
    var stored: Option<Record>

    constructor (config: Config)
      ensures this.config == config && stored == None
    {
      this.config := config;
      stored := None;
    }

    method IsOpen(now: real, readOk: bool, writeOk: bool) returns (open: bool)
      modifies this
      ensures open == Blocks(config, Load(old(stored), readOk), now)
      ensures stored == Store(old(stored), AfterQuery(config, Load(old(stored), readOk), now), writeOk)
    {
      var state := Load(stored, readOk);
      if state.status == Closed {
        return false;
      }
      if state.status == HalfOpen {
        return false;
      }
      if state.openedAt.None? {
        return false;
      }
      var elapsed := now - state.openedAt.value;
      if elapsed >= config.halfOpenTimeout {
        state := state.(status := HalfOpen);
        stored := Store(stored, Some(state), writeOk);
        return false;
      }
      return true;
    }

    method RecordFailure(now: real, readOk: bool, writeOk: bool)
      modifies this
      ensures stored == Store(old(stored), Some(AfterFailure(config, Load(old(stored), readOk), now)), writeOk)
    {
      var state := Load(stored, readOk);
      state := state.(failures := state.failures + 1);
      if state.status == Closed || state.status == HalfOpen {
        if state.failures >= config.threshold {
          state := state.(status := Open);
          state := state.(openedAt := Some(now));
        }
      }
      stored := Store(stored, Some(state), writeOk);
    }

    method RecordSuccess(readOk: bool, writeOk: bool)
      modifies this
      ensures stored == Store(old(stored), AfterSuccess(Load(old(stored), readOk)), writeOk)
    {
      var state := Load(stored, readOk);
      if state.status != Closed || state.failures != 0 {
        stored := Store(stored, Some(INITIAL), writeOk);
      }
    }
  }

  /** What every record must satisfy. */
  ghost predicate Coherent(c: Config, r: Record) {
    match r.status
    case Closed => r.failures < c.threshold && r.openedAt.None?
    case Open => r.failures >= c.threshold && r.openedAt.Some?
    case HalfOpen => r.failures >= c.threshold && r.openedAt.Some?
  }

  ghost predicate CoherentStore(c: Config, stored: Option<Record>) {
    stored.Some? ==> Coherent(c, stored.value)
  }

  // ---------------------------------------------------------------- interleaved workers

  datatype Op = Failure | Success | Query

  /** Where a worker stands: nothing in progress, waiting for its read, or about to write. */
  datatype Task = Idle | Reading(op: Op) | Writing(op: Op, at: real, seen: Record, target: Record)

  /**
   `begun` counts the `record_failure` calls started, `computed` those whose read has been answered.
   */
  datatype System = System(stored: Option<Record>, tasks: map<nat, Task>, begun: nat, computed: nat)

  datatype Action =
    | Begin(worker: nat, op: Op)
    | Read(worker: nat, now: real, readOk: bool)
    | Write(worker: nat, writeOk: bool)

  const START := System(None, map[], 0, 0)

  function TaskOf(s: System, w: nat): Task { if w in s.tasks then s.tasks[w] else Idle }

  /** The write a worker owes after its read is answered with `seen`; `None` ends the call. */
  function Owed(c: Config, op: Op, seen: Record, now: real): Option<Record> {
    match op
    case Failure => Some(AfterFailure(c, seen, now))
    case Success => AfterSuccess(seen)
    case Query => AfterQuery(c, seen, now)
  }

  /** One atomic action; an action that is not enabled changes nothing. */
  function Act(c: Config, s: System, a: Action): System {
    var task := TaskOf(s, a.worker);
    match a
    case Begin(w, op) =>
      if task != Idle then s else
        s.(tasks := s.tasks[w := Reading(op)], begun := s.begun + if op == Failure then 1 else 0)
    case Read(w, now, readOk) =>
      if !task.Reading? then s else
        var seen := Load(s.stored, readOk);
        var owed := Owed(c, task.op, seen, now);
        s.(tasks := s.tasks[w := if owed.None? then Idle else Writing(task.op, now, seen, owed.value)],
           computed := s.computed + if task.op == Failure then 1 else 0)
    case Write(w, writeOk) =>
      if !task.Writing? then s else
        s.(stored := Store(s.stored, Some(task.target), writeOk), tasks := s.tasks[w := Idle])
  }

  function RunActions(c: Config, s: System, actions: seq<Action>): System
    decreases |actions|
  {
    if actions == [] then s else RunActions(c, Act(c, s, actions[0]), actions[1..])
  }

  /** The workers whose `record_failure` is still waiting for its read. */
  ghost function Waiting(s: System): set<nat> {
    set w | w in s.tasks && s.tasks[w] == Reading(Failure)
  }

  /** A `record_failure` that read a half-open record and is about to write. */
  predicate FailedProbe(t: Task) { t.Writing? && t.op == Failure && t.seen.status == HalfOpen }

  ghost predicate TaskInv(c: Config, t: Task, computed: nat) {
    t.Writing? ==>
      && Owed(c, t.op, t.seen, t.at) == Some(t.target)
      && Coherent(c, t.target)
      && t.target.failures <= computed
      && (FailedProbe(t) ==> t.target.status == Open)
  }

  ghost predicate Inv(c: Config, s: System) {
    && CoherentStore(c, s.stored)
    && (s.stored.Some? ==> s.stored.value.failures <= s.computed)
    && (forall w :: w in s.tasks ==> TaskInv(c, s.tasks[w], s.computed))
    && s.begun == s.computed + |Waiting(s)|
  }

  lemma OwedIsCoherent(c: Config, op: Op, seen: Record, now: real)
    requires Coherent(c, seen) && c.threshold >= 1
    ensures var owed := Owed(c, op, seen, now);
      owed.Some? ==>
        && Coherent(c, owed.value)
        && owed.value.failures <= seen.failures + (if op == Failure then 1 else 0)
        && (op == Failure && seen.status == HalfOpen ==> owed.value.status == Open)
  {
  }

  lemma ActKeepsTasks(c: Config, s: System, a: Action)
    requires c.threshold >= 1 && Inv(c, s)
    ensures var s' := Act(c, s, a);
      && CoherentStore(c, s'.stored)
      && (s'.stored.Some? ==> s'.stored.value.failures <= s'.computed)
      && (forall w :: w in s'.tasks ==> TaskInv(c, s'.tasks[w], s'.computed))
  {
    var s' := Act(c, s, a);
    assert s.computed <= s'.computed;
    var task := TaskOf(s, a.worker);
    if a.Read? && task.Reading? {
      OwedIsCoherent(c, task.op, Load(s.stored, a.readOk), a.now);
    }
    forall w | w in s'.tasks ensures TaskInv(c, s'.tasks[w], s'.computed) {
      if w != a.worker { assert w in s.tasks && TaskInv(c, s.tasks[w], s.computed); }
    }
  }

  lemma BeginKeepsCount(c: Config, s: System, w: nat, op: Op)
    requires s.begun == s.computed + |Waiting(s)|
    ensures var s' := Act(c, s, Begin(w, op)); s'.begun == s'.computed + |Waiting(s')|
  {
    if TaskOf(s, w) == Idle {
      var s' := Act(c, s, Begin(w, op));
      assert w !in Waiting(s);
      if op == Failure {
        assert Waiting(s') == Waiting(s) + {w};
      } else {
        assert Waiting(s') == Waiting(s);
      }
    }
  }

  lemma ReadKeepsCount(c: Config, s: System, w: nat, now: real, readOk: bool)
    requires s.begun == s.computed + |Waiting(s)|
    ensures var s' := Act(c, s, Read(w, now, readOk)); s'.begun == s'.computed + |Waiting(s')|
  {
    var s' := Act(c, s, Read(w, now, readOk));
    assert Waiting(s') == Waiting(s) - if TaskOf(s, w).Reading? then {w} else {};
  }

  lemma WriteKeepsCount(c: Config, s: System, w: nat, writeOk: bool)
    requires s.begun == s.computed + |Waiting(s)|
    ensures var s' := Act(c, s, Write(w, writeOk)); s'.begun == s'.computed + |Waiting(s')|
  {
    assert Waiting(Act(c, s, Write(w, writeOk))) == Waiting(s);
  }

  lemma ActKeepsCount(c: Config, s: System, a: Action)
    requires s.begun == s.computed + |Waiting(s)|
    ensures var s' := Act(c, s, a); s'.begun == s'.computed + |Waiting(s')|
  {
    match a
    case Begin(w, op) => BeginKeepsCount(c, s, w, op);
    case Read(w, now, readOk) => ReadKeepsCount(c, s, w, now, readOk);
    case Write(w, writeOk) => WriteKeepsCount(c, s, w, writeOk);
  }

  lemma {:induction false} InterleavingKeepsInv(c: Config, s: System, actions: seq<Action>)
    requires c.threshold >= 1 && Inv(c, s)
    ensures Inv(c, RunActions(c, s, actions))
    decreases |actions|
  {
    if actions != [] {
      ActKeepsTasks(c, s, actions[0]);
      ActKeepsCount(c, s, actions[0]);
      InterleavingKeepsInv(c, Act(c, s, actions[0]), actions[1..]);
    }
  }

  /**
   Under every interleaving, with any reads and writes failing: the stored record is coherent, its
   count is at most the number of `record_failure` calls begun (so the circuit never leaves closed
   before `threshold` of them), and a failure computed from a half-open record is going to write open.
   */
  lemma {:induction false} InterleavedBreakerIsSafe(c: Config, actions: seq<Action>)
    requires c.threshold >= 1
    ensures var s := RunActions(c, START, actions);
      && CoherentStore(c, s.stored)
      && Load(s.stored, true).failures <= s.begun
      && (Load(s.stored, true).status != Closed ==> s.begun >= c.threshold)
      && (forall w :: w in s.tasks && FailedProbe(s.tasks[w]) ==> s.tasks[w].target.status == Open)
  {
    assert Waiting(START) == {};
    InterleavingKeepsInv(c, START, actions);
    var s := RunActions(c, START, actions);
    forall w | w in s.tasks ensures TaskInv(c, s.tasks[w], s.computed) {}
  }

  /** The circuit status every worker sees. */
  function StatusOf(s: System): Status { Load(s.stored, true).status }

  /** The worker is about to write a closed record: a success, or a failure that read a closed one and stays below the threshold. */
  predicate ClosesCircuit(c: Config, t: Task) {
    t.Writing? && (t.op == Success || (t.op == Failure && t.seen.status == Closed && t.seen.failures + 1 < c.threshold))
  }

  /**
   Who closes a circuit that is open or half-open: exactly the write of a success, or of a failure computed from a closed
   record, which by then is stale or stands for a read that failed.
   */
  lemma CircuitClosesExactlyWhen(c: Config, s: System, a: Action)
    requires c.threshold >= 1 && Inv(c, s) && StatusOf(s) != Closed
    ensures StatusOf(Act(c, s, a)) == Closed <==> a.Write? && a.writeOk && ClosesCircuit(c, TaskOf(s, a.worker))
  {
    var t := TaskOf(s, a.worker);
    if a.worker in s.tasks { assert TaskInv(c, s.tasks[a.worker], s.computed); }
  }

  lemma {:induction false} RunThree(c: Config, s: System, x: Action, y: Action, z: Action)
    ensures RunActions(c, s, [x, y, z]) == Act(c, Act(c, Act(c, s, x), y), z)
  {
    var s1 := Act(c, s, x);
    var s2 := Act(c, s1, y);
    var s3 := Act(c, s2, z);
    assert [x, y, z][1..] == [y, z] && [y, z][1..] == [z] && [z][1..] == [];
    assert RunActions(c, s3, []) == s3;
    assert RunActions(c, s2, [z]) == s3;
    assert RunActions(c, s1, [y, z]) == s3;
  }

  /**
   One failed read is enough: whatever the record was, an idle worker's failure then stores count 1 for all,
   in a closed circuit, or with a threshold of 1 in one that opens at that moment.
   */
  lemma {:induction false} FailedReadForgets(c: Config, s: System, w: nat, now: real)
    requires c.threshold >= 1 && TaskOf(s, w) == Idle
    ensures RunActions(c, s, [Begin(w, Failure), Read(w, now, false), Write(w, true)]).stored
         == Some(if c.threshold == 1 then Record(Open, 1, Some(now)) else Record(Closed, 1, None))
  {
    RunThree(c, s, Begin(w, Failure), Read(w, now, false), Write(w, true));
  }

  /** Two failures computed from the same record raise the count by one, not two, in whatever order they write. */
  lemma {:induction false} InterleavingLosesAFailure(c: Config, s: System, v: nat, w: nat)
    requires c.threshold >= 1 && Inv(c, s) && v != w
    requires TaskOf(s, v).Writing? && TaskOf(s, v).op == Failure
    requires TaskOf(s, w).Writing? && TaskOf(s, w).op == Failure && TaskOf(s, w).seen == TaskOf(s, v).seen
    ensures var after := RunActions(c, s, [Write(v, true), Write(w, true)]);
      Load(after.stored, true).failures == TaskOf(s, v).seen.failures + 1
  {
    assert TaskInv(c, s.tasks[v], s.computed) && TaskInv(c, s.tasks[w], s.computed);
    var s1 := Act(c, s, Write(v, true));
    var s2 := Act(c, s1, Write(w, true));
    assert [Write(v, true), Write(w, true)][1..] == [Write(w, true)];
    assert RunActions(c, s2, []) == s2;
    assert RunActions(c, s1, [Write(w, true)]) == s2;
  }

  // ---------------------------------------------------------------- uninterrupted runs

  datatype Event = Failed(at: real) | Succeeded | Asked(at: real)

  /** The record after one uninterrupted, error-free operation. */
  function Apply(c: Config, stored: Option<Record>, e: Event): Option<Record> {
    var r := Load(stored, true);
    match e
    case Failed(now) => Store(stored, Some(AfterFailure(c, r, now)), true)
    case Succeeded => Store(stored, AfterSuccess(r), true)
    case Asked(now) => Store(stored, AfterQuery(c, r, now), true)
  }

  /** The record after a whole history. */
  function Replay(c: Config, history: seq<Event>): Option<Record> {
    if history == [] then None
    else Apply(c, Replay(c, history[..|history| - 1]), history[|history| - 1])
  }

  /** The specification: how many failures the history has since its last success. */
  function FailuresSinceSuccess(history: seq<Event>): nat {
    if history == [] then 0 else
      var before := history[..|history| - 1];
      match history[|history| - 1]
      case Failed(_) => FailuresSinceSuccess(before) + 1
      case Succeeded => 0
      case Asked(_) => FailuresSinceSuccess(before)
  }

  /**
   Refinement: after every error-free history the stored count is the number of failures since the
   last success, and the circuit is away from closed exactly when that number reached the threshold.
   */
  lemma {:induction false} ReplayCountsFailures(c: Config, history: seq<Event>)
    requires c.threshold >= 1
    ensures var r := Load(Replay(c, history), true);
      && Coherent(c, r)
      && r.failures == FailuresSinceSuccess(history)
      && (r.status != Closed <==> FailuresSinceSuccess(history) >= c.threshold)
  {
    if history != [] {
      ReplayCountsFailures(c, history[..|history| - 1]);
    }
  }

  /** No success, and no question asked at or after `deadline`. */
  predicate QuietUntil(deadline: real, events: seq<Event>) {
    forall e :: e in events ==> e != Succeeded && (e.Asked? ==> e.at < deadline)
  }

  /**
   Once open, the circuit blocks every question until the half-open window has elapsed, however many
   failures arrive meanwhile, and the first question at or after that instant is let through.
   */
  lemma {:induction false} OpenCircuitBlocks(c: Config, opening: seq<Event>, start: real, since: seq<Event>, t: real)
    requires c.threshold >= 1
    requires var r := Load(Replay(c, opening), true); r.status == Open && r.openedAt == Some(start)
    requires QuietUntil(start + c.halfOpenTimeout, since)
    ensures var r := Load(Replay(c, opening + since), true);
      && r.status == Open && r.openedAt == Some(start)
      && (Blocks(c, r, t) <==> t < start + c.halfOpenTimeout)
      && (!Blocks(c, r, t) ==> Load(Replay(c, opening + since + [Asked(t)]), true).status == HalfOpen)
    decreases |since|
  {
    var all := opening + since;
    assert (all + [Asked(t)])[..|all|] == all;
    if since == [] {
      assert all == opening;
    } else {
      var before := since[..|since| - 1];
      assert all[..|all| - 1] == opening + before;
      assert since[|since| - 1] in since;
      OpenCircuitBlocks(c, opening, start, before, t);
    }
  }

  /** The failure that reaches the threshold opens the circuit at its own time; before that the circuit stays closed. */
  lemma {:induction false} ThresholdOpens(c: Config, history: seq<Event>, now: real)
    requires c.threshold >= 1 && Load(Replay(c, history), true).status == Closed
    ensures var n := FailuresSinceSuccess(history) + 1;
      Replay(c, history + [Failed(now)])
        == Some(if n < c.threshold then Record(Closed, n, None) else Record(Open, n, Some(now)))
    ensures FailuresSinceSuccess(history) + 1 <= c.threshold
  {
    ReplayCountsFailures(c, history);
    assert (history + [Failed(now)])[..|history|] == history;
  }

  /** Asking changes nothing but an open circuit whose window has elapsed; an open circuit counts further failures. */
  lemma {:induction false} OtherEventsKeep(c: Config, history: seq<Event>, now: real)
    requires c.threshold >= 1
    ensures var r := Load(Replay(c, history), true);
      && (r.status != Open ==> Replay(c, history + [Asked(now)]) == Replay(c, history) && !Blocks(c, r, now))
      && (r.status == Open ==> Replay(c, history + [Failed(now)]) == Some(Record(Open, r.failures + 1, r.openedAt)))
      && (r.status == Open ==> r.openedAt.Some?)
      && (r.status == Open && now - r.openedAt.value >= c.halfOpenTimeout ==>
            Replay(c, history + [Asked(now)]) == Some(Record(HalfOpen, r.failures, r.openedAt)) && !Blocks(c, r, now))
      && (r.status == Open && now - r.openedAt.value < c.halfOpenTimeout ==>
            Replay(c, history + [Asked(now)]) == Replay(c, history) && Blocks(c, r, now))
      && Load(Replay(c, history + [Succeeded]), true) == INITIAL
  {
    ReplayCountsFailures(c, history);
    assert (history + [Asked(now)])[..|history|] == history;
    assert (history + [Failed(now)])[..|history|] == history;
    assert (history + [Succeeded])[..|history|] == history;
  }

  /** After the window, a failed probe reopens at its own time and a success closes. */
  lemma {:induction false} HalfOpenIsDecided(c: Config, history: seq<Event>, now: real)
    requires c.threshold >= 1 && Load(Replay(c, history), true).status == HalfOpen
    ensures Replay(c, history + [Failed(now)])
         == Some(Record(Open, FailuresSinceSuccess(history) + 1, Some(now)))
    ensures Replay(c, history + [Succeeded]) == Some(INITIAL)
    ensures !Blocks(c, Load(Replay(c, history), true), now)
  {
    ReplayCountsFailures(c, history);
    assert (history + [Failed(now)])[..|history|] == history;
    assert (history + [Succeeded])[..|history|] == history;
  }

  // ---------------------------------------------------------------- undisturbed interleavings

  /** The operation as it counts in a history. */
  function EventOf(op: Op, at: real): Event {
    match op
    case Failure => Failed(at)
    case Success => Succeeded
    case Query => Asked(at)
  }

  /** The operation that takes effect with this action, if any: at its write, or at its read when it writes nothing. */
  function Commit(c: Config, s: System, a: Action): seq<Event> {
    var t := TaskOf(s, a.worker);
    if a.Read? && t.Reading? && Owed(c, t.op, Load(s.stored, true), a.now).None? then [EventOf(t.op, a.now)]
    else if a.Write? && t.Writing? then [EventOf(t.op, t.at)]
    else []
  }

  /** The operations in the order in which they take effect. */
  function CommitOrder(c: Config, s: System, actions: seq<Action>): seq<Event>
    decreases |actions|
  {
    if actions == [] then [] else Commit(c, s, actions[0]) + CommitOrder(c, Act(c, s, actions[0]), actions[1..])
  }

  /** The workers that have read but not yet written when another worker writes have a stale read. */
  function Stale(s: System, a: Action, stale: set<nat>): set<nat> {
    if a.Read? && TaskOf(s, a.worker).Reading? then stale - {a.worker}
    else if a.Write? && TaskOf(s, a.worker).Writing? then s.tasks.Keys - {a.worker}
    else stale
  }

  /** No read or write fails, and nobody writes between a worker's read and its write. */
  predicate Undisturbed(c: Config, s: System, stale: set<nat>, actions: seq<Action>)
    decreases |actions|
  {
    actions == [] ||
      var a := actions[0];
      && (a.Read? ==> a.readOk)
      && (a.Write? ==> a.writeOk && a.worker !in stale)
      && Undisturbed(c, Act(c, s, a), Stale(s, a, stale), actions[1..])
  }

  /** A read that is not stale is what the store still holds. */
  ghost predicate ReadsCurrent(c: Config, s: System, stale: set<nat>) {
    forall w :: w in s.tasks && s.tasks[w].Writing? ==>
      && Owed(c, s.tasks[w].op, s.tasks[w].seen, s.tasks[w].at) == Some(s.tasks[w].target)
      && (w !in stale ==> s.tasks[w].seen == Load(s.stored, true))
  }

  function ReplayFrom(c: Config, stored: Option<Record>, history: seq<Event>): Option<Record>
    decreases |history|
  {
    if history == [] then stored else ReplayFrom(c, Apply(c, stored, history[0]), history[1..])
  }

  lemma {:induction false} ReplayFromAppend(c: Config, stored: Option<Record>, a: seq<Event>, b: seq<Event>)
    ensures ReplayFrom(c, stored, a + b) == ReplayFrom(c, ReplayFrom(c, stored, a), b)
    decreases |a|
  {
    if a == [] {
      assert a + b == b;
    } else {
      assert (a + b)[1..] == a[1..] + b;
      ReplayFromAppend(c, Apply(c, stored, a[0]), a[1..], b);
    }
  }

  lemma {:induction false} ReplayIsReplayFrom(c: Config, history: seq<Event>)
    ensures ReplayFrom(c, None, history) == Replay(c, history)
    decreases |history|
  {
    if history != [] {
      var before, last := history[..|history| - 1], history[|history| - 1];
      assert history == before + [last] && [last][1..] == [];
      ReplayIsReplayFrom(c, before);
      ReplayFromAppend(c, None, before, [last]);
    }
  }

  /** One undisturbed action applies the operation it commits, if any, to the store. */
  lemma {:induction false} ActApplies(c: Config, s: System, stale: set<nat>, a: Action)
    requires ReadsCurrent(c, s, stale) && (a.Read? ==> a.readOk) && (a.Write? ==> a.writeOk && a.worker !in stale)
    ensures Act(c, s, a).stored == ReplayFrom(c, s.stored, Commit(c, s, a))
    ensures ReadsCurrent(c, Act(c, s, a), Stale(s, a, stale))
  {
    var commit := Commit(c, s, a);
    if commit != [] { assert commit[1..] == []; }
    var s' := Act(c, s, a);
    var stale' := Stale(s, a, stale);
    forall w | w in s'.tasks && s'.tasks[w].Writing?
      ensures Owed(c, s'.tasks[w].op, s'.tasks[w].seen, s'.tasks[w].at) == Some(s'.tasks[w].target)
      ensures w !in stale' ==> s'.tasks[w].seen == Load(s'.stored, true)
    {
    }
  }

  lemma {:induction false} UndisturbedReplays(c: Config, s: System, stale: set<nat>, actions: seq<Action>)
    requires ReadsCurrent(c, s, stale) && Undisturbed(c, s, stale, actions)
    ensures RunActions(c, s, actions).stored == ReplayFrom(c, s.stored, CommitOrder(c, s, actions))
    decreases |actions|
  {
    if actions != [] {
      var a := actions[0];
      ActApplies(c, s, stale, a);
      UndisturbedReplays(c, Act(c, s, a), Stale(s, a, stale), actions[1..]);
      ReplayFromAppend(c, s.stored, Commit(c, s, a), CommitOrder(c, Act(c, s, a), actions[1..]));
    }
  }

  /**
   An error-free interleaving in which nobody writes between a worker's read and its write is as good as
   running its operations whole, in the order of their writes: the record is theirs, the count is the
   number of failures since the last success, and the circuit is away from closed exactly at the threshold.
   */
  lemma {:induction false} UndisturbedInterleavingCounts(c: Config, actions: seq<Action>)
    requires c.threshold >= 1 && Undisturbed(c, START, {}, actions)
    ensures var stored, history := RunActions(c, START, actions).stored, CommitOrder(c, START, actions);
      && stored == Replay(c, history)
      && Load(stored, true).failures == FailuresSinceSuccess(history)
      && (Load(stored, true).status != Closed <==> FailuresSinceSuccess(history) >= c.threshold)
  {
    UndisturbedReplays(c, START, {}, actions);
    ReplayIsReplayFrom(c, CommitOrder(c, START, actions));
    ReplayCountsFailures(c, CommitOrder(c, START, actions));
  }

  // ---------------------------------------------------------------- when the interleaved count is right

  function CountOf(s: System): nat { Load(s.stored, true).failures }

  /** Failures since the last success, counting on from `n`. */
  function FailuresFrom(n: nat, history: seq<Event>): nat {
    if history == [] then n else
      var before := FailuresFrom(n, history[..|history| - 1]);
      match history[|history| - 1]
      case Failed(_) => before + 1
      case Succeeded => 0
      case Asked(_) => before
  }

  lemma {:induction false} FailuresFromZero(history: seq<Event>)
    ensures FailuresFrom(0, history) == FailuresSinceSuccess(history)
    decreases |history|
  {
    if history != [] { FailuresFromZero(history[..|history| - 1]); }
  }

  predicate ErrorFree(actions: seq<Action>) {
    forall i :: 0 <= i < |actions| ==>
      (actions[i].Read? ==> actions[i].readOk) && (actions[i].Write? ==> actions[i].writeOk)
  }

  /** The action is no write of a failure or a query, or the count is still the one that worker read. */
  predicate KeepsCount(s: System, a: Action) {
    var t := TaskOf(s, a.worker);
    a.Write? && t.Writing? && t.op != Success ==> t.seen.failures == CountOf(s)
  }

  /** Before action `k` nothing is known but the state: the action keeps the count there. */
  predicate KeepsCountAt(c: Config, s: System, actions: seq<Action>, k: nat)
    requires k < |actions|
  {
    KeepsCount(RunActions(c, s, actions[..k]), actions[k])
  }

  /** After the first `k` actions the count is the failures since the last success, in the order of taking effect. */
  predicate CountIsExactAt(c: Config, s: System, actions: seq<Action>, k: nat)
    requires k <= |actions|
  {
    CountOf(RunActions(c, s, actions[..k])) == FailuresFrom(CountOf(s), CommitOrder(c, s, actions[..k]))
  }

  /** One error-free action counts what it commits exactly when it keeps the count. */
  lemma ActionCountsExactlyWhen(c: Config, s: System, a: Action)
    requires Inv(c, s) && (a.Read? ==> a.readOk) && (a.Write? ==> a.writeOk)
    ensures CountOf(Act(c, s, a)) == FailuresFrom(CountOf(s), Commit(c, s, a)) <==> KeepsCount(s, a)
  {
    if a.worker in s.tasks { assert TaskInv(c, s.tasks[a.worker], s.computed); }
    var commit := Commit(c, s, a);
    if commit != [] {
      assert commit[..|commit| - 1] == [];
      assert FailuresFrom(CountOf(s), []) == CountOf(s);
    }
  }

  lemma {:induction false} FailuresFromAppend(n: nat, history: seq<Event>, commit: seq<Event>)
    requires |commit| <= 1
    ensures FailuresFrom(n, history + commit) == FailuresFrom(FailuresFrom(n, history), commit)
  {
    if commit == [] {
      assert history + commit == history;
    } else {
      assert (history + commit)[..|history|] == history && commit[..0] == [];
      assert FailuresFrom(FailuresFrom(n, history), []) == FailuresFrom(n, history);
    }
  }

  /** Where the count is exact before an action, it is exact after it exactly when the action keeps it. */
  lemma CountStaysExactExactlyWhen(c: Config, s: System, actions: seq<Action>, k: nat)
    requires c.threshold >= 1 && Inv(c, s) && ErrorFree(actions) && k < |actions| && CountIsExactAt(c, s, actions, k)
    ensures CountIsExactAt(c, s, actions, k + 1) <==> KeepsCountAt(c, s, actions, k)
  {
    var before, now := actions[..k], RunActions(c, s, actions[..k]);
    InterleavingKeepsInv(c, s, before);
    RunOneMore(c, s, actions, k);
    ActionCountsExactlyWhen(c, now, actions[k]);
    FailuresFromAppend(CountOf(s), CommitOrder(c, s, before), Commit(c, now, actions[k]));
  }

  lemma {:induction false} KeptCountIsExact(c: Config, s: System, actions: seq<Action>, k: nat)
    requires c.threshold >= 1 && Inv(c, s) && ErrorFree(actions) && k <= |actions|
    requires forall i :: 0 <= i < |actions| ==> KeepsCountAt(c, s, actions, i)
    ensures CountIsExactAt(c, s, actions, k)
    decreases k
  {
    if k == 0 {
      assert actions[..0] == [];
    } else {
      KeptCountIsExact(c, s, actions, k - 1);
      CountStaysExactExactlyWhen(c, s, actions, k - 1);
    }
  }

  /**
   The exact condition for every state the invariant allows and every error-free interleaving: after each
   action the count is the number of failures since the last success, in the order in which the operations
   take effect, if and only if every write of a failure or a query finds the count it has read.
   */
  lemma InterleavedCountIsExactExactlyWhen(c: Config, s: System, actions: seq<Action>)
    requires c.threshold >= 1 && Inv(c, s) && ErrorFree(actions)
    ensures (forall k :: 0 <= k <= |actions| ==> CountIsExactAt(c, s, actions, k))
       <==> (forall k :: 0 <= k < |actions| ==> KeepsCountAt(c, s, actions, k))
  {
    if forall k :: 0 <= k < |actions| ==> KeepsCountAt(c, s, actions, k) {
      forall k | 0 <= k <= |actions| ensures CountIsExactAt(c, s, actions, k) { KeptCountIsExact(c, s, actions, k); }
    }
    if forall k :: 0 <= k <= |actions| ==> CountIsExactAt(c, s, actions, k) {
      forall k | 0 <= k < |actions| ensures KeepsCountAt(c, s, actions, k) {
        assert CountIsExactAt(c, s, actions, k) && CountIsExactAt(c, s, actions, k + 1);
        CountStaysExactExactlyWhen(c, s, actions, k);
      }
    }
  }

  /** From the start: such an interleaving ends with the number of failures since the last success. */
  lemma {:induction false} InterleavedCountFromStart(c: Config, actions: seq<Action>)
    requires c.threshold >= 1 && ErrorFree(actions)
    requires forall k :: 0 <= k < |actions| ==> KeepsCountAt(c, START, actions, k)
    ensures CountOf(RunActions(c, START, actions)) == FailuresSinceSuccess(CommitOrder(c, START, actions))
  {
    assert Waiting(START) == {};
    KeptCountIsExact(c, START, actions, |actions|);
    assert actions[..|actions|] == actions;
    FailuresFromZero(CommitOrder(c, START, actions));
  }

  /** Two workers read an open record whose window has elapsed: a query, which is going to half-open it, and another operation. */
  function QueryMeets(v: nat, w: nat, op: Op, now: real): seq<Action> {
    [Begin(v, Query), Begin(w, op), Read(v, now, true)] + [Read(w, now, true), Write(w, true), Write(v, true)]
  }

  lemma {:induction false} QueryWritesLast(c: Config, s: System, v: nat, w: nat, op: Op, now: real)
    requires v != w && TaskOf(s, v) == Idle && TaskOf(s, w) == Idle && op != Query
    requires var r := Load(s.stored, true); WindowElapsed(c, r, now)
    ensures RunActions(c, s, QueryMeets(v, w, op, now)).stored == Some(Load(s.stored, true).(status := HalfOpen))
    ensures CommitOrder(c, s, QueryMeets(v, w, op, now)) == [EventOf(op, now), Asked(now)]
  {
    var r := Load(s.stored, true);
    var s1 := Act(c, s, Begin(v, Query));
    var s2 := Act(c, s1, Begin(w, op));
    var s3 := Act(c, s2, Read(v, now, true));
    var s4 := Act(c, s3, Read(w, now, true));
    var s5 := Act(c, s4, Write(w, true));
    var s6 := Act(c, s5, Write(v, true));
    var half := r.(status := HalfOpen);
    assert TaskOf(s3, v) == Writing(Query, now, r, half) && TaskOf(s4, v) == Writing(Query, now, r, half);
    assert TaskOf(s4, w).Writing? && TaskOf(s4, w).op == op && TaskOf(s4, w).at == now;
    assert TaskOf(s5, v) == Writing(Query, now, r, half);
    RunThree(c, s, Begin(v, Query), Begin(w, op), Read(v, now, true));
    RunThree(c, s3, Read(w, now, true), Write(w, true), Write(v, true));
    CommitThree(c, s, Begin(v, Query), Begin(w, op), Read(v, now, true));
    CommitThree(c, s3, Read(w, now, true), Write(w, true), Write(v, true));
    RunAppend(c, s, [Begin(v, Query), Begin(w, op), Read(v, now, true)], [Read(w, now, true), Write(w, true), Write(v, true)]);
  }

  lemma {:induction false} RunOneMore(c: Config, s: System, steps: seq<Action>, k: nat)
    requires k < |steps|
    ensures RunActions(c, s, steps[..k + 1]) == Act(c, RunActions(c, s, steps[..k]), steps[k])
    ensures CommitOrder(c, s, steps[..k + 1]) == CommitOrder(c, s, steps[..k]) + Commit(c, RunActions(c, s, steps[..k]), steps[k])
  {
    assert steps[..k + 1] == steps[..k] + [steps[k]];
    RunAppend(c, s, steps[..k], [steps[k]]);
    RunOne(c, RunActions(c, s, steps[..k]), steps[k]);
  }

  lemma {:induction false} RunOne(c: Config, s: System, a: Action)
    ensures RunActions(c, s, [a]) == Act(c, s, a) && CommitOrder(c, s, [a]) == Commit(c, s, a)
  {
    assert [a][1..] == [];
    assert RunActions(c, Act(c, s, a), []) == Act(c, s, a);
    assert CommitOrder(c, s, [a]) == Commit(c, s, a) + [];
  }

  lemma {:induction false} CommitThree(c: Config, s: System, x: Action, y: Action, z: Action)
    ensures var s1 := Act(c, s, x); var s2 := Act(c, s1, y);
      CommitOrder(c, s, [x, y, z]) == Commit(c, s, x) + (Commit(c, s1, y) + Commit(c, s2, z))
  {
    var s1 := Act(c, s, x);
    var s2 := Act(c, s1, y);
    assert [x, y, z][1..] == [y, z] && [y, z][1..] == [z] && [z][1..] == [];
    assert CommitOrder(c, s2, [z]) == Commit(c, s2, z) + [];
    assert CommitOrder(c, s1, [y, z]) == Commit(c, s1, y) + CommitOrder(c, s2, [z]);
  }

  lemma {:induction false} RunAppend(c: Config, s: System, a: seq<Action>, b: seq<Action>)
    ensures RunActions(c, s, a + b) == RunActions(c, RunActions(c, s, a), b)
    ensures CommitOrder(c, s, a + b) == CommitOrder(c, s, a) + CommitOrder(c, RunActions(c, s, a), b)
    decreases |a|
  {
    if a == [] {
      assert a + b == b;
    } else {
      assert (a + b)[1..] == a[1..] + b;
      RunAppend(c, Act(c, s, a[0]), a[1..], b);
    }
  }

  /**
   A query that half-opens the circuit can undo a failure: in every state with an open circuit whose window
   has elapsed, it writes back the count it read although a failure was counted meanwhile.
   */
  lemma {:induction false} StaleQueryLosesAFailure(c: Config, s: System, v: nat, w: nat, now: real)
    requires v != w && TaskOf(s, v) == Idle && TaskOf(s, w) == Idle && WindowElapsed(c, Load(s.stored, true), now)
    ensures var steps := QueryMeets(v, w, Failure, now);
      && CountOf(RunActions(c, s, steps)) == CountOf(s)
      && FailuresFrom(CountOf(s), CommitOrder(c, s, steps)) == CountOf(s) + 1
  {
    QueryWritesLast(c, s, v, w, Failure, now);
    var history := [Failed(now), Asked(now)];
    assert history[..1] == [Failed(now)] && [Failed(now)][..0] == [];
    assert FailuresFrom(CountOf(s), [Failed(now)]) == FailuresFrom(CountOf(s), []) + 1;
  }

  /** It can also undo a success: the circuit is half-open with its old count, although no failure followed the success. */
  lemma {:induction false} StaleQueryUndoesASuccess(c: Config, s: System, v: nat, w: nat, now: real)
    requires v != w && TaskOf(s, v) == Idle && TaskOf(s, w) == Idle && WindowElapsed(c, Load(s.stored, true), now)
    ensures var steps := QueryMeets(v, w, Success, now);
      && StatusOf(RunActions(c, s, steps)) == HalfOpen && CountOf(RunActions(c, s, steps)) == CountOf(s)
      && FailuresFrom(CountOf(s), CommitOrder(c, s, steps)) == 0
  {
    QueryWritesLast(c, s, v, w, Success, now);
    var history := [Succeeded, Asked(now)];
    assert history[..1] == [Succeeded];
    assert FailuresFrom(CountOf(s), [Succeeded]) == 0;
  }
}

/**
 `resilient_call` (resilience/degraded_mode.py): breaker check, up to three attempts, caching of live
 results and fallback to the cache.
 */
module ResilientCalls {
  import opened Basics
  import CB = CircuitBreaker

  const MAX_ATTEMPTS := 3

  /** What one invocation of the wrapped function does. */
  datatype Attempt<V> = Answer(value: V) | HttpError | OtherError

  datatype SourceStatus = Live | Cached | Unavailable

  datatype Result<V> = Result(value: Option<V>, degraded: bool, status: SourceStatus)

  datatype Outcome<V> = Returned(result: Result<V>) | Raised

  datatype CacheEntry<V> = CacheEntry(value: V, expiresAt: real)

  /** Which Redis operations of one call succeed. */
  datatype Redis = Redis(breakerRead: bool, breakerWrite: bool, settleRead: bool, settleWrite: bool,
                         cacheWrite: bool, cacheRead: bool)

  datatype Call<V> = Call(key: string, ttl: int, bypass: bool, now: real, attempts: seq<Attempt<V>>, redis: Redis)

  /** There is an answer ready for every attempt the retry policy can make. */
  predicate Complete<V>(call: Call<V>) { |call.attempts| == MAX_ATTEMPTS }

  datatype World<V> = World(breaker: Option<CB.Record>, cache: map<string, CacheEntry<V>>)

  /** The retry policy: stop at the first attempt that does not fail with an HTTP error. */
  function Retried<V>(attempts: seq<Attempt<V>>): Attempt<V> {
    if attempts == [] then HttpError
    else if attempts[0] == HttpError then Retried(attempts[1..])
    else attempts[0]
  }

  function FromCache<V>(w: World<V>, call: Call<V>): Result<V> {
    if call.redis.cacheRead && call.key in w.cache && call.now <= w.cache[call.key].expiresAt
    then Result(Some(w.cache[call.key].value), true, Cached)
    else Result(None, true, Unavailable)
  }

  function Remember<V>(w: World<V>, call: Call<V>, v: V): map<string, CacheEntry<V>> {
    if call.redis.cacheWrite && call.ttl > 0
    then w.cache[call.key := CacheEntry(v, call.now + call.ttl as real)]
    else w.cache
  }

  function Invoke<V>(c: CB.Config, w: World<V>, call: Call<V>): (World<V>, Outcome<V>)
    requires Complete(call)
  {
    if call.bypass then
      (w, if call.attempts[0].Answer? then Returned(Result(Some(call.attempts[0].value), false, Live)) else Raised)
    else
      var seen := CB.Load(w.breaker, call.redis.breakerRead);
      var asked := CB.Store(w.breaker, CB.AfterQuery(c, seen, call.now), call.redis.breakerWrite);
      if CB.Blocks(c, seen, call.now) then
        (w.(breaker := asked), Returned(FromCache(w, call)))
      else
        var settled := CB.Load(asked, call.redis.settleRead);
        match Retried(call.attempts)
        case Answer(v) =>
          (World(CB.Store(asked, CB.AfterSuccess(settled), call.redis.settleWrite), Remember(w, call, v)),
           Returned(Result(Some(v), false, Live)))
        case HttpError =>
          var failed := CB.AfterFailure(c, settled, call.now);
          (w.(breaker := CB.Store(asked, Some(failed), call.redis.settleWrite)), Returned(FromCache(w, call)))
        case OtherError =>
          (w.(breaker := asked), Raised)
  }

  /** The call as code: sequenced effects on the breaker object and the cache. */
  class Caller<V(==)> {
    const breaker: CB.SharedBreaker
    var cache: map<string, CacheEntry<V>>
    var invocations: nat  // of the wrapped function, by the latest call

    constructor (breaker: CB.SharedBreaker)
      ensures this.breaker == breaker && cache == map[]
    {
      this.breaker := breaker;
      cache := map[];
      invocations := 0;
    }

    method ServeFromCache(call: Call<V>) returns (r: Result<V>)
      ensures r == FromCache(World(breaker.stored, cache), call)
    {
      if call.redis.cacheRead && call.key in cache && call.now <= cache[call.key].expiresAt {
        return Result(Some(cache[call.key].value), true, Cached);
      }
      return Result(None, true, Unavailable);
    }

    method WithRetry(call: Call<V>) returns (last: Attempt<V>)
      requires Complete(call)
      modifies this`invocations
      ensures last == Retried(call.attempts)
      ensures 1 <= invocations <= MAX_ATTEMPTS && last == call.attempts[invocations - 1]
      ensures forall i :: 0 <= i < invocations - 1 ==> call.attempts[i] == HttpError
      ensures last == HttpError ==> invocations == MAX_ATTEMPTS
    {
      invocations := 1;
      last := call.attempts[0];
      while last == HttpError && invocations < MAX_ATTEMPTS
        invariant 1 <= invocations <= MAX_ATTEMPTS
        invariant last == call.attempts[invocations - 1]
        invariant forall i :: 0 <= i < invocations - 1 ==> call.attempts[i] == HttpError
        invariant Retried(call.attempts) == Retried(call.attempts[invocations - 1..])
      {
        last := call.attempts[invocations];
        invocations := invocations + 1;
        assert call.attempts[invocations - 2..][1..] == call.attempts[invocations - 1..];
      }
      assert last == HttpError ==> call.attempts[invocations - 1..] == [HttpError];
    }

    method ResilientCall(call: Call<V>) returns (o: Outcome<V>)
      requires Complete(call)
      modifies this, breaker
      ensures (World(breaker.stored, cache), o)
           == Invoke(breaker.config, World(old(breaker.stored), old(cache)), call)
      ensures invocations <= MAX_ATTEMPTS
      ensures !call.bypass ==>
        (invocations == 0 <==>
          CB.Blocks(breaker.config, CB.Load(old(breaker.stored), call.redis.breakerRead), call.now))
    {
      if call.bypass {
        invocations := 1;
        match call.attempts[0] {
          case Answer(v) => return Returned(Result(Some(v), false, Live));
          case HttpError => return Raised;
          case OtherError => return Raised;
        }
      }
      invocations := 0;
      var open := breaker.IsOpen(call.now, call.redis.breakerRead, call.redis.breakerWrite);
      if open {
        var r := ServeFromCache(call);
        return Returned(r);
      }
      var attempt := WithRetry(call);
      match attempt {
        case Answer(v) =>
          cache := Remember(World(breaker.stored, cache), call, v);
          breaker.RecordSuccess(call.redis.settleRead, call.redis.settleWrite);
          return Returned(Result(Some(v), false, Live));
        case HttpError =>
          breaker.RecordFailure(call.now, call.redis.settleRead, call.redis.settleWrite);
          var r := ServeFromCache(call);
          return Returned(r);
        case OtherError =>
          return Raised;
      }
    }
  }

  // ---------------------------------------------------------------- when it raises

  /** Some attempt the policy reaches fails with something other than an HTTP error. */
  ghost predicate ReachesOtherError<V>(attempts: seq<Attempt<V>>) {
    exists i :: 0 <= i < |attempts| && attempts[i] == OtherError && forall j :: 0 <= j < i ==> attempts[j] == HttpError
  }

  lemma {:induction false} RetriedOtherError<V>(attempts: seq<Attempt<V>>)
    ensures Retried(attempts) == OtherError <==> ReachesOtherError(attempts)
  {
    if attempts != [] && attempts[0] == HttpError {
      RetriedOtherError(attempts[1..]);
      if ReachesOtherError(attempts[1..]) {
        var i :| 0 <= i < |attempts[1..]| && attempts[1..][i] == OtherError
                 && forall j :: 0 <= j < i ==> attempts[1..][j] == HttpError;
        assert attempts[i + 1] == OtherError;
        assert forall j :: 0 <= j < i + 1 ==> attempts[j] == if j == 0 then HttpError else attempts[1..][j - 1];
      }
      if ReachesOtherError(attempts) {
        var i :| 0 <= i < |attempts| && attempts[i] == OtherError && forall j :: 0 <= j < i ==> attempts[j] == HttpError;
        assert attempts[1..][i - 1] == OtherError;
        assert forall j :: 0 <= j < i - 1 ==> attempts[1..][j] == attempts[j + 1];
      }
    }
  }

  /**
   "Never raises" holds exactly when the bypass is off and no reachable attempt fails with something
   other than an HTTP error while the circuit lets calls through; under bypass, when the only attempt answers.
   */
  lemma RaisesExactlyWhen<V>(c: CB.Config, w: World<V>, call: Call<V>)
    requires Complete(call)
    ensures Invoke(c, w, call).1.Raised? <==>
      if call.bypass then !call.attempts[0].Answer?
      else !CB.Blocks(c, CB.Load(w.breaker, call.redis.breakerRead), call.now) && ReachesOtherError(call.attempts)
  {
    RetriedOtherError(call.attempts);
  }

  // ---------------------------------------------------------------- provenance of cached values

  /** Outcomes of a sequence of calls on one source. */
  function RunCalls<V>(c: CB.Config, w: World<V>, calls: seq<Call<V>>): (os: seq<Outcome<V>>)
    requires forall call :: call in calls ==> Complete(call)
    ensures |os| == |calls|
    decreases |calls|
  {
    if calls == [] then [] else
      var (w', o) := Invoke(c, w, calls[0]);
      [o] + RunCalls(c, w', calls[1..])
  }

  /** The outcome `o` of the call `earlier` put `entry` in the cache under `key`. */
  ghost predicate Supplied<V>(earlier: Call<V>, o: Outcome<V>, key: string, entry: CacheEntry<V>) {
    && earlier.key == key && !earlier.bypass
    && o == Returned(Result(Some(entry.value), false, Live))
    && entry.expiresAt == earlier.now + earlier.ttl as real
  }

  ghost predicate SuppliedByOne<V>(past: seq<Call<V>>, os: seq<Outcome<V>>, key: string, entry: CacheEntry<V>)
    requires |past| == |os|
  {
    exists i :: 0 <= i < |past| && Supplied(past[i], os[i], key, entry)
  }

  /** Every cached value was a live result of one of the past calls, with the lifetime it was given. */
  ghost predicate Traced<V>(w: World<V>, past: seq<Call<V>>, os: seq<Outcome<V>>)
    requires |past| == |os|
  {
    forall key :: key in w.cache ==> SuppliedByOne(past, os, key, w.cache[key])
  }

  lemma SupplierPersists<V>(past: seq<Call<V>>, os: seq<Outcome<V>>, key: string,
                            entry: CacheEntry<V>, past': seq<Call<V>>, os': seq<Outcome<V>>)
    requires |past| == |os| && |past'| == |os'| && SuppliedByOne(past, os, key, entry)
    ensures SuppliedByOne(past + past', os + os', key, entry)
  {
    var i :| 0 <= i < |past| && Supplied(past[i], os[i], key, entry);
    assert (past + past')[i] == past[i] && (os + os')[i] == os[i];
  }

  lemma InvokeKeepsTraced<V>(c: CB.Config, w: World<V>, call: Call<V>,
                             past: seq<Call<V>>, os: seq<Outcome<V>>)
    requires Complete(call) && |past| == |os| && Traced(w, past, os)
    ensures Traced(Invoke(c, w, call).0, past + [call], os + [Invoke(c, w, call).1])
  {
    var (w', o) := Invoke(c, w, call);
    forall key | key in w'.cache ensures SuppliedByOne(past + [call], os + [o], key, w'.cache[key]) {
      if key in w.cache && w.cache[key] == w'.cache[key] {
        SupplierPersists(past, os, key, w.cache[key], [call], [o]);
      } else {
        assert Supplied((past + [call])[|past|], (os + [o])[|past|], key, w'.cache[key]);
      }
    }
  }

  /** The world before call number `k`. */
  function WorldBefore<V>(c: CB.Config, w: World<V>, calls: seq<Call<V>>, k: nat): World<V>
    requires k <= |calls|
    requires forall call :: call in calls ==> Complete(call)
    decreases k
  {
    if k == 0 then w else Invoke(c, WorldBefore(c, w, calls, k - 1), calls[k - 1]).0
  }

  lemma {:induction false} RunCallsAt<V>(c: CB.Config, w: World<V>, calls: seq<Call<V>>, k: nat)
    requires k < |calls|
    requires forall call :: call in calls ==> Complete(call)
    ensures RunCalls(c, w, calls)[k] == Invoke(c, WorldBefore(c, w, calls, k), calls[k]).1
    decreases k
  {
    if k > 0 {
      var w' := Invoke(c, w, calls[0]).0;
      RunCallsAt(c, w', calls[1..], k - 1);
      WorldBeforeTail(c, w, calls, k);
    }
  }

  lemma {:induction false} WorldBeforeTail<V>(c: CB.Config, w: World<V>, calls: seq<Call<V>>, k: nat)
    requires 0 < k <= |calls|
    requires forall call :: call in calls ==> Complete(call)
    ensures WorldBefore(c, w, calls, k) == WorldBefore(c, Invoke(c, w, calls[0]).0, calls[1..], k - 1)
    decreases k
  {
    if k > 1 { WorldBeforeTail(c, w, calls, k - 1); }
  }

  lemma {:induction false} WorldsAreTraced<V>(c: CB.Config, w: World<V>, calls: seq<Call<V>>, k: nat)
    requires k <= |calls| && w.cache == map[]
    requires forall call :: call in calls ==> Complete(call)
    ensures Traced(WorldBefore(c, w, calls, k), calls[..k], RunCalls(c, w, calls)[..k])
    decreases k
  {
    if k > 0 {
      WorldsAreTraced(c, w, calls, k - 1);
      RunCallsAt(c, w, calls, k - 1);
      var os := RunCalls(c, w, calls);
      InvokeKeepsTraced(c, WorldBefore(c, w, calls, k - 1), calls[k - 1], calls[..k - 1], os[..k - 1]);
      assert calls[..k] == calls[..k - 1] + [calls[k - 1]];
      assert os[..k] == os[..k - 1] + [os[k - 1]];
    }
  }

  /**
   Over every sequence of calls from an empty cache, a degraded "cached" answer is the value some
   earlier call of the same key obtained live, no longer ago than the lifetime that call gave it.
   */
  lemma {:induction false} CachedValuesWereLive<V>(c: CB.Config, w: World<V>, calls: seq<Call<V>>, k: nat)
    requires forall call :: call in calls ==> Complete(call)
    requires k < |calls| && w.cache == map[]
    requires var o := RunCalls(c, w, calls)[k]; o.Returned? && o.result.status == Cached
    ensures var os := RunCalls(c, w, calls);
      && os[k].result.value.Some?
      && exists i, entry :: 0 <= i < k && Supplied(calls[i], os[i], calls[k].key, entry)
           && entry.value == os[k].result.value.value && calls[k].now <= entry.expiresAt
  {
    var os := RunCalls(c, w, calls);
    var before := WorldBefore(c, w, calls, k);
    RunCallsAt(c, w, calls, k);
    WorldsAreTraced(c, w, calls, k);
    var entry := before.cache[calls[k].key];
    var i :| 0 <= i < k && Supplied(calls[..k][i], os[..k][i], calls[k].key, entry);
    assert Supplied(calls[i], os[i], calls[k].key, entry);
  }

  // ---------------------------------------------------------------- what a fallback serves

  /** This call obtained a live value under `key` and managed to cache it. */
  predicate StoresLive<V(==)>(call: Call<V>, o: Outcome<V>, key: string) {
    && call.key == key && !call.bypass && call.redis.cacheWrite && call.ttl > 0
    && o.Returned? && o.result.status == Live && o.result.value.Some?
  }

  /** The latest value stored under `key` by a sequence of calls, with the lifetime it was given. */
  function LastLive<V(==)>(calls: seq<Call<V>>, os: seq<Outcome<V>>, key: string): Option<CacheEntry<V>>
    requires |calls| == |os|
    decreases |calls|
  {
    if calls == [] then None else
      var last := |calls| - 1;
      if StoresLive(calls[last], os[last], key)
      then Some(CacheEntry(os[last].result.value.value, calls[last].now + calls[last].ttl as real))
      else LastLive(calls[..last], os[..last], key)
  }

  function CacheAt<V>(w: World<V>, key: string): Option<CacheEntry<V>> {
    if key in w.cache then Some(w.cache[key]) else None
  }

  lemma InvokeCaches<V>(c: CB.Config, w: World<V>, call: Call<V>, key: string)
    requires Complete(call)
    ensures var (w', o) := Invoke(c, w, call);
      CacheAt(w', key) == if StoresLive(call, o, key)
        then Some(CacheEntry(o.result.value.value, call.now + call.ttl as real)) else CacheAt(w, key)
  {
  }

  lemma {:induction false} CacheHoldsLastLive<V>(c: CB.Config, w: World<V>, calls: seq<Call<V>>, k: nat, key: string)
    requires k <= |calls| && w.cache == map[]
    requires forall call :: call in calls ==> Complete(call)
    ensures CacheAt(WorldBefore(c, w, calls, k), key) == LastLive(calls[..k], RunCalls(c, w, calls)[..k], key)
    decreases k
  {
    if k > 0 {
      var os := RunCalls(c, w, calls);
      CacheHoldsLastLive(c, w, calls, k - 1, key);
      RunCallsAt(c, w, calls, k - 1);
      InvokeCaches(c, WorldBefore(c, w, calls, k - 1), calls[k - 1], key);
      LastLiveOneMore(calls, os, k, key);
    }
  }

  lemma {:induction false} LastLiveOneMore<V>(calls: seq<Call<V>>, os: seq<Outcome<V>>, k: nat, key: string)
    requires 0 < k <= |calls| == |os|
    ensures LastLive(calls[..k], os[..k], key) == if StoresLive(calls[k - 1], os[k - 1], key)
      then Some(CacheEntry(os[k - 1].result.value.value, calls[k - 1].now + calls[k - 1].ttl as real))
      else LastLive(calls[..k - 1], os[..k - 1], key)
  {
    assert calls[..k][..k - 1] == calls[..k - 1];
    assert os[..k][..k - 1] == os[..k - 1];
  }

  /**
   Over every sequence of calls from an empty cache: a call that falls back serves the latest value any
   earlier call stored live under its key if its cache read succeeds and the value's lifetime has not
   passed, and otherwise reports the source unavailable with no value.
   */
  lemma {:induction false} FallbackServesExactly<V>(c: CB.Config, w: World<V>, calls: seq<Call<V>>, k: nat)
    requires forall call :: call in calls ==> Complete(call)
    requires k < |calls| && w.cache == map[]
    requires var o := RunCalls(c, w, calls)[k]; o.Returned? && o.result.degraded
    ensures var os := RunCalls(c, w, calls); var stored := LastLive(calls[..k], os[..k], calls[k].key);
      if calls[k].redis.cacheRead && stored.Some? && calls[k].now <= stored.value.expiresAt
      then os[k].result.status == Cached && os[k].result.value == Some(stored.value.value)
      else os[k].result.status == Unavailable && os[k].result.value == None
  {
    RunCallsAt(c, w, calls, k);
    CacheHoldsLastLive(c, w, calls, k, calls[k].key);
  }

  // ---------------------------------------------------------------- what a call answers

  /** The first attempt that is not an HTTP error is `a`. */
  ghost predicate FirstOther<V>(attempts: seq<Attempt<V>>, a: Attempt<V>) {
    a != HttpError && exists i :: 0 <= i < |attempts| && attempts[i] == a && forall j :: 0 <= j < i ==> attempts[j] == HttpError
  }

  ghost predicate AllHttpErrors<V>(attempts: seq<Attempt<V>>) {
    forall i :: 0 <= i < |attempts| ==> attempts[i] == HttpError
  }

  lemma {:induction false} RetriedIs<V>(attempts: seq<Attempt<V>>)
    ensures if AllHttpErrors(attempts) then Retried(attempts) == HttpError else FirstOther(attempts, Retried(attempts))
    decreases |attempts|
  {
    if attempts != [] && attempts[0] == HttpError {
      var rest := attempts[1..];
      RetriedIs(rest);
      assert forall i :: 1 <= i < |attempts| ==> attempts[i] == rest[i - 1];
      if AllHttpErrors(rest) {
        assert AllHttpErrors(attempts);
      } else {
        var i :| 0 <= i < |rest| && rest[i] == Retried(rest) && forall j :: 0 <= j < i ==> rest[j] == HttpError;
        assert attempts[i + 1] == Retried(attempts);
        assert !AllHttpErrors(attempts);
      }
    }
  }

  lemma FirstOtherUnique<V>(attempts: seq<Attempt<V>>, a: Attempt<V>, b: Attempt<V>)
    requires FirstOther(attempts, a)
    ensures FirstOther(attempts, b) ==> a == b
    ensures !AllHttpErrors(attempts)
  {
  }

  /** The call gets through to the source: under bypass always, otherwise when the circuit does not block. */
  ghost predicate GetsThrough<V>(c: CB.Config, w: World<V>, call: Call<V>) {
    call.bypass || !CB.Blocks(c, CB.Load(w.breaker, call.redis.breakerRead), call.now)
  }

  /** The attempts the call makes: one under bypass, otherwise those of the retry policy. */
  ghost function Tried<V>(call: Call<V>): seq<Attempt<V>>
    requires Complete(call)
  {
    if call.bypass then call.attempts[..1] else call.attempts
  }

  /**
   The three ways a call ends. It returns a live value exactly when it gets through and its first attempt that
   is no HTTP error is that answer; it raises exactly when it gets through and that attempt is another error, or
   under bypass its one attempt is an HTTP error; otherwise it falls back.
   */
  lemma OutcomeIs<V>(c: CB.Config, w: World<V>, call: Call<V>)
    requires Complete(call)
    ensures var o := Invoke(c, w, call).1;
      && (forall v :: o == Returned(Result(Some(v), false, Live)) <==> GetsThrough(c, w, call) && FirstOther(Tried(call), Answer(v)))
      && (o.Raised? <==> GetsThrough(c, w, call) && (FirstOther(Tried(call), OtherError) || (call.bypass && AllHttpErrors(Tried(call)))))
      && (o.Returned? && o.result.degraded <==> !call.bypass && (!GetsThrough(c, w, call) || AllHttpErrors(call.attempts)))
      && (o.Returned? && !o.result.degraded ==> o.result.status == Live && o.result.value.Some?)
  {
    var tried := Tried(call);
    RetriedIs(tried);
    var a := Retried(tried);
    if call.bypass {
      assert tried == [call.attempts[0]] && tried[0] == call.attempts[0];
      assert tried[1..] == [];
    }
    if !AllHttpErrors(tried) {
      forall b ensures FirstOther(tried, b) ==> a == b { FirstOtherUnique(tried, a, b); }
    }
  }

  // ---------------------------------------------------------------- what a run does to the breaker

  /** Every read and write of the breaker record succeeds. */
  predicate BreakerHealthy<V>(call: Call<V>) {
    call.redis.breakerRead && call.redis.breakerWrite && call.redis.settleRead && call.redis.settleWrite
  }

  /** What the call reports to the breaker after it got through: success, failure, or nothing when it raised. */
  function Report<V>(call: Call<V>, o: Outcome<V>): seq<CB.Event> {
    match o
    case Raised => []
    case Returned(r) => if r.degraded then [CB.Failed(call.now)] else [CB.Succeeded]
  }

  /**
   The history of the breaker after some calls: each call that is no bypass asks, and if the circuit as it then
   is does not block it, reports.
   */
  ghost function HistoryAfter<V>(c: CB.Config, history: seq<CB.Event>, calls: seq<Call<V>>, os: seq<Outcome<V>>): seq<CB.Event>
    requires |calls| == |os|
    decreases |calls|
  {
    if calls == [] then history else
      var last := |calls| - 1;
      var h := HistoryAfter(c, history, calls[..last], os[..last]);
      if calls[last].bypass then h
      else if CB.Blocks(c, CB.Load(CB.Replay(c, h), true), calls[last].now) then h + [CB.Asked(calls[last].now)]
      else h + [CB.Asked(calls[last].now)] + Report(calls[last], os[last])
  }

  lemma ReplayOne(c: CB.Config, h: seq<CB.Event>, e: CB.Event)
    ensures CB.Replay(c, h + [e]) == CB.Apply(c, CB.Replay(c, h), e)
  {
    assert (h + [e])[..|h|] == h;
  }

  lemma InvokeReports<V>(c: CB.Config, w: World<V>, call: Call<V>, h: seq<CB.Event>)
    requires Complete(call) && BreakerHealthy(call) && w.breaker == CB.Replay(c, h)
    ensures var (w', o) := Invoke(c, w, call);
      w'.breaker == if call.bypass then CB.Replay(c, h)
        else if CB.Blocks(c, CB.Load(CB.Replay(c, h), true), call.now) then CB.Replay(c, h + [CB.Asked(call.now)])
        else CB.Replay(c, h + [CB.Asked(call.now)] + Report(call, o))
  {
    var asked := h + [CB.Asked(call.now)];
    ReplayOne(c, h, CB.Asked(call.now));
    ReplayOne(c, asked, CB.Succeeded);
    ReplayOne(c, asked, CB.Failed(call.now));
    assert asked + [] == asked;
  }

  /**
   Over every run of calls whose breaker reads and writes succeed, starting from the record of any history, the
   record is that of the history the calls add: a question each, and a success, a failure or nothing for each call
   that got through and returned live, fell back or raised.
   */
  lemma {:induction false} RecordFollowsCalls<V>(c: CB.Config, w: World<V>, history: seq<CB.Event>, calls: seq<Call<V>>, k: nat)
    requires k <= |calls| && w.breaker == CB.Replay(c, history)
    requires forall call :: call in calls ==> Complete(call) && BreakerHealthy(call)
    ensures WorldBefore(c, w, calls, k).breaker
         == CB.Replay(c, HistoryAfter(c, history, calls[..k], RunCalls(c, w, calls)[..k]))
    decreases k
  {
    if k > 0 {
      var os := RunCalls(c, w, calls);
      RecordFollowsCalls(c, w, history, calls, k - 1);
      RunCallsAt(c, w, calls, k - 1);
      assert calls[k - 1] in calls;
      InvokeReports(c, WorldBefore(c, w, calls, k - 1), calls[k - 1], HistoryAfter(c, history, calls[..k - 1], os[..k - 1]));
      HistoryNext(c, history, calls, os, k);
    }
  }

  lemma HistoryNext<V>(c: CB.Config, history: seq<CB.Event>, calls: seq<Call<V>>, os: seq<Outcome<V>>, k: nat)
    requires 0 < k <= |calls| == |os|
    ensures var h := HistoryAfter(c, history, calls[..k - 1], os[..k - 1]);
      HistoryAfter(c, history, calls[..k], os[..k]) == if calls[k - 1].bypass then h
        else if CB.Blocks(c, CB.Load(CB.Replay(c, h), true), calls[k - 1].now) then h + [CB.Asked(calls[k - 1].now)]
        else h + [CB.Asked(calls[k - 1].now)] + Report(calls[k - 1], os[k - 1])
  {
    assert calls[..k][..k - 1] == calls[..k - 1];
    assert os[..k][..k - 1] == os[..k - 1];
  }

  /** A call that asks for nothing special and finds the source dead. */
  predicate Exhausted<V(==)>(call: Call<V>) {
    Complete(call) && BreakerHealthy(call) && !call.bypass && forall i :: 0 <= i < |call.attempts| ==> call.attempts[i] == HttpError
  }

  /**
   A dead source opens its circuit: from a fresh record, after `k` exhausted calls the record counts `k` failures
   and is closed below the threshold; the call that reaches the threshold opens it at its own time.
   */
  lemma {:induction false} DeadSourceOpensCircuit<V>(c: CB.Config, w: World<V>, calls: seq<Call<V>>, k: nat)
    requires c.threshold >= 1 && w.breaker == None && k <= |calls| && k <= c.threshold
    requires forall call :: call in calls ==> Complete(call) && Exhausted(call)
    ensures CB.Load(WorldBefore(c, w, calls, k).breaker, true)
         == if k < c.threshold then CB.Record(CB.Closed, k, None) else CB.Record(CB.Open, k, Some(calls[k - 1].now))
    decreases k
  {
    if k > 0 {
      DeadSourceOpensCircuit(c, w, calls, k - 1);
      assert calls[k - 1] in calls;
      RetriedIs(calls[k - 1].attempts);
    }
  }

  /** After that, a call within the window does not reach the source: it falls back. */
  lemma OpenCircuitSparesTheSource<V>(c: CB.Config, w: World<V>, calls: seq<Call<V>>, next: Call<V>)
    requires c.threshold >= 1 && w.breaker == None && |calls| == c.threshold && Complete(next) && !next.bypass && next.redis.breakerRead
    requires forall call :: call in calls ==> Complete(call) && Exhausted(call)
    requires next.now - calls[|calls| - 1].now < c.halfOpenTimeout
    ensures var before := WorldBefore(c, w, calls, |calls|);
      !GetsThrough(c, before, next) && Invoke(c, before, next).1.Returned? && Invoke(c, before, next).1.result.degraded
  {
    DeadSourceOpensCircuit(c, w, calls, |calls|);
    OutcomeIs(c, WorldBefore(c, w, calls, |calls|), next);
  }
}
