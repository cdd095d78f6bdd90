/**
 The calibrated-parameter cache (simulation_engine/parameter_loader.py) against the file it caches,
 with any number of concurrent callers, a promoting writer (simulation_engine/calibration/report.py)
 and invalidations. Every lock-protected block and every file operation is one step.
 */
module ParameterCache {
  import opened Basics

  const CACHE_TTL_SECONDS := 30.0

  type Params = map<string, real>

  /** A YAML scalar under `parameters`; a boolean counts as the number it converts to. */
  datatype Scalar = Finite(value: real) | NotFinite | NotNumeric

  /** What `yaml.safe_load` returned. */
  datatype Document = NotADict | Dict(parameters: Option<map<string, Scalar>>)

  // ---------------------------------------------------------------- validation

  ghost predicate IsValid(d: Document, required: seq<string>) {
    && d.Dict? && d.parameters.Some?
    && forall k :: k in required ==> k in d.parameters.value && d.parameters.value[k].Finite?
  }

  method ValidateParameters(d: Document, required: seq<string>) returns (ok: bool)
    ensures ok <==> IsValid(d, required)
  {
    if !d.Dict? || d.parameters.None? {
      return false;
    }
    for i := 0 to |required|
      invariant forall k :: k in required[..i] ==> k in d.parameters.value && d.parameters.value[k].Finite?
    {
      var k := required[i];
      if k !in d.parameters.value || !d.parameters.value[k].Finite? {
        return false;
      }
    }
    assert required[..|required|] == required;
    return true;
  }

  ghost function Extract(d: Document, required: seq<string>): Params
    requires IsValid(d, required)
  {
    map k | k in required :: d.parameters.value[k].value
  }

  method BuildParameters(d: Document, required: seq<string>) returns (params: Params)
    requires IsValid(d, required)
    ensures params == Extract(d, required)
  {
    params := map[];
    for i := 0 to |required|
      invariant params == map k | k in required[..i] :: d.parameters.value[k].value
    {
      params := params[required[i] := d.parameters.value[required[i]].value];
    }
    assert required[..|required|] == required;
  }

  // ---------------------------------------------------------------- state

  datatype File = Missing | Present(mtime: real, document: Document)

  /** A state of the file and the instant it began. */
  datatype Version = Version(start: real, file: File)

  datatype Entry = Entry(checked: real, mtime: real, params: Params)

  datatype Answer = Defaults | Values(params: Params)

  /** Where one call of `load_calibrated_parameters` stands; `now` is the time it captured. */
  datatype Call =
    | Started(now: real)
    | Expired(now: real)
    | Found(now: real)
    | Statted(now: real, mtime: real)
    | Reloading(now: real, mtime: real)
    | Loaded(now: real, mtime: real, params: Params)
    | Done(now: real, answer: Answer)

  /** One model's slot: the clock, every state the file has had, the cache entry, the calls. */
  datatype System = System(clock: real, versions: seq<Version>, cache: Option<Entry>, calls: map<nat, Call>)

  datatype Step =
    | Tick(seconds: real)
    | WriteFile(mtime: real, document: Document)
    | DeleteFile
    | Invalidate
    | Begin(call: nat)
    | Advance(call: nat)

  function Current(s: System): File
    requires s.versions != []
  {
    s.versions[|s.versions| - 1].file
  }

  /** The next step of one call: its new place and the cache entry it leaves. */
  ghost function Proceed(required: seq<string>, file: File, cache: Option<Entry>, c: Call): (Call, Option<Entry>) {
    match c
    case Started(now) =>
      if cache.Some? && now - cache.value.checked <= CACHE_TTL_SECONDS
      then (Done(now, Values(cache.value.params)), cache)
      else (Expired(now), cache)
    case Expired(now) =>
      (if file.Present? then Found(now) else Done(now, Defaults), cache)
    case Found(now) =>
      (if file.Present? then Statted(now, file.mtime) else Done(now, Defaults), cache)
    case Statted(now, mtime) =>
      if cache.Some? && cache.value.mtime == mtime
      then (Done(now, Values(cache.value.params)), Some(Entry(now, mtime, cache.value.params)))
      else (Reloading(now, mtime), cache)
    case Reloading(now, mtime) =>
      (if file.Present? && IsValid(file.document, required)
       then Loaded(now, mtime, Extract(file.document, required))
       else Done(now, Defaults), cache)
    case Loaded(now, mtime, params) =>
      (Done(now, Values(params)), Some(Entry(now, mtime, params)))
    case Done(_, _) => (c, cache)
  }

  /** Every write gets a modification time the file has not had before. */
  predicate FreshMtime(s: System, mtime: real) {
    forall i :: 0 <= i < |s.versions| && s.versions[i].file.Present? ==> s.versions[i].file.mtime != mtime
  }

  /** A step that is not enabled changes nothing. */
  ghost function Act(required: seq<string>, s: System, step: Step): System
    requires s.versions != []
  {
    match step
    case Tick(seconds) => if seconds < 0.0 then s else s.(clock := s.clock + seconds)
    case WriteFile(mtime, document) =>
      if !FreshMtime(s, mtime) then s else
        s.(versions := s.versions + [Version(s.clock, Present(mtime, document))])
    case DeleteFile => s.(versions := s.versions + [Version(s.clock, Missing)])
    case Invalidate => s.(cache := None)
    case Begin(id) => if id in s.calls then s else s.(calls := s.calls[id := Started(s.clock)])
    case Advance(id) =>
      if id !in s.calls then s else
        var (call, cache) := Proceed(required, Current(s), s.cache, s.calls[id]);
        s.(calls := s.calls[id := call], cache := cache)
  }

  ghost function RunSteps(required: seq<string>, s: System, steps: seq<Step>): (s': System)
    requires s.versions != []
    ensures s'.versions != []
    decreases |steps|
  {
    if steps == [] then s else RunSteps(required, Act(required, s, steps[0]), steps[1..])
  }

  // ---------------------------------------------------------------- what answers mean

  /** State number `i` of the file was the current one at some moment at or after `t`. */
  predicate CurrentSince(versions: seq<Version>, i: int, t: real) {
    0 <= i < |versions| && (i == |versions| - 1 || versions[i + 1].start >= t)
  }

  ghost predicate Offers(required: seq<string>, v: Version, params: Params) {
    v.file.Present? && IsValid(v.file.document, required) && Extract(v.file.document, required) == params
  }

  ghost predicate Unusable(required: seq<string>, v: Version) {
    v.file.Missing? || !IsValid(v.file.document, required)
  }

  ghost predicate OffersSince(required: seq<string>, versions: seq<Version>, i: int, params: Params, t: real) {
    CurrentSince(versions, i, t) && Offers(required, versions[i], params)
  }

  ghost predicate UnusableSince(required: seq<string>, versions: seq<Version>, i: int, t: real) {
    CurrentSince(versions, i, t) && Unusable(required, versions[i])
  }

  /**
   The promise: values were the file's content at some moment no earlier than the captured time minus
   the cache lifetime; defaults mean the file was missing or invalid at some moment since the call began.
   */
  ghost predicate Justified(required: seq<string>, versions: seq<Version>, now: real, answer: Answer) {
    match answer
    case Values(params) => var earliest := now - CACHE_TTL_SECONDS; exists i :: OffersSince(required, versions, i, params, earliest)
    case Defaults => exists i :: UnusableSince(required, versions, i, now)
  }

  // ---------------------------------------------------------------- the invariant

  ghost predicate Chronicle(s: System) {
    && s.versions != []
    && (forall i :: 0 <= i < |s.versions| ==> s.versions[i].start <= s.clock)
    && (forall i, j :: 0 <= i <= j < |s.versions| ==> s.versions[i].start <= s.versions[j].start)
    && (forall i, j :: 0 <= i < j < |s.versions| && s.versions[i].file.Present? && s.versions[j].file.Present?
          ==> s.versions[i].file.mtime != s.versions[j].file.mtime)
  }

  predicate HasMtime(v: Version, mtime: real) { v.file.Present? && v.file.mtime == mtime }

  /** The file had `mtime` as its state `j`, which was current at or after `t`. */
  ghost predicate StampedSince(versions: seq<Version>, j: int, mtime: real, t: real) {
    CurrentSince(versions, j, t) && HasMtime(versions[j], mtime)
  }

  /**
   `params` came from state `i` of the file, current at or after `checked`; `mtime` belongs to a state
   `j` that is no later. The two differ when the file was replaced between stat and read.
   */
  ghost predicate EntryFrom(required: seq<string>, versions: seq<Version>, e: Entry, i: int, j: int) {
    && OffersSince(required, versions, i, e.params, e.checked)
    && 0 <= j <= i && HasMtime(versions[j], e.mtime)
  }

  ghost predicate EntryOk(required: seq<string>, s: System, e: Entry) {
    e.checked <= s.clock && exists i, j :: EntryFrom(required, s.versions, e, i, j)
  }

  ghost predicate CallOk(required: seq<string>, s: System, c: Call) {
    && c.now <= s.clock
    && match c
       case Statted(now, mtime) => exists j :: StampedSince(s.versions, j, mtime, now)
       case Reloading(now, mtime) => exists j :: StampedSince(s.versions, j, mtime, now)
       case Loaded(now, mtime, params) => EntryOk(required, s, Entry(now, mtime, params))
       case Done(now, answer) => Justified(required, s.versions, now, answer)
       case _ => true
  }

  ghost predicate Inv(required: seq<string>, s: System) {
    && Chronicle(s)
    && (s.cache.Some? ==> EntryOk(required, s, s.cache.value))
    && (forall id :: id in s.calls ==> CallOk(required, s, s.calls[id]))
  }

  // ---------------------------------------------------------------- steps outside the calls

  /** The file history grows at its end, and the clock does not go back. */
  ghost predicate Extends(s: System, s': System) {
    && s.versions <= s'.versions && s.clock <= s'.clock
    && (forall k :: |s.versions| <= k < |s'.versions| ==> s'.versions[k].start >= s.clock)
  }

  lemma CurrentSinceExtends(s: System, s': System, i: int, t: real)
    requires Extends(s, s') && CurrentSince(s.versions, i, t) && t <= s.clock
    ensures CurrentSince(s'.versions, i, t) && s'.versions[i] == s.versions[i]
  {
  }

  lemma EntryOkExtends(required: seq<string>, s: System, s': System, e: Entry)
    requires Extends(s, s') && EntryOk(required, s, e)
    ensures EntryOk(required, s', e)
  {
    var i, j :| EntryFrom(required, s.versions, e, i, j);
    CurrentSinceExtends(s, s', i, e.checked);
    assert EntryFrom(required, s'.versions, e, i, j);
  }

  lemma StampedExtends(s: System, s': System, mtime: real, t: real)
    requires Extends(s, s') && t <= s.clock && exists j :: StampedSince(s.versions, j, mtime, t)
    ensures exists j :: StampedSince(s'.versions, j, mtime, t)
  {
    var j :| StampedSince(s.versions, j, mtime, t);
    CurrentSinceExtends(s, s', j, t);
    assert StampedSince(s'.versions, j, mtime, t);
  }

  lemma JustifiedExtends(required: seq<string>, s: System, s': System, now: real, a: Answer)
    requires Extends(s, s') && now <= s.clock && Justified(required, s.versions, now, a)
    ensures Justified(required, s'.versions, now, a)
  {
    match a
    case Values(params) =>
      var i :| OffersSince(required, s.versions, i, params, now - CACHE_TTL_SECONDS);
      CurrentSinceExtends(s, s', i, now - CACHE_TTL_SECONDS);
      assert OffersSince(required, s'.versions, i, params, now - CACHE_TTL_SECONDS);
    case Defaults =>
      var i :| UnusableSince(required, s.versions, i, now);
      CurrentSinceExtends(s, s', i, now);
      assert UnusableSince(required, s'.versions, i, now);
  }

  lemma CallOkExtends(required: seq<string>, s: System, s': System, c: Call)
    requires Extends(s, s') && CallOk(required, s, c)
    ensures CallOk(required, s', c)
  {
    match c
    case Statted(now, mtime) => StampedExtends(s, s', mtime, now);
    case Reloading(now, mtime) => StampedExtends(s, s', mtime, now);
    case Loaded(now, mtime, params) => EntryOkExtends(required, s, s', Entry(now, mtime, params));
    case Done(now, answer) => JustifiedExtends(required, s, s', now, answer);
    case _ =>
  }

  /** Time passing, the file changing and invalidation keep the invariant. */
  lemma EnvironmentKeepsInv(required: seq<string>, s: System, step: Step)
    requires Inv(required, s) && !step.Begin? && !step.Advance?
    ensures Inv(required, Act(required, s, step))
  {
    var s' := Act(required, s, step);
    assert Extends(s, s');
    if s.cache.Some? { EntryOkExtends(required, s, s', s.cache.value); }
    forall id | id in s'.calls ensures CallOk(required, s', s'.calls[id]) {
      CallOkExtends(required, s, s', s.calls[id]);
    }
  }

  // ---------------------------------------------------------------- steps of the calls

  /** Bumping the entry of an unchanged file keeps it honest for the new check time. */
  lemma BumpIsHonest(required: seq<string>, s: System, e: Entry, now: real)
    requires Chronicle(s) && EntryOk(required, s, e) && now <= s.clock
    requires exists j :: StampedSince(s.versions, j, e.mtime, now)
    ensures EntryOk(required, s, Entry(now, e.mtime, e.params))
  {
    var j :| StampedSince(s.versions, j, e.mtime, now);
    var i, k :| EntryFrom(required, s.versions, e, i, k);
    assert k == j;
    assert EntryFrom(required, s.versions, Entry(now, e.mtime, e.params), i, j);
  }

  lemma EntryJustifies(required: seq<string>, s: System, e: Entry, now: real)
    requires EntryOk(required, s, e) && now - e.checked <= CACHE_TTL_SECONDS
    ensures Justified(required, s.versions, now, Values(e.params))
  {
    var i, j :| EntryFrom(required, s.versions, e, i, j);
    assert OffersSince(required, s.versions, i, e.params, now - CACHE_TTL_SECONDS);
  }

  /** Content read after the stat belongs to the stamped state of the file or to a later one. */
  lemma ReloadIsHonest(required: seq<string>, s: System, now: real, mtime: real, params: Params)
    requires Chronicle(s) && now <= s.clock && exists j :: StampedSince(s.versions, j, mtime, now)
    requires Offers(required, s.versions[|s.versions| - 1], params)
    ensures EntryOk(required, s, Entry(now, mtime, params))
  {
    var j :| StampedSince(s.versions, j, mtime, now);
    assert EntryFrom(required, s.versions, Entry(now, mtime, params), |s.versions| - 1, j);
  }

  lemma ProceedIsOk(required: seq<string>, s: System, c: Call)
    requires Chronicle(s) && (s.cache.Some? ==> EntryOk(required, s, s.cache.value)) && CallOk(required, s, c)
    ensures var (c', cache') := Proceed(required, Current(s), s.cache, c);
      CallOk(required, s, c') && (cache'.Some? ==> EntryOk(required, s, cache'.value))
  {
    var last := |s.versions| - 1;
    match c
    case Started(now) =>
      if s.cache.Some? && now - s.cache.value.checked <= CACHE_TTL_SECONDS {
        EntryJustifies(required, s, s.cache.value, now);
      }
    case Expired(now) =>
      if Current(s).Missing? { assert UnusableSince(required, s.versions, last, now); }
    case Found(now) =>
      if Current(s).Missing? {
        assert UnusableSince(required, s.versions, last, now);
      } else {
        assert StampedSince(s.versions, last, Current(s).mtime, now);
      }
    case Statted(now, mtime) =>
      if s.cache.Some? && s.cache.value.mtime == mtime {
        BumpIsHonest(required, s, s.cache.value, now);
        EntryJustifies(required, s, Entry(now, mtime, s.cache.value.params), now);
      }
    case Reloading(now, mtime) =>
      if Current(s).Present? && IsValid(Current(s).document, required) {
        ReloadIsHonest(required, s, now, mtime, Extract(Current(s).document, required));
      } else {
        assert UnusableSince(required, s.versions, last, now);
      }
    case Loaded(now, mtime, params) =>
      EntryJustifies(required, s, Entry(now, mtime, params), now);
    case Done(_, _) =>
  }

  lemma ActKeepsInv(required: seq<string>, s: System, step: Step)
    requires Inv(required, s)
    ensures Inv(required, Act(required, s, step))
  {
    var s' := Act(required, s, step);
    if step.Advance? && step.call in s.calls {
      ProceedIsOk(required, s, s.calls[step.call]);
      forall id | id in s'.calls ensures CallOk(required, s', s'.calls[id]) {
        if id != step.call { CallOkExtends(required, s, s', s.calls[id]); }
        else {
          var c' := Proceed(required, Current(s), s.cache, s.calls[id]).0;
          CallOkExtends(required, s, s', c');
        }
      }
      if s'.cache.Some? { EntryOkExtends(required, s, s', s'.cache.value); }
    } else if step.Begin? {
      forall id | id in s'.calls ensures CallOk(required, s', s'.calls[id]) {
        if id in s.calls { CallOkExtends(required, s, s', s.calls[id]); }
      }
      if s'.cache.Some? { EntryOkExtends(required, s, s', s'.cache.value); }
    } else if !step.Advance? {
      EnvironmentKeepsInv(required, s, step);
    }
  }

  lemma {:induction false} RunKeepsInv(required: seq<string>, s: System, steps: seq<Step>)
    requires Inv(required, s)
    ensures Inv(required, RunSteps(required, s, steps))
    decreases |steps|
  {
    if steps != [] {
      ActKeepsInv(required, s, steps[0]);
      RunKeepsInv(required, Act(required, s, steps[0]), steps[1..]);
    }
  }

  /** An empty cache and one state of the file, missing or present. */
  function Initially(clock: real, file: File): System {
    System(clock, [Version(clock, file)], None, map[])
  }

  /** Under every interleaving of callers, writers and invalidations, every answer is justified. */
  lemma {:induction false} EveryAnswerIsJustified(required: seq<string>, clock: real, file: File, steps: seq<Step>, id: nat)
    requires var s := RunSteps(required, Initially(clock, file), steps); id in s.calls && s.calls[id].Done?
    ensures var s := RunSteps(required, Initially(clock, file), steps);
      Justified(required, s.versions, s.calls[id].now, s.calls[id].answer)
  {
    RunKeepsInv(required, Initially(clock, file), steps);
    var s := RunSteps(required, Initially(clock, file), steps);
    assert CallOk(required, s, s.calls[id]);
  }

  // ---------------------------------------------------------------- promotion followed by invalidation

  /** `params` were offered by state `k` of the file or a later one. */
  ghost predicate NotOlder(required: seq<string>, versions: seq<Version>, k: nat, params: Params) {
    exists i :: k <= i < |versions| && Offers(required, versions[i], params)
  }

  lemma NotOlderExtends(required: seq<string>, v: seq<Version>, v': seq<Version>, k: nat, params: Params)
    requires v <= v' && NotOlder(required, v, k, params)
    ensures NotOlder(required, v', k, params)
  {
    var i :| k <= i < |v| && Offers(required, v[i], params);
    assert Offers(required, v'[i], params);
  }

  /** If call `id`, begun after the invalidation, has returned values, the file held them then or later. */
  ghost predicate LaterCallIsFresh(required: seq<string>, s: System, steps: seq<Step>, id: nat)
    requires s.versions != []
  {
    var s' := RunSteps(required, Act(required, s, Invalidate), steps);
    id !in s.calls && id in s'.calls && s'.calls[id].Done? && s'.calls[id].answer.Values? ==>
      NotOlder(required, s'.versions, |s.versions| - 1, s'.calls[id].answer.params)
  }

  /** What "invalidate the cache so that new parameters take effect immediately" asks for. */
  ghost predicate TakesEffect(required: seq<string>, s: System)
    requires s.versions != []
  {
    forall steps, id :: LaterCallIsFresh(required, s, steps, id)
  }

  predicate OutOfDate(s: System, now: real) { s.clock - now > CACHE_TTL_SECONDS }

  /**
   A call that has read the file and not yet published: it read the content the file still has, or it began
   more than a cache lifetime ago and so did every call that has seen the same modification time and could
   renew the published entry.
   */
  ghost predicate HarmlessRead(required: seq<string>, s: System, h: Call)
    requires h.Loaded? && s.versions != []
  {
    || NotOlder(required, s.versions, |s.versions| - 1, h.params)
    || (OutOfDate(s, h.now) &&
          forall p :: p in s.calls && s.calls[p].Statted? && s.calls[p].mtime == h.mtime ==> OutOfDate(s, s.calls[p].now))
  }

  ghost predicate AllReadsHarmless(required: seq<string>, s: System)
    requires s.versions != []
  {
    forall h :: h in s.calls && s.calls[h].Loaded? ==> HarmlessRead(required, s, s.calls[h])
  }

  // --- harmless reads stay harmless

  /** The instant of the invalidation, the number of the file's state then, and the calls already there. */
  datatype Cut = Cut(clock: real, k: nat, prior: set<nat>)

  /** A modification time of a state before the invalidation. */
  ghost predicate OldStamp(versions: seq<Version>, k: nat, mtime: real) {
    exists j :: 0 <= j < k && j < |versions| && HasMtime(versions[j], mtime)
  }

  /** Values that were read before the invalidation, taken out of reach of every later call. */
  ghost predicate Buried(s: System, cut: Cut, now: real, mtime: real) {
    && cut.clock - now > CACHE_TTL_SECONDS && OldStamp(s.versions, cut.k, mtime)
    && forall p :: p in s.calls && s.calls[p].Statted? && s.calls[p].mtime == mtime ==>
         p in cut.prior && cut.clock - s.calls[p].now > CACHE_TTL_SECONDS
  }

  ghost predicate FreshOrBuried(required: seq<string>, s: System, cut: Cut, now: real, mtime: real, params: Params) {
    NotOlder(required, s.versions, cut.k, params) || Buried(s, cut, now, mtime)
  }

  ghost predicate CallCut(required: seq<string>, s: System, cut: Cut, id: nat)
    requires id in s.calls
  {
    var c := s.calls[id];
    && (id !in cut.prior ==> c.now >= cut.clock)
    && (c.Loaded? ==> FreshOrBuried(required, s, cut, c.now, c.mtime, c.params))
    && (c.Done? && c.answer.Values? && id !in cut.prior ==> NotOlder(required, s.versions, cut.k, c.answer.params))
  }

  ghost predicate CutInv(required: seq<string>, s: System, cut: Cut) {
    && cut.k < |s.versions| && cut.clock <= s.clock && Chronicle(s)
    && (s.cache.Some? ==> FreshOrBuried(required, s, cut, s.cache.value.checked, s.cache.value.mtime, s.cache.value.params))
    && (forall id :: id in s.calls ==> CallCut(required, s, cut, id))
  }

  /** Nothing about an old stamp changes when the file history grows and no call takes that stamp. */
  lemma StillFreshOrBuried(
    required: seq<string>, s: System, s': System, cut: Cut, now: real, mtime: real, params: Params)
    requires FreshOrBuried(required, s, cut, now, mtime, params) && s.versions <= s'.versions && cut.k <= |s.versions|
    requires forall p :: p in s'.calls && s'.calls[p].Statted? && OldStamp(s'.versions, cut.k, s'.calls[p].mtime) ==>
      p in s.calls && s.calls[p] == s'.calls[p]
    ensures FreshOrBuried(required, s', cut, now, mtime, params)
  {
    if NotOlder(required, s.versions, cut.k, params) {
      NotOlderExtends(required, s.versions, s'.versions, cut.k, params);
    } else {
      var j :| 0 <= j < cut.k && j < |s.versions| && HasMtime(s.versions[j], mtime);
      assert HasMtime(s'.versions[j], mtime);
    }
  }

  lemma EnvironmentKeepsCut(required: seq<string>, s: System, cut: Cut, step: Step)
    requires CutInv(required, s, cut) && !step.Advance?
    ensures CutInv(required, Act(required, s, step), cut)
  {
    var s' := Act(required, s, step);
    assert s.versions <= s'.versions;
    if s'.cache.Some? {
      StillFreshOrBuried(required, s, s', cut, s.cache.value.checked, s.cache.value.mtime, s.cache.value.params);
    }
    forall id | id in s'.calls ensures CallCut(required, s', cut, id) {
      if id in s.calls {
        assert CallCut(required, s, cut, id);
        var c := s.calls[id];
        if c.Loaded? { StillFreshOrBuried(required, s, s', cut, c.now, c.mtime, c.params); }
        if c.Done? && c.answer.Values? && id !in cut.prior {
          NotOlderExtends(required, s.versions, s'.versions, cut.k, c.answer.params);
        }
      }
    }
  }

  /** A stamp taken now belongs to the current state of the file, so it is not an old one. */
  lemma StampIsNotOld(s: System, k: nat)
    requires Chronicle(s) && k < |s.versions| && Current(s).Present?
    ensures !OldStamp(s.versions, k, Current(s).mtime)
  {
  }

  /** What one step of a call leaves in its own place and in the cache. */
  lemma ProceedKeepsCut(required: seq<string>, s: System, cut: Cut, id: nat)
    requires CutInv(required, s, cut) && id in s.calls
    ensures var (c', cache') := Proceed(required, Current(s), s.cache, s.calls[id]);
      && (cache'.Some? ==> FreshOrBuried(required, s, cut, cache'.value.checked, cache'.value.mtime, cache'.value.params))
      && (c'.Loaded? ==> NotOlder(required, s.versions, cut.k, c'.params))
      && (c'.Done? && c'.answer.Values? && id !in cut.prior ==> NotOlder(required, s.versions, cut.k, c'.answer.params))
      && c'.now == s.calls[id].now
      && (c'.Statted? ==> !OldStamp(s.versions, cut.k, c'.mtime))
  {
    assert CallCut(required, s, cut, id);
    var c := s.calls[id];
    match c
    case Found(_) =>
      if Current(s).Present? { StampIsNotOld(s, cut.k); }
    case Reloading(_, _) =>
      if Current(s).Present? && IsValid(Current(s).document, required) {
        assert Offers(required, s.versions[|s.versions| - 1], Extract(Current(s).document, required));
      }
    case _ =>
  }

  lemma AdvanceKeepsCut(required: seq<string>, s: System, cut: Cut, id: nat)
    requires CutInv(required, s, cut) && id in s.calls
    ensures CutInv(required, Act(required, s, Advance(id)), cut)
  {
    var s' := Act(required, s, Advance(id));
    ProceedKeepsCut(required, s, cut, id);
    if s'.cache.Some? {
      StillFreshOrBuried(required, s, s', cut, s'.cache.value.checked, s'.cache.value.mtime, s'.cache.value.params);
    }
    forall q | q in s'.calls ensures CallCut(required, s', cut, q) {
      assert CallCut(required, s, cut, q);
      if q != id && s.calls[q].Loaded? {
        StillFreshOrBuried(required, s, s', cut, s.calls[q].now, s.calls[q].mtime, s.calls[q].params);
      }
    }
  }

  lemma {:induction false} RunKeepsCut(required: seq<string>, s: System, cut: Cut, steps: seq<Step>)
    requires CutInv(required, s, cut)
    ensures CutInv(required, RunSteps(required, s, steps), cut)
    decreases |steps|
  {
    if steps != [] {
      var step := steps[0];
      if step.Advance? && step.call in s.calls {
        AdvanceKeepsCut(required, s, cut, step.call);
      } else if !step.Advance? {
        EnvironmentKeepsCut(required, s, cut, step);
      }
      RunKeepsCut(required, Act(required, s, step), cut, steps[1..]);
    }
  }

  /** At the invalidation itself, harmless reads give the invariant. */
  lemma CutBegins(required: seq<string>, s: System)
    requires Inv(required, s) && AllReadsHarmless(required, s)
    ensures CutInv(required, Act(required, s, Invalidate), Cut(s.clock, |s.versions| - 1, s.calls.Keys))
  {
    var s1 := Act(required, s, Invalidate);
    var cut := Cut(s.clock, |s.versions| - 1, s.calls.Keys);
    forall id | id in s1.calls ensures CallCut(required, s1, cut, id) {
      var c := s.calls[id];
      if c.Loaded? && !NotOlder(required, s.versions, cut.k, c.params) {
        assert HarmlessRead(required, s, c) && CallOk(required, s, c);
        var i, j :| EntryFrom(required, s.versions, Entry(c.now, c.mtime, c.params), i, j);
        assert i < cut.k;
        assert OldStamp(s.versions, cut.k, c.mtime);
      }
    }
  }

  lemma HarmlessReadsAreEnough(required: seq<string>, s: System, steps: seq<Step>, id: nat)
    requires Inv(required, s) && AllReadsHarmless(required, s)
    ensures LaterCallIsFresh(required, s, steps, id)
  {
    CutBegins(required, s);
    var s1 := Act(required, s, Invalidate);
    var cut := Cut(s.clock, |s.versions| - 1, s.calls.Keys);
    RunKeepsCut(required, s1, cut, steps);
    var s' := RunSteps(required, s1, steps);
    if id in s'.calls { assert CallCut(required, s', cut, id); }
  }

  // --- a harmful read undoes the invalidation

  /** Runs of a few steps, one at a time. */
  lemma {:induction false} RunThree(required: seq<string>, s: System, a: Step, b: Step, c: Step)
    requires s.versions != []
    ensures RunSteps(required, s, [a, b, c]) == Act(required, Act(required, Act(required, s, a), b), c)
  {
    var s1 := Act(required, s, a);
    var s2 := Act(required, s1, b);
    var s3 := Act(required, s2, c);
    assert RunSteps(required, s3, []) == s3;
    assert [a, b, c][1..] == [b, c] && [b, c][1..] == [c] && [c][1..] == [];
    assert RunSteps(required, s2, [c]) == s3;
    assert RunSteps(required, s1, [b, c]) == s3;
  }

  lemma {:induction false} FreshNumber(ids: set<nat>) returns (next: nat)
    ensures forall i :: i in ids ==> i < next
    decreases |ids|
  {
    if ids == {} {
      next := 0;
    } else {
      var i :| i in ids;
      var rest := FreshNumber(ids - {i});
      next := if rest > i then rest else i + 1;
      forall j | j in ids ensures j < next {
        if j != i { assert j in ids - {i}; }
      }
    }
  }

  /** A recent read that was held over the invalidation is published and then returned to a new call. */
  lemma {:induction false} PendingReadUndoesInvalidation(required: seq<string>, s: System, holder: nat, next: nat)
    requires s.versions != [] && holder in s.calls && s.calls[holder].Loaded? && next !in s.calls
    requires !OutOfDate(s, s.calls[holder].now)
    ensures var s' := RunSteps(required, Act(required, s, Invalidate), [Advance(holder), Begin(next), Advance(next)]);
      s'.versions == s.versions && next in s'.calls && s'.calls[next] == Done(s.clock, Values(s.calls[holder].params))
  {
    RunThree(required, Act(required, s, Invalidate), Advance(holder), Begin(next), Advance(next));
  }

  /** An old read is published, renewed by a recent call that saw its modification time, and then returned. */
  lemma {:induction false} RenewedReadUndoesInvalidation(required: seq<string>, s: System, holder: nat, p: nat, next: nat)
    requires s.versions != [] && holder in s.calls && s.calls[holder].Loaded? && next !in s.calls
    requires p in s.calls && s.calls[p].Statted? && s.calls[p].mtime == s.calls[holder].mtime && !OutOfDate(s, s.calls[p].now)
    ensures var s' := RunSteps(required, Act(required, s, Invalidate), [Advance(holder), Advance(p), Begin(next), Advance(next)]);
      s'.versions == s.versions && next in s'.calls && s'.calls[next] == Done(s.clock, Values(s.calls[holder].params))
  {
    var s1 := Act(required, s, Invalidate);
    var steps := [Advance(holder), Advance(p), Begin(next), Advance(next)];
    assert steps[1..] == [Advance(p), Begin(next), Advance(next)];
    RunThree(required, Act(required, s1, Advance(holder)), Advance(p), Begin(next), Advance(next));
  }

  lemma HarmfulReadIsReturned(required: seq<string>, s: System, holder: nat)
    requires Inv(required, s) && holder in s.calls && s.calls[holder].Loaded?
    requires !HarmlessRead(required, s, s.calls[holder])
    ensures !TakesEffect(required, s)
  {
    var next := FreshNumber(s.calls.Keys);
    if !OutOfDate(s, s.calls[holder].now) {
      PendingReadUndoesInvalidation(required, s, holder, next);
      assert !LaterCallIsFresh(required, s, [Advance(holder), Begin(next), Advance(next)], next);
    } else {
      var p :| p in s.calls && s.calls[p].Statted? && s.calls[p].mtime == s.calls[holder].mtime && !OutOfDate(s, s.calls[p].now);
      RenewedReadUndoesInvalidation(required, s, holder, p, next);
      assert !LaterCallIsFresh(required, s, [Advance(holder), Advance(p), Begin(next), Advance(next)], next);
    }
  }

  /**
   In every state the invariant allows: every call begun after an invalidation, however the rest goes on,
   returns values the file held at the invalidation or later, if and only if every read held over the
   invalidation is harmless.
   */
  lemma InvalidationTakesEffectExactlyWhen(required: seq<string>, s: System)
    requires Inv(required, s)
    ensures TakesEffect(required, s) <==> AllReadsHarmless(required, s)
  {
    if AllReadsHarmless(required, s) {
      forall steps, id ensures LaterCallIsFresh(required, s, steps, id) { HarmlessReadsAreEnough(required, s, steps, id); }
    } else {
      var h :| h in s.calls && s.calls[h].Loaded? && !HarmlessRead(required, s, s.calls[h]);
      HarmfulReadIsReturned(required, s, h);
    }
  }

  /** The promotion that a slow reader undoes: it reads, the file is replaced, the cache is invalidated. */
  function SlowReader(mtime: real, document: Document): seq<Step> { READING + [WriteFile(mtime, document)] }

  const READING: seq<Step> := [Begin(0), Advance(0), Advance(0)] + [Advance(0), Advance(0), Advance(0)]

  /** The failure happens: from the initial state, for any two valid contents that differ. */
  lemma {:induction false} PromotionCanBeUndone(required: seq<string>, clock: real, file: File, mtime: real, document: Document)
    requires file.Present? && IsValid(file.document, required) && IsValid(document, required) && mtime != file.mtime
    requires Extract(file.document, required) != Extract(document, required)
    ensures !TakesEffect(required, RunSteps(required, Initially(clock, file), SlowReader(mtime, document)))
  {
    var s0 := Initially(clock, file);
    var s2 := s0.(calls := map[0 := Loaded(clock, file.mtime, Extract(file.document, required))]);
    ReaderLoads(required, clock, file);
    RunAppend(required, s0, READING, [WriteFile(mtime, document)]);
    var s3 := Act(required, s2, WriteFile(mtime, document));
    assert RunSteps(required, s2, [WriteFile(mtime, document)]) == RunSteps(required, s3, []) == s3;
    RunKeepsInv(required, s0, SlowReader(mtime, document));
    assert s3.versions == [Version(clock, file), Version(clock, Present(mtime, document))];
    HarmfulReadIsReturned(required, s3, 0);
  }

  /** A call that reads a valid file up to the point where it has not yet published. */
  lemma {:induction false} ReaderLoads(required: seq<string>, clock: real, file: File)
    requires file.Present? && IsValid(file.document, required)
    ensures var s0 := Initially(clock, file);
      RunSteps(required, s0, READING) == s0.(calls := map[0 := Loaded(clock, file.mtime, Extract(file.document, required))])
  {
    var s0 := Initially(clock, file);
    var s1 := Act(required, Act(required, Act(required, s0, Begin(0)), Advance(0)), Advance(0));
    assert s1 == s0.(calls := map[0 := Found(clock)]);
    RunAppend(required, s0, [Begin(0), Advance(0), Advance(0)], [Advance(0), Advance(0), Advance(0)]);
    RunThree(required, s0, Begin(0), Advance(0), Advance(0));
    RunThree(required, s1, Advance(0), Advance(0), Advance(0));
  }

  lemma {:induction false} RunAppend(required: seq<string>, s: System, a: seq<Step>, b: seq<Step>)
    requires s.versions != []
    ensures RunSteps(required, s, a + b) == RunSteps(required, RunSteps(required, s, a), b)
    decreases |a|
  {
    if a == [] {
      assert a + b == b;
    } else {
      assert (a + b)[1..] == a[1..] + b;
      RunAppend(required, Act(required, s, a[0]), a[1..], b);
    }
  }

  // ---------------------------------------------------------------- the code, uninterrupted

  /** One whole call with nothing else happening: its steps run one after the other. */
  ghost function Whole(required: seq<string>, file: File, cache: Option<Entry>, c: Call, steps: nat): (Call, Option<Entry>)
    decreases steps
  {
    if steps == 0 then (c, cache) else
      var (c', cache') := Proceed(required, file, cache, c);
      Whole(required, file, cache', c', steps - 1)
  }

  function Lookup(m: map<string, Entry>, k: string): Option<Entry> { if k in m then Some(m[k]) else None }

  class Loader {
    var cache: map<string, Entry>

    constructor ()
      ensures cache == map[]
    {
      cache := map[];
    }

    /** The method finishes in at most six steps and touches its own model's entry only. */
    method LoadCalibratedParameters(model: string, required: seq<string>, now: real, file: File) returns (a: Answer)
      modifies this
      ensures (Done(now, a), Lookup(cache, model))
           == Whole(required, file, old(Lookup(cache, model)), Started(now), 6)
      ensures forall m :: m != model ==> Lookup(cache, m) == old(Lookup(cache, m))
    {
      ghost var entry := Lookup(cache, model);
      ghost var c0 := Started(now);
      ghost var (c1, e1) := Proceed(required, file, entry, c0);
      if model in cache {
        var e := cache[model];
        if now - e.checked <= CACHE_TTL_SECONDS {
          WholeDone(required, file, e1, c1, 5);
          return Values(e.params);
        }
      }
      ghost var (c2, e2) := Proceed(required, file, e1, c1);
      if file.Missing? {
        WholeDone(required, file, e2, c2, 4);
        return Defaults;
      }
      var mtime := file.mtime;
      ghost var (c3, e3) := Proceed(required, file, e2, c2);
      ghost var (c4, e4) := Proceed(required, file, e3, c3);
      if model in cache {
        var e := cache[model];
        if mtime == e.mtime {
          cache := cache[model := Entry(now, mtime, e.params)];
          WholeDone(required, file, e4, c4, 2);
          return Values(e.params);
        }
      }
      ghost var (c5, e5) := Proceed(required, file, e4, c4);
      var ok := ValidateParameters(file.document, required);
      if !ok {
        WholeDone(required, file, e5, c5, 1);
        return Defaults;
      }
      var params := BuildParameters(file.document, required);
      cache := cache[model := Entry(now, mtime, params)];
      ghost var (c6, e6) := Proceed(required, file, e5, c5);
      assert Whole(required, file, e6, c6, 0) == (c6, e6);
      return Values(params);
    }

    method Invalidate(model: Option<string>)
      modifies this
      ensures cache == match model case None => map[] case Some(m) => old(cache) - {m}
    {
      match model {
        case None => cache := map[];
        case Some(m) => cache := cache - {m};
      }
    }

    /**
     `check_and_promote_parameters`: the candidate replaces the file when it scores no worse than what the
     loader returns. `mtime` is the time the write gets.
     */
    method CheckAndPromote(model: string, required: seq<string>, defaults: Params, now: real, file: File,
                           candidate: Params, score: Params -> real, mtime: real)
      returns (promoted: bool, after: File)
      modifies this
      ensures promoted <==> score(candidate) <= score(Compared(required, file, old(Lookup(cache, model)), now, defaults))
      ensures promoted ==> after == Present(mtime, DocumentOf(candidate)) && Lookup(cache, model) == None
      ensures !promoted ==> after == file
      ensures forall m :: m != model ==> Lookup(cache, m) == old(Lookup(cache, m))
    {
      var answer := LoadCalibratedParameters(model, required, now, file);
      var current := if answer.Defaults? then defaults else answer.params;
      promoted := score(candidate) <= score(current);
      after := file;
      if promoted {
        after := Present(mtime, DocumentOf(candidate));
        Invalidate(Some(model));
      }
    }
  }

  lemma {:induction false} WholeDone(required: seq<string>, file: File, cache: Option<Entry>, c: Call, steps: nat)
    requires c.Done?
    ensures Whole(required, file, cache, c, steps) == (c, cache)
    decreases steps
  {
    if steps > 0 { WholeDone(required, file, cache, c, steps - 1); }
  }

  // ---------------------------------------------------------------- the promotion gate

  /** The document a promotion writes. */
  function DocumentOf(params: Params): Document { Dict(Some(map k | k in params :: Finite(params[k]))) }

  /** What the file itself says, with the defaults where it is missing or invalid. */
  ghost function FileParams(required: seq<string>, file: File, defaults: Params): Params {
    if file.Present? && IsValid(file.document, required) then Extract(file.document, required) else defaults
  }

  /** What the gate compares the candidate with: what the loader returns. */
  ghost function Compared(required: seq<string>, file: File, entry: Option<Entry>, now: real, defaults: Params): Params {
    match Whole(required, file, entry, Started(now), 6).0
    case Done(_, Values(params)) => params
    case _ => defaults
  }

  /** The loader returns the cached values: within their lifetime, or renewed because the modification time matches. */
  predicate Hit(file: File, entry: Option<Entry>, now: real) {
    entry.Some? && (now - entry.value.checked <= CACHE_TTL_SECONDS || (file.Present? && file.mtime == entry.value.mtime))
  }

  lemma ComparedIs(required: seq<string>, file: File, entry: Option<Entry>, now: real, defaults: Params)
    ensures Compared(required, file, entry, now, defaults)
         == if Hit(file, entry, now) then entry.value.params else FileParams(required, file, defaults)
  {
    var (c1, e1) := Proceed(required, file, entry, Started(now));
    var (c2, e2) := Proceed(required, file, e1, c1);
    var (c3, e3) := Proceed(required, file, e2, c2);
    var (c4, e4) := Proceed(required, file, e3, c3);
    var (c5, e5) := Proceed(required, file, e4, c4);
    var (c6, e6) := Proceed(required, file, e5, c5);
    assert Whole(required, file, e6, c6, 0) == (c6, e6);
    assert Whole(required, file, e3, c3, 3) == (c6, e6);
    assert Whole(required, file, entry, Started(now), 6) == (c6, e6);
  }

  /** A promoted candidate with exactly the required keys is what the file then says. */
  lemma PromotionIsWritten(required: seq<string>, candidate: Params, mtime: real, defaults: Params)
    requires forall k :: k in candidate <==> k in required
    ensures FileParams(required, Present(mtime, DocumentOf(candidate)), defaults) == candidate
  {
  }

  /**
   Promotions never replace the file's content by one that scores worse, whatever the candidate, if and only
   if the gate compares with values that score no worse than the file's own.
   */
  lemma GateKeepsScoreExactlyWhen(
    required: seq<string>, file: File, entry: Option<Entry>, now: real, defaults: Params, score: Params -> real)
    ensures (forall candidate: Params :: score(candidate) <= score(Compared(required, file, entry, now, defaults)) ==>
              score(candidate) <= score(FileParams(required, file, defaults)))
       <==> !Hit(file, entry, now) || score(entry.value.params) <= score(FileParams(required, file, defaults))
  {
    ComparedIs(required, file, entry, now, defaults);
    var compared := Compared(required, file, entry, now, defaults);
    assert score(compared) <= score(compared);
  }

  /**
   A stale entry lowers the bar: another process has promoted better values, this one still has the old ones
   cached, and a candidate in between is promoted over the better ones.
   */
  lemma StaleEntryLetsScoreRise(
    required: seq<string>, file: File, entry: Entry, now: real, defaults: Params, candidate: Params, score: Params -> real)
    requires now - entry.checked <= CACHE_TTL_SECONDS
    requires score(FileParams(required, file, defaults)) < score(candidate) <= score(entry.params)
    ensures score(candidate) <= score(Compared(required, file, Some(entry), now, defaults))
    ensures score(candidate) > score(FileParams(required, file, defaults))
  {
    ComparedIs(required, file, Some(entry), now, defaults);
  }
}
