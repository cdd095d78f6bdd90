/**
 Alert incident reconciliation: the firing, escalation and resolution steps of one evaluation cycle
 (workers/jobs/alert_evaluation_job.py) over the incident table (db/repository.py), and what they add
 up to over every sequence of cycles.
 */
module AlertJob {
  import opened Basics

  const LIST_LIMIT := 50

  /** A row of `alert_incidents`; rows stand in the order of their `fired_at`. */
  datatype Incident = Incident(rule: string, firing: bool, violations: nat)

  /** A notification attempt, delivered or not. */
  datatype Notice = Fired(rule: string) | Cleared(rule: string)

  datatype State = State(rows: seq<Incident>, notices: seq<Notice>)

  datatype Rule = Rule(name: string, consecutiveCycles: nat)

  /** What one cycle sees: the enabled rules, the names of those that fire, and the firing SLOs. */
  datatype Cycle = Cycle(rules: seq<Rule>, fired: set<string>, slos: seq<string>)

  predicate OpenFor(r: Incident, name: string) { r.firing && r.rule == name }

  // ---------------------------------------------------------------- the repository's queries

  /** `get_open_incident_by_rule_name`: the position of an open row of that name, or -1. */
  function FindOpen(rows: seq<Incident>, name: string): (i: int)
    ensures -1 <= i < |rows|
    ensures i >= 0 ==> OpenFor(rows[i], name)
    ensures i == -1 ==> forall j :: 0 <= j < |rows| ==> !OpenFor(rows[j], name)
  {
    if rows == [] then -1
    else if OpenFor(rows[|rows| - 1], name) then |rows| - 1
    else FindOpen(rows[..|rows| - 1], name)
  }

  /** Positions of the open rows, newest first: `list_incidents(status="firing")` before its limit. */
  function OpenNewestFirst(rows: seq<Incident>): (ids: seq<nat>)
    ensures forall a :: 0 <= a < |ids| ==> ids[a] < |rows| && rows[ids[a]].firing
    ensures forall i :: 0 <= i < |rows| && rows[i].firing ==> i in ids
    ensures forall a, b :: 0 <= a < b < |ids| ==> ids[a] > ids[b]
  {
    if rows == [] then [] else
      var rest := OpenNewestFirst(rows[..|rows| - 1]);
      if rows[|rows| - 1].firing then [|rows| - 1] + rest else rest
  }

  function Limit(ids: seq<nat>): seq<nat> { if |ids| <= LIST_LIMIT then ids else ids[..LIST_LIMIT] }

  // ---------------------------------------------------------------- one cycle, as functions

  /** The table after a name fired once more. */
  function Bump(rows: seq<Incident>, name: string): seq<Incident> {
    var i := FindOpen(rows, name);
    if i == -1 then rows + [Incident(name, true, 1)]
    else rows[i := rows[i].(violations := rows[i].violations + 1)]
  }

  /** A threshold rule fires. */
  function TouchRule(s: State, rule: Rule): State {
    var i := FindOpen(s.rows, rule.name);
    var notify := if i == -1 then 1 >= rule.consecutiveCycles
                  else s.rows[i].violations + 1 == rule.consecutiveCycles;
    State(Bump(s.rows, rule.name), if notify then s.notices + [Fired(rule.name)] else s.notices)
  }

  /** An SLO fires: it notifies when its incident is created. */
  function TouchSlo(s: State, name: string): State {
    State(Bump(s.rows, name), if FindOpen(s.rows, name) == -1 then s.notices + [Fired(name)] else s.notices)
  }

  function TouchRules(s: State, rules: seq<Rule>, fired: set<string>): State {
    if rules == [] then s else
      var s' := TouchRules(s, rules[..|rules| - 1], fired);
      var rule := rules[|rules| - 1];
      if rule.name in fired then TouchRule(s', rule) else s'
  }

  function TouchSlos(s: State, slos: seq<string>): State {
    if slos == [] then s else TouchSlo(TouchSlos(s, slos[..|slos| - 1]), slos[|slos| - 1])
  }

  /** Close the listed incidents whose name no longer fires. */
  function ResolveListed(s: State, listed: seq<nat>, firing: set<string>): (s': State)
    requires forall a :: 0 <= a < |listed| ==> listed[a] < |s.rows|
    ensures |s'.rows| == |s.rows|
  {
    if listed == [] then s else
      var s' := ResolveListed(s, listed[..|listed| - 1], firing);
      var i := listed[|listed| - 1];
      if s.rows[i].rule in firing then s'
      else State(s'.rows[i := s'.rows[i].(firing := false)], s'.notices + [Cleared(s.rows[i].rule)])
  }

  function Firing(c: Cycle): set<string> { c.fired + set n | n in c.slos }

  function Touched(s: State, c: Cycle): State {
    TouchSlos(TouchRules(s, c.rules, c.fired), c.slos)
  }

  function NextState(s: State, c: Cycle): State {
    var t := Touched(s, c);
    ResolveListed(t, Limit(OpenNewestFirst(t.rows)), Firing(c))
  }

  // ---------------------------------------------------------------- one cycle, as code

  class Job {
    var rows: seq<Incident>
    var notices: seq<Notice>

    constructor ()
      ensures rows == [] && notices == []
    {
      rows, notices := [], [];
    }

    method GetOpenIncident(name: string) returns (i: int)
      ensures i == FindOpen(rows, name)
    {
      i := |rows| - 1;
      assert rows[..i + 1] == rows;
      while i >= 0 && !OpenFor(rows[i], name)
        invariant -1 <= i < |rows|
        invariant FindOpen(rows, name) == FindOpen(rows[..i + 1], name)
      {
        assert rows[..i + 1][..i] == rows[..i];
        i := i - 1;
      }
    }

    method ListFiring() returns (listed: seq<nat>)
      ensures listed == Limit(OpenNewestFirst(rows))
    {
      var all := [];
      for i := 0 to |rows|
        invariant all == OpenNewestFirst(rows[..i])
      {
        assert rows[..i + 1][..i] == rows[..i];
        if rows[i].firing { all := [i] + all; }
      }
      assert rows[..|rows|] == rows;
      listed := Limit(all);
    }

    method FireRules(c: Cycle)
      modifies this
      ensures State(rows, notices) == TouchRules(old(State(rows, notices)), c.rules, c.fired)
    {
      ghost var s0 := State(rows, notices);
      for k := 0 to |c.rules|
        invariant State(rows, notices) == TouchRules(s0, c.rules[..k], c.fired)
      {
        var rule := c.rules[k];
        assert c.rules[..k + 1][..k] == c.rules[..k];
        if rule.name in c.fired {
          var i := GetOpenIncident(rule.name);
          if i == -1 {
            rows := rows + [Incident(rule.name, true, 1)];
            if 1 >= rule.consecutiveCycles { notices := notices + [Fired(rule.name)]; }
          } else {
            var violations := rows[i].violations + 1;
            rows := rows[i := rows[i].(violations := violations)];
            if violations == rule.consecutiveCycles { notices := notices + [Fired(rule.name)]; }
          }
        }
      }
      assert c.rules[..|c.rules|] == c.rules;
    }

    method FireSlos(c: Cycle)
      modifies this
      ensures State(rows, notices) == TouchSlos(old(State(rows, notices)), c.slos)
    {
      ghost var s0 := State(rows, notices);
      for k := 0 to |c.slos|
        invariant State(rows, notices) == TouchSlos(s0, c.slos[..k])
      {
        assert c.slos[..k + 1][..k] == c.slos[..k];
        var i := GetOpenIncident(c.slos[k]);
        if i == -1 {
          rows := rows + [Incident(c.slos[k], true, 1)];
          notices := notices + [Fired(c.slos[k])];
        } else {
          rows := rows[i := rows[i].(violations := rows[i].violations + 1)];
        }
      }
      assert c.slos[..|c.slos|] == c.slos;
    }

    method ResolveEach(listed: seq<nat>, firing: set<string>)
      requires forall a :: 0 <= a < |listed| ==> listed[a] < |rows|
      modifies this
      ensures State(rows, notices) == ResolveListed(old(State(rows, notices)), listed, firing)
    {
      ghost var s0 := State(rows, notices);
      for k := 0 to |listed|
        invariant State(rows, notices) == ResolveListed(s0, listed[..k], firing)
      {
        ResolveNext(s0, listed, firing, k);
        var i := listed[k];
        if rows[i].rule !in firing {
          notices := notices + [Cleared(rows[i].rule)];
          rows := rows[i := rows[i].(firing := false)];
        }
      }
      assert listed[..|listed|] == listed;
    }

    method ResolveCleared(firing: set<string>)
      modifies this
      ensures State(rows, notices)
           == ResolveListed(old(State(rows, notices)), Limit(OpenNewestFirst(old(rows))), firing)
    {
      var listed := ListFiring();
      ResolveEach(listed, firing);
    }

    method RunCycle(c: Cycle)
      modifies this
      ensures State(rows, notices) == NextState(old(State(rows, notices)), c)
    {
      FireRules(c);
      FireSlos(c);
      ResolveCleared(Firing(c));
    }
  }

  lemma {:induction false} KeepsRules(s: State, listed: seq<nat>, firing: set<string>, i: nat)
    requires i < |s.rows| && forall a :: 0 <= a < |listed| ==> listed[a] < |s.rows|
    ensures ResolveListed(s, listed, firing).rows[i].rule == s.rows[i].rule
    decreases |listed|
  {
    if listed != [] { KeepsRules(s, listed[..|listed| - 1], firing, i); }
  }

  /** One more listed incident. */
  lemma {:induction false} ResolveNext(s: State, listed: seq<nat>, firing: set<string>, k: nat)
    requires k < |listed| && forall a :: 0 <= a < |listed| ==> listed[a] < |s.rows|
    ensures var t, i := ResolveListed(s, listed[..k], firing), listed[k];
      && t.rows[i].rule == s.rows[i].rule
      && ResolveListed(s, listed[..k + 1], firing)
         == if t.rows[i].rule in firing then t
            else State(t.rows[i := t.rows[i].(firing := false)], t.notices + [Cleared(t.rows[i].rule)])
  {
    assert listed[..k + 1][..k] == listed[..k];
    KeepsRules(s, listed[..k], firing, listed[k]);
  }

  // ---------------------------------------------------------------- the table invariant

  /** At most one open incident per name, each with a positive count. */
  ghost predicate Unique(rows: seq<Incident>) {
    && (forall i, j :: 0 <= i < j < |rows| && rows[i].firing && rows[j].firing ==> rows[i].rule != rows[j].rule)
    && (forall i :: 0 <= i < |rows| && rows[i].firing ==> rows[i].violations >= 1)
  }

  /** The count of the open incident of that name, 0 when there is none. */
  ghost function Counter(rows: seq<Incident>, name: string): nat {
    var i := FindOpen(rows, name);
    if i == -1 then 0 else rows[i].violations
  }

  lemma {:induction false} CounterAt(rows: seq<Incident>, i: nat)
    requires Unique(rows) && i < |rows| && rows[i].firing
    ensures FindOpen(rows, rows[i].rule) == i && Counter(rows, rows[i].rule) == rows[i].violations >= 1
  {
  }

  lemma BumpCounts(rows: seq<Incident>, name: string, n: string)
    requires Unique(rows)
    ensures Unique(Bump(rows, name))
    ensures Counter(Bump(rows, name), n) == Counter(rows, n) + if n == name then 1 else 0
  {
    var rows' := Bump(rows, name);
    assert Unique(rows');
    var i, j := FindOpen(rows, name), FindOpen(rows, n);
    if n == name {
      CounterAt(rows', if i == -1 then |rows| else i);
    } else if j != -1 {
      CounterAt(rows', j);
      assert rows'[j] == rows[j];
    } else {
      assert forall k :: 0 <= k < |rows| ==> !OpenFor(rows[k], n);
      assert FindOpen(rows', n) == -1;
    }
  }

  ghost predicate DistinctNames(rules: seq<Rule>) {
    forall i, j :: 0 <= i < j < |rules| ==> rules[i].name != rules[j].name
  }

  ghost predicate Names(rules: seq<Rule>, n: string) { exists i :: 0 <= i < |rules| && rules[i].name == n }

  /** How often a notice occurs. */
  ghost function Times(notices: seq<Notice>, x: Notice): nat { multiset(notices)[x] }

  lemma TimesAppend(notices: seq<Notice>, y: Notice, x: Notice)
    ensures Times(notices + [y], x) == Times(notices, x) + if x == y then 1 else 0
  {
  }

  /** The rule loop: every firing rule's count grows by one and reaches the notifier at its cycle count. */
  lemma {:induction false} TouchRulesCounts(s: State, rules: seq<Rule>, fired: set<string>, n: string)
    requires Unique(s.rows) && DistinctNames(rules)
    requires forall i :: 0 <= i < |rules| ==> rules[i].consecutiveCycles >= 1
    ensures var s' := TouchRules(s, rules, fired);
      && Unique(s'.rows)
      && Counter(s'.rows, n) == Counter(s.rows, n) + (if n in fired && Names(rules, n) then 1 else 0)
      && Times(s'.notices, Cleared(n)) == Times(s.notices, Cleared(n))
      && (!(n in fired && Names(rules, n)) ==> Times(s'.notices, Fired(n)) == Times(s.notices, Fired(n)))
      && (forall i :: 0 <= i < |rules| && rules[i].name == n && n in fired ==>
            Times(s'.notices, Fired(n)) == Times(s.notices, Fired(n))
              + if Counter(s.rows, n) + 1 == rules[i].consecutiveCycles then 1 else 0)
    decreases |rules|
  {
    if rules != [] {
      var before, rule := rules[..|rules| - 1], rules[|rules| - 1];
      TouchRulesCounts(s, before, fired, n);
      NamesAppend(rules, n);
      if rule.name in fired { TouchRuleCounts(TouchRules(s, before, fired), rule, n); }
      forall i | 0 <= i < |rules| && rules[i].name == n
        ensures i < |before| ==> before[i] == rules[i] && rule.name != n
        ensures i == |before| ==> !Names(before, n) && rule.name == n
      {}
    }
  }

  lemma NamesAppend(rules: seq<Rule>, n: string)
    requires rules != []
    ensures Names(rules, n) <==> Names(rules[..|rules| - 1], n) || rules[|rules| - 1].name == n
  {
    var before := rules[..|rules| - 1];
    if Names(before, n) { var i :| 0 <= i < |before| && before[i].name == n; assert rules[i].name == n; }
    if Names(rules, n) {
      var i :| 0 <= i < |rules| && rules[i].name == n;
      if i < |before| { assert before[i].name == n; }
    }
  }

  /** One firing rule, for any name. */
  lemma TouchRuleCounts(s: State, rule: Rule, n: string)
    requires Unique(s.rows) && rule.consecutiveCycles >= 1
    ensures var s' := TouchRule(s, rule);
      && Unique(s'.rows)
      && Counter(s'.rows, n) == Counter(s.rows, n) + (if n == rule.name then 1 else 0)
      && Times(s'.notices, Cleared(n)) == Times(s.notices, Cleared(n))
      && Times(s'.notices, Fired(n)) == Times(s.notices, Fired(n))
           + if n == rule.name && Counter(s.rows, n) + 1 == rule.consecutiveCycles then 1 else 0
  {
    TimesAppend(s.notices, Fired(rule.name), Fired(n));
    TimesAppend(s.notices, Fired(rule.name), Cleared(n));
    BumpCounts(s.rows, rule.name, n);
  }

  lemma {:induction false} TouchSlosCounts(s: State, slos: seq<string>, n: string)
    requires Unique(s.rows) && NoRepeats(slos)
    ensures var s' := TouchSlos(s, slos);
      && Unique(s'.rows)
      && Counter(s'.rows, n) == Counter(s.rows, n) + (if n in slos then 1 else 0)
      && Times(s'.notices, Cleared(n)) == Times(s.notices, Cleared(n))
      && Times(s'.notices, Fired(n)) == Times(s.notices, Fired(n))
           + if n in slos && Counter(s.rows, n) == 0 then 1 else 0
    decreases |slos|
  {
    if slos != [] {
      var before := slos[..|slos| - 1];
      var name := slos[|slos| - 1];
      TouchSlosCounts(s, before, n);
      var s1 := TouchSlos(s, before);
      TimesAppend(s1.notices, Fired(name), Fired(n));
      TimesAppend(s1.notices, Fired(name), Cleared(n));
      BumpCounts(s1.rows, name, n);
      assert slos == before + [name];
      if n == name {
        assert n !in before;
        var i := FindOpen(s1.rows, n);
        assert i != -1 ==> Counter(s1.rows, n) >= 1;
      }
    }
  }

  // ---------------------------------------------------------------- resolution

  /** Distinct positions of open rows. */
  ghost predicate Listing(rows: seq<Incident>, listed: seq<nat>) {
    && (forall a :: 0 <= a < |listed| ==> listed[a] < |rows| && rows[listed[a]].firing)
    && (forall a, b :: 0 <= a < b < |listed| ==> listed[a] != listed[b])
  }

  lemma {:induction false} ResolveRows(s: State, listed: seq<nat>, firing: set<string>, j: nat)
    requires Listing(s.rows, listed) && j < |s.rows|
    ensures ResolveListed(s, listed, firing).rows[j]
         == if j in listed && s.rows[j].rule !in firing then s.rows[j].(firing := false) else s.rows[j]
    decreases |listed|
  {
    if listed != [] {
      var before := listed[..|listed| - 1];
      assert listed == before + [listed[|listed| - 1]];
      ResolveRows(s, before, firing, j);
    }
  }

  lemma {:induction false} ResolveCounts(s: State, listed: seq<nat>, firing: set<string>, n: string)
    requires Unique(s.rows) && Listing(s.rows, listed)
    ensures var s' := ResolveListed(s, listed, firing);
      && Unique(s'.rows)
      && Counter(s'.rows, n) == if FindOpen(s.rows, n) in listed && n !in firing then 0 else Counter(s.rows, n)
  {
    var s' := ResolveListed(s, listed, firing);
    forall j | 0 <= j < |s.rows|
      ensures s'.rows[j] == if j in listed && s.rows[j].rule !in firing then s.rows[j].(firing := false) else s.rows[j]
    {
      ResolveRows(s, listed, firing, j);
    }
    assert Unique(s'.rows);
    var i := FindOpen(s.rows, n);
    if i == -1 || (i in listed && n !in firing) {
      forall j | 0 <= j < |s.rows| ensures !OpenFor(s'.rows[j], n) {
        if OpenFor(s.rows[j], n) { CounterAt(s.rows, j); }
      }
      assert FindOpen(s'.rows, n) == -1;
    } else {
      CounterAt(s'.rows, i);
    }
  }

  lemma {:induction false} ResolveNotices(s: State, listed: seq<nat>, firing: set<string>, n: string)
    requires Unique(s.rows) && Listing(s.rows, listed)
    ensures var s' := ResolveListed(s, listed, firing);
      && Times(s'.notices, Fired(n)) == Times(s.notices, Fired(n))
      && Times(s'.notices, Cleared(n)) == Times(s.notices, Cleared(n))
           + if FindOpen(s.rows, n) in listed && n !in firing then 1 else 0
    decreases |listed|
  {
    if listed != [] {
      var before := listed[..|listed| - 1];
      var i := listed[|listed| - 1];
      assert listed == before + [i];
      ResolveNotices(s, before, firing, n);
      var s1 := ResolveListed(s, before, firing);
      TimesAppend(s1.notices, Cleared(s.rows[i].rule), Cleared(n));
      TimesAppend(s1.notices, Cleared(s.rows[i].rule), Fired(n));
      CounterAt(s.rows, i);
    }
  }

  lemma {:induction false} LimitIsListing(rows: seq<Incident>)
    ensures Listing(rows, Limit(OpenNewestFirst(rows)))
  {
    var ids := OpenNewestFirst(rows);
    var listed := Limit(ids);
    assert forall a :: 0 <= a < |listed| ==> listed[a] == ids[a] && ids[a] in ids;
  }

  // ---------------------------------------------------------------- a whole cycle

  /**
   What the design assumes of a cycle: distinct rule and SLO names, firings only of enabled rules, and
   cycle counts that do not change (`cc` gives each rule's; names outside it are SLOs).
   */
  ghost predicate WellNamed(cc: map<string, nat>, c: Cycle) {
    && DistinctNames(c.rules) && NoRepeats(c.slos)
    && (forall n :: n in c.fired ==> Names(c.rules, n))
    && (forall i :: 0 <= i < |c.rules| ==>
          c.rules[i].name in cc && cc[c.rules[i].name] == c.rules[i].consecutiveCycles >= 1)
    && (forall n :: n in c.slos ==> n !in cc)
  }

  function Threshold(cc: map<string, nat>, n: string): nat { if n in cc then cc[n] else 1 }

  lemma TouchedCounts(cc: map<string, nat>, s: State, c: Cycle, n: string)
    requires Unique(s.rows) && WellNamed(cc, c)
    ensures var t := Touched(s, c);
      && Unique(t.rows)
      && Counter(t.rows, n) == Counter(s.rows, n) + (if n in Firing(c) then 1 else 0)
      && Times(t.notices, Cleared(n)) == Times(s.notices, Cleared(n))
      && Times(t.notices, Fired(n)) == Times(s.notices, Fired(n))
           + if n in Firing(c) && Counter(s.rows, n) + 1 == Threshold(cc, n) then 1 else 0
  {
    TouchRulesCounts(s, c.rules, c.fired, n);
    TouchSlosCounts(TouchRules(s, c.rules, c.fired), c.slos, n);
    if n in c.fired {
      var i :| 0 <= i < |c.rules| && c.rules[i].name == n;
      assert cc[n] == c.rules[i].consecutiveCycles;
    }
  }

  /** The open incident of `n`, if any, is among the rows the cycle lists. */
  ghost predicate IsListed(rows: seq<Incident>, n: string) {
    FindOpen(rows, n) != -1 ==> FindOpen(rows, n) in Limit(OpenNewestFirst(rows))
  }

  /** One cycle, for one name, without assuming anything about how many incidents are open. */
  lemma CycleCounts(cc: map<string, nat>, s: State, c: Cycle, n: string)
    requires Unique(s.rows) && WellNamed(cc, c)
    ensures var s', t := NextState(s, c), Touched(s, c);
      && Unique(s'.rows)
      && (n in Firing(c) ==> Counter(s'.rows, n) == Counter(s.rows, n) + 1)
      && (n !in Firing(c) ==> Counter(s'.rows, n) == if IsListed(t.rows, n) then 0 else Counter(s.rows, n))
      && Times(s'.notices, Fired(n)) == Times(s.notices, Fired(n))
           + (if n in Firing(c) && Counter(s.rows, n) + 1 == Threshold(cc, n) then 1 else 0)
      && Times(s'.notices, Cleared(n)) == Times(s.notices, Cleared(n))
           + (if n !in Firing(c) && Counter(s.rows, n) > 0 && IsListed(t.rows, n) then 1 else 0)
  {
    var t := Touched(s, c);
    var listed := Limit(OpenNewestFirst(t.rows));
    TouchedCounts(cc, s, c, n);
    LimitIsListing(t.rows);
    ResolveCounts(t, listed, Firing(c), n);
    ResolveNotices(t, listed, Firing(c), n);
    var i := FindOpen(t.rows, n);
    if i != -1 { CounterAt(t.rows, i); }
  }

  // --- no incident is lost or rewritten

  /** An incident keeps its name; once closed it stays as it is; its count changes only when its name fires. */
  ghost predicate KeepsIncident(a: Incident, b: Incident, firing: set<string>) {
    b.rule == a.rule && (!a.firing ==> b == a) && (a.rule !in firing ==> b.violations == a.violations)
  }

  lemma BumpKeeps(rows: seq<Incident>, name: string, i: nat)
    requires i < |rows|
    ensures i < |Bump(rows, name)| && KeepsIncident(rows[i], Bump(rows, name)[i], {name})
    ensures Bump(rows, name)[i].firing == rows[i].firing
  {
  }

  lemma {:induction false} TouchRulesKeeps(s: State, rules: seq<Rule>, fired: set<string>, i: nat)
    requires i < |s.rows|
    ensures var rows := TouchRules(s, rules, fired).rows;
      i < |rows| && KeepsIncident(s.rows[i], rows[i], fired) && rows[i].firing == s.rows[i].firing
    decreases |rules|
  {
    if rules != [] {
      TouchRulesKeeps(s, rules[..|rules| - 1], fired, i);
      BumpKeeps(TouchRules(s, rules[..|rules| - 1], fired).rows, rules[|rules| - 1].name, i);
    }
  }

  lemma {:induction false} TouchSlosKeeps(s: State, slos: seq<string>, i: nat)
    requires i < |s.rows|
    ensures var rows := TouchSlos(s, slos).rows;
      i < |rows| && KeepsIncident(s.rows[i], rows[i], set n | n in slos) && rows[i].firing == s.rows[i].firing
    decreases |slos|
  {
    if slos != [] {
      TouchSlosKeeps(s, slos[..|slos| - 1], i);
      BumpKeeps(TouchSlos(s, slos[..|slos| - 1]).rows, slos[|slos| - 1], i);
    }
  }

  /** A cycle loses no incident: each keeps its place, and only what its name's firing or silence calls for changes. */
  lemma CycleKeepsIncidents(s: State, c: Cycle, i: nat)
    requires i < |s.rows|
    ensures i < |NextState(s, c).rows| && KeepsIncident(s.rows[i], NextState(s, c).rows[i], Firing(c))
  {
    var t := Touched(s, c);
    TouchRulesKeeps(s, c.rules, c.fired, i);
    TouchSlosKeeps(TouchRules(s, c.rules, c.fired), c.slos, i);
    LimitIsListing(t.rows);
    ResolveRows(t, Limit(OpenNewestFirst(t.rows)), Firing(c), i);
  }

  // ---------------------------------------------------------------- all cycles

  function Replay(cycles: seq<Cycle>): State {
    if cycles == [] then State([], []) else NextState(Replay(cycles[..|cycles| - 1]), cycles[|cycles| - 1])
  }

  ghost predicate AllWellNamed(cc: map<string, nat>, cycles: seq<Cycle>) {
    forall i :: 0 <= i < |cycles| ==> WellNamed(cc, cycles[i])
  }

  /** Over every sequence of cycles there is at most one open incident per name. */
  lemma {:induction false} AtMostOneOpenIncident(cc: map<string, nat>, cycles: seq<Cycle>)
    requires AllWellNamed(cc, cycles)
    ensures Unique(Replay(cycles).rows)
    decreases |cycles|
  {
    if cycles != [] {
      AtMostOneOpenIncident(cc, cycles[..|cycles| - 1]);
      CycleCounts(cc, Replay(cycles[..|cycles| - 1]), cycles[|cycles| - 1], "");
    }
  }

  /** Length of the run of firing cycles the history ends with. */
  function TrailingRun(cycles: seq<Cycle>, n: string): nat {
    if cycles == [] || n !in Firing(cycles[|cycles| - 1]) then 0
    else TrailingRun(cycles[..|cycles| - 1], n) + 1
  }

  /** In how many cycles the firing run reached length `k`, that is, how many runs got that long. */
  function RunsReaching(cycles: seq<Cycle>, n: string, k: nat): nat {
    if cycles == [] then 0 else
      RunsReaching(cycles[..|cycles| - 1], n, k) + if TrailingRun(cycles, n) == k then 1 else 0
  }

  /** In how many cycles a firing run came to its end. */
  function RunsEnded(cycles: seq<Cycle>, n: string): nat {
    if cycles == [] then 0 else
      var before := cycles[..|cycles| - 1];
      RunsEnded(before, n) + if TrailingRun(before, n) > 0 && TrailingRun(cycles, n) == 0 then 1 else 0
  }

  function FiringAt(cycles: seq<Cycle>, k: int): set<string>
    requires k < |cycles|
  {
    if k < 0 then {} else Firing(cycles[k])
  }

  /** The names that fire in cycle `k` or fired in the one before it. */
  function Recent(cycles: seq<Cycle>, k: nat): set<string>
    requires k < |cycles|
  {
    FiringAt(cycles, k - 1) + FiringAt(cycles, k)
  }

  /** Names that fire in a cycle or fired in the one before never exceed the listing limit. */
  ghost predicate WithinLimit(cycles: seq<Cycle>) {
    forall k :: 0 <= k < |cycles| ==> |Recent(cycles, k)| <= LIST_LIMIT
  }

  lemma PrefixWithinLimit(cycles: seq<Cycle>)
    requires cycles != [] && WithinLimit(cycles)
    ensures WithinLimit(cycles[..|cycles| - 1])
  {
    var before := cycles[..|cycles| - 1];
    forall k | 0 <= k < |before| ensures |Recent(before, k)| <= LIST_LIMIT {
      assert Recent(before, k) == Recent(cycles, k);
    }
  }

  ghost function OpenNames(rows: seq<Incident>): set<string> {
    set i | 0 <= i < |rows| && rows[i].firing :: rows[i].rule
  }

  lemma OpenNamesAppend(rows: seq<Incident>, last: Incident)
    ensures OpenNames(rows + [last]) == OpenNames(rows) + if last.firing then {last.rule} else {}
  {
    var all := rows + [last];
    forall n ensures n in OpenNames(all) <==> n in OpenNames(rows) || (last.firing && n == last.rule) {
      if n in OpenNames(rows) {
        var i :| 0 <= i < |rows| && rows[i].firing && rows[i].rule == n;
        assert all[i] == rows[i];
      }
      if last.firing && n == last.rule { assert all[|rows|] == last; }
      if n in OpenNames(all) {
        var i :| 0 <= i < |all| && all[i].firing && all[i].rule == n;
        assert i < |rows| ==> all[i] == rows[i];
      }
    }
  }

  lemma LastNameIsNew(rows: seq<Incident>, last: Incident)
    requires Unique(rows + [last]) && last.firing
    ensures last.rule !in OpenNames(rows) && Unique(rows)
  {
    var all := rows + [last];
    assert forall i :: 0 <= i < |rows| ==> all[i] == rows[i];
    assert all[|rows|] == last;
  }

  lemma {:induction false} OpenRowsAreOpenNames(rows: seq<Incident>)
    requires Unique(rows)
    ensures |OpenNewestFirst(rows)| == |OpenNames(rows)|
    decreases |rows|
  {
    if rows != [] {
      var before := rows[..|rows| - 1];
      var last := rows[|rows| - 1];
      assert rows == before + [last];
      assert OpenNewestFirst(rows) == if last.firing then [|rows| - 1] + OpenNewestFirst(before) else OpenNewestFirst(before);
      if last.firing { LastNameIsNew(before, last); }
      OpenRowsAreOpenNames(before);
      OpenNamesAppend(before, last);
    }
  }

  /** Every open name has a positive counter, and conversely. */
  lemma OpenNamesByCounter(rows: seq<Incident>, n: string)
    requires Unique(rows)
    ensures n in OpenNames(rows) <==> Counter(rows, n) > 0
  {
    var i := FindOpen(rows, n);
    if i != -1 {
      CounterAt(rows, i);
    }
  }

  lemma TouchedOpens(cc: map<string, nat>, s: State, c: Cycle)
    requires Unique(s.rows) && WellNamed(cc, c)
    ensures Unique(Touched(s, c).rows)
    ensures OpenNames(Touched(s, c).rows) == OpenNames(s.rows) + Firing(c)
  {
    var t := Touched(s, c);
    TouchedCounts(cc, s, c, "");
    forall n ensures n in OpenNames(t.rows) <==> n in OpenNames(s.rows) + Firing(c) {
      TouchedCounts(cc, s, c, n);
      OpenNamesByCounter(t.rows, n);
      OpenNamesByCounter(s.rows, n);
    }
  }

  // ---------------------------------------------------------------- beyond the limit

  /** Open rows that the listing leaves out. */
  function Overflow(rows: seq<Incident>): seq<nat> {
    var ids := OpenNewestFirst(rows);
    if |ids| <= LIST_LIMIT then [] else ids[LIST_LIMIT..]
  }

  lemma SplitMembership(ids: seq<nat>, k: nat, i: nat)
    requires k <= |ids| && i in ids && forall a, b :: 0 <= a < b < |ids| ==> ids[a] > ids[b]
    ensures i in ids[k..] <==> i !in ids[..k]
  {
    var a :| 0 <= a < |ids| && ids[a] == i;
    assert a < k ==> ids[..k][a] == i;
    assert a >= k ==> ids[k..][a - k] == i;
  }

  lemma {:induction false} OverflowIsNotListed(rows: seq<Incident>, i: nat)
    requires i < |rows| && rows[i].firing
    ensures i in Overflow(rows) <==> i !in Limit(OpenNewestFirst(rows))
  {
    var ids := OpenNewestFirst(rows);
    if |ids| > LIST_LIMIT { SplitMembership(ids, LIST_LIMIT, i); }
  }

  /** After any cycle the open names are the firing ones and those left out of the listing. */
  lemma {:induction false} OpenAfterAnyCycle(cc: map<string, nat>, s: State, c: Cycle, n: string)
    requires Unique(s.rows) && WellNamed(cc, c)
    ensures var rows := Touched(s, c).rows;
      n in OpenNames(NextState(s, c).rows) <==>
        n in Firing(c) || (FindOpen(rows, n) != -1 && FindOpen(rows, n) in Overflow(rows))
  {
    var rows := Touched(s, c).rows;
    var i := FindOpen(rows, n);
    CycleCounts(cc, s, c, n);
    TouchedCounts(cc, s, c, n);
    OpenNamesByCounter(NextState(s, c).rows, n);
    if i != -1 {
      CounterAt(rows, i);
      OverflowIsNotListed(rows, i);
    }
  }

  /** Every open row the listing leaves out belongs to a firing name. */
  ghost predicate OverflowFires(rows: seq<Incident>, firing: set<string>) {
    forall i :: 0 <= i < |rows| && rows[i].firing && i in Overflow(rows) ==> rows[i].rule in firing
  }

  /**
   The exact condition for one cycle: afterwards the open incidents are those of the firing names if
   and only if every open row beyond the newest fifty belongs to a name that still fires.
   */
  lemma CycleReconcilesExactlyWhen(cc: map<string, nat>, s: State, c: Cycle)
    requires Unique(s.rows) && WellNamed(cc, c)
    ensures OpenNames(NextState(s, c).rows) == Firing(c) <==> OverflowFires(Touched(s, c).rows, Firing(c))
  {
    var rows := Touched(s, c).rows;
    TouchedCounts(cc, s, c, "");
    if OpenNames(NextState(s, c).rows) == Firing(c) {
      forall i | 0 <= i < |rows| && rows[i].firing && i in Overflow(rows) ensures rows[i].rule in Firing(c) {
        CounterAt(rows, i);
        OpenAfterAnyCycle(cc, s, c, rows[i].rule);
      }
    }
    if OverflowFires(rows, Firing(c)) {
      forall n ensures n in OpenNames(NextState(s, c).rows) <==> n in Firing(c) {
        OpenAfterAnyCycle(cc, s, c, n);
      }
    }
  }

  /** A cycle whose left-out rows all still fire, for one name: counter and notices. */
  lemma ReconcilingCycle(cc: map<string, nat>, s: State, c: Cycle, n: string)
    requires Unique(s.rows) && WellNamed(cc, c) && OverflowFires(Touched(s, c).rows, Firing(c))
    ensures Unique(NextState(s, c).rows)
    ensures Counter(NextState(s, c).rows, n) == if n in Firing(c) then Counter(s.rows, n) + 1 else 0
    ensures Times(NextState(s, c).notices, Fired(n)) == Times(s.notices, Fired(n))
      + if n in Firing(c) && Counter(s.rows, n) + 1 == Threshold(cc, n) then 1 else 0
    ensures Times(NextState(s, c).notices, Cleared(n)) == Times(s.notices, Cleared(n))
      + if n !in Firing(c) && Counter(s.rows, n) > 0 then 1 else 0
  {
    var rows := Touched(s, c).rows;
    CycleCounts(cc, s, c, n);
    var i := FindOpen(rows, n);
    if n !in Firing(c) && i != -1 { OverflowIsNotListed(rows, i); }
  }

  // ---------------------------------------------------------------- histories

  /** In the last cycle every open row the listing leaves out belongs to a name that fires. */
  ghost predicate LastReconciles(cycles: seq<Cycle>)
    requires cycles != []
  {
    var s, c := Replay(cycles[..|cycles| - 1]), cycles[|cycles| - 1];
    OverflowFires(Touched(s, c).rows, Firing(c))
  }

  /** So it does in every cycle of the history. */
  ghost predicate AllReconcile(cycles: seq<Cycle>) {
    cycles == [] || (AllReconcile(cycles[..|cycles| - 1]) && LastReconciles(cycles))
  }

  ghost predicate FollowsRuns(cycles: seq<Cycle>, n: string) { Counter(Replay(cycles).rows, n) == TrailingRun(cycles, n) }

  /** After each cycle, every name's counter is the length of the firing run it is in. */
  ghost predicate AlwaysFollowsRuns(cycles: seq<Cycle>) {
    forall k, n :: 0 <= k <= |cycles| ==> FollowsRuns(cycles[..k], n)
  }

  lemma {:induction false} PrefixReconciles(cycles: seq<Cycle>, m: nat)
    requires m <= |cycles| && AllReconcile(cycles)
    ensures AllReconcile(cycles[..m])
    decreases |cycles|
  {
    if m < |cycles| {
      var before := cycles[..|cycles| - 1];
      assert AllReconcile(before);
      PrefixReconciles(before, m);
      assert before[..m] == cycles[..m];
    } else {
      assert cycles[..m] == cycles;
    }
  }

  /** The last cycle of a history, for one name. */
  lemma {:induction false} LastCycle(cc: map<string, nat>, cycles: seq<Cycle>, n: string)
    requires cycles != [] && WellNamed(cc, cycles[|cycles| - 1]) && LastReconciles(cycles)
    requires Unique(Replay(cycles[..|cycles| - 1]).rows)
    ensures var s, s', c := Replay(cycles[..|cycles| - 1]), Replay(cycles), cycles[|cycles| - 1];
      && Unique(s'.rows)
      && Counter(s'.rows, n) == (if n in Firing(c) then Counter(s.rows, n) + 1 else 0)
      && Times(s'.notices, Fired(n)) == Times(s.notices, Fired(n))
           + (if n in Firing(c) && Counter(s.rows, n) + 1 == Threshold(cc, n) then 1 else 0)
      && Times(s'.notices, Cleared(n)) == Times(s.notices, Cleared(n))
           + (if n !in Firing(c) && Counter(s.rows, n) > 0 then 1 else 0)
  {
    ReconcilingCycle(cc, Replay(cycles[..|cycles| - 1]), cycles[|cycles| - 1], n);
  }

  /**
   With every cycle reconciling, for every name: an incident is open exactly while the name fires and its
   count is the length of the trailing firing run; a firing notice has been attempted once for every run
   that reached the name's cycle count, and a resolution once for every run that ended.
   */
  lemma {:induction false} ReconcilingHistory(cc: map<string, nat>, cycles: seq<Cycle>, n: string)
    requires AllWellNamed(cc, cycles) && AllReconcile(cycles) && Threshold(cc, n) >= 1
    ensures Unique(Replay(cycles).rows) && FollowsRuns(cycles, n)
    ensures Times(Replay(cycles).notices, Fired(n)) == RunsReaching(cycles, n, Threshold(cc, n))
    ensures Times(Replay(cycles).notices, Cleared(n)) == RunsEnded(cycles, n)
    decreases |cycles|
  {
    if cycles != [] {
      ReconcilingHistory(cc, cycles[..|cycles| - 1], n);
      LastCycle(cc, cycles, n);
    }
  }

  /** Where every counter follows its run, the open names are those that fire. */
  lemma {:induction false} FollowingOpensFiring(cycles: seq<Cycle>)
    requires Unique(Replay(cycles).rows) && forall n :: FollowsRuns(cycles, n)
    ensures OpenNames(Replay(cycles).rows) == FiringAt(cycles, |cycles| - 1)
  {
    forall n ensures n in OpenNames(Replay(cycles).rows) <==> n in FiringAt(cycles, |cycles| - 1) {
      assert FollowsRuns(cycles, n);
      OpenNamesByCounter(Replay(cycles).rows, n);
    }
  }

  lemma FollowingReconciles(cc: map<string, nat>, cycles: seq<Cycle>)
    requires AllWellNamed(cc, cycles) && cycles != [] && forall n :: FollowsRuns(cycles, n)
    ensures LastReconciles(cycles)
  {
    var before := cycles[..|cycles| - 1];
    AtMostOneOpenIncident(cc, before);
    AtMostOneOpenIncident(cc, cycles);
    FollowingOpensFiring(cycles);
    CycleReconcilesExactlyWhen(cc, Replay(before), cycles[|cycles| - 1]);
  }

  /**
   The exact condition over histories: after each cycle every name's counter is its trailing firing run,
   and so an incident is open exactly while its name fires, if and only if in every cycle the open rows
   beyond the newest fifty all belong to names that fire.
   */
  lemma {:induction false} IncidentsFollowRunsExactlyWhen(cc: map<string, nat>, cycles: seq<Cycle>)
    requires AllWellNamed(cc, cycles)
    ensures AlwaysFollowsRuns(cycles) <==> AllReconcile(cycles)
  {
    if AllReconcile(cycles) {
      forall k, n | 0 <= k <= |cycles| ensures FollowsRuns(cycles[..k], n) {
        PrefixReconciles(cycles, k);
        FollowsWithoutThreshold(cc, cycles[..k], n);
      }
    }
    if AlwaysFollowsRuns(cycles) { AlwaysFollowingReconciles(cc, cycles); }
  }

  lemma {:induction false} AlwaysFollowingReconciles(cc: map<string, nat>, cycles: seq<Cycle>)
    requires AllWellNamed(cc, cycles) && AlwaysFollowsRuns(cycles)
    ensures AllReconcile(cycles)
    decreases |cycles|
  {
    if cycles != [] {
      var before := cycles[..|cycles| - 1];
      forall k, n | 0 <= k <= |before| ensures FollowsRuns(before[..k], n) {
        assert before[..k] == cycles[..k];
        assert FollowsRuns(cycles[..k], n);
      }
      AlwaysFollowingReconciles(cc, before);
      assert cycles[..|cycles|] == cycles;
      forall n ensures FollowsRuns(cycles, n) { assert FollowsRuns(cycles[..|cycles|], n); }
      FollowingReconciles(cc, cycles);
    }
  }

  /** The counter part for every name, also for one whose configured count is zero. */
  lemma {:induction false} FollowsWithoutThreshold(cc: map<string, nat>, cycles: seq<Cycle>, n: string)
    requires AllWellNamed(cc, cycles) && AllReconcile(cycles)
    ensures Unique(Replay(cycles).rows) && FollowsRuns(cycles, n)
    decreases |cycles|
  {
    if cycles != [] {
      FollowsWithoutThreshold(cc, cycles[..|cycles| - 1], n);
      LastCycle(cc, cycles, n);
    }
  }

  lemma FewOpenReconcile(cc: map<string, nat>, s: State, c: Cycle)
    requires Unique(s.rows) && WellNamed(cc, c) && |OpenNames(s.rows) + Firing(c)| <= LIST_LIMIT
    ensures OverflowFires(Touched(s, c).rows, Firing(c))
  {
    TouchedOpens(cc, s, c);
    OpenRowsAreOpenNames(Touched(s, c).rows);
  }

  lemma {:induction false} OpenBeforeLast(cc: map<string, nat>, cycles: seq<Cycle>)
    requires AllWellNamed(cc, cycles) && AllReconcile(cycles)
    ensures Unique(Replay(cycles).rows) && OpenNames(Replay(cycles).rows) == FiringAt(cycles, |cycles| - 1)
  {
    AtMostOneOpenIncident(cc, cycles);
    forall n ensures FollowsRuns(cycles, n) { FollowsWithoutThreshold(cc, cycles, n); }
    FollowingOpensFiring(cycles);
  }

  lemma FewNamesLast(cc: map<string, nat>, cycles: seq<Cycle>)
    requires cycles != [] && AllWellNamed(cc, cycles) && |Recent(cycles, |cycles| - 1)| <= LIST_LIMIT
    requires AllReconcile(cycles[..|cycles| - 1])
    ensures LastReconciles(cycles)
  {
    var before, c := cycles[..|cycles| - 1], cycles[|cycles| - 1];
    OpenBeforeLast(cc, before);
    assert FiringAt(before, |before| - 1) == FiringAt(cycles, |cycles| - 2);
    FewOpenReconcile(cc, Replay(before), c);
  }

  /** With at most fifty names in two neighbouring cycles nothing is left out. */
  lemma {:induction false} FewNamesReconcile(cc: map<string, nat>, cycles: seq<Cycle>)
    requires AllWellNamed(cc, cycles) && WithinLimit(cycles)
    ensures AllReconcile(cycles)
    decreases |cycles|
  {
    if cycles != [] {
      PrefixWithinLimit(cycles);
      FewNamesReconcile(cc, cycles[..|cycles| - 1]);
      FewNamesLast(cc, cycles);
    }
  }

  /** The same in terms of the firing names alone: at most fifty of them over two neighbouring cycles. */
  lemma {:induction false} IncidentsFollowRuns(cc: map<string, nat>, cycles: seq<Cycle>, n: string)
    requires AllWellNamed(cc, cycles) && WithinLimit(cycles) && Threshold(cc, n) >= 1
    ensures Unique(Replay(cycles).rows)
    ensures Counter(Replay(cycles).rows, n) == TrailingRun(cycles, n)
    ensures Times(Replay(cycles).notices, Fired(n)) == RunsReaching(cycles, n, Threshold(cc, n))
    ensures Times(Replay(cycles).notices, Cleared(n)) == RunsEnded(cycles, n)
  {
    FewNamesReconcile(cc, cycles);
    ReconcilingHistory(cc, cycles, n);
  }

  /** SLOs that fire into an empty table open one incident each, in order. */
  lemma {:induction false} FreshSlos(names: seq<string>)
    requires NoRepeats(names)
    ensures var rows := TouchSlos(State([], []), names).rows;
      |rows| == |names| && forall i :: 0 <= i < |names| ==> rows[i] == Incident(names[i], true, 1)
    decreases |names|
  {
    if names != [] {
      var before := names[..|names| - 1];
      FreshSlos(before);
      var rows := TouchSlos(State([], []), before).rows;
      assert forall i :: 0 <= i < |before| ==> before[i] == names[i];
      assert FindOpen(rows, names[|names| - 1]) == -1;
    }
  }

  /** When every row is open, the listing order ends with the oldest row. */
  lemma {:induction false} OldestIsLast(rows: seq<Incident>)
    requires |rows| > LIST_LIMIT && forall i :: 0 <= i < |rows| ==> rows[i].firing
    ensures 0 !in Limit(OpenNewestFirst(rows))
    decreases |rows|
  {
    AllOpenCount(rows);
    var ids := OpenNewestFirst(rows);
    assert forall b :: 0 <= b < LIST_LIMIT ==> ids[b] > ids[|ids| - 1];
  }

  lemma {:induction false} AllOpenCount(rows: seq<Incident>)
    requires forall i :: 0 <= i < |rows| ==> rows[i].firing
    ensures |OpenNewestFirst(rows)| == |rows|
    decreases |rows|
  {
    if rows != [] { AllOpenCount(rows[..|rows| - 1]); }
  }

  /** A cycle in which every open name fires resolves nothing. */
  lemma {:induction false} StormKeepsAll(names: seq<string>)
    requires NoRepeats(names)
    ensures NextState(State([], []), Cycle([], {}, names)).rows == TouchSlos(State([], []), names).rows
  {
    var c := Cycle([], {}, names);
    var t := TouchSlos(State([], []), names);
    FreshSlos(names);
    LimitIsListing(t.rows);
    var rows := ResolveListed(t, Limit(OpenNewestFirst(t.rows)), Firing(c)).rows;
    forall j | 0 <= j < |names| ensures rows[j] == t.rows[j] {
      assert names[j] in Firing(c);
      ResolveRows(t, Limit(OpenNewestFirst(t.rows)), Firing(c), j);
    }
    assert rows == t.rows;
  }

  /** A silent cycle cannot resolve the oldest of more than fifty open incidents. */
  lemma SilenceMissesOldest(s: State)
    requires |s.rows| > LIST_LIMIT && forall i :: 0 <= i < |s.rows| ==> s.rows[i].firing
    ensures NextState(s, Cycle([], {}, [])).rows != [] && NextState(s, Cycle([], {}, [])).rows[0] == s.rows[0]
  {
    LimitIsListing(s.rows);
    OldestIsLast(s.rows);
    ResolveRows(s, Limit(OpenNewestFirst(s.rows)), {}, 0);
    assert Firing(Cycle([], {}, [])) == {};
  }

  /**
   The limit matters: when more than fifty SLOs fire in one cycle and none in the next, the oldest
   incident is still open although nothing fires.
   */
  lemma LimitLeavesIncidentOpen(names: seq<string>)
    requires NoRepeats(names) && |names| > LIST_LIMIT
    ensures var s := NextState(NextState(State([], []), Cycle([], {}, names)), Cycle([], {}, []));
      s.rows != [] && s.rows[0] == Incident(names[0], true, 1)
  {
    FreshSlos(names);
    StormKeepsAll(names);
    SilenceMissesOldest(NextState(State([], []), Cycle([], {}, names)));
  }
}
