/**
 The dependency drift checker (scripts/check_requirements_drift.py): recursive parsing of requirement
 files with a shared visited set, and the comparison of declared ranges with pinned versions.
 */
module RequirementsDrift {
  import opened Basics

  /**
   A line after `strip`. `Skipped` is blank, a comment or another option; an include carries the
   resolved path of its target.
   */
  datatype Line<T> = Skipped | Include(target: string) | Declare(name: string, payload: T) | Malformed

  type Files<T> = map<string, seq<Line<T>>>

  datatype Entry<T> = Entry(payload: T, file: string, line: nat)

  datatype Parse<T> = Parsed(entries: map<string, Entry<T>>) | NotFound(file: string) | Invalid(file: string, line: nat)

  // ---------------------------------------------------------------- the include graph

  ghost predicate Includes<T>(fs: Files<T>, a: string, b: string) {
    a in fs && exists k :: 0 <= k < |fs[a]| && fs[a][k] == Include(b)
  }

  ghost predicate Route<T>(fs: Files<T>, route: seq<string>, a: string, b: string) {
    && |route| >= 1 && route[0] == a && route[|route| - 1] == b
    && forall i :: 0 <= i < |route| - 1 ==> Includes(fs, route[i], route[i + 1])
  }

  /** `b` is `a` or is included from it, directly or not. */
  ghost predicate Reaches<T>(fs: Files<T>, a: string, b: string) { exists route :: Route(fs, route, a, b) }

  lemma ReachesSelf<T>(fs: Files<T>, a: string)
    ensures Reaches(fs, a, a)
  {
    assert Route(fs, [a], a, a);
  }

  lemma ReachesThrough<T>(fs: Files<T>, a: string, b: string, c: string)
    requires Includes(fs, a, b) && Reaches(fs, b, c)
    ensures Reaches(fs, a, c)
  {
    var route :| Route(fs, route, b, c);
    var longer := [a] + route;
    forall i | 0 <= i < |longer| - 1 ensures Includes(fs, longer[i], longer[i + 1]) {
      if i > 0 { assert longer[i] == route[i - 1] && longer[i + 1] == route[i]; }
    }
    assert Route(fs, longer, a, c);
  }

  /** A file exists, has no malformed line, and everything it includes is in `known`. */
  ghost predicate Clean<T>(fs: Files<T>, f: string, known: set<string>) {
    f in fs && forall k :: 0 <= k < |fs[f]| ==>
      fs[f][k] != Malformed && (fs[f][k].Include? ==> fs[f][k].target in known)
  }

  /** A set closed under includes that holds the root holds everything reachable. */
  lemma {:induction false} ClosedHoldsReachable<T>(fs: Files<T>, known: set<string>, route: seq<string>, a: string, b: string)
    requires a in known && Route(fs, route, a, b) && forall f :: f in known ==> Clean(fs, f, known)
    ensures b in known
    decreases |route|
  {
    if |route| > 1 {
      assert Includes(fs, route[0], route[1]);
      var k :| 0 <= k < |fs[a]| && fs[a][k] == Include(route[1]);
      var rest := route[1..];
      forall i | 0 <= i < |rest| - 1 ensures Includes(fs, rest[i], rest[i + 1]) {
        assert Includes(fs, route[i + 1], route[i + 1 + 1]);
      }
      ClosedHoldsReachable(fs, known, rest, route[1], b);
    }
  }

  // ---------------------------------------------------------------- what a parse yields

  predicate DeclaresAt<T>(fs: Files<T>, f: string, k: int, n: string) {
    f in fs && 0 <= k < |fs[f]| && fs[f][k].Declare? && fs[f][k].name == n
  }

  /** File `f` declares `n` within its first `upto` lines. */
  ghost predicate DeclaredWithin<T>(fs: Files<T>, f: string, upto: nat, n: string) {
    exists k :: 0 <= k < upto && DeclaresAt(fs, f, k, n)
  }

  ghost predicate DeclaredIn<T>(fs: Files<T>, f: string, n: string) { f in fs && DeclaredWithin(fs, f, |fs[f]|, n) }

  ghost predicate DeclaredInOneOf<T>(fs: Files<T>, group: set<string>, n: string) {
    exists f :: f in group && DeclaredIn(fs, f, n)
  }

  /** `e` is the last declaration of `n` within the first `upto` lines of its file. */
  ghost predicate LastWithin<T>(fs: Files<T>, n: string, e: Entry<T>, upto: nat) {
    && e.line < upto && DeclaresAt(fs, e.file, e.line, n) && fs[e.file][e.line].payload == e.payload
    && forall k :: e.line < k < upto ==> !DeclaresAt(fs, e.file, k, n)
  }

  ghost predicate Genuine<T>(fs: Files<T>, group: set<string>, n: string, e: Entry<T>) {
    e.file in group && e.file in fs && LastWithin(fs, n, e, |fs[e.file]|)
  }

  /**
   What a successful parse of `root` does to the visited set and what it returns: the new files are
   clean, reachable from `root`, and their includes are visited; the names are exactly those the new
   files declare, each with the last declaration of some new file.
   */
  ghost predicate Harvest<T(!new)>(fs: Files<T>, root: string, before: set<string>, after: set<string>, es: map<string, Entry<T>>) {
    && before <= after && root in after
    && (forall f :: f in after - before ==> Clean(fs, f, after) && Reaches(fs, root, f))
    && (forall n :: n in es <==> DeclaredInOneOf(fs, after - before, n))
    && (forall n :: n in es ==> Genuine(fs, after - before, n, es[n]))
  }

  /** The same, halfway: the first `l` lines of `root` are done, and `nested` are the files parsed below it. */
  ghost predicate Partial<T(!new)>(fs: Files<T>, root: string, l: nat, before: set<string>, now: set<string>,
                                   es: map<string, Entry<T>>)
  {
    && root in fs && l <= |fs[root]| && root !in before && before + {root} <= now
    && (forall f :: f in now - before - {root} ==> Clean(fs, f, now) && Reaches(fs, root, f))
    && (forall k :: 0 <= k < l ==> fs[root][k] != Malformed && (fs[root][k].Include? ==> fs[root][k].target in now))
    && (forall n :: n in es <==> DeclaredInOneOf(fs, now - before - {root}, n) || DeclaredWithin(fs, root, l, n))
    && (forall n :: n in es ==>
          Genuine(fs, now - before - {root}, n, es[n]) || (es[n].file == root && LastWithin(fs, n, es[n], l)))
  }

  lemma PartialStarts<T(!new)>(fs: Files<T>, root: string, before: set<string>)
    requires root in fs && root !in before
    ensures Partial(fs, root, 0, before, before + {root}, map[])
  {
  }

  lemma PartialSkips<T(!new)>(fs: Files<T>, root: string, l: nat, before: set<string>,
                              now: set<string>, es: map<string, Entry<T>>)
    requires Partial(fs, root, l, before, now, es) && l < |fs[root]| && fs[root][l] == Skipped
    ensures Partial(fs, root, l + 1, before, now, es)
  {
    forall n ensures DeclaredWithin(fs, root, l + 1, n) <==> DeclaredWithin(fs, root, l, n) {
      WithinNext(fs, root, l, n);
    }
  }

  lemma WithinNext<T>(fs: Files<T>, f: string, l: nat, n: string)
    ensures DeclaredWithin(fs, f, l + 1, n) <==> DeclaredWithin(fs, f, l, n) || DeclaresAt(fs, f, l, n)
  {
    if DeclaredWithin(fs, f, l, n) {
      var k :| 0 <= k < l && DeclaresAt(fs, f, k, n);
      assert 0 <= k < l + 1;
    }
  }

  lemma PartialDeclares<T(!new)>(fs: Files<T>, root: string, l: nat, before: set<string>,
                                 now: set<string>, es: map<string, Entry<T>>)
    requires Partial(fs, root, l, before, now, es) && l < |fs[root]| && fs[root][l].Declare?
    ensures var d := fs[root][l];
      Partial(fs, root, l + 1, before, now, es[d.name := Entry(d.payload, root, l)])
  {
    var d := fs[root][l];
    var es' := es[d.name := Entry(d.payload, root, l)];
    forall n ensures n in es' <==>
      DeclaredInOneOf(fs, now - before - {root}, n) || DeclaredWithin(fs, root, l + 1, n)
    {
      WithinNext(fs, root, l, n);
    }
  }

  lemma IncludeKeepsClean<T(!new)>(
    fs: Files<T>, root: string, l: nat, before: set<string>, now: set<string>, es: map<string, Entry<T>>,
    after: set<string>, nested: map<string, Entry<T>>, f: string)
    requires Partial(fs, root, l, before, now, es) && l < |fs[root]| && fs[root][l].Include?
    requires Harvest(fs, fs[root][l].target, now, after, nested) && f in after - before - {root}
    ensures Clean(fs, f, after) && Reaches(fs, root, f)
  {
    if f in now {
      assert f in now - before - {root};
      assert Clean(fs, f, now);
    } else {
      assert f in after - now;
      assert Includes(fs, root, fs[root][l].target);
      ReachesThrough(fs, root, fs[root][l].target, f);
    }
  }

  lemma IncludeMergesNames<T(!new)>(
    fs: Files<T>, root: string, l: nat, before: set<string>, now: set<string>, es: map<string, Entry<T>>,
    after: set<string>, nested: map<string, Entry<T>>, n: string)
    requires Partial(fs, root, l, before, now, es) && l < |fs[root]| && fs[root][l].Include?
    requires Harvest(fs, fs[root][l].target, now, after, nested)
    ensures n in es + nested <==>
      DeclaredInOneOf(fs, after - before - {root}, n) || DeclaredWithin(fs, root, l + 1, n)
    ensures n in es + nested ==>
      var e := (es + nested)[n];
      Genuine(fs, after - before - {root}, n, e) || (e.file == root && LastWithin(fs, n, e, l + 1))
  {
    assert after - before - {root} == (now - before - {root}) + (after - now);
    WithinNext(fs, root, l, n);
    OneOfUnion(fs, now - before - {root}, after - now, n);
    if n in nested { assert Genuine(fs, after - now, n, nested[n]); }
  }

  /** Including a file merges its harvest. */
  lemma PartialIncludes<T(!new)>(
    fs: Files<T>, root: string, l: nat, before: set<string>, now: set<string>, es: map<string, Entry<T>>,
    after: set<string>, nested: map<string, Entry<T>>)
    requires Partial(fs, root, l, before, now, es) && l < |fs[root]| && fs[root][l].Include?
    requires Harvest(fs, fs[root][l].target, now, after, nested)
    ensures Partial(fs, root, l + 1, before, after, es + nested)
  {
    forall f | f in after - before - {root} ensures Clean(fs, f, after) && Reaches(fs, root, f) {
      IncludeKeepsClean(fs, root, l, before, now, es, after, nested, f);
    }
    forall n {
      IncludeMergesNames(fs, root, l, before, now, es, after, nested, n);
    }
  }

  lemma OneOfUnion<T>(fs: Files<T>, a: set<string>, b: set<string>, n: string)
    ensures DeclaredInOneOf(fs, a + b, n) <==> DeclaredInOneOf(fs, a, n) || DeclaredInOneOf(fs, b, n)
  {
    if DeclaredInOneOf(fs, a, n) { var f :| f in a && DeclaredIn(fs, f, n); assert f in a + b; }
    if DeclaredInOneOf(fs, b, n) { var f :| f in b && DeclaredIn(fs, f, n); assert f in a + b; }
  }

  lemma PartialFinishes<T(!new)>(fs: Files<T>, root: string, before: set<string>,
                                 now: set<string>, es: map<string, Entry<T>>)
    requires root in fs && Partial(fs, root, |fs[root]|, before, now, es)
    ensures Harvest(fs, root, before, now, es)
  {
    var group := now - before - {root};
    assert now - before == group + {root};
    ReachesSelf(fs, root);
    forall n ensures n in es <==> DeclaredInOneOf(fs, now - before, n) {
      OneOfUnion(fs, group, {root}, n);
      if DeclaredWithin(fs, root, |fs[root]|, n) { assert DeclaredIn(fs, root, n); }
    }
  }

  /** The reason for a failure: a reachable file that is missing or has a malformed line. */
  ghost predicate Culprit<T>(fs: Files<T>, root: string, r: Parse<T>) {
    match r
    case Parsed(_) => false
    case NotFound(f) => f !in fs && Reaches(fs, root, f)
    case Invalid(f, k) => f in fs && k < |fs[f]| && fs[f][k] == Malformed && Reaches(fs, root, f)
  }

  // ---------------------------------------------------------------- which declaration wins

  datatype Declaration<T> = Declaration(name: string, entry: Entry<T>)

  /**
   The declarations of `path` in textual order, each include replaced by the text of its target the
   first time that target is met; and the files met so far.
   */
  ghost function Expand<T>(fs: Files<T>, path: string, visited: set<string>): (r: (seq<Declaration<T>>, set<string>))
    ensures visited <= r.1
    decreases fs.Keys - visited, 0, 0
  {
    if path in visited || path !in fs then ([], visited + {path})
    else ExpandLines(fs, path, |fs[path]|, visited + {path})
  }

  ghost function ExpandLines<T>(fs: Files<T>, path: string, l: nat, visited: set<string>): (r: (seq<Declaration<T>>, set<string>))
    requires path in fs && l <= |fs[path]|
    ensures visited <= r.1
    decreases fs.Keys - visited, 1, l
  {
    if l == 0 then ([], visited) else
      var (ds, met) := ExpandLines(fs, path, l - 1, visited);
      match fs[path][l - 1]
      case Include(target) =>
        var (more, met') := Expand(fs, target, met);
        (ds + more, met')
      case Declare(name, payload) => (ds + [Declaration(name, Entry(payload, path, l - 1))], met)
      case _ => (ds, met)
  }

  /** For each name, its last declaration. */
  ghost function Winners<T>(ds: seq<Declaration<T>>): map<string, Entry<T>> {
    if ds == [] then map[] else Winners(ds[..|ds| - 1])[ds[|ds| - 1].name := ds[|ds| - 1].entry]
  }

  lemma {:induction false} WinnersAppend<T>(a: seq<Declaration<T>>, b: seq<Declaration<T>>)
    ensures Winners(a + b) == Winners(a) + Winners(b)
    decreases |b|
  {
    if b == [] {
      assert a + b == a;
    } else {
      WinnersAppend(a, b[..|b| - 1]);
      assert (a + b)[..|a + b| - 1] == a + b[..|b| - 1];
    }
  }

  /** What wins for each name after the first `l` lines of a file. */
  ghost function WinnersUpTo<T>(fs: Files<T>, path: string, l: nat, visited: set<string>): map<string, Entry<T>>
    requires path in fs && l <= |fs[path]|
  {
    Winners(ExpandLines(fs, path, l, visited).0)
  }

  /**
   Later lines win: a declaration overrides everything read before it, an include overrides it with what wins in
   the target unless that file has been met, and any other line changes nothing.
   */
  lemma LaterLineWins<T>(fs: Files<T>, path: string, l: nat, visited: set<string>)
    requires path in fs && l < |fs[path]|
    ensures var before, after, met := WinnersUpTo(fs, path, l, visited), WinnersUpTo(fs, path, l + 1, visited), ExpandLines(fs, path, l, visited).1;
      match fs[path][l]
      case Declare(n, payload) => after == before[n := Entry(payload, path, l)]
      case Include(target) =>
        if target in met || target !in fs then after == before
        else after == before + WinnersUpTo(fs, target, |fs[target]|, met + {target})
      case _ => after == before
  {
    var ds := ExpandLines(fs, path, l, visited).0;
    match fs[path][l]
    case Declare(n, payload) =>
      WinnersAppend(ds, [Declaration(n, Entry(payload, path, l))]);
      assert [Declaration(n, Entry(payload, path, l))][..0] == [];
      assert Winners([Declaration(n, Entry(payload, path, l))]) == Winners<T>([])[n := Entry(payload, path, l)];
    case Include(target) =>
      WinnersAppend(ds, Expand(fs, target, ExpandLines(fs, path, l, visited).1).0);
    case _ =>
  }

  lemma WinnersInclude<T>(fs: Files<T>, path: string, l: nat, visited: set<string>)
    requires path in fs && l < |fs[path]| && fs[path][l].Include?
    ensures var (ds, met) := ExpandLines(fs, path, l, visited); var (more, met') := Expand(fs, fs[path][l].target, met);
      ExpandLines(fs, path, l + 1, visited).1 == met' && WinnersUpTo(fs, path, l + 1, visited) == Winners(ds) + Winners(more)
  {
    var (ds, met) := ExpandLines(fs, path, l, visited);
    WinnersAppend(ds, Expand(fs, fs[path][l].target, met).0);
  }

  /** The first `l` lines are done, as both accounts say. */
  ghost predicate Progress<T(!new)>(fs: Files<T>, path: string, l: nat, before: set<string>, now: set<string>, es: map<string, Entry<T>>) {
    && path in fs && l <= |fs[path]| && Partial(fs, path, l, before, now, es)
    && ExpandLines(fs, path, l, before + {path}).1 == now && es == WinnersUpTo(fs, path, l, before + {path})
  }

  lemma ProgressSkips<T(!new)>(fs: Files<T>, path: string, l: nat, before: set<string>, now: set<string>, es: map<string, Entry<T>>)
    requires Progress(fs, path, l, before, now, es) && l < |fs[path]| && fs[path][l] == Skipped
    ensures Progress(fs, path, l + 1, before, now, es)
  {
    PartialSkips(fs, path, l, before, now, es);
  }

  lemma ProgressDeclares<T(!new)>(fs: Files<T>, path: string, l: nat, before: set<string>, now: set<string>, es: map<string, Entry<T>>)
    requires Progress(fs, path, l, before, now, es) && l < |fs[path]| && fs[path][l].Declare?
    ensures var d := fs[path][l]; Progress(fs, path, l + 1, before, now, es[d.name := Entry(d.payload, path, l)])
  {
    PartialDeclares(fs, path, l, before, now, es);
    LaterLineWins(fs, path, l, before + {path});
  }

  lemma ProgressIncludes<T(!new)>(fs: Files<T>, path: string, l: nat, before: set<string>, now: set<string>, es: map<string, Entry<T>>,
                                  after: set<string>, nested: map<string, Entry<T>>)
    requires Progress(fs, path, l, before, now, es) && l < |fs[path]| && fs[path][l].Include?
    requires Harvest(fs, fs[path][l].target, now, after, nested)
    requires var (ds, met) := Expand(fs, fs[path][l].target, now); after == met && nested == Winners(ds)
    ensures Progress(fs, path, l + 1, before, after, es + nested)
  {
    PartialIncludes(fs, path, l, before, now, es, after, nested);
    WinnersInclude(fs, path, l, before + {path});
  }

  class Parser<T(!new)> {
    const files: Files<T>
    var visited: set<string>

    constructor (files: Files<T>)
      ensures this.files == files && visited == {}
    {
      this.files := files;
      visited := {};
    }

    /** Parses one file and what it includes, sharing the visited set; it ends on cyclic includes. */
    method ParseFile(path: string) returns (r: Parse<T>)
      modifies this
      ensures old(visited) <= visited
      ensures r.Parsed? ==> Harvest(files, path, old(visited), visited, r.entries)
      ensures r.Parsed? ==>
        var (ds, met) := Expand(files, path, old(visited)); visited == met && r.entries == Winners(ds)
      ensures !r.Parsed? ==> Culprit(files, path, r)
      decreases files.Keys - visited
    {
      if path in visited {
        assert visited + {path} == visited;
        return Parsed(map[]);
      }
      ghost var before := visited;
      visited := visited + {path};
      ReachesSelf(files, path);
      if path !in files {
        return NotFound(path);
      }
      var entries: map<string, Entry<T>> := map[];
      PartialStarts(files, path, before);
      var lines := files[path];
      for l := 0 to |lines|
        invariant before + {path} <= visited
        invariant Progress(files, path, l, before, visited, entries)
      {
        match lines[l] {
          case Skipped =>
            ProgressSkips(files, path, l, before, visited, entries);
          case Include(target) =>
            ghost var now := visited;
            var nested := ParseFile(target);
            assert Includes(files, path, target);
            if !nested.Parsed? {
              ReachesThrough(files, path, target, nested.file);
              return nested;
            }
            ProgressIncludes(files, path, l, before, now, entries, visited, nested.entries);
            entries := entries + nested.entries;
          case Declare(name, payload) =>
            ProgressDeclares(files, path, l, before, visited, entries);
            entries := entries[name := Entry(payload, path, l)];
          case Malformed =>
            return Invalid(path, l);
        }
      }
      PartialFinishes(files, path, before, visited, entries);
      return Parsed(entries);
    }
  }

  // ---------------------------------------------------------------- a parse from the root

  /** Every reachable file exists and is well formed. */
  ghost predicate AllGood<T(!new)>(fs: Files<T>, root: string) {
    forall f :: Reaches(fs, root, f) ==> f in fs && forall k :: 0 <= k < |fs[f]| ==> fs[f][k] != Malformed
  }

  ghost predicate DeclaredReachably<T(!new)>(fs: Files<T>, root: string, n: string) {
    exists f :: Reaches(fs, root, f) && DeclaredIn(fs, f, n)
  }

  lemma HarvestFromScratch<T(!new)>(fs: Files<T>, root: string, after: set<string>, es: map<string, Entry<T>>)
    requires Harvest(fs, root, {}, after, es)
    ensures AllGood(fs, root)
    ensures forall f :: f in after <==> Reaches(fs, root, f)
    ensures forall n :: n in es <==> DeclaredReachably(fs, root, n)
  {
    assert after - {} == after;
    forall f ensures f in after <==> Reaches(fs, root, f) {
      if Reaches(fs, root, f) {
        var route :| Route(fs, route, root, f);
        ClosedHoldsReachable(fs, after, route, root, f);
      }
    }
    forall n ensures n in es <==> DeclaredReachably(fs, root, n) {
      if DeclaredReachably(fs, root, n) {
        var f :| Reaches(fs, root, f) && DeclaredIn(fs, f, n);
        assert f in after;
      }
      if n in es {
        var f :| f in after - {} && DeclaredIn(fs, f, n);
        assert Reaches(fs, root, f);
      }
    }
  }

  /**
   `parse_requirements_file` and `parse_lock_file` from the command line. The parse succeeds exactly
   when every reachable file exists and is well formed, and its names are exactly those declared in
   reachable files, each with a genuine declaration.
   */
  method ParseRoot<T(!new)>(fs: Files<T>, root: string) returns (r: Parse<T>)
    ensures r.Parsed? <==> AllGood(fs, root)
    ensures !r.Parsed? ==> Culprit(fs, root, r)
    ensures r.Parsed? ==> forall n :: n in r.entries <==> DeclaredReachably(fs, root, n)
    ensures r.Parsed? ==> forall n :: n in r.entries ==>
      Reaches(fs, root, r.entries[n].file) && LastInFile(fs, n, r.entries[n])
    ensures r.Parsed? ==> r.entries == Winners(Expand(fs, root, {}).0)
  {
    var parser := new Parser(fs);
    r := parser.ParseFile(root);
    if r.Parsed? {
      HarvestFromScratch(fs, root, parser.visited, r.entries);
      forall n | n in r.entries
        ensures Reaches(fs, root, r.entries[n].file) && LastInFile(fs, n, r.entries[n])
      {
        assert Genuine(fs, parser.visited - {}, n, r.entries[n]);
      }
    }
  }

  /** `e` is the last declaration of `n` in its file. */
  ghost predicate LastInFile<T>(fs: Files<T>, n: string, e: Entry<T>) {
    e.file in fs && LastWithin(fs, n, e, |fs[e.file]|)
  }

  // ---------------------------------------------------------------- the drift report

  datatype Operator = Equal | AtLeast | AtMost | Above | Below | Except | Compatible | Identical

  /** `==` and `===` admit one version. */
  predicate Pinning(op: Operator) { op == Equal || op == Identical }

  datatype Specifier = Specifier(op: Operator, version: string)

  /** The specifiers of a lock line, in the order in which the library's set yields them. */
  type LockLine = seq<Specifier>

  /** What `parse_lock_file` keeps of a lock line: the first version, whatever its operator. */
  function KeptVersion(line: LockLine): string { if line == [] then "" else line[0].version }

  lemma FirstSpecifierIsKept(first: Specifier, rest: LockLine)
    ensures KeptVersion([first] + rest) == first.version && KeptVersion([]) == ""
  {
  }

  /** The outcome of the specifier test; it raises on a text that is no version, such as `1.*`. */
  datatype Test = Within | Outside | NotAVersion

  type Tester = (string, string) -> Test

  type Ranges = map<string, Entry<string>>

  type Pins = map<string, Entry<LockLine>>

  datatype Problem = Missing(name: string) | Unpinned(name: string) | Drifted(name: string)

  /** The verdict on one declared name; `test(range, version)` is the specifier test. */
  function Judge(range: string, pins: Pins, n: string, test: Tester): Option<Problem> {
    if n !in pins then Some(Missing(n))
    else if KeptVersion(pins[n].payload) == "" then Some(Unpinned(n))
    else if test(range, KeptVersion(pins[n].payload)) != Within then Some(Drifted(n))
    else None
  }

  /** Testing this name raises. */
  predicate Raises(reqs: Ranges, pins: Pins, test: Tester, n: string) {
    && n in reqs && n in pins && KeptVersion(pins[n].payload) != ""
    && test(reqs[n].payload, KeptVersion(pins[n].payload)) == NotAVersion
  }

  ghost predicate SomeRaises(reqs: Ranges, pins: Pins, test: Tester) { exists n :: Raises(reqs, pins, test, n) }

  /** `p` is the verdict on its name. */
  predicate Deserved(reqs: Ranges, pins: Pins, test: Tester, p: Problem) {
    p.name in reqs && Judge(reqs[p.name].payload, pins, p.name, test) == Some(p)
  }

  datatype Report = Failed | Problems(problems: seq<Problem>)

  /** One problem per name that deserves one, whatever the order of the names, unless some test raises. */
  method Compare(reqs: Ranges, pins: Pins, test: Tester) returns (report: Report)
    ensures report == Failed <==> SomeRaises(reqs, pins, test)
    ensures report.Problems? ==> forall p :: p in report.problems <==> Deserved(reqs, pins, test, p)
    ensures report.Problems? ==> forall n :: n in reqs ==> SaidOf(reqs, pins, test, report.problems, n)
    ensures report.Problems? ==> forall p :: p in report.problems ==> p.name in reqs
    ensures report.Problems? ==>
      forall i, j :: 0 <= i < j < |report.problems| ==> report.problems[i].name != report.problems[j].name
  {
    var problems: seq<Problem> := [];
    var todo := reqs.Keys;
    while todo != {}
      invariant todo <= reqs.Keys
      invariant forall n :: Raises(reqs, pins, test, n) ==> n in todo
      invariant forall p :: p in problems <==> p.name !in todo && Deserved(reqs, pins, test, p)
      invariant forall i, j :: 0 <= i < j < |problems| ==> problems[i].name != problems[j].name
      decreases |todo|
    {
      var n :| n in todo;
      assert forall i :: 0 <= i < |problems| ==> problems[i] in problems;
      if Raises(reqs, pins, test, n) {
        return Failed;
      }
      var verdict := Judge(reqs[n].payload, pins, n, test);
      todo := todo - {n};
      if verdict.Some? {
        problems := problems + [verdict.value];
      }
    }
    report := Problems(problems);
    forall n | n in reqs ensures SaidOf(reqs, pins, test, problems, n) { DeservedIsSaid(reqs, pins, test, problems, n); }
  }

  /** What the report says of a required name: missing, without a version, outside its range, or nothing. */
  ghost predicate SaidOf(reqs: Ranges, pins: Pins, test: Tester, problems: seq<Problem>, n: string)
    requires n in reqs
  {
    && (Missing(n) in problems <==> n !in pins)
    && (Unpinned(n) in problems <==> n in pins && KeptVersion(pins[n].payload) == "")
    && (Drifted(n) in problems <==>
          n in pins && KeptVersion(pins[n].payload) != "" && test(reqs[n].payload, KeptVersion(pins[n].payload)) == Outside)
  }

  lemma DeservedIsSaid(reqs: Ranges, pins: Pins, test: Tester, problems: seq<Problem>, n: string)
    requires n in reqs && !Raises(reqs, pins, test, n) && forall p :: p in problems <==> Deserved(reqs, pins, test, p)
    ensures SaidOf(reqs, pins, test, problems, n)
  {
    assert Missing(n) in problems <==> Deserved(reqs, pins, test, Missing(n));
    assert Unpinned(n) in problems <==> Deserved(reqs, pins, test, Unpinned(n));
    assert Drifted(n) in problems <==> Deserved(reqs, pins, test, Drifted(n));
  }

  /** The entry that wins for each name when the files are read from the root in order. */
  ghost function Effective<T>(fs: Files<T>, root: string): map<string, Entry<T>> { Winners(Expand(fs, root, {}).0) }

  /** What the code tests: every required name has a kept version, and it lies within the range. */
  ghost predicate PassesTest(reqs: Ranges, pins: Pins, test: Tester) {
    forall n :: n in reqs ==>
      n in pins && KeptVersion(pins[n].payload) != "" && test(reqs[n].payload, KeptVersion(pins[n].payload)) == Within
  }

  /** What the report is for: every required name is pinned, and the pinned version lies within the range. */
  ghost predicate PinnedWithinRange(reqs: Ranges, pins: Pins, test: Tester) {
    forall n :: n in reqs ==> n in pins && exists v :: PinsVersion(pins[n].payload, v) && test(reqs[n].payload, v) == Within
  }

  /** The line pins exactly this version. */
  predicate PinsVersion(line: LockLine, v: string) { |line| == 1 && Pinning(line[0].op) && line[0].version == v }

  /** The winning lock entry of every required name is a single equality. */
  ghost predicate SingleEqualities(reqs: Ranges, pins: Pins) {
    forall n :: n in reqs && n in pins ==> |pins[n].payload| == 1 && Pinning(pins[n].payload[0].op)
  }

  /**
   The whole check. It reports when both root files parse and no test raises, and the report is empty
   exactly when the kept version of every name declared in a reachable requirements file lies within its
   effective range. An empty report means that all of them are pinned exactly when every winning lock
   entry is a single equality.
   */
  method CheckDrift(txt: Files<string>, txtRoot: string, lock: Files<LockLine>, lockRoot: string, test: Tester)
    returns (report: Report)
    ensures var reqs, pins := Effective(txt, txtRoot), Effective(lock, lockRoot);
      && (report.Problems? <==> AllGood(txt, txtRoot) && AllGood(lock, lockRoot) && !SomeRaises(reqs, pins, test))
      && (report.Problems? ==>
            && (forall n :: n in reqs <==> DeclaredReachably(txt, txtRoot, n))
            && (forall n :: n in pins <==> DeclaredReachably(lock, lockRoot, n))
            && (forall p :: p in report.problems <==> Deserved(reqs, pins, test, p))
            && (report.problems == [] <==> PassesTest(reqs, pins, test))
            && (report.problems == [] ==> (PinnedWithinRange(reqs, pins, test) <==> SingleEqualities(reqs, pins))))
  {
    var parsedTxt := ParseRoot(txt, txtRoot);
    if !parsedTxt.Parsed? {
      return Failed;
    }
    var parsedLock := ParseRoot(lock, lockRoot);
    if !parsedLock.Parsed? {
      return Failed;
    }
    ghost var reqs, pins := parsedTxt.entries, parsedLock.entries;
    assert reqs == Effective(txt, txtRoot) && pins == Effective(lock, lockRoot);
    report := Compare(parsedTxt.entries, parsedLock.entries, test);
    if report.Problems? {
      if report.problems == [] {
        CleanReport(reqs, pins, test);
        EmptyReportMeansPinned(reqs, pins, test);
      } else {
        assert report.problems[0] in report.problems;
      }
    }
  }

  lemma CleanReport(reqs: Ranges, pins: Pins, test: Tester)
    requires forall p :: !Deserved(reqs, pins, test, p)
    ensures PassesTest(reqs, pins, test)
  {
    forall n | n in reqs
      ensures n in pins && KeptVersion(pins[n].payload) != "" && test(reqs[n].payload, KeptVersion(pins[n].payload)) == Within
    {
      assert !Deserved(reqs, pins, test, Missing(n));
      assert !Deserved(reqs, pins, test, Unpinned(n));
      assert !Deserved(reqs, pins, test, Drifted(n));
    }
  }

  // ---------------------------------------------------------------- what an empty report means

  lemma EmptyReportMeansPinned(reqs: Ranges, pins: Pins, test: Tester)
    requires PassesTest(reqs, pins, test)
    ensures PinnedWithinRange(reqs, pins, test) <==> SingleEqualities(reqs, pins)
  {
    if SingleEqualities(reqs, pins) {
      forall n | n in reqs
        ensures n in pins && exists v :: PinsVersion(pins[n].payload, v) && test(reqs[n].payload, v) == Within
      {
        var line := pins[n].payload;
        assert line == [line[0]];
        assert PinsVersion(line, line[0].version);
      }
    }
  }

  /**
   Read off the two files alone: the check never passes an unpinned file, whatever the specifier test,
   exactly when each required name's winning lock entry is a single equality, or some required name has
   no kept version, so that nothing passes.
   */
  lemma CheckIsSoundExactlyWhen(reqs: Ranges, pins: Pins)
    ensures (forall test: Tester :: PassesTest(reqs, pins, test) ==> PinnedWithinRange(reqs, pins, test))
       <==> SingleEqualities(reqs, pins) || exists n :: n in reqs && (n !in pins || KeptVersion(pins[n].payload) == "")
  {
    if SingleEqualities(reqs, pins) {
      forall test: Tester | PassesTest(reqs, pins, test) ensures PinnedWithinRange(reqs, pins, test) {
        EmptyReportMeansPinned(reqs, pins, test);
      }
    } else if forall n :: n in reqs ==> n in pins && KeptVersion(pins[n].payload) != "" {
      var lenient: Tester := (range, version) => Within;
      EmptyReportMeansPinned(reqs, pins, lenient);
      assert PassesTest(reqs, pins, lenient) && !PinnedWithinRange(reqs, pins, lenient);
    }
  }

  /** A file that is one declaration. */
  function OneLine<T>(file: string, name: string, payload: T): Files<T> { map[file := [Declare(name, payload)]] }

  lemma OneLineEffective<T>(file: string, name: string, payload: T)
    ensures Effective(OneLine(file, name, payload), file) == map[name := Entry(payload, file, 0)]
  {
    var fs := OneLine(file, name, payload);
    assert ExpandLines(fs, file, 0, {file}) == ([], {file});
    assert {} + {file} == {file};
    assert Expand(fs, file, {}) == ExpandLines(fs, file, 1, {file});
    var d := Declaration(name, Entry(payload, file, 0));
    assert Expand(fs, file, {}).0 == [d];
    assert [d][..|[d]| - 1] == [];
    assert Winners([d]) == Winners<T>([])[name := d.entry];
  }

  /**
   `foo>=1` against the lock line `foo>=2.0` passes although nothing is pinned; so does every lock line
   of one bound whose version lies within the range.
   */
  lemma LooseLockLinePasses(file: string, lockFile: string, name: string, range: string,
                            op: Operator, version: string, test: Tester)
    requires !Pinning(op) && version != "" && test(range, version) == Within
    ensures var reqs, pins := Effective(OneLine(file, name, range), file),
                              Effective(OneLine(lockFile, name, [Specifier(op, version)]), lockFile);
      PassesTest(reqs, pins, test) && !PinnedWithinRange(reqs, pins, test)
  {
    OneLineEffective(file, name, range);
    OneLineEffective(lockFile, name, [Specifier(op, version)]);
    var reqs, pins := Effective(OneLine(file, name, range), file), Effective(OneLine(lockFile, name, [Specifier(op, version)]), lockFile);
    EmptyReportMeansPinned(reqs, pins, test);
    assert name in reqs && name in pins && !Pinning(pins[name].payload[0].op);
  }
}
