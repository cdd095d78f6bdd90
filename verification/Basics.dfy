/** Small vocabulary shared by the models. */
module Basics {

  datatype Option<+T> = None | Some(value: T)

  function MinReal(x: real, y: real): real { if x <= y then x else y }

  function MaxReal(x: real, y: real): real { if x >= y then x else y }

  function AbsReal(x: real): real { if x >= 0.0 then x else -x }

  /** Named products and quotients, so that equal factors give equal results by congruence. */
  function Mul(x: real, y: real): real { x * y }

  function Sq(x: real): real { x * x }

  function Quot(x: real, y: real): real
    requires y != 0.0
  {
    x / y
  }

  /** `max(lo, min(hi, x))`, the clamp idiom of the source. */
  function Clamp(lo: real, hi: real, x: real): (r: real)
    requires lo <= hi
    ensures lo <= r <= hi
    ensures lo <= x <= hi ==> r == x
  {
    MaxReal(lo, MinReal(hi, x))
  }

  /** The smallest integer that is at least `x`. */
  function Ceil(x: real): (n: int)
    ensures n as real - 1.0 < x <= n as real
  {
    -((-x).Floor)
  }

  /** Sign rules for a product. */
  lemma ProductSign(x: real, y: real)
    ensures (x >= 0.0 && y >= 0.0) || (x <= 0.0 && y <= 0.0) ==> Mul(x, y) >= 0.0
    ensures (x > 0.0 && y > 0.0) || (x < 0.0 && y < 0.0) ==> Mul(x, y) > 0.0
    ensures (x > 0.0 && y < 0.0) || (x < 0.0 && y > 0.0) ==> Mul(x, y) < 0.0
    ensures Sq(x) >= 0.0
  {
    if x > 0.0 && y < 0.0 { assert x * (-y) > 0.0; }
    if x < 0.0 && y > 0.0 { assert (-x) * y > 0.0; }
    if x < 0.0 && y < 0.0 { assert (-x) * (-y) > 0.0; }
  }

  lemma ZeroProduct(x: real, y: real)
    requires x * y == 0.0
    ensures x == 0.0 || y == 0.0
  {
    ProductSign(x, y);
  }

  lemma CastProduct(x: int, y: int)
    ensures (x * y) as real == x as real * y as real
  {
  }

  ghost predicate NoRepeats<T>(xs: seq<T>) { forall i, j :: 0 <= i < j < |xs| ==> xs[i] != xs[j] }

  lemma DistinctAppend<T>(a: seq<T>, b: seq<T>)
    requires NoRepeats(a) && NoRepeats(b) && forall x :: x in a ==> x !in b
    ensures NoRepeats(a + b)
  {
    var t := a + b;
    forall i, j | 0 <= i < j < |t| ensures t[i] != t[j] {
      if i < |a| <= j { assert a[i] in a && b[j - |a|] in b; }
    }
  }

  lemma {:induction false} SubsetCardinality<T>(a: set<T>, b: set<T>)
    requires a <= b
    ensures |a| <= |b|
    decreases |a|
  {
    if a != {} {
      var x :| x in a;
      SubsetCardinality(a - {x}, b - {x});
    }
  }

  // --- selecting from a sequence

  /** `places` are the positions, in order, of exactly the elements that satisfy `keep`. */
  ghost predicate Picks<T>(xs: seq<T>, keep: T -> bool, places: seq<nat>) {
    && (forall k :: 0 <= k < |places| ==> places[k] < |xs| && keep(xs[places[k]]))
    && (forall k, l :: 0 <= k < l < |places| ==> places[k] < places[l])
    && (forall i :: 0 <= i < |xs| && keep(xs[i]) ==> i in places)
  }

  function PickNext<T>(xs: seq<T>, keep: T -> bool, places: seq<nat>): seq<nat>
    requires xs != []
  {
    if keep(xs[|xs| - 1]) then places + [|xs| - 1] else places
  }

  lemma PicksNext<T>(xs: seq<T>, keep: T -> bool, places: seq<nat>)
    requires xs != [] && Picks(xs[..|xs| - 1], keep, places)
    ensures Picks(xs, keep, PickNext(xs, keep, places))
  {
    var before, next := xs[..|xs| - 1], PickNext(xs, keep, places);
    forall i | 0 <= i < |xs| && keep(xs[i]) ensures i in next {
      if i < |before| {
        assert before[i] == xs[i];
        var k :| 0 <= k < |places| && places[k] == i;
        assert next[k] == i;
      } else {
        assert next[|places|] == i;
      }
    }
  }

  /** Where everything is kept, the positions are all positions. */
  lemma {:induction false} PicksAll<T>(xs: seq<T>, keep: T -> bool, places: seq<nat>)
    requires Picks(xs, keep, places) && forall i :: 0 <= i < |xs| ==> keep(xs[i])
    ensures |places| == |xs| && forall i :: 0 <= i < |xs| ==> places[i] == i
  {
    forall i | 0 <= i < |xs| ensures i < |places| && places[i] == i { PicksUpTo(xs, keep, places, i); }
    if xs != [] { PicksUpTo(xs, keep, places, |xs| - 1); }
    if |places| > |xs| { PlacesGrow(places, |xs|); }
  }

  lemma {:induction false} PlacesGrow(places: seq<nat>, k: nat)
    requires k < |places| && forall i, j :: 0 <= i < j < |places| ==> places[i] < places[j]
    ensures places[k] >= k
    decreases k
  {
    if k > 0 { PlacesGrow(places, k - 1); }
  }

  lemma {:induction false} PicksUpTo<T>(xs: seq<T>, keep: T -> bool, places: seq<nat>, i: nat)
    requires Picks(xs, keep, places) && (forall j :: 0 <= j < |xs| ==> keep(xs[j])) && i < |xs|
    ensures i < |places| && places[i] == i
    decreases i
  {
    if i > 0 { PicksUpTo(xs, keep, places, i - 1); }
    assert keep(xs[i]);
    var k :| 0 <= k < |places| && places[k] == i;
    PlacesGrow(places, k);
    if k < i { PicksUpTo(xs, keep, places, k); }
  }

  /** A multiple of `b` below `b` is at most zero. */
  lemma StepBound(d: int, b: nat)
    requires b >= 1 && d * b < b
    ensures d < 1
  {
  }
}

/** Texts joined and split at colons. */
module Texts {

  predicate ColonFree(s: string) { ':' !in s }

  /** Where the first colon is, or the length when there is none. */
  function ColonAt(s: string): (i: nat)
    ensures i <= |s| && (i < |s| ==> s[i] == ':') && forall k :: 0 <= k < i ==> s[k] != ':'
  {
    if s == "" then 0 else if s[0] == ':' then 0 else 1 + ColonAt(s[1..])
  }

  lemma {:induction false} ColonAfter(a: string, x: string)
    requires ColonFree(a)
    ensures ColonAt(a + ":" + x) == |a|
  {
    var s := a + ":" + x;
    assert s[|a|] == ':';
    assert forall k :: 0 <= k < |a| ==> s[k] == a[k] && a[k] in a;
  }

  /** The text before the first colon and the text after it are determined by the whole. */
  lemma SplitUnique(a: string, x: string, b: string, y: string)
    requires ColonFree(a) && ColonFree(b) && a + ":" + x == b + ":" + y
    ensures a == b && x == y
  {
    ColonAfter(a, x);
    ColonAfter(b, y);
    assert (a + ":" + x)[..|a|] == a && (a + ":" + x)[|a| + 1..] == x;
    assert (b + ":" + y)[..|b|] == b && (b + ":" + y)[|b| + 1..] == y;
  }

  lemma CancelLeft(p: string, x: string, y: string)
    requires p + x == p + y
    ensures x == y
  {
    assert (p + x)[|p|..] == x;
    assert (p + y)[|p|..] == y;
  }

  /** `s.split(":")[-1]`. */
  function LastPart(s: string): string {
    if s == "" then "" else if s[|s| - 1] == ':' then "" else LastPart(s[..|s| - 1]) + [s[|s| - 1]]
  }

  lemma {:induction false} LastPartOf(x: string, task: string)
    requires ColonFree(task)
    ensures LastPart(x + ":" + task) == task
    decreases |task|
  {
    var s := x + ":" + task;
    if task == "" {
      assert s[|s| - 1] == ':';
    } else {
      var shorter := task[..|task| - 1];
      assert s[..|s| - 1] == x + ":" + shorter;
      assert s[|s| - 1] == task[|task| - 1] && task[|task| - 1] in task;
      LastPartOf(x, shorter);
    }
  }

  /** The text after the last colon and the text before it are determined by the whole. */
  lemma LastSplitUnique(x: string, a: string, y: string, b: string)
    requires ColonFree(a) && ColonFree(b) && x + ":" + a == y + ":" + b
    ensures a == b && x == y
  {
    LastPartOf(x, a);
    LastPartOf(y, b);
    assert (x + ":" + a)[..|x|] == x;
    assert (y + ":" + b)[..|y|] == y;
  }
}
