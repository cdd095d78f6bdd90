/** Python's stable `sorted(xs, key=key, reverse=True)`. */
module Sorting {
  import opened Basics

  ghost predicate Descending<T(!new)>(xs: seq<T>, key: T -> real) {
    forall i, j :: 0 <= i < j < |xs| ==> key(xs[i]) >= key(xs[j])
  }

  /** `x` goes behind everything that does not rank below it. */
  function Insert<T(!new)>(x: T, xs: seq<T>, key: T -> real): (r: seq<T>)
    ensures multiset(r) == multiset(xs) + multiset{x}
    ensures Descending(xs, key) ==> Descending(r, key)
    decreases |xs|, 0
  {
    if xs == [] then [x]
    else if key(xs[|xs| - 1]) >= key(x) then xs + [x]
    else
      var before, last := xs[..|xs| - 1], xs[|xs| - 1];
      InsertKeepsOrder(x, before, last, key);
      assert xs == before + [last];
      Insert(x, before, key) + [last]
  }

  /** The last element stays last when a larger one is inserted before it. */
  lemma {:induction false} InsertKeepsOrder<T(!new)>(x: T, before: seq<T>, last: T, key: T -> real)
    requires key(last) < key(x)
    ensures Descending(before + [last], key) ==> Descending(Insert(x, before, key) + [last], key)
    decreases |before|, 1
  {
    if Descending(before + [last], key) {
      var r := Insert(x, before, key);
      assert Descending(before, key) by {
        assert forall i :: 0 <= i < |before| ==> (before + [last])[i] == before[i];
      }
      forall i | 0 <= i < |r| ensures key(r[i]) >= key(last) {
        assert r[i] in multiset(r);
        if r[i] != x {
          assert r[i] in multiset(before);
          var j :| 0 <= j < |before| && before[j] == r[i];
          assert (before + [last])[j] == before[j] && (before + [last])[|before|] == last;
        }
      }
    }
  }

  function SortDescending<T(!new)>(xs: seq<T>, key: T -> real): (r: seq<T>)
    ensures multiset(r) == multiset(xs)
    ensures Descending(r, key)
    decreases |xs|
  {
    if xs == [] then [] else
      assert xs == xs[..|xs| - 1] + [xs[|xs| - 1]];
      Insert(xs[|xs| - 1], SortDescending(xs[..|xs| - 1], key), key)
  }

  lemma DescendingAt<T(!new)>(xs: seq<T>, key: T -> real, i: nat, j: nat)
    requires Descending(xs, key) && i < |xs| && j < |xs|
    ensures i <= j ==> key(xs[i]) >= key(xs[j])
  {
  }

  lemma {:induction false} NoRepeatsIsMultiplicity<T>(xs: seq<T>)
    ensures NoRepeats(xs) <==> forall x :: x in xs ==> multiset(xs)[x] == 1
    decreases |xs|
  {
    if xs != [] {
      var before, last := xs[..|xs| - 1], xs[|xs| - 1];
      assert xs == before + [last];
      NoRepeatsIsMultiplicity(before);
      if NoRepeats(xs) {
        assert last !in before;
        forall x | x in xs ensures multiset(xs)[x] == 1 {
          if x != last { assert x in before; }
        }
      }
      if forall x :: x in xs ==> multiset(xs)[x] == 1 {
        assert last in xs;
        assert last !in before;
        forall x | x in before ensures multiset(before)[x] == 1 { assert x in xs; }
      }
    }
  }

  /** A permutation of a sequence without repeats has the same elements and no repeats. */
  lemma PermutationKeeps<T>(xs: seq<T>, ys: seq<T>)
    requires multiset(xs) == multiset(ys)
    ensures forall x :: x in xs <==> x in ys
    ensures NoRepeats(xs) ==> NoRepeats(ys)
    ensures |xs| == |ys|
  {
    forall x ensures x in xs <==> x in ys {
      assert x in multiset(xs) <==> x in multiset(ys);
    }
    NoRepeatsIsMultiplicity(xs);
    NoRepeatsIsMultiplicity(ys);
    assert |multiset(xs)| == |multiset(ys)|;
  }
}
