/** Recursive normalisation before serialising, and the serialiser's framing (orchestrator/graph/checkpointer.py). */
module Normalisation {
  import opened Basics
  import opened Texts

  const STREAM_WRITER := "stream_writer"

  /** A mapping key: a string, or another object known by what `str` makes of it. */
  datatype Key = Text(text: string) | Other(shown: string) {
    function Shown(): string { if Text? then text else shown }
  }

  /**
   `Class` is a type object: callable, but kept. `Opaque` is any other object with contents, such as a
   frozenset, a deque or a dataclass instance: the function does not look inside.
   */
  datatype Value =
    | NoneValue
    | Atom(token: int)
    | Callable
    | Class(name: string)
    | Mapping(entries: seq<Entry>)
    | Tuple(items: seq<Value>)
    | List(items: seq<Value>)
    | SetOf(items: seq<Value>)
    | Opaque(parts: seq<Value>)

  datatype Entry = Entry(key: Key, value: Value)

  /** Dictionary assignment: an existing key keeps its place. */
  function Put(entries: seq<Entry>, key: Key, v: Value): seq<Entry> {
    if entries == [] then [Entry(key, v)]
    else if entries[0].key == key then [Entry(key, v)] + entries[1..]
    else [entries[0]] + Put(entries[1..], key, v)
  }

  predicate Dropped(entry: Entry) { entry.key == Text(STREAM_WRITER) || entry.value == Callable }

  function Normalize(v: Value): Value
    decreases v, 1
  {
    match v
    case Callable => NoneValue
    case Mapping(entries) => Mapping(NormalizeEntries(entries))
    case Tuple(items) => Tuple(NormalizeItems(items))
    case List(items) => List(NormalizeItems(items))
    case SetOf(items) => List(NormalizeItems(items))
    case _ => v
  }

  function NormalizeItems(items: seq<Value>): seq<Value>
    decreases items, 0
  {
    if items == [] then [] else
      var before, last := NormalizeItems(items[..|items| - 1]), items[|items| - 1];
      if last == Callable then before else before + [Normalize(last)]
  }

  function NormalizeEntries(entries: seq<Entry>): seq<Entry>
    decreases entries, 0
  {
    if entries == [] then [] else
      var before, last := NormalizeEntries(entries[..|entries| - 1]), entries[|entries| - 1];
      if Dropped(last) then before else Put(before, Text(last.key.Shown()), NormalizeValue(last))
  }

  function NormalizeValue(entry: Entry): Value
    decreases entry, 2
  {
    Normalize(entry.value)
  }

  // ---------------------------------------------------------------- what normal form means

  /** What is asked of a value beyond its shape: no stream writer, and the same inside opaque objects. */
  datatype Demand = Demand(noWriter: bool, inside: bool)

  const VISITED := Demand(false, false)
  const SETTLED := Demand(true, false)
  const PRIMITIVE := Demand(false, true)
  const NORMAL := Demand(true, true)

  predicate GoodKey(k: Key, d: Demand) { k.Text? && (d.noWriter ==> k.text != STREAM_WRITER) }

  ghost predicate DistinctKeys(entries: seq<Entry>) {
    forall i, j :: 0 <= i < j < |entries| ==> entries[i].key != entries[j].key
  }

  /** No callable and no set, string keys only and no key twice, at every depth `d` asks for. */
  ghost predicate Form(v: Value, d: Demand)
    decreases v
  {
    match v
    case Callable => false
    case SetOf(_) => false
    case Mapping(entries) =>
      (forall i :: 0 <= i < |entries| ==> GoodKey(entries[i].key, d) && Form(entries[i].value, d)) && DistinctKeys(entries)
    case Tuple(items) => forall i :: 0 <= i < |items| ==> Form(items[i], d)
    case List(items) => forall i :: 0 <= i < |items| ==> Form(items[i], d)
    case Opaque(parts) => d.inside ==> forall i :: 0 <= i < |parts| ==> Form(parts[i], d)
    case _ => true
  }

  ghost predicate FormEntries(entries: seq<Entry>, d: Demand) {
    (forall i :: 0 <= i < |entries| ==> GoodKey(entries[i].key, d) && Form(entries[i].value, d)) && DistinctKeys(entries)
  }

  ghost predicate FormItems(items: seq<Value>, d: Demand) { forall i :: 0 <= i < |items| ==> Form(items[i], d) }

  /** Entry `i` of a mapping ends up in the normalised mapping: kept, and not overwritten by a later entry. */
  predicate Survives(entries: seq<Entry>, i: nat)
    requires i < |entries|
  {
    !Dropped(entries[i]) &&
    forall j :: i < j < |entries| && !Dropped(entries[j]) ==> entries[j].key.Shown() != entries[i].key.Shown()
  }

  /**
   The input that normalises to such a form: among what survives, no key prints as the stripped one if that
   is asked, and opaque objects already have the form inside if that is asked.
   */
  ghost predicate Meets(v: Value, d: Demand)
    decreases v
  {
    match v
    case Mapping(entries) =>
      forall i :: 0 <= i < |entries| && Survives(entries, i) ==>
        (d.noWriter ==> entries[i].key.Shown() != STREAM_WRITER) && Meets(entries[i].value, d)
    case Tuple(items) => forall i :: 0 <= i < |items| ==> Meets(items[i], d)
    case List(items) => forall i :: 0 <= i < |items| ==> Meets(items[i], d)
    case SetOf(items) => forall i :: 0 <= i < |items| ==> Meets(items[i], d)
    case Opaque(parts) => d.inside ==> forall i :: 0 <= i < |parts| ==> Form(parts[i], d)
    case _ => true
  }

  ghost predicate MeetsEntries(entries: seq<Entry>, d: Demand) {
    forall i :: 0 <= i < |entries| && Survives(entries, i) ==>
      (d.noWriter ==> entries[i].key.Shown() != STREAM_WRITER) && Meets(entries[i].value, d)
  }

  // --- the entries of a normalised mapping

  ghost predicate OneOf(entries: seq<Entry>, extra: Entry, e: Entry) {
    e == extra || exists j :: 0 <= j < |entries| && entries[j] == e
  }

  /** Assigning a key leaves the other entries and adds the new one. */
  lemma {:induction false} PutEntries(entries: seq<Entry>, key: Key, v: Value)
    requires DistinctKeys(entries)
    ensures var r := Put(entries, key, v);
      && DistinctKeys(r)
      && (forall i :: 0 <= i < |r| ==> OneOf(entries, Entry(key, v), r[i]))
    decreases |entries|
  {
    if entries == [] {
    } else if entries[0].key != key {
      var rest := entries[1..];
      PutEntries(rest, key, v);
      var r := Put(rest, key, v);
      forall i | 0 <= i < |r| ensures r[i].key != entries[0].key && OneOf(entries, Entry(key, v), r[i]) {
        assert OneOf(rest, Entry(key, v), r[i]);
        if r[i] != Entry(key, v) {
          var j :| 0 <= j < |rest| && rest[j] == r[i];
          assert entries[j + 1] == rest[j];
        }
      }
      assert Put(entries, key, v) == [entries[0]] + r;
    } else {
      var r := Put(entries, key, v);
      assert r == [Entry(key, v)] + entries[1..];
      assert forall i :: 1 <= i < |entries| ==> r[i] == entries[i];
    }
  }

  /** Keys are strings and do not repeat, and no value is a callable. */
  ghost predicate Tidy(entries: seq<Entry>) {
    DistinctKeys(entries) && forall i :: 0 <= i < |entries| ==> entries[i].key.Text? && entries[i].value != Callable
  }

  lemma {:induction false} NormalizeIsNoCallable(v: Value)
    ensures Normalize(v) != Callable
  {
  }

  lemma {:induction false} NormalizedIsTidy(entries: seq<Entry>)
    ensures Tidy(NormalizeEntries(entries))
    decreases |entries|
  {
    if entries != [] {
      var before, last := entries[..|entries| - 1], entries[|entries| - 1];
      NormalizedIsTidy(before);
      if !Dropped(last) {
        var e := Entry(Text(last.key.Shown()), NormalizeValue(last));
        NormalizeIsNoCallable(last.value);
        PutEntries(NormalizeEntries(before), e.key, e.value);
        var r := NormalizeEntries(entries);
        forall i | 0 <= i < |r| ensures r[i].key.Text? && r[i].value != Callable {
          assert OneOf(NormalizeEntries(before), e, r[i]);
        }
      }
    }
  }

  /** Where entry `i` survives, it is the last one shown under its key. */
  lemma {:induction false} SurvivorIsFound(entries: seq<Entry>, i: nat)
    requires i < |entries| && Survives(entries, i)
    ensures LastShown(entries, entries[i].key.Shown()) == Some(entries[i].value)
    decreases |entries|
  {
    var before := entries[..|entries| - 1];
    if i < |before| {
      assert Survives(before, i) by {
        assert forall j :: i < j < |before| ==> before[j] == entries[j];
      }
      SurvivorIsFound(before, i);
    }
  }

  lemma {:induction false} FoundIsSurvivor(entries: seq<Entry>, k: string) returns (i: nat)
    requires LastShown(entries, k).Some?
    ensures i < |entries| && Survives(entries, i) && entries[i].key.Shown() == k && LastShown(entries, k).value == entries[i].value
    decreases |entries|
  {
    var last := entries[|entries| - 1];
    if !Dropped(last) && last.key.Shown() == k {
      i := |entries| - 1;
    } else {
      i := FoundIsSurvivor(entries[..|entries| - 1], k);
    }
  }

  /** In a mapping without repeated keys, lookup and membership agree. */
  lemma {:induction false} LookupIsMember(entries: seq<Entry>, i: nat)
    requires DistinctKeys(entries) && i < |entries|
    ensures Lookup(entries, entries[i].key) == Some(entries[i].value)
    decreases |entries|
  {
    if i > 0 { LookupIsMember(entries[1..], i - 1); }
  }

  lemma {:induction false} MemberOfLookup(entries: seq<Entry>, key: Key) returns (i: nat)
    requires Lookup(entries, key).Some?
    ensures i < |entries| && entries[i] == Entry(key, Lookup(entries, key).value)
    decreases |entries|
  {
    if entries[0].key == key {
      i := 0;
    } else {
      var j := MemberOfLookup(entries[1..], key);
      i := j + 1;
    }
  }

  /** Each surviving entry is in the normalised mapping under its shown key, with its value normalised. */
  lemma SurvivorIsKept(entries: seq<Entry>, i: nat) returns (j: nat)
    requires i < |entries| && Survives(entries, i)
    ensures var r := NormalizeEntries(entries);
      j < |r| && r[j] == Entry(Text(entries[i].key.Shown()), Normalize(entries[i].value))
  {
    SurvivorIsFound(entries, i);
    NormalizedLookup(entries, entries[i].key.Shown());
    j := MemberOfLookup(NormalizeEntries(entries), Text(entries[i].key.Shown()));
  }

  /** And each entry of the normalised mapping comes from a surviving one. */
  lemma KeptIsSurvivor(entries: seq<Entry>, j: nat) returns (i: nat)
    requires j < |NormalizeEntries(entries)|
    ensures i < |entries| && Survives(entries, i)
    ensures NormalizeEntries(entries)[j] == Entry(Text(entries[i].key.Shown()), Normalize(entries[i].value))
  {
    var r := NormalizeEntries(entries);
    NormalizedIsTidy(entries);
    LookupIsMember(r, j);
    NormalizedLookup(entries, r[j].key.text);
    i := FoundIsSurvivor(entries, r[j].key.text);
  }

  // --- which values normalise to which form

  /** For every demand: normalising yields the form exactly for the inputs that meet it. */
  lemma {:induction false} NormalizeHasFormExactlyWhen(v: Value, d: Demand)
    ensures Form(Normalize(v), d) <==> Meets(v, d)
    decreases v, 1
  {
    match v
    case Mapping(entries) => EntriesHaveFormExactlyWhen(entries, d);
    case Tuple(items) => ItemsHaveFormExactlyWhen(items, d);
    case List(items) => ItemsHaveFormExactlyWhen(items, d);
    case SetOf(items) => ItemsHaveFormExactlyWhen(items, d);
    case _ =>
  }

  lemma {:induction false} FormItemsAppend(a: seq<Value>, v: Value, d: Demand)
    ensures FormItems(a + [v], d) <==> FormItems(a, d) && Form(v, d)
  {
    if FormItems(a + [v], d) {
      assert (a + [v])[|a|] == v;
      forall i | 0 <= i < |a| ensures Form(a[i], d) { assert (a + [v])[i] == a[i]; }
    }
  }

  lemma {:induction false} ItemsHaveFormExactlyWhen(items: seq<Value>, d: Demand)
    ensures FormItems(NormalizeItems(items), d) <==> forall i :: 0 <= i < |items| ==> Meets(items[i], d)
    decreases items, 0
  {
    if items != [] {
      var before, last := items[..|items| - 1], items[|items| - 1];
      ItemsHaveFormExactlyWhen(before, d);
      NormalizeHasFormExactlyWhen(last, d);
      FormItemsAppend(NormalizeItems(before), Normalize(last), d);
      assert items == before + [last];
      assert forall i :: 0 <= i < |before| ==> items[i] == before[i];
    }
  }

  lemma {:induction false} EntryHasFormExactlyWhen(entry: Entry, d: Demand)
    ensures Form(Normalize(entry.value), d) <==> Meets(entry.value, d)
    decreases entry, 2
  {
    NormalizeHasFormExactlyWhen(entry.value, d);
  }

  lemma {:induction false} EntriesHaveFormExactlyWhen(entries: seq<Entry>, d: Demand)
    ensures FormEntries(NormalizeEntries(entries), d) <==> MeetsEntries(entries, d)
    decreases entries, 0
  {
    var r := NormalizeEntries(entries);
    NormalizedIsTidy(entries);
    if FormEntries(r, d) {
      forall i | 0 <= i < |entries| && Survives(entries, i)
        ensures (d.noWriter ==> entries[i].key.Shown() != STREAM_WRITER) && Meets(entries[i].value, d)
      {
        var j := SurvivorIsKept(entries, i);
        EntryHasFormExactlyWhen(entries[i], d);
      }
    }
    if MeetsEntries(entries, d) {
      forall j | 0 <= j < |r| ensures GoodKey(r[j].key, d) && Form(r[j].value, d) {
        var i := KeptIsSurvivor(entries, j);
        EntryHasFormExactlyWhen(entries[i], d);
      }
    }
  }

  /** Every value meets the demand that looks at nothing but the shape where the function goes. */
  lemma {:induction false} EverythingIsVisited(v: Value)
    ensures Meets(v, VISITED)
    decreases v
  {
    match v
    case Mapping(entries) => forall i | 0 <= i < |entries| ensures Meets(entries[i].value, VISITED) { EverythingIsVisited(entries[i].value); }
    case Tuple(items) => forall i | 0 <= i < |items| ensures Meets(items[i], VISITED) { EverythingIsVisited(items[i]); }
    case List(items) => forall i | 0 <= i < |items| ensures Meets(items[i], VISITED) { EverythingIsVisited(items[i]); }
    case SetOf(items) => forall i | 0 <= i < |items| ensures Meets(items[i], VISITED) { EverythingIsVisited(items[i]); }
    case _ =>
  }

  /**
   Whatever the value, where the function looks no callable and no set is left. At any depth, none is left
   exactly when every opaque object that survives holds none.
   */
  lemma {:induction false} NormalizeIsPrimitiveExactlyWhen(v: Value)
    ensures Form(Normalize(v), VISITED)
    ensures Form(Normalize(v), PRIMITIVE) <==> Meets(v, PRIMITIVE)
  {
    EverythingIsVisited(v);
    NormalizeHasFormExactlyWhen(v, VISITED);
    NormalizeHasFormExactlyWhen(v, PRIMITIVE);
  }

  /** A callable inside an opaque object is kept, at whatever depth that object stands. */
  lemma OpaqueKeepsItsCallable(items: seq<Value>)
    requires Callable in items
    ensures Normalize(List([Opaque(items)])) == List([Opaque(items)]) && !Form(List([Opaque(items)]), PRIMITIVE)
  {
    var list := [Opaque(items)];
    assert list[..|list| - 1] == [] && NormalizeItems([]) == [];
    assert NormalizeItems(list) == list;
    var i :| 0 <= i < |items| && items[i] == Callable;
    assert !Form(items[i], PRIMITIVE);
    assert !Form(list[0], PRIMITIVE);
  }

  // --- values that normalising leaves alone

  /** Normalising leaves a settled value alone. */
  lemma {:induction false} SettledIsFixed(v: Value)
    requires Form(v, SETTLED)
    ensures Normalize(v) == v
    decreases v, 1
  {
    match v
    case Mapping(entries) => SettledEntriesFixed(entries);
    case Tuple(items) => SettledItemsFixed(items);
    case List(items) => SettledItemsFixed(items);
    case _ =>
  }

  lemma {:induction false} SettledItemsFixed(items: seq<Value>)
    requires FormItems(items, SETTLED)
    ensures NormalizeItems(items) == items
    decreases items, 0
  {
    if items != [] {
      SettledItemsFixed(items[..|items| - 1]);
      SettledIsFixed(items[|items| - 1]);
      assert items == items[..|items| - 1] + [items[|items| - 1]];
    }
  }

  lemma {:induction false} SettledEntryFixed(entry: Entry)
    requires Form(entry.value, SETTLED)
    ensures NormalizeValue(entry) == entry.value
    decreases entry, 2
  {
    SettledIsFixed(entry.value);
  }

  lemma {:induction false} FormPrefix(entries: seq<Entry>, d: Demand)
    requires FormEntries(entries, d) && entries != []
    ensures var before, last := entries[..|entries| - 1], entries[|entries| - 1];
      && FormEntries(before, d) && GoodKey(last.key, d) && Form(last.value, d) && last.value != Callable
      && forall i :: 0 <= i < |before| ==> before[i].key != last.key
  {
  }

  lemma {:induction false} SettledEntriesFixed(entries: seq<Entry>)
    requires FormEntries(entries, SETTLED)
    ensures NormalizeEntries(entries) == entries
    decreases entries, 0
  {
    if entries != [] {
      var before, last := entries[..|entries| - 1], entries[|entries| - 1];
      FormPrefix(entries, SETTLED);
      SettledEntriesFixed(before);
      SettledEntryFixed(last);
      PutNew(before, last.key, last.value);
      assert entries == before + [last];
      assert Text(last.key.Shown()) == last.key;
    }
  }

  lemma {:induction false} PutNew(entries: seq<Entry>, key: Key, v: Value)
    requires forall i :: 0 <= i < |entries| ==> entries[i].key != key
    ensures Put(entries, key, v) == entries + [Entry(key, v)]
    decreases |entries|
  {
    if entries != [] {
      PutNew(entries[1..], key, v);
    }
  }

  /** The entries that are not stream writers, with their values normalised. */
  ghost function Kept(entries: seq<Entry>): seq<Entry>
    decreases entries, 0
  {
    if entries == [] then [] else
      var before, last := Kept(entries[..|entries| - 1]), entries[|entries| - 1];
      if last.key == Text(STREAM_WRITER) then before else before + [Entry(last.key, NormalizeValue(last))]
  }

  lemma {:induction false} KeptKeys(entries: seq<Entry>, key: Key)
    requires forall i :: 0 <= i < |entries| ==> entries[i].key != key
    ensures |Kept(entries)| <= |entries|
    ensures forall i :: 0 <= i < |Kept(entries)| ==> Kept(entries)[i].key != key
    decreases |entries|
  {
    if entries != [] { KeptKeys(entries[..|entries| - 1], key); }
  }

  /** Normalising entries of the visited shape drops the stream writers and nothing else. */
  lemma {:induction false} VisitedEntriesKept(entries: seq<Entry>)
    requires FormEntries(entries, VISITED)
    ensures NormalizeEntries(entries) == Kept(entries)
    decreases |entries|
  {
    if entries != [] {
      var before, last := entries[..|entries| - 1], entries[|entries| - 1];
      FormPrefix(entries, VISITED);
      VisitedEntriesKept(before);
      KeptKeys(before, last.key);
      PutNew(Kept(before), last.key, NormalizeValue(last));
    }
  }

  /** A value of the visited shape that normalising leaves alone is settled. */
  lemma {:induction false} FixedIsSettled(v: Value)
    requires Form(v, VISITED) && Normalize(v) == v
    ensures Form(v, SETTLED)
    decreases v, 1
  {
    match v
    case Mapping(entries) =>
      VisitedEntriesKept(entries);
      FixedEntriesSettled(entries);
    case Tuple(items) => FixedItemsSettled(items);
    case List(items) => FixedItemsSettled(items);
    case _ =>
  }

  lemma {:induction false} FixedItemsSettled(items: seq<Value>)
    requires FormItems(items, VISITED) && NormalizeItems(items) == items
    ensures FormItems(items, SETTLED)
    decreases items, 0
  {
    if items != [] {
      var before, last := items[..|items| - 1], items[|items| - 1];
      assert NormalizeItems(items) == NormalizeItems(before) + [Normalize(last)];
      assert items == before + [last];
      FixedItemsSettled(before);
      FixedIsSettled(last);
    }
  }

  lemma {:induction false} FixedEntrySettled(entry: Entry)
    requires Form(entry.value, VISITED) && NormalizeValue(entry) == entry.value
    ensures Form(entry.value, SETTLED)
    decreases entry, 2
  {
    FixedIsSettled(entry.value);
  }

  lemma {:induction false} KeptIsShorter(entries: seq<Entry>)
    ensures |Kept(entries)| <= |entries|
    decreases |entries|
  {
    if entries != [] { KeptIsShorter(entries[..|entries| - 1]); }
  }

  lemma {:induction false} FixedEntriesSettled(entries: seq<Entry>)
    requires FormEntries(entries, VISITED) && Kept(entries) == entries
    ensures FormEntries(entries, SETTLED)
    decreases entries, 0
  {
    if entries != [] {
      var before, last := entries[..|entries| - 1], entries[|entries| - 1];
      FormPrefix(entries, VISITED);
      KeptIsShorter(before);
      assert last.key != Text(STREAM_WRITER);
      assert Kept(before) + [Entry(last.key, NormalizeValue(last))] == before + [last];
      FixedEntriesSettled(before);
      FixedEntrySettled(last);
    }
  }

  // --- normalising twice

  /** At no depth where the function looks does a surviving key print as the stripped one. */
  ghost predicate Honest(v: Value) { Meets(v, SETTLED) }

  /** Normalising twice is normalising once, exactly for honest values. */
  lemma {:induction false} NormalizeIsIdempotentExactlyWhen(v: Value)
    ensures Normalize(Normalize(v)) == Normalize(v) <==> Honest(v)
  {
    NormalizeHasFormExactlyWhen(v, SETTLED);
    NormalizeIsPrimitiveExactlyWhen(v);
    if Honest(v) { SettledIsFixed(Normalize(v)); }
    if Normalize(Normalize(v)) == Normalize(v) { FixedIsSettled(Normalize(v)); }
  }

  /** What is stored: the saver normalises, and the serialiser normalises again. */
  function Twice(v: Value): Value { Normalize(Normalize(v)) }

  /**
   The opaque objects that survive two passes are in normal form inside. A value under a key that prints as
   the stripped one does not survive the second pass.
   */
  ghost predicate Clean(v: Value)
    decreases v
  {
    match v
    case Mapping(entries) =>
      forall i :: 0 <= i < |entries| && Survives(entries, i) && entries[i].key.Shown() != STREAM_WRITER ==> Clean(entries[i].value)
    case Tuple(items) => forall i :: 0 <= i < |items| ==> Clean(items[i])
    case List(items) => forall i :: 0 <= i < |items| ==> Clean(items[i])
    case SetOf(items) => forall i :: 0 <= i < |items| ==> Clean(items[i])
    case Opaque(parts) => FormItems(parts, NORMAL)
    case _ => true
  }

  ghost predicate CleanEntries(entries: seq<Entry>) {
    forall i :: 0 <= i < |entries| && Survives(entries, i) && entries[i].key.Shown() != STREAM_WRITER ==> Clean(entries[i].value)
  }

  lemma {:induction false} SecondPassMeetsExactlyWhen(v: Value)
    ensures Meets(Normalize(v), NORMAL) <==> Clean(v)
    decreases v, 1
  {
    match v
    case Mapping(entries) => SecondPassEntries(entries);
    case Tuple(items) => SecondPassItems(items);
    case List(items) => SecondPassItems(items);
    case SetOf(items) => SecondPassItems(items);
    case _ =>
  }

  ghost predicate MeetsItems(items: seq<Value>, d: Demand) { forall i :: 0 <= i < |items| ==> Meets(items[i], d) }

  lemma {:induction false} MeetsItemsAppend(a: seq<Value>, v: Value, d: Demand)
    ensures MeetsItems(a + [v], d) <==> MeetsItems(a, d) && Meets(v, d)
  {
    if MeetsItems(a + [v], d) {
      assert (a + [v])[|a|] == v;
      forall i | 0 <= i < |a| ensures Meets(a[i], d) { assert (a + [v])[i] == a[i]; }
    }
  }

  lemma {:induction false} SecondPassItems(items: seq<Value>)
    ensures MeetsItems(NormalizeItems(items), NORMAL) <==> CleanItems(items)
    decreases items, 0
  {
    if items != [] {
      var before, last := items[..|items| - 1], items[|items| - 1];
      SecondPassItems(before);
      SecondPassMeetsExactlyWhen(last);
      MeetsItemsAppend(NormalizeItems(before), Normalize(last), NORMAL);
      CleanItemsLast(items);
    }
  }

  ghost predicate CleanItems(items: seq<Value>) { forall i :: 0 <= i < |items| ==> Clean(items[i]) }

  lemma CleanItemsLast(items: seq<Value>)
    requires items != []
    ensures CleanItems(items) <==> CleanItems(items[..|items| - 1]) && Clean(items[|items| - 1])
  {
    var before := items[..|items| - 1];
    assert forall i :: 0 <= i < |before| ==> items[i] == before[i];
  }

  lemma {:induction false} SecondPassEntry(entry: Entry)
    ensures Meets(Normalize(entry.value), NORMAL) <==> Clean(entry.value)
    decreases entry, 2
  {
    SecondPassMeetsExactlyWhen(entry.value);
  }

  /** In a tidy mapping every entry but the stream writer survives. */
  lemma TidySurvives(entries: seq<Entry>, j: nat)
    requires Tidy(entries) && j < |entries|
    ensures Survives(entries, j) <==> entries[j].key != Text(STREAM_WRITER)
  {
    if entries[j].key != Text(STREAM_WRITER) {
      forall k | j < k < |entries| ensures entries[k].key.Shown() != entries[j].key.Shown() {
        assert entries[j].key != entries[k].key;
      }
    }
  }

  lemma {:induction false} SecondPassEntries(entries: seq<Entry>)
    ensures MeetsEntries(NormalizeEntries(entries), NORMAL) <==> CleanEntries(entries)
    decreases entries, 0
  {
    var r := NormalizeEntries(entries);
    NormalizedIsTidy(entries);
    if MeetsEntries(r, NORMAL) {
      forall i | 0 <= i < |entries| && Survives(entries, i) && entries[i].key.Shown() != STREAM_WRITER
        ensures Clean(entries[i].value)
      {
        var j := SurvivorIsKept(entries, i);
        TidySurvives(r, j);
        SecondPassEntry(entries[i]);
      }
    }
    if CleanEntries(entries) {
      forall j | 0 <= j < |r| && Survives(r, j) ensures r[j].key.Shown() != STREAM_WRITER && Meets(r[j].value, NORMAL) {
        TidySurvives(r, j);
        var i := KeptIsSurvivor(entries, j);
        SecondPassEntry(entries[i]);
      }
    }
  }

  lemma {:induction false} VisitedIsHonest(v: Value)
    requires Form(v, VISITED)
    ensures Honest(v)
    decreases v
  {
    match v
    case Mapping(entries) =>
      forall i | 0 <= i < |entries| && Survives(entries, i)
        ensures entries[i].key.Shown() != STREAM_WRITER && Meets(entries[i].value, SETTLED)
      {
        VisitedIsHonest(entries[i].value);
      }
    case Tuple(items) => forall i | 0 <= i < |items| ensures Meets(items[i], SETTLED) { VisitedIsHonest(items[i]); }
    case List(items) => forall i | 0 <= i < |items| ensures Meets(items[i], SETTLED) { VisitedIsHonest(items[i]); }
    case _ =>
  }

  /**
   Two passes always settle a value: further passes change nothing. The result is in normal form at any depth
   exactly when the opaque objects that survive are.
   */
  lemma {:induction false} TwicePassedIsNormalExactlyWhen(v: Value)
    ensures Form(Twice(v), SETTLED) && Normalize(Twice(v)) == Twice(v)
    ensures Form(Twice(v), NORMAL) <==> Clean(v)
  {
    NormalizeIsPrimitiveExactlyWhen(v);
    VisitedIsHonest(Normalize(v));
    NormalizeHasFormExactlyWhen(Normalize(v), SETTLED);
    SettledIsFixed(Twice(v));
    NormalizeHasFormExactlyWhen(Normalize(v), NORMAL);
    SecondPassMeetsExactlyWhen(v);
  }

  /** An object that prints as the stripped key slips through one pass and is dropped by the second. */
  lemma DisguisedWriterNeedsTwoPasses(token: int)
    ensures var v := Mapping([Entry(Other(STREAM_WRITER), Atom(token))]);
      !Honest(v) && Normalize(v) == Mapping([Entry(Text(STREAM_WRITER), Atom(token))]) && Twice(v) == Mapping([])
  {
    var entries := [Entry(Other(STREAM_WRITER), Atom(token))];
    var once := [Entry(Text(STREAM_WRITER), Atom(token))];
    assert entries[..|entries| - 1] == [] && once[..|once| - 1] == [];
    assert NormalizeEntries([]) == [];
    assert NormalizeEntries(entries) == Put([], Text(STREAM_WRITER), NormalizeValue(entries[0])) == once;
    assert NormalizeEntries(once) == [];
    assert Survives(entries, 0);
  }

  // ---------------------------------------------------------------- what normalising keeps

  /** Items are normalised one by one, in order, and only callables are dropped. */
  lemma {:induction false} ItemsKeepOrder(a: seq<Value>, b: seq<Value>)
    ensures NormalizeItems(a + b) == NormalizeItems(a) + NormalizeItems(b)
    decreases |b|
  {
    if b == [] {
      assert a + b == a;
    } else {
      ItemsKeepOrder(a, b[..|b| - 1]);
      assert (a + b)[..|a + b| - 1] == a + b[..|b| - 1];
    }
  }

  /** `out` holds, in order, the normalised items that are not callables. */
  ghost predicate ItemsComeThrough(items: seq<Value>, out: seq<Value>, places: seq<nat>) {
    && Picks(items, (v: Value) => !v.Callable?, places) && |out| == |places|
    && forall k :: 0 <= k < |places| ==> out[k] == Normalize(items[places[k]])
  }

  /** The items of a normalised tuple, list or set are exactly the items that are not callables, normalised, in order. */
  lemma {:induction false} NormalizedItems(items: seq<Value>) returns (places: seq<nat>)
    ensures ItemsComeThrough(items, NormalizeItems(items), places)
    decreases |items|
  {
    places := [];
    if items != [] {
      var before := NormalizedItems(items[..|items| - 1]);
      places := PickNext(items, (v: Value) => !v.Callable?, before);
      PicksNext(items, (v: Value) => !v.Callable?, before);
    }
  }

  /** What kind of value each kind becomes; everything the function does not look into stays as it is. */
  lemma NormalizedKinds(v: Value)
    ensures v.Callable? ==> Normalize(v) == NoneValue
    ensures v.NoneValue? || v.Atom? || v.Class? || v.Opaque? ==> Normalize(v) == v
    ensures v.Tuple? ==> Normalize(v).Tuple? && exists places :: ItemsComeThrough(v.items, Normalize(v).items, places)
    ensures v.List? || v.SetOf? ==> Normalize(v).List? && exists places :: ItemsComeThrough(v.items, Normalize(v).items, places)
    ensures v.Mapping? ==> Normalize(v).Mapping?
  {
    if v.Tuple? || v.List? || v.SetOf? { var places := NormalizedItems(v.items); }
  }

  /** The entry prints as `k`, and neither is its key the string that is stripped nor its value a callable. */
  predicate Stays(e: Entry, k: string) { e.key.Shown() == k && e.key != Text("stream_writer") && !e.value.Callable? }

  /** The last entry for `k` that stays is number `i`. */
  ghost predicate LastStays(entries: seq<Entry>, k: string, i: int) {
    0 <= i < |entries| && Stays(entries[i], k) && forall j :: i < j < |entries| ==> !Stays(entries[j], k)
  }

  /**
   A normalised mapping has a string key exactly when some entry for it stays, and then the normalised value
   of the last such entry.
   */
  lemma {:induction false} NormalizedEntry(entries: seq<Entry>, k: string)
    ensures match Lookup(NormalizeEntries(entries), Text(k))
      case None => forall i :: 0 <= i < |entries| ==> !Stays(entries[i], k)
      case Some(v) => exists i :: LastStays(entries, k, i) && v == Normalize(entries[i].value)
    decreases |entries|
  {
    if entries != [] {
      var before, last := entries[..|entries| - 1], entries[|entries| - 1];
      NormalizedEntry(before, k);
      LookupPut(NormalizeEntries(before), Text(last.key.Shown()), NormalizeValue(last), Text(k));
      assert forall i :: 0 <= i < |before| ==> before[i] == entries[i];
      if Stays(last, k) {
        assert LastStays(entries, k, |entries| - 1);
      } else if Lookup(NormalizeEntries(before), Text(k)).Some? {
        var i :| LastStays(before, k, i) && Lookup(NormalizeEntries(before), Text(k)).value == Normalize(before[i].value);
        assert LastStays(entries, k, i);
      }
    }
  }

  function Lookup(entries: seq<Entry>, key: Key): Option<Value> {
    if entries == [] then None
    else if entries[0].key == key then Some(entries[0].value)
    else Lookup(entries[1..], key)
  }

  /** The last entry that prints as `k` and is not dropped. */
  function LastShown(entries: seq<Entry>, k: string): Option<Value> {
    if entries == [] then None else
      var last := entries[|entries| - 1];
      if !Dropped(last) && last.key.Shown() == k then Some(last.value) else LastShown(entries[..|entries| - 1], k)
  }

  lemma {:induction false} LookupPut(entries: seq<Entry>, key: Key, v: Value, k: Key)
    ensures Lookup(Put(entries, key, v), k) == if k == key then Some(v) else Lookup(entries, k)
    decreases |entries|
  {
    if entries != [] && entries[0].key != key { LookupPut(entries[1..], key, v, k); }
  }

  /** A normalised mapping answers every string key with the last surviving value printed that way. */
  lemma {:induction false} NormalizedLookup(entries: seq<Entry>, k: string)
    ensures Lookup(NormalizeEntries(entries), Text(k))
         == match LastShown(entries, k) case None => None case Some(v) => Some(Normalize(v))
    decreases |entries|
  {
    if entries != [] {
      var before, last := entries[..|entries| - 1], entries[|entries| - 1];
      NormalizedLookup(before, k);
      LookupPut(NormalizeEntries(before), Text(last.key.Shown()), NormalizeValue(last), Text(k));
    }
  }

  // ---------------------------------------------------------------- framing

  /** Type tag, colon, payload. */
  function Frame(tag: string, payload: string): string { tag + ":" + payload }

  /** Data without a colon predates the framing and is taken as msgpack. */
  function Unframe(data: string): (string, string) {
    var i := ColonAt(data);
    if i < |data| then (data[..i], data[i + 1..]) else ("msgpack", data)
  }

  /** Data without a colon is taken whole, as msgpack. */
  lemma UnframeWithoutTag(data: string)
    requires ColonFree(data)
    ensures Unframe(data) == ("msgpack", data)
  {
  }

  /** Unframing undoes framing for every tag without a colon, whatever the payload. */
  lemma FrameRoundTrip(tag: string, payload: string)
    requires ColonFree(tag)
    ensures Unframe(Frame(tag, payload)) == (tag, payload)
  {
    ColonAfter(tag, payload);
    var s := Frame(tag, payload);
    assert s[..|tag|] == tag && s[|tag| + 1..] == payload;
  }
}

/**
 The Redis checkpoint store: string keys, prefix scans, the latest pointer, task writes and paged
 listing (orchestrator/graph/checkpointer.py). Keys do not expire here, and identifiers contain no colon.
 */
module CheckpointStore {
  import opened Basics
  import opened Texts
  import opened Sorting
  import opened Normalisation

  // ---------------------------------------------------------------- keys

  const PREFIX := "gaiaos:checkpoint:"

  /** What a key stands for. */
  datatype Address =
    | Latest(thread: string)
    | Point(thread: string, id: string)
    | Writes(thread: string, id: string, task: string)

  function Suffix(a: Address): string {
    match a
    case Latest(_) => "latest"
    case Point(_, id) => "checkpoint" + ":" + id
    case Writes(_, id, task) => "writes" + ":" + (id + ":" + task)
  }

  function Render(a: Address): string { PREFIX + (a.thread + ":" + Suffix(a)) }

  predicate Plain(a: Address) {
    match a
    case Latest(t) => ColonFree(t)
    case Point(t, id) => ColonFree(t) && ColonFree(id)
    case Writes(t, id, task) => ColonFree(t) && ColonFree(id) && ColonFree(task)
  }

  /** `writes:{id}:` with everything before it: the pattern of the writes scan without its star. */
  function WritesPrefix(thread: string, id: string): string { PREFIX + (thread + ":" + ("writes" + ":" + (id + ":" + ""))) }

  function PointPrefix(thread: string): string { PREFIX + (thread + ":" + ("checkpoint" + ":" + "")) }

  lemma SuffixSplit(a: Address)
    ensures Suffix(a) == match a
      case Latest(_) => "latest"
      case Point(_, id) => "checkpoint" + ":" + id
      case Writes(_, id, task) => "writes" + ":" + (id + ":" + task)
    ensures a.Latest? <==> ColonFree(Suffix(a))
  {
    if a.Point? { assert Suffix(a)[|"checkpoint"|] == ':'; }
    if a.Writes? { assert Suffix(a)[|"writes"|] == ':'; }
  }

  /** Different plain addresses have different keys. */
  lemma RenderInjective(a: Address, b: Address)
    requires Plain(a) && Plain(b) && Render(a) == Render(b)
    ensures a == b
  {
    CancelLeft(PREFIX, a.thread + ":" + Suffix(a), b.thread + ":" + Suffix(b));
    SplitUnique(a.thread, Suffix(a), b.thread, Suffix(b));
    SameSuffix(a, b);
  }

  lemma SameSuffix(a: Address, b: Address)
    requires Plain(a) && Plain(b) && a.thread == b.thread && Suffix(a) == Suffix(b)
    ensures a == b
  {
    SuffixSplit(a);
    SuffixSplit(b);
    if !a.Latest? {
      var (headA, restA) := if a.Point? then ("checkpoint", a.id) else ("writes", a.id + ":" + a.task);
      var (headB, restB) := if b.Point? then ("checkpoint", b.id) else ("writes", b.id + ":" + b.task);
      SplitUnique(headA, restA, headB, restB);
      assert "checkpoint"[0] == 'c' && "writes"[0] == 'w';
      if a.Writes? { SplitUnique(a.id, a.task, b.id, b.task); }
    }
  }

  lemma WritesSuffix(a: Address, id: string, rest: string)
    requires Plain(a) && ColonFree(id) && Suffix(a) == "writes" + ":" + (id + ":" + rest)
    ensures a.Writes? && a.id == id && a.task == rest
  {
    if a.Point? { SplitUnique("checkpoint", a.id, "writes", id + ":" + rest); }
    if a.Writes? {
      SplitUnique("writes", a.id + ":" + a.task, "writes", id + ":" + rest);
      SplitUnique(a.id, a.task, id, rest);
    }
  }

  lemma WritesKey(thread: string, id: string, task: string)
    ensures Render(Writes(thread, id, task)) == WritesPrefix(thread, id) + task
  {
    JoinLast(PREFIX, thread, "writes", id, task);
  }

  lemma JoinLast(p: string, t: string, w: string, id: string, task: string)
    ensures p + (t + ":" + (w + ":" + (id + ":" + task))) == p + (t + ":" + (w + ":" + (id + ":" + ""))) + task
  {
  }

  /** The writes scan of a checkpoint matches only the keys of its tasks. */
  lemma WritesScan(a: Address, thread: string, id: string)
    requires Plain(a) && ColonFree(thread) && ColonFree(id) && WritesPrefix(thread, id) <= Render(a)
    ensures a.Writes? && a.thread == thread && a.id == id
  {
    var p := WritesPrefix(thread, id);
    var rest := Render(a)[|p|..];
    assert Render(a) == p + rest;
    WritesKey(thread, id, rest);
    var suffix := Suffix(Writes(thread, id, rest));
    CancelLeft(PREFIX, a.thread + ":" + Suffix(a), thread + ":" + suffix);
    SplitUnique(a.thread, Suffix(a), thread, suffix);
    WritesSuffix(a, id, rest);
  }

  lemma PointSuffix(a: Address, rest: string)
    requires Plain(a) && Suffix(a) == "checkpoint" + ":" + rest
    ensures a.Point? && a.id == rest
  {
    if a.Point? { SplitUnique("checkpoint", a.id, "checkpoint", rest); }
    if a.Writes? { SplitUnique("writes", a.id + ":" + a.task, "checkpoint", rest); }
  }

  lemma PointKey(thread: string, id: string)
    ensures Render(Point(thread, id)) == PointPrefix(thread) + id
  {
  }

  /** The listing scan of a thread matches exactly the keys of its checkpoints. */
  lemma PointScan(a: Address, thread: string)
    requires Plain(a) && ColonFree(thread) && PointPrefix(thread) <= Render(a)
    ensures a == Point(thread, Render(a)[|PointPrefix(thread)|..])
  {
    var p := PointPrefix(thread);
    var rest := Render(a)[|p|..];
    assert Render(a) == p + rest;
    PointKey(thread, rest);
    assert Suffix(Point(thread, rest)) == "checkpoint" + ":" + rest;
    CancelLeft(PREFIX, a.thread + ":" + Suffix(a), thread + ":" + ("checkpoint" + ":" + rest));
    SplitUnique(a.thread, Suffix(a), thread, "checkpoint" + ":" + rest);
    PointSuffix(a, rest);
  }

  lemma TaskOfKey(thread: string, id: string, task: string)
    requires ColonFree(task)
    ensures LastPart(Render(Writes(thread, id, task))) == task
  {
    LastColon(PREFIX, thread, "writes", id, task);
    LastPartOf(PREFIX + (thread + ":" + ("writes" + ":" + id)), task);
  }

  lemma LastColon(p: string, t: string, w: string, id: string, task: string)
    ensures p + (t + ":" + (w + ":" + (id + ":" + task))) == p + (t + ":" + (w + ":" + id)) + ":" + task
  {
  }

  // ---------------------------------------------------------------- contents

  type Batch = seq<(string, Value)>

  datatype Blob =
    | Ref(id: string)
    | Saved(checkpoint: Value, metadata: Value, parent: Value)
    | Stored(writes: Batch)

  /** `callable(val)`: here type objects count as callable too. */
  predicate Calls(v: Value) { v.Callable? || v.Class? }

  /** The writes that are kept, as they are stored. */
  function KeptWrites(writes: Batch): Batch {
    if writes == [] then [] else
      var before, last := KeptWrites(writes[..|writes| - 1]), writes[|writes| - 1];
      if last.0 == STREAM_WRITER || Calls(last.1) then before else before + [(last.0, Twice(last.1))]
  }

  /** A write that is meant to be stored: not the stream writer, and neither a callable nor a type object. */
  predicate Ordinary(w: (string, Value)) { w.0 != "stream_writer" && !w.1.Callable? && !w.1.Class? }

  /** `out` holds, in order, the ordinary writes of `ws`, each under its channel and passed twice. */
  ghost predicate Comes(ws: Batch, out: Batch, places: seq<nat>) {
    && Picks(ws, (w: (string, Value)) => Ordinary(w), places) && |out| == |places|
    && forall k :: 0 <= k < |places| ==> out[k] == (ws[places[k]].0, Twice(ws[places[k]].1))
  }

  ghost predicate ComesBack(ws: Batch, out: Batch) { exists places :: Comes(ws, out, places) }

  lemma {:induction false} KeptComesBack(ws: Batch) returns (places: seq<nat>)
    ensures Comes(ws, KeptWrites(ws), places)
    decreases |ws|
  {
    places := [];
    if ws != [] {
      var before := KeptComesBack(ws[..|ws| - 1]);
      places := PickNext(ws, (w: (string, Value)) => Ordinary(w), before);
      PicksNext(ws, (w: (string, Value)) => Ordinary(w), before);
    }
  }

  /** A batch of ordinary writes comes back whole. */
  lemma WholeBatchComesBack(ws: Batch, out: Batch)
    requires ComesBack(ws, out) && forall i :: 0 <= i < |ws| ==> Ordinary(ws[i])
    ensures |out| == |ws| && forall i :: 0 <= i < |ws| ==> out[i] == (ws[i].0, Twice(ws[i].1))
  {
    var places :| Comes(ws, out, places);
    PicksAll(ws, (w: (string, Value)) => Ordinary(w), places);
  }

  function NormalizeBatch(writes: Batch): Batch {
    seq(|writes|, i requires 0 <= i < |writes| => (writes[i].0, Normalize(writes[i].1)))
  }

  /** The serialiser normalises whatever it is given. */
  function Dump(b: Blob): Blob {
    match b
    case Saved(c, m, p) => Saved(Normalize(c), Normalize(m), Normalize(p))
    case Stored(writes) => Stored(NormalizeBatch(writes))
    case Ref(_) => b
  }

  lemma BatchGrows(writes: Batch, w: (string, Value))
    ensures NormalizeBatch(NormalizeBatch(writes + [w])) == NormalizeBatch(NormalizeBatch(writes)) + [(w.0, Twice(w.1))]
  {
  }

  /** The filter of `aput_writes`. */
  method FilterWrites(writes: Batch) returns (filtered: Batch)
    ensures NormalizeBatch(NormalizeBatch(filtered)) == KeptWrites(writes)
  {
    filtered := [];
    for i := 0 to |writes|
      invariant NormalizeBatch(NormalizeBatch(filtered)) == KeptWrites(writes[..i])
    {
      assert writes[..i + 1][..i] == writes[..i];
      if writes[i].0 != STREAM_WRITER && !Calls(writes[i].1) {
        BatchGrows(filtered, writes[i]);
        filtered := filtered + [writes[i]];
      }
    }
    assert writes[..|writes|] == writes;
  }

  datatype Snapshot = Snapshot(checkpoint: Value, metadata: Value, parent: Value, pending: seq<(string, string, Value)>)

  function Tag(task: string, writes: Batch): seq<(string, string, Value)> {
    seq(|writes|, i requires 0 <= i < |writes| => (task, writes[i].0, writes[i].1))
  }

  /** The pending writes of one task, in order. */
  function OfTask(pending: seq<(string, string, Value)>, task: string): Batch {
    if pending == [] then [] else
      var before, last := OfTask(pending[..|pending| - 1], task), pending[|pending| - 1];
      if last.0 == task then before + [(last.1, last.2)] else before
  }

  lemma {:induction false} OfTaskAppend(a: seq<(string, string, Value)>, b: seq<(string, string, Value)>, task: string)
    ensures OfTask(a + b, task) == OfTask(a, task) + OfTask(b, task)
    decreases |b|
  {
    if b == [] {
      assert a + b == a;
    } else {
      OfTaskAppend(a, b[..|b| - 1], task);
      assert (a + b)[..|a + b| - 1] == a + b[..|b| - 1];
    }
  }

  lemma {:induction false} OfTaskTag(task: string, writes: Batch, t: string)
    ensures OfTask(Tag(task, writes), t) == if t == task then writes else []
    decreases |writes|
  {
    if writes != [] {
      OfTaskTag(task, writes[..|writes| - 1], t);
      assert Tag(task, writes)[..|writes| - 1] == Tag(task, writes[..|writes| - 1]);
      assert writes == writes[..|writes| - 1] + [writes[|writes| - 1]];
    }
  }

  /** The abstract store, by address. */
  type Model = map<Address, Blob>

  function BatchOf(m: Model, a: Address): Batch { if a in m && m[a].Stored? then m[a].writes else [] }

  /** Every key is that of a plain address of the model and holds the same contents. */
  ghost predicate Represents(redis: map<string, Blob>, m: Model) {
    && (forall a :: a in m ==> Plain(a) && Render(a) in redis && redis[Render(a)] == m[a])
    && (forall key :: key in redis ==> exists a :: a in m && Render(a) == key)
    && (forall a :: a in m ==> (a.Latest? <==> m[a].Ref?) && (a.Point? <==> m[a].Saved?))
  }

  lemma RepresentsUpdate(redis: map<string, Blob>, m: Model, a: Address, b: Blob)
    requires Represents(redis, m) && Plain(a) && (a.Latest? <==> b.Ref?) && (a.Point? <==> b.Saved?)
    ensures Represents(redis[Render(a) := b], m[a := b])
  {
    var redis', m' := redis[Render(a) := b], m[a := b];
    forall a' | a' in m' ensures Plain(a') && Render(a') in redis' && redis'[Render(a')] == m'[a'] {
      if a' != a && Render(a') == Render(a) { RenderInjective(a', a); }
    }
    forall key | key in redis' ensures exists a' :: a' in m' && Render(a') == key {
      if key == Render(a) {
        assert a in m';
      } else {
        var a' :| a' in m && Render(a') == key;
        assert a' in m';
      }
    }
  }

  lemma RepresentsPut(redis: map<string, Blob>, m: Model, thread: string, id: string, b: Blob)
    requires Represents(redis, m) && ColonFree(thread) && ColonFree(id) && b.Saved?
    ensures Represents(redis[Render(Point(thread, id)) := b][Render(Latest(thread)) := Ref(id)],
                       m[Point(thread, id) := b][Latest(thread) := Ref(id)])
  {
    RepresentsUpdate(redis, m, Point(thread, id), b);
    RepresentsUpdate(redis[Render(Point(thread, id)) := b], m[Point(thread, id) := b], Latest(thread), Ref(id));
  }

  lemma RepresentsLookup(redis: map<string, Blob>, m: Model, a: Address)
    requires Represents(redis, m) && Plain(a)
    ensures Render(a) in redis <==> a in m
  {
    if Render(a) in redis {
      var a' :| a' in m && Render(a') == Render(a);
      RenderInjective(a', a);
    }
  }

  /** The pending writes hold the batches of the tasks whose keys are done, and nothing else. */
  ghost predicate Collected(m: Model, thread: string, id: string, pending: seq<(string, string, Value)>, todo: set<string>) {
    forall task :: OfTask(pending, task)
      == if ColonFree(task) && Render(Writes(thread, id, task)) !in todo then BatchOf(m, Writes(thread, id, task)) else []
  }

  lemma NothingCollected(redis: map<string, Blob>, m: Model, thread: string, id: string, todo: set<string>)
    requires Represents(redis, m) && ColonFree(thread) && ColonFree(id)
    requires forall key :: key in todo <==> key in redis && WritesPrefix(thread, id) <= key
    ensures Collected(m, thread, id, [], todo)
  {
    forall task | ColonFree(task) && Render(Writes(thread, id, task)) !in todo
      ensures BatchOf(m, Writes(thread, id, task)) == []
    {
      var a := Writes(thread, id, task);
      WritesKey(thread, id, task);
      RepresentsLookup(redis, m, a);
    }
  }

  lemma CollectOne(m: Model, thread: string, id: string, pending: seq<(string, string, Value)>,
                   todo: set<string>, task: string)
    requires Collected(m, thread, id, pending, todo) && ColonFree(thread) && ColonFree(id) && ColonFree(task)
    requires Render(Writes(thread, id, task)) in todo
    ensures var a := Writes(thread, id, task);
      Collected(m, thread, id, pending + Tag(task, BatchOf(m, a)), todo - {Render(a)})
  {
    var a := Writes(thread, id, task);
    var ws := BatchOf(m, a);
    forall t ensures OfTask(pending + Tag(task, ws), t)
      == if ColonFree(t) && Render(Writes(thread, id, t)) !in todo - {Render(a)} then BatchOf(m, Writes(thread, id, t)) else []
    {
      OfTaskAppend(pending, Tag(task, ws), t);
      OfTaskTag(task, ws, t);
      if ColonFree(t) && Render(Writes(thread, id, t)) == Render(a) { RenderInjective(Writes(thread, id, t), a); }
    }
  }

  class Saver {
    var redis: map<string, Blob>
    ghost var model: Model

    ghost predicate Valid()
      reads this
    {
      Represents(redis, model)
    }

    constructor ()
      ensures Valid() && model == map[]
    {
      redis := map[];
      model := map[];
    }

    /** `aput`; `ok` is false where it raises. */
    method Put(thread: string, id: string, checkpoint: Value, metadata: Value, config: Value) returns (ok: bool)
      requires Valid() && ColonFree(thread) && ColonFree(id)
      modifies this
      ensures Valid() && (ok <==> thread != "")
      ensures model == if ok
        then old(model)[Point(thread, id) := Saved(Twice(checkpoint), Twice(metadata), Twice(config))]
                       [Latest(thread) := Ref(id)]
        else old(model)
    {
      if thread == "" {
        return false;
      }
      var data := Saved(Normalize(checkpoint), Normalize(metadata), Normalize(config));
      var serialized := Dump(data);
      RepresentsPut(redis, model, thread, id, serialized);
      redis := redis[Render(Point(thread, id)) := serialized];
      redis := redis[Render(Latest(thread)) := Ref(id)];
      model := model[Point(thread, id) := serialized][Latest(thread) := Ref(id)];
      return true;
    }

    /** `aput_writes`; `ok` is false where it raises. */
    method PutWrites(thread: string, id: string, task: string, writes: Batch) returns (ok: bool)
      requires Valid() && ColonFree(thread) && ColonFree(id) && ColonFree(task)
      modifies this
      ensures Valid() && (ok <==> thread != "" && id != "")
      ensures model == if ok then old(model)[Writes(thread, id, task) := Stored(KeptWrites(writes))] else old(model)
      ensures ok ==> ComesBack(writes, BatchOf(model, Writes(thread, id, task)))
    {
      if thread == "" || id == "" {
        return false;
      }
      var filtered := FilterWrites(writes);
      ghost var places := KeptComesBack(writes);
      var serialized := Dump(Stored(NormalizeBatch(filtered)));
      RepresentsUpdate(redis, model, Writes(thread, id, task), serialized);
      redis := redis[Render(Writes(thread, id, task)) := serialized];
      model := model[Writes(thread, id, task) := serialized];
      return true;
    }

    /** The writes loop of `aget_tuple`, over the keys in any order. */
    method PendingWrites(thread: string, id: string) returns (pending: seq<(string, string, Value)>)
      requires Valid() && ColonFree(thread) && ColonFree(id)
      ensures Collected(model, thread, id, pending, {})
    {
      pending := [];
      var todo := set key | key in redis && WritesPrefix(thread, id) <= key;
      NothingCollected(redis, model, thread, id, todo);
      while todo != {}
        invariant forall key :: key in todo ==> key in redis && WritesPrefix(thread, id) <= key
        invariant Collected(model, thread, id, pending, todo)
        decreases |todo|
      {
        var key :| key in todo;
        ghost var a :| a in model && Render(a) == key;
        WritesScan(a, thread, id);
        TaskOfKey(thread, id, a.task);
        CollectOne(model, thread, id, pending, todo, a.task);
        pending := pending + Tag(LastPart(key), redis[key].writes);
        todo := todo - {key};
      }
    }

    /** `aget_tuple`; an empty `id` asks for the latest checkpoint. */
    method GetTuple(thread: string, id: string) returns (r: Option<Snapshot>)
      requires Valid() && ColonFree(thread) && ColonFree(id)
      requires forall t :: Latest(t) in model ==> ColonFree(model[Latest(t)].id)
      ensures var wanted := if id != "" then id else if Latest(thread) in model then model[Latest(thread)].id else "";
        && (r.Some? <==> thread != "" && wanted != "" && Point(thread, wanted) in model)
        && (r.Some? ==>
              && Saved(r.value.checkpoint, r.value.metadata, r.value.parent) == model[Point(thread, wanted)]
              && forall task :: OfTask(r.value.pending, task)
                   == if ColonFree(task) then BatchOf(model, Writes(thread, wanted, task)) else [])
    {
      if thread == "" {
        return None;
      }
      var wanted := id;
      RepresentsLookup(redis, model, Latest(thread));
      if wanted == "" {
        var key := Render(Latest(thread));
        if key !in redis || redis[key].id == "" {
          return None;
        }
        wanted := redis[key].id;
      }
      RepresentsLookup(redis, model, Point(thread, wanted));
      var key := Render(Point(thread, wanted));
      if key !in redis {
        return None;
      }
      var data := redis[key];
      var pending := PendingWrites(thread, wanted);
      return Some(Snapshot(data.checkpoint, data.metadata, data.parent, pending));
    }

    /** The gathering loop of `alist`, over the keys in any order. */
    method Gather(thread: string, tsOf: Value -> real) returns (items: seq<Item>)
      requires Valid() && ColonFree(thread)
      ensures Lists(model, thread, tsOf, items, {})
    {
      items := [];
      var todo := set key | key in redis && PointPrefix(thread) <= key;
      NothingListed(redis, model, thread, tsOf, todo);
      while todo != {}
        invariant forall key :: key in todo ==> key in redis && PointPrefix(thread) <= key
        invariant Lists(model, thread, tsOf, items, todo)
        decreases |todo|
      {
        var key :| key in todo;
        ghost var a :| a in model && Render(a) == key;
        PointScan(a, thread);
        var id := key[|PointPrefix(thread)|..];
        var data := redis[key];
        var pending := PendingWrites(thread, id);
        var item := Item(id, tsOf(data.checkpoint), Snapshot(data.checkpoint, data.metadata, data.parent, pending));
        ListOne(model, thread, tsOf, items, todo, item);
        items := items + [item];
        todo := todo - {key};
      }
    }

    /**
     `alist` for a thread: one page of `sorted`, which holds each of the thread's checkpoints exactly
     once, newest first. The identifier is read off the key.
     */
    method List(thread: string, tsOf: Value -> real, cursor: string, limit: nat)
      returns (page: seq<Item>, ghost sorted: seq<Item>)
      requires Valid() && ColonFree(thread)
      ensures thread == "" ==> page == []
      ensures thread != "" ==> page == Take(After(sorted, cursor), limit)
      ensures thread != "" ==> Lists(model, thread, tsOf, sorted, {}) && NewestFirst(sorted)
    {
      if thread == "" {
        return [], [];
      }
      var items := Gather(thread, tsOf);
      var tuples := SortDescending(items, (c: Item) => c.ts);
      SortKeepsListing(model, thread, tsOf, items);
      sorted := tuples;
      page := Page(tuples, cursor, limit);
    }
  }

  ghost predicate ListsItem(m: Model, thread: string, tsOf: Value -> real, item: Item) {
    var a := Point(thread, item.id);
    && a in m && m[a] == Saved(item.contents.checkpoint, item.contents.metadata, item.contents.parent)
    && item.ts == tsOf(item.contents.checkpoint)
    && Collected(m, thread, item.id, item.contents.pending, {})
  }

  ghost predicate HasId(items: seq<Item>, id: string) { exists i :: 0 <= i < |items| && items[i].id == id }

  /** The items are the thread's checkpoints whose keys are done, each once, with contents, timestamp and pending writes. */
  ghost predicate Lists(m: Model, thread: string, tsOf: Value -> real, items: seq<Item>, todo: set<string>) {
    && DistinctIds(items)
    && (forall i :: 0 <= i < |items| ==>
          ListsItem(m, thread, tsOf, items[i]) && Render(Point(thread, items[i].id)) !in todo)
    && (forall id :: Point(thread, id) in m && Render(Point(thread, id)) !in todo ==> HasId(items, id))
  }

  lemma NothingListed(redis: map<string, Blob>, m: Model, thread: string, tsOf: Value -> real, todo: set<string>)
    requires Represents(redis, m)
    requires forall key :: key in todo <==> key in redis && PointPrefix(thread) <= key
    ensures Lists(m, thread, tsOf, [], todo)
  {
    forall id | Point(thread, id) in m ensures Render(Point(thread, id)) in todo {
      PointKey(thread, id);
    }
  }

  lemma ListOne(m: Model, thread: string, tsOf: Value -> real, items: seq<Item>,
                todo: set<string>, item: Item)
    requires (forall a :: a in m ==> Plain(a)) && Lists(m, thread, tsOf, items, todo)
    requires ListsItem(m, thread, tsOf, item) && Render(Point(thread, item.id)) in todo
    ensures Lists(m, thread, tsOf, items + [item], todo - {Render(Point(thread, item.id))})
  {
    var key := Render(Point(thread, item.id));
    var more := items + [item];
    NewIdIsDistinct(m, thread, tsOf, items, todo, item);
    forall i | 0 <= i < |more| ensures ListsItem(m, thread, tsOf, more[i]) && Render(Point(thread, more[i].id)) !in todo - {key} {
      ListOneAt(m, thread, tsOf, items, todo, item, i);
    }
    forall id | Point(thread, id) in m && Render(Point(thread, id)) !in todo - {key} ensures HasId(more, id) {
      ListedStill(m, thread, tsOf, items, todo, item, id);
    }
  }

  lemma NewIdIsDistinct(m: Model, thread: string, tsOf: Value -> real, items: seq<Item>,
                        todo: set<string>, item: Item)
    requires Lists(m, thread, tsOf, items, todo) && Render(Point(thread, item.id)) in todo
    ensures DistinctIds(items + [item])
  {
    var more := items + [item];
    forall i | 0 <= i < |items| ensures more[i] == items[i] && items[i].id != item.id {
      assert Render(Point(thread, items[i].id)) !in todo;
    }
  }

  lemma ListOneAt(m: Model, thread: string, tsOf: Value -> real, items: seq<Item>,
                  todo: set<string>, item: Item, i: nat)
    requires Lists(m, thread, tsOf, items, todo) && ListsItem(m, thread, tsOf, item) && i <= |items|
    ensures var more := items + [item];
      ListsItem(m, thread, tsOf, more[i]) && Render(Point(thread, more[i].id)) !in todo - {Render(Point(thread, item.id))}
  {
    if i < |items| { assert ListsItem(m, thread, tsOf, items[i]); }
  }

  lemma ListedStill(m: Model, thread: string, tsOf: Value -> real, items: seq<Item>,
                    todo: set<string>, item: Item, id: string)
    requires Lists(m, thread, tsOf, items, todo) && Point(thread, id) in m && Plain(Point(thread, id))
    requires Plain(Point(thread, item.id)) && Render(Point(thread, id)) !in todo - {Render(Point(thread, item.id))}
    ensures HasId(items + [item], id)
  {
    var more := items + [item];
    if Render(Point(thread, id)) == Render(Point(thread, item.id)) {
      RenderInjective(Point(thread, id), Point(thread, item.id));
      assert more[|items|].id == id;
    } else {
      assert HasId(items, id);
      var i :| 0 <= i < |items| && items[i].id == id;
      assert more[i].id == id;
    }
  }

  ghost predicate NewestFirst(items: seq<Item>) {
    forall i, j :: 0 <= i < j < |items| ==> items[i].ts >= items[j].ts
  }

  lemma SortKeepsListing(m: Model, thread: string, tsOf: Value -> real, items: seq<Item>)
    requires Lists(m, thread, tsOf, items, {})
    ensures var sorted := SortDescending(items, (c: Item) => c.ts);
      Lists(m, thread, tsOf, sorted, {}) && NewestFirst(sorted)
  {
    var key := (c: Item) => c.ts;
    var sorted := SortDescending(items, key);
    SortKeepsIds(items, sorted);
    PermutationKeeps(items, sorted);
    SameItemsSameListing(m, thread, tsOf, items, sorted);
    forall i, j | 0 <= i < j < |sorted| ensures sorted[i].ts >= sorted[j].ts {
      DescendingAt(sorted, key, i, j);
    }
  }

  lemma SameItemsSameListing(m: Model, thread: string, tsOf: Value -> real, items: seq<Item>, sorted: seq<Item>)
    requires Lists(m, thread, tsOf, items, {}) && DistinctIds(sorted) && forall x :: x in items <==> x in sorted
    ensures Lists(m, thread, tsOf, sorted, {})
  {
    forall i | 0 <= i < |sorted| ensures ListsItem(m, thread, tsOf, sorted[i]) {
      assert sorted[i] in sorted;
      var j :| 0 <= j < |items| && items[j] == sorted[i];
      assert ListsItem(m, thread, tsOf, items[j]);
    }
    forall id | Point(thread, id) in m ensures HasId(sorted, id) {
      assert HasId(items, id);
      var j :| 0 <= j < |items| && items[j].id == id;
      assert items[j] in items;
      var i :| 0 <= i < |sorted| && sorted[i] == items[j];
      assert sorted[i].id == id;
    }
  }

  // ---------------------------------------------------------------- histories

  datatype Op =
    | DoPut(thread: string, id: string, checkpoint: Value, metadata: Value, config: Value)
    | DoWrites(thread: string, id: string, task: string, writes: Batch)

  /** The effect of one operation on the model, as `Put` and `PutWrites` promise it. */
  function Apply(m: Model, op: Op): Model {
    match op
    case DoPut(t, id, c, md, cfg) =>
      if t == "" then m
      else m[Point(t, id) := Saved(Twice(c), Twice(md), Twice(cfg))][Latest(t) := Ref(id)]
    case DoWrites(t, id, task, ws) =>
      if t == "" || id == "" then m else m[Writes(t, id, task) := Stored(KeptWrites(ws))]
  }

  function Replay(ops: seq<Op>): Model {
    if ops == [] then map[] else Apply(Replay(ops[..|ops| - 1]), ops[|ops| - 1])
  }

  /** The last put into a thread. */
  function LastPut(ops: seq<Op>, thread: string): Option<Op> {
    if ops == [] then None else
      var last := ops[|ops| - 1];
      if last.DoPut? && last.thread == thread then Some(last) else LastPut(ops[..|ops| - 1], thread)
  }

  /** The last batch a task wrote for a checkpoint; empty when there was none. */
  function LastBatch(ops: seq<Op>, thread: string, id: string, task: string): Batch {
    if ops == [] then [] else
      var last := ops[|ops| - 1];
      if last.DoWrites? && last.thread == thread && last.id == id && last.task == task
      then last.writes
      else LastBatch(ops[..|ops| - 1], thread, id, task)
  }

  /** The last put of one checkpoint. */
  function LastPutOf(ops: seq<Op>, thread: string, id: string): Option<Op> {
    if ops == [] then None else
      var last := ops[|ops| - 1];
      if last.DoPut? && last.thread == thread && last.id == id then Some(last) else LastPutOf(ops[..|ops| - 1], thread, id)
  }

  /** The checkpoint a reader means: the one it names, or the thread's last put. */
  function Meant(ops: seq<Op>, thread: string, id: string): Option<Op> {
    if id == "" then LastPut(ops, thread) else LastPutOf(ops, thread, id)
  }

  /** What the store holds of a put. */
  function StoredPut(p: Op): Blob
    requires p.DoPut?
  {
    Saved(Twice(p.checkpoint), Twice(p.metadata), Twice(p.config))
  }

  lemma {:induction false} LastPutIsDoPut(ops: seq<Op>, thread: string, id: string)
    ensures LastPut(ops, thread).Some? ==>
      var p := LastPut(ops, thread).value; p.DoPut? && p.thread == thread && p in ops && LastPutOf(ops, thread, p.id) == Some(p)
    ensures LastPutOf(ops, thread, id).Some? ==>
      var p := LastPutOf(ops, thread, id).value; p.DoPut? && p.thread == thread && p.id == id && p in ops
    decreases |ops|
  {
    if ops != [] { LastPutIsDoPut(ops[..|ops| - 1], thread, id); }
  }

  lemma {:induction false} PointerIsRemembered(ops: seq<Op>, thread: string)
    requires thread != ""
    ensures Latest(thread) in Replay(ops) <==> LastPut(ops, thread).Some?
    ensures LastPut(ops, thread).Some? ==> Replay(ops)[Latest(thread)] == Ref(LastPut(ops, thread).value.id)
    decreases |ops|
  {
    if ops != [] { PointerIsRemembered(ops[..|ops| - 1], thread); }
  }

  lemma {:induction false} PointIsRemembered(ops: seq<Op>, thread: string, id: string)
    requires thread != ""
    ensures Point(thread, id) in Replay(ops) <==> LastPutOf(ops, thread, id).Some?
    ensures LastPutOf(ops, thread, id).Some? ==>
      LastPutOf(ops, thread, id).value.DoPut? && Replay(ops)[Point(thread, id)] == StoredPut(LastPutOf(ops, thread, id).value)
    decreases |ops|
  {
    if ops != [] { PointIsRemembered(ops[..|ops| - 1], thread, id); }
  }

  lemma {:induction false} BatchIsRemembered(ops: seq<Op>, thread: string, id: string, task: string)
    requires thread != "" && id != ""
    ensures ComesBack(LastBatch(ops, thread, id, task), BatchOf(Replay(ops), Writes(thread, id, task)))
    decreases |ops|
  {
    if ops == [] {
      assert Comes([], [], []);
    } else {
      BatchIsRemembered(ops[..|ops| - 1], thread, id, task);
      ApplyOnBatch(Replay(ops[..|ops| - 1]), ops[|ops| - 1], thread, id, task);
    }
  }

  /** One operation replaces a task's batch or leaves it alone. */
  lemma ApplyOnBatch(m: Model, op: Op, thread: string, id: string, task: string)
    requires thread != "" && id != ""
    ensures var batch := BatchOf(Apply(m, op), Writes(thread, id, task));
      if op.DoWrites? && op.thread == thread && op.id == id && op.task == task
      then ComesBack(op.writes, batch) else batch == BatchOf(m, Writes(thread, id, task))
  {
    if op.DoWrites? { var places := KeptComesBack(op.writes); }
  }

  /**
   After any history, a thread's latest pointer names the checkpoint of its last put, each checkpoint is
   stored as it was last put, settled, and each task's stored writes are its last batch.
   */
  lemma {:induction false} HistoryIsRemembered(ops: seq<Op>, thread: string, id: string, task: string)
    requires thread != "" && id != ""
    ensures var m := Replay(ops);
      && (Latest(thread) in m <==> LastPut(ops, thread).Some?)
      && (LastPut(ops, thread).Some? ==> m[Latest(thread)] == Ref(LastPut(ops, thread).value.id))
      && (Point(thread, id) in m <==> LastPutOf(ops, thread, id).Some?)
      && (LastPutOf(ops, thread, id).Some? ==>
            var p := LastPutOf(ops, thread, id).value;
            && p.DoPut? && m[Point(thread, id)] == Saved(Twice(p.checkpoint), Twice(p.metadata), Twice(p.config))
            && Form(m[Point(thread, id)].checkpoint, SETTLED)
            && (Form(m[Point(thread, id)].checkpoint, NORMAL) <==> Clean(p.checkpoint)))
      && ComesBack(LastBatch(ops, thread, id, task), BatchOf(m, Writes(thread, id, task)))
  {
    PointerIsRemembered(ops, thread);
    PointIsRemembered(ops, thread, id);
    BatchIsRemembered(ops, thread, id, task);
    if LastPutOf(ops, thread, id).Some? { TwicePassedIsNormalExactlyWhen(LastPutOf(ops, thread, id).value.checkpoint); }
  }

  /** A saver after a history of operations. */
  method Perform(ops: seq<Op>) returns (saver: Saver)
    requires forall i :: 0 <= i < |ops| ==> Admissible(ops[i])
    ensures fresh(saver) && saver.Valid() && saver.model == Replay(ops)
  {
    saver := new Saver();
    for i := 0 to |ops|
      invariant fresh(saver) && saver.Valid() && saver.model == Replay(ops[..i])
    {
      assert Admissible(ops[i]);
      assert ops[..i + 1][..i] == ops[..i];
      match ops[i] {
        case DoPut(t, id, c, md, cfg) =>
          var ok := saver.Put(t, id, c, md, cfg);
        case DoWrites(t, id, task, ws) =>
          var ok := saver.PutWrites(t, id, task, ws);
      }
    }
    assert ops[..|ops|] == ops;
  }

  lemma {:induction false} PointersAreColonFree(ops: seq<Op>, thread: string)
    requires forall i :: 0 <= i < |ops| ==> Admissible(ops[i])
    ensures Latest(thread) in Replay(ops) ==>
      var b := Replay(ops)[Latest(thread)]; b.Ref? && ColonFree(b.id) && b.id != ""
    decreases |ops|
  {
    if ops != [] {
      PointersAreColonFree(ops[..|ops| - 1], thread);
      assert Admissible(ops[|ops| - 1]);
    }
  }

  /**
   Reading a checkpoint, or without a name the latest one, after any history of successful operations:
   it is found exactly when it was put, as it was last put, settled, with exactly the last write
   batch of each task.
   */
  method ReadBack(ops: seq<Op>, thread: string, id: string) returns (r: Option<Snapshot>)
    requires thread != "" && ColonFree(thread) && ColonFree(id)
    requires forall i :: 0 <= i < |ops| ==> Admissible(ops[i])
    ensures r.Some? <==> Meant(ops, thread, id).Some?
    ensures r.Some? ==>
      var p := Meant(ops, thread, id).value;
      && p.DoPut? && r.value.checkpoint == Twice(p.checkpoint)
      && r.value.metadata == Twice(p.metadata) && r.value.parent == Twice(p.config)
      && Form(r.value.checkpoint, SETTLED) && (Form(r.value.checkpoint, NORMAL) <==> Clean(p.checkpoint))
      && (r.value.checkpoint == Normalize(p.checkpoint) <==> Honest(p.checkpoint))
      && (forall task :: ColonFree(task) ==> ComesBack(LastBatch(ops, thread, p.id, task), OfTask(r.value.pending, task)))
      && (forall task :: !ColonFree(task) ==> OfTask(r.value.pending, task) == [])
  {
    var saver := Perform(ops);
    forall t | Latest(t) in saver.model ensures saver.model[Latest(t)].Ref? && ColonFree(saver.model[Latest(t)].id) {
      PointersAreColonFree(ops, t);
    }
    PointersAreColonFree(ops, thread);
    r := saver.GetTuple(thread, id);
    PointerIsRemembered(ops, thread);
    LastPutIsDoPut(ops, thread, id);
    ghost var wanted := if id != "" then id else if LastPut(ops, thread).Some? then LastPut(ops, thread).value.id else "";
    PointIsRemembered(ops, thread, wanted);
    if r.Some? {
      var p := Meant(ops, thread, id).value;
      TwicePassedIsNormalExactlyWhen(p.checkpoint);
      NormalizeIsIdempotentExactlyWhen(p.checkpoint);
      forall task | ColonFree(task) ensures ComesBack(LastBatch(ops, thread, p.id, task), OfTask(r.value.pending, task)) {
        BatchIsRemembered(ops, thread, p.id, task);
      }
    }
  }

  /** Colon-free, non-empty identifiers. */
  predicate Admissible(op: Op) {
    op.thread != "" && ColonFree(op.thread) && op.id != "" && ColonFree(op.id) && (op.DoWrites? ==> ColonFree(op.task))
  }

  // ---------------------------------------------------------------- paged listing

  datatype Item = Item(id: string, ts: real, contents: Snapshot)

  /** What follows the item with this identifier. */
  function Behind(items: seq<Item>, id: string): seq<Item> {
    if items == [] then []
    else if items[0].id == id then items[1..]
    else Behind(items[1..], id)
  }

  /** What follows the cursor; an empty cursor is none. */
  function After(items: seq<Item>, cursor: string): seq<Item> {
    if cursor == "" then items else Behind(items, cursor)
  }

  function Take(items: seq<Item>, limit: nat): seq<Item> {
    if limit == 0 || |items| <= limit then items else items[..limit]
  }

  lemma {:induction false} BehindNext(items: seq<Item>, id: string, i: nat)
    requires i < |items|
    ensures Behind(items[i..], id) == if items[i].id == id then items[i + 1..] else Behind(items[i + 1..], id)
  {
    assert items[i..][1..] == items[i + 1..];
  }

  lemma TakeGrows(page: seq<Item>, item: Item, rest: seq<Item>, limit: nat)
    requires limit == 0 || |page| < limit
    ensures limit != 0 && |page| + 1 >= limit ==> Take(page + ([item] + rest), limit) == page + [item]
    ensures page + ([item] + rest) == (page + [item]) + rest
  {
  }

  /** The final loop of `alist` over the sorted tuples, with its counter and flag; limit 0 means no limit. */
  method Page(items: seq<Item>, cursor: string, limit: nat) returns (page: seq<Item>)
    ensures page == Take(After(items, cursor), limit)
    ensures limit == 0 ==> page == After(items, cursor)
    ensures limit > 0 ==> |page| <= limit && page <= After(items, cursor)
  {
    page := [];
    var count := 0;
    var found := cursor == "";
    assert items[0..] == items;
    for i := 0 to |items|
      invariant count == |page|
      invariant !found ==> page == [] && cursor != "" && After(items, cursor) == Behind(items[i..], cursor)
      invariant found ==> (limit == 0 || count < limit) && After(items, cursor) == page + items[i..]
    {
      if !found {
        BehindNext(items, cursor, i);
        if items[i].id == cursor { found := true; }
        continue;
      }
      assert items[i..] == [items[i]] + items[i + 1..];
      TakeGrows(page, items[i], items[i + 1..], limit);
      page := page + [items[i]];
      count := count + 1;
      if limit != 0 && count >= limit {
        return;
      }
    }
    assert items[|items|..] == [];
  }

  ghost predicate DistinctIds(items: seq<Item>) {
    forall i, j :: 0 <= i < j < |items| ==> items[i].id != items[j].id
  }

  lemma {:induction false} BehindIndex(items: seq<Item>, k: nat)
    requires DistinctIds(items) && k < |items|
    ensures Behind(items, items[k].id) == items[k + 1..]
    decreases k
  {
    if k > 0 {
      BehindIndex(items[1..], k - 1);
      assert items[1..][k - 1] == items[k];
    }
  }

  /** Where the page that starts at `k` ends. */
  function PageEnd(items: seq<Item>, limit: nat, k: nat): (next: nat)
    requires limit >= 1 && k < |items|
    ensures k < next <= |items| && Take(items[k..], limit) == items[k..next]
  {
    if k + limit < |items| then k + limit else |items|
  }

  /** No page from `k` on ends with an empty identifier. */
  predicate EndsWell(items: seq<Item>, limit: nat, k: nat)
    requires limit >= 1 && k <= |items|
    decreases |items| - k
  {
    k == |items| || (items[PageEnd(items, limit, k) - 1].id != "" && EndsWell(items, limit, PageEnd(items, limit, k)))
  }

  lemma {:induction false} BadEnd(items: seq<Item>, limit: nat, k: nat)
    requires limit >= 1 && k < |items| && !EndsWell(items, limit, k)
    ensures var next := PageEnd(items, limit, k); items[next - 1].id == "" || (next < |items| && !EndsWell(items, limit, next))
  {
  }

  lemma CursorAt(items: seq<Item>, k: nat)
    requires DistinctIds(items) && k < |items| && items[k].id != ""
    ensures After(items, items[k].id) == items[k + 1..]
  {
    BehindIndex(items, k);
  }

  /** What has come out of the pages up to `k`, when none of them ends badly and when some page does. */
  ghost predicate Turned(items: seq<Item>, limit: nat, k: nat, pages: nat, seen: seq<Item>)
    requires limit >= 1 && k <= |items|
  {
    if EndsWell(items, limit, 0) then seen == items[..k] && EndsWell(items, limit, k) && k >= pages
    else |seen| >= pages && k < |items| && !EndsWell(items, limit, k)
  }

  /** The client stands at position `k`, where its cursor leads. */
  ghost predicate Reading(items: seq<Item>, limit: nat, cursor: string, k: nat, pages: nat, seen: seq<Item>)
    requires limit >= 1 && k <= |items|
  {
    After(items, cursor) == items[k..] && Turned(items, limit, k, pages, seen)
  }

  lemma TurnOne(items: seq<Item>, limit: nat, cursor: string, k: nat, pages: nat, seen: seq<Item>, page: seq<Item>)
    returns (k': nat)
    requires limit >= 1 && k <= |items| && DistinctIds(items) && Reading(items, limit, cursor, k, pages, seen)
    requires page == Take(After(items, cursor), limit) && page != []
    ensures k' <= |items| && Reading(items, limit, page[|page| - 1].id, k', pages + 1, seen + page)
  {
    var next := PageEnd(items, limit, k);
    assert page == items[k..next];
    if items[next - 1].id == "" {
      k' := 0;
      assert items[0..] == items;
    } else {
      k' := next;
      CursorAt(items, next - 1);
    }
    PageTurned(items, limit, k, pages, seen);
  }

  lemma PageTurned(items: seq<Item>, limit: nat, k: nat, pages: nat, seen: seq<Item>)
    requires limit >= 1 && k < |items| && Turned(items, limit, k, pages, seen)
    ensures var next := PageEnd(items, limit, k); var k' := if items[next - 1].id == "" then 0 else next;
      Turned(items, limit, k', pages + 1, seen + items[k..next])
  {
    if !EndsWell(items, limit, k) { BadEnd(items, limit, k); }
  }

  lemma {:induction false} TurnedAll(items: seq<Item>, limit: nat, cursor: string, k: nat, pages: nat, seen: seq<Item>)
    requires limit >= 1 && k <= |items| && Reading(items, limit, cursor, k, pages, seen) && Take(After(items, cursor), limit) == []
    ensures EndsWell(items, limit, 0) && seen == items
  {
    assert k == |items|;
    assert items[..k] == items;
  }

  /**
   A client that turns at most `n` pages of one listing, each with the last item of the one before as its
   cursor. If no page ends with an empty identifier, enough pages are the whole listing in order and a further
   one is empty, so that every item is seen once; if some page does, that cursor starts over and the pages
   never stop.
   */
  method TurnPages(items: seq<Item>, limit: nat, n: nat) returns (seen: seq<Item>)
    requires limit >= 1 && DistinctIds(items)
    ensures EndsWell(items, limit, 0) && n >= |items| ==> seen == items
    ensures !EndsWell(items, limit, 0) ==> |seen| >= n
  {
    seen := [];
    var cursor := "";
    ghost var k: nat := 0;
    assert items[0..] == items;
    for pages := 0 to n
      invariant k <= |items| && Reading(items, limit, cursor, k, pages, seen)
    {
      var page := Page(items, cursor, limit);
      if page == [] {
        TurnedAll(items, limit, cursor, k, pages, seen);
        return;
      }
      k := TurnOne(items, limit, cursor, k, pages, seen, page);
      seen := seen + page;
      cursor := page[|page| - 1].id;
    }
  }

  // ---------------------------------------------------------------- paging against the store

  /** What identifies an item and orders it. */
  datatype Head = Head(id: string, ts: real)

  ghost function Heads(items: seq<Item>): (hs: seq<Head>)
    ensures |hs| == |items| && forall i :: 0 <= i < |items| ==> hs[i] == Head(items[i].id, items[i].ts)
  {
    seq(|items|, i requires 0 <= i < |items| => Head(items[i].id, items[i].ts))
  }

  ghost predicate StrictlyNewestFirst(hs: seq<Head>) {
    forall i, j :: 0 <= i < j < |hs| ==> hs[i].ts > hs[j].ts
  }

  /** Two strictly ordered listings of the same heads are equal. */
  lemma {:induction false} StrictOrderIsUnique(a: seq<Head>, b: seq<Head>)
    requires StrictlyNewestFirst(a) && StrictlyNewestFirst(b) && forall x :: x in a <==> x in b
    ensures a == b
    decreases |a|
  {
    assert b == [] || b[0] in b;
    if a != [] {
      assert a[0] in b && b[0] in a;
      assert a[0] == b[0];
      forall x ensures x in a[1..] <==> x in b[1..] { TailMembers(a, x); TailMembers(b, x); }
      StrictOrderIsUnique(a[1..], b[1..]);
      assert a == [a[0]] + a[1..] && b == [b[0]] + b[1..];
    }
  }

  lemma TailMembers(a: seq<Head>, x: Head)
    requires a != [] && StrictlyNewestFirst(a)
    ensures x in a[1..] <==> x in a && x != a[0]
  {
    assert a == [a[0]] + a[1..];
  }

  /** Checkpoint `h.id` of the thread has timestamp `h.ts`. */
  ghost predicate IsHead(m: Model, thread: string, tsOf: Value -> real, h: Head) {
    Point(thread, h.id) in m && m[Point(thread, h.id)].Saved? && h.ts == tsOf(m[Point(thread, h.id)].checkpoint)
  }

  ghost predicate DistinctTimes(m: Model, thread: string, tsOf: Value -> real) {
    forall x, y :: IsHead(m, thread, tsOf, x) && IsHead(m, thread, tsOf, y) && x.ts == y.ts ==> x == y
  }

  lemma ListedHeads(m: Model, thread: string, tsOf: Value -> real, items: seq<Item>, h: Head)
    requires Lists(m, thread, tsOf, items, {})
    ensures h in Heads(items) <==> IsHead(m, thread, tsOf, h)
  {
    if h in Heads(items) {
      var i :| 0 <= i < |items| && Heads(items)[i] == h;
      assert ListsItem(m, thread, tsOf, items[i]);
    }
    if IsHead(m, thread, tsOf, h) {
      assert HasId(items, h.id);
      var i :| 0 <= i < |items| && items[i].id == h.id;
      assert ListsItem(m, thread, tsOf, items[i]);
      assert Heads(items)[i] == h;
    }
  }

  /** A listing's heads, newest first and each once. */
  ghost predicate IsListing(m: Model, thread: string, tsOf: Value -> real, hs: seq<Head>) {
    && (forall i, j :: 0 <= i < j < |hs| ==> hs[i].id != hs[j].id && hs[i].ts >= hs[j].ts)
    && (forall h :: h in hs <==> IsHead(m, thread, tsOf, h))
  }

  lemma ListedHeadsAreListing(m: Model, thread: string, tsOf: Value -> real, items: seq<Item>)
    requires Lists(m, thread, tsOf, items, {}) && NewestFirst(items)
    ensures IsListing(m, thread, tsOf, Heads(items))
  {
    forall h ensures h in Heads(items) <==> IsHead(m, thread, tsOf, h) { ListedHeads(m, thread, tsOf, items, h); }
    var hs := Heads(items);
    forall i, j | 0 <= i < j < |hs| ensures hs[i].id != hs[j].id && hs[i].ts >= hs[j].ts {
      assert items[i].id != items[j].id && items[i].ts >= items[j].ts;
    }
  }

  // --- listings while newer checkpoints arrive

  /** `m` holds the thread's checkpoints of `start` as they were, and besides them only newer ones. */
  ghost predicate Grown(start: Model, m: Model, thread: string, tsOf: Value -> real) {
    && (forall id :: Point(thread, id) in start ==> Point(thread, id) in m && m[Point(thread, id)] == start[Point(thread, id)])
    && (forall h, o :: IsHead(m, thread, tsOf, h) && Point(thread, h.id) !in start && IsHead(start, thread, tsOf, o) ==> h.ts > o.ts)
  }

  lemma {:induction false} FirstOld(start: Model, thread: string, hs: seq<Head>) returns (p: nat)
    ensures p <= |hs| && forall i :: 0 <= i < p ==> Point(thread, hs[i].id) !in start
    ensures p < |hs| ==> Point(thread, hs[p].id) in start
    decreases |hs|
  {
    if hs == [] || Point(thread, hs[0].id) in start {
      p := 0;
    } else {
      p := FirstOld(start, thread, hs[1..]);
      assert forall i :: 1 <= i < |hs| ==> hs[i] == hs[1..][i - 1];
      p := p + 1;
    }
  }

  /** From the first old head on, all heads are old ones. */
  lemma OldHeadsAreLast(start: Model, m: Model, thread: string, tsOf: Value -> real, hs: seq<Head>, p: nat, i: nat)
    requires Grown(start, m, thread, tsOf) && IsListing(m, thread, tsOf, hs) && p <= i < |hs| && Point(thread, hs[p].id) in start
    ensures IsHead(start, thread, tsOf, hs[i])
  {
    assert hs[i] in hs && hs[p] in hs;
    assert IsHead(start, thread, tsOf, hs[p]);
  }

  lemma OldHeadIsInSuffix(start: Model, m: Model, thread: string, tsOf: Value -> real, hs: seq<Head>, p: nat, h: Head)
    requires Grown(start, m, thread, tsOf) && IsListing(m, thread, tsOf, hs) && p <= |hs| && IsHead(start, thread, tsOf, h)
    requires forall i :: 0 <= i < p ==> Point(thread, hs[i].id) !in start
    ensures h in hs[p..]
  {
    assert IsHead(m, thread, tsOf, h);
    var i :| 0 <= i < |hs| && hs[i] == h;
    assert hs[p..][i - p] == h;
  }

  /** The listing of the start is the end of the listing of every store grown from it. */
  lemma OldListingIsSuffix(start: Model, m: Model, thread: string, tsOf: Value -> real, earlier: seq<Head>, hs: seq<Head>)
    requires DistinctTimes(start, thread, tsOf) && Grown(start, m, thread, tsOf)
    requires IsListing(start, thread, tsOf, earlier) && IsListing(m, thread, tsOf, hs)
    ensures |earlier| <= |hs| && hs[|hs| - |earlier|..] == earlier
  {
    var p := FirstOld(start, thread, hs);
    var rest := hs[p..];
    forall i | 0 <= i < |rest| ensures IsHead(start, thread, tsOf, rest[i]) {
      OldHeadsAreLast(start, m, thread, tsOf, hs, p, p + i);
    }
    forall h ensures h in rest <==> h in earlier {
      if IsHead(start, thread, tsOf, h) { OldHeadIsInSuffix(start, m, thread, tsOf, hs, p, h); }
    }
    StrictListing(start, thread, tsOf, rest);
    StrictListing(start, thread, tsOf, earlier);
    StrictOrderIsUnique(rest, earlier);
  }

  lemma StrictListing(m: Model, thread: string, tsOf: Value -> real, hs: seq<Head>)
    requires DistinctTimes(m, thread, tsOf) && forall h :: h in hs ==> IsHead(m, thread, tsOf, h)
    requires forall i, j :: 0 <= i < j < |hs| ==> hs[i].id != hs[j].id && hs[i].ts >= hs[j].ts
    ensures StrictlyNewestFirst(hs)
  {
    forall i, j | 0 <= i < j < |hs| ensures hs[i].ts > hs[j].ts {
      assert hs[i] in hs && hs[j] in hs;
      assert hs[i].id != hs[j].id;
    }
  }

  /** With distinct timestamps every call lists the same checkpoints in the same order. */
  lemma ListingIsUnique(m: Model, thread: string, tsOf: Value -> real, a: seq<Item>, b: seq<Item>)
    requires DistinctTimes(m, thread, tsOf)
    requires Lists(m, thread, tsOf, a, {}) && NewestFirst(a) && Lists(m, thread, tsOf, b, {}) && NewestFirst(b)
    ensures Heads(a) == Heads(b)
  {
    ListedHeadsAreListing(m, thread, tsOf, a);
    ListedHeadsAreListing(m, thread, tsOf, b);
    StrictListing(m, thread, tsOf, Heads(a));
    StrictListing(m, thread, tsOf, Heads(b));
    StrictOrderIsUnique(Heads(a), Heads(b));
  }

  // --- operations between the calls

  /** The operation leaves the checkpoints of the start alone; what it adds to the thread is newer than all of them. */
  ghost predicate AddsNewer(start: Model, thread: string, tsOf: Value -> real, op: Op) {
    && Admissible(op)
    && (op.DoPut? && op.thread == thread ==>
          && Point(thread, op.id) !in start
          && forall o :: IsHead(start, thread, tsOf, o) ==> tsOf(Twice(op.checkpoint)) > o.ts)
  }

  lemma ApplyKeepsGrown(start: Model, m: Model, thread: string, tsOf: Value -> real, op: Op)
    requires Grown(start, m, thread, tsOf) && AddsNewer(start, thread, tsOf, op)
    ensures Grown(start, Apply(m, op), thread, tsOf)
  {
    var m' := Apply(m, op);
    forall h, o | IsHead(m', thread, tsOf, h) && Point(thread, h.id) !in start && IsHead(start, thread, tsOf, o)
      ensures h.ts > o.ts
    {
      if IsHead(m, thread, tsOf, h) { assert h.ts > o.ts; }
    }
  }

  /** One round of operations by others. */
  method PerformRound(saver: Saver, ghost start: Model, thread: string, tsOf: Value -> real, ops: seq<Op>)
    requires saver.Valid() && Grown(start, saver.model, thread, tsOf)
    requires forall i :: 0 <= i < |ops| ==> AddsNewer(start, thread, tsOf, ops[i])
    modifies saver
    ensures saver.Valid() && Grown(start, saver.model, thread, tsOf)
    ensures ops == [] ==> saver.model == old(saver.model)
  {
    for i := 0 to |ops|
      invariant saver.Valid() && Grown(start, saver.model, thread, tsOf)
      invariant i == 0 ==> saver.model == old(saver.model)
    {
      assert AddsNewer(start, thread, tsOf, ops[i]);
      ApplyKeepsGrown(start, saver.model, thread, tsOf, ops[i]);
      match ops[i] {
        case DoPut(t, id, c, md, cfg) =>
          var ok := saver.Put(t, id, c, md, cfg);
        case DoWrites(t, id, task, ws) =>
          var ok := saver.PutWrites(t, id, task, ws);
      }
    }
  }

  // --- the client

  /** The item shows a checkpoint of the start as it was. */
  ghost predicate ShowsStart(start: Model, thread: string, item: Item) {
    Point(thread, item.id) in start
    && start[Point(thread, item.id)] == Saved(item.contents.checkpoint, item.contents.metadata, item.contents.parent)
  }

  /** `visited` are the first items of the listing with these heads, and `rest` are the others as a call lists them. */
  ghost predicate Underway(start: Model, thread: string, heads: seq<Head>, visited: seq<Item>, rest: seq<Item>) {
    && Heads(visited) + Heads(rest) == heads
    && (forall i :: 0 <= i < |visited| ==> ShowsStart(start, thread, visited[i]))
    && (forall i :: 0 <= i < |rest| ==> ShowsStart(start, thread, rest[i]))
  }

  /** The latest listing has, behind the last visited item, exactly the heads that are left. */
  lemma RestOfHeads(start: Model, m: Model, thread: string, tsOf: Value -> real, heads: seq<Head>,
                    visited: seq<Head>, left: seq<Head>, now: seq<Item>) returns (k: nat)
    requires DistinctTimes(start, thread, tsOf) && Grown(start, m, thread, tsOf) && IsListing(start, thread, tsOf, heads)
    requires visited + left == heads && visited != [] && visited[|visited| - 1].id != ""
    requires IsListing(m, thread, tsOf, Heads(now)) && DistinctIds(now)
    ensures k < |now| && After(now, visited[|visited| - 1].id) == now[k + 1..] && Heads(now)[k + 1..] == left
  {
    k := PlaceInHeads(start, m, thread, tsOf, heads, visited, left, Heads(now));
    CursorAt(now, k);
  }

  lemma PlaceInHeads(start: Model, m: Model, thread: string, tsOf: Value -> real, heads: seq<Head>,
                     visited: seq<Head>, left: seq<Head>, hs: seq<Head>) returns (k: nat)
    requires DistinctTimes(start, thread, tsOf) && Grown(start, m, thread, tsOf) && IsListing(start, thread, tsOf, heads)
    requires visited + left == heads && visited != [] && IsListing(m, thread, tsOf, hs)
    ensures k < |hs| && hs[k] == visited[|visited| - 1] && hs[k + 1..] == left
  {
    OldListingIsSuffix(start, m, thread, tsOf, heads, hs);
    k := |hs| - |heads| + |visited| - 1;
    SuffixAt(hs, heads, visited, left);
  }

  /** A listed item whose head belongs to the start shows the start. */
  lemma ListedShowsStart(start: Model, m: Model, thread: string, tsOf: Value -> real, item: Item)
    requires Grown(start, m, thread, tsOf) && ListsItem(m, thread, tsOf, item)
    requires IsHead(start, thread, tsOf, Head(item.id, item.ts))
    ensures ShowsStart(start, thread, item)
  {
  }

  /** What the latest call lists behind the last visited item. */
  lemma RestOfListing(start: Model, m: Model, thread: string, tsOf: Value -> real, heads: seq<Head>,
                      visited: seq<Item>, left: seq<Head>, now: seq<Item>) returns (rest: seq<Item>)
    requires DistinctTimes(start, thread, tsOf) && Grown(start, m, thread, tsOf) && IsListing(start, thread, tsOf, heads)
    requires Heads(visited) + left == heads && visited != [] && visited[|visited| - 1].id != ""
    requires Lists(m, thread, tsOf, now, {}) && NewestFirst(now)
    ensures rest == After(now, visited[|visited| - 1].id) && Heads(rest) == left && AllListed(m, thread, tsOf, rest)
  {
    ListedHeadsAreListing(m, thread, tsOf, now);
    var k := RestOfHeads(start, m, thread, tsOf, heads, Heads(visited), left, now);
    rest := now[k + 1..];
    SuffixIsListed(m, thread, tsOf, now, k + 1);
  }

  lemma SuffixIsListed(m: Model, thread: string, tsOf: Value -> real, now: seq<Item>, k: nat)
    requires Lists(m, thread, tsOf, now, {}) && k <= |now|
    ensures AllListed(m, thread, tsOf, now[k..]) && Heads(now[k..]) == Heads(now)[k..]
  {
    forall i | 0 <= i < |now| - k ensures ListsItem(m, thread, tsOf, now[k..][i]) { assert ListsItem(m, thread, tsOf, now[k + i]); }
  }

  lemma RestShowsStart(start: Model, m: Model, thread: string, tsOf: Value -> real, heads: seq<Head>,
                       visited: seq<Head>, rest: seq<Item>)
    requires Grown(start, m, thread, tsOf) && IsListing(start, thread, tsOf, heads)
    requires visited + Heads(rest) == heads && AllListed(m, thread, tsOf, rest)
    ensures forall i :: 0 <= i < |rest| ==> ShowsStart(start, thread, rest[i])
  {
    forall i | 0 <= i < |rest| ensures ShowsStart(start, thread, rest[i]) {
      assert ListsItem(m, thread, tsOf, rest[i]);
      assert heads[|visited| + i] == Heads(rest)[i] && heads[|visited| + i] in heads;
      ListedShowsStart(start, m, thread, tsOf, rest[i]);
    }
  }

  lemma SuffixAt(all: seq<Head>, heads: seq<Head>, a: seq<Head>, b: seq<Head>)
    requires |heads| <= |all| && all[|all| - |heads|..] == heads && a + b == heads && a != []
    ensures all[|all| - |heads| + |a| - 1] == a[|a| - 1] && all[|all| - |heads| + |a|..] == b
  {
    assert heads[|a| - 1] == a[|a| - 1];
    assert heads[|a|..] == b;
  }

  /** Moving the next page from the rest to the visited items. */
  lemma MovePage(start: Model, thread: string, heads: seq<Head>, visited: seq<Item>, rest: seq<Item>, limit: nat)
    requires Underway(start, thread, heads, visited, rest) && limit >= 1 && rest != []
    ensures var page := Take(rest, limit);
      page != [] && Underway(start, thread, heads, visited + page, rest[|page|..]) && page == rest[..|page|]
  {
    var page := Take(rest, limit);
    var left := rest[|page|..];
    assert rest == page + left;
    MoveHeads(visited, page, left);
  }

  lemma MoveHeads(a: seq<Item>, b: seq<Item>, c: seq<Item>)
    ensures Heads(a + b) + Heads(c) == Heads(a) + Heads(b + c)
  {
    HeadsAppend(a, b);
    HeadsAppend(b, c);
  }

  lemma HeadsAppend(a: seq<Item>, b: seq<Item>)
    ensures Heads(a + b) == Heads(a) + Heads(b)
  {
  }

  ghost predicate AllListed(m: Model, thread: string, tsOf: Value -> real, items: seq<Item>) {
    forall i :: 0 <= i < |items| ==> ListsItem(m, thread, tsOf, items[i])
  }

  /** Items with the heads of a listing, each listed, are a listing. */
  lemma HeadsMakeListing(m: Model, thread: string, tsOf: Value -> real, items: seq<Item>)
    requires IsListing(m, thread, tsOf, Heads(items)) && AllListed(m, thread, tsOf, items)
    requires forall id :: Point(thread, id) in m ==> m[Point(thread, id)].Saved?
    ensures Lists(m, thread, tsOf, items, {}) && NewestFirst(items)
  {
    var hs := Heads(items);
    forall i, j | 0 <= i < j < |items| ensures items[i].id != items[j].id && items[i].ts >= items[j].ts {
      assert hs[i].id != hs[j].id && hs[i].ts >= hs[j].ts;
    }
    forall id | Point(thread, id) in m ensures HasId(items, id) {
      var h := Head(id, tsOf(m[Point(thread, id)].checkpoint));
      assert IsHead(m, thread, tsOf, h);
      var i :| 0 <= i < |hs| && hs[i] == h;
      assert items[i].id == id;
    }
  }

  /** What a client has seen when it is done. */
  ghost predicate SawEverything(start: Model, thread: string, tsOf: Value -> real, visited: seq<Item>) {
    IsListing(start, thread, tsOf, Heads(visited)) && forall i :: 0 <= i < |visited| ==> ShowsStart(start, thread, visited[i])
  }

  /** The client's situation between two calls; `quiet` means that nobody has written. */
  ghost predicate Walking(start: Model, m: Model, thread: string, tsOf: Value -> real, heads: seq<Head>,
                          visited: seq<Item>, rest: seq<Item>, quiet: bool)
  {
    && Grown(start, m, thread, tsOf) && Underway(start, thread, heads, visited, rest)
    && (quiet ==> m == start && AllListed(start, thread, tsOf, visited) && AllListed(start, thread, tsOf, rest))
  }

  lemma WalkOn(start: Model, m: Model, thread: string, tsOf: Value -> real, heads: seq<Head>,
               visited: seq<Item>, rest: seq<Item>, quiet: bool, limit: nat)
    requires Walking(start, m, thread, tsOf, heads, visited, rest, quiet) && limit >= 1 && rest != []
    ensures var page := Take(rest, limit);
      page != [] && page == rest[..|page|] && Walking(start, m, thread, tsOf, heads, visited + page, rest[|page|..], quiet)
  {
    MovePage(start, thread, heads, visited, rest, limit);
  }

  lemma WalkEnds(start: Model, m: Model, thread: string, tsOf: Value -> real, heads: seq<Head>, visited: seq<Item>, quiet: bool)
    requires Walking(start, m, thread, tsOf, heads, visited, [], quiet) && IsListing(start, thread, tsOf, heads)
    requires forall id :: Point(thread, id) in start ==> start[Point(thread, id)].Saved?
    ensures SawEverything(start, thread, tsOf, visited)
    ensures quiet ==> Lists(start, thread, tsOf, visited, {}) && NewestFirst(visited)
  {
    assert Heads(visited) == heads;
    if quiet { HeadsMakeListing(start, thread, tsOf, visited); }
  }

  /** What others do between two calls, if anything. */
  ghost predicate RoundsAddNewer(start: Model, thread: string, tsOf: Value -> real, rounds: seq<seq<Op>>) {
    forall r, i :: 0 <= r < |rounds| && 0 <= i < |rounds[r]| ==> AddsNewer(start, thread, tsOf, rounds[r][i])
  }

  /**
   A client that asks for pages, each with the last item it has as the cursor. Every call scans and sorts
   anew, and between two calls others may write: any batches, any other thread, and to this thread
   checkpoints newer than those it had at the start. The client visits each checkpoint the thread had at the
   start once, newest first, as it was; without writes it also gets each one's pending writes.
   */
  method WalkPages(saver: Saver, thread: string, tsOf: Value -> real, limit: nat, rounds: seq<seq<Op>>) returns (visited: seq<Item>)
    requires saver.Valid() && thread != "" && ColonFree(thread) && limit >= 1
    requires DistinctTimes(saver.model, thread, tsOf) && Point(thread, "") !in saver.model
    requires RoundsAddNewer(saver.model, thread, tsOf, rounds)
    modifies saver
    ensures saver.Valid() && SawEverything(old(saver.model), thread, tsOf, visited)
    ensures rounds == [] ==> Lists(old(saver.model), thread, tsOf, visited, {}) && NewestFirst(visited)
  {
    ghost var start := saver.model;
    var page, sorted := saver.List(thread, tsOf, "", limit);
    visited := [];
    ghost var heads, rest, quiet := Heads(sorted), sorted, rounds == [];
    ListedHeadsAreListing(start, thread, tsOf, sorted);
    StartUnderway(start, thread, tsOf, sorted);
    var round := 0;
    while page != []
      invariant saver.Valid() && Walking(start, saver.model, thread, tsOf, heads, visited, rest, quiet)
      invariant page == Take(rest, limit)
      decreases |rest|
    {
      WalkOn(start, saver.model, thread, tsOf, heads, visited, rest, quiet, limit);
      ghost var left := rest[|page|..];
      visited := visited + page;
      if round < |rounds| {
        PerformRound(saver, start, thread, tsOf, rounds[round]);
        round := round + 1;
      }
      page, rest := NextPage(saver, start, thread, tsOf, heads, visited, left, limit);
    }
    WalkEnds(start, saver.model, thread, tsOf, heads, visited, quiet);
  }

  lemma StartUnderway(start: Model, thread: string, tsOf: Value -> real, sorted: seq<Item>)
    requires Lists(start, thread, tsOf, sorted, {})
    ensures Underway(start, thread, Heads(sorted), [], sorted) && AllListed(start, thread, tsOf, sorted) && Grown(start, start, thread, tsOf)
  {
    assert Heads([]) == [];
    forall i | 0 <= i < |sorted| ensures ShowsStart(start, thread, sorted[i]) { assert ListsItem(start, thread, tsOf, sorted[i]); }
  }

  /** The call for the next page. */
  method NextPage(saver: Saver, ghost start: Model, thread: string, tsOf: Value -> real, ghost heads: seq<Head>,
                  visited: seq<Item>, ghost left: seq<Item>, limit: nat)
    returns (page: seq<Item>, ghost rest: seq<Item>)
    requires saver.Valid() && thread != "" && ColonFree(thread) && limit >= 1
    requires DistinctTimes(start, thread, tsOf) && Grown(start, saver.model, thread, tsOf) && IsListing(start, thread, tsOf, heads)
    requires Underway(start, thread, heads, visited, left) && visited != [] && Point(thread, "") !in start
    ensures page == Take(rest, limit) && |rest| == |left|
    ensures Underway(start, thread, heads, visited, rest) && AllListed(saver.model, thread, tsOf, rest)
  {
    var cursor := visited[|visited| - 1].id;
    assert ShowsStart(start, thread, visited[|visited| - 1]);
    ghost var now;
    page, now := saver.List(thread, tsOf, cursor, limit);
    rest := RestOfListing(start, saver.model, thread, tsOf, heads, visited, Heads(left), now);
    assert |rest| == |Heads(rest)| == |left|;
    RestShowsStart(start, saver.model, thread, tsOf, heads, Heads(visited), rest);
  }

  lemma SortKeepsIds(xs: seq<Item>, ys: seq<Item>)
    requires DistinctIds(xs) && multiset(xs) == multiset(ys)
    ensures DistinctIds(ys)
  {
    assert NoRepeats(xs) by {
      forall i, j | 0 <= i < j < |xs| ensures xs[i] != xs[j] { assert xs[i].id != xs[j].id; }
    }
    PermutationKeeps(xs, ys);
    forall i, j | 0 <= i < j < |ys| ensures ys[i].id != ys[j].id {
      assert ys[i] in ys && ys[j] in ys;
      var a :| 0 <= a < |xs| && xs[a] == ys[i];
      var b :| 0 <= b < |xs| && xs[b] == ys[j];
    }
  }
}
