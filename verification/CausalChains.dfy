/**
 The recursive causal-chain query (db/causal_repository.py): the working-table iteration of
 WITH RECURSIVE over `hazard_relationships`, and the loop that turns its rows into evidence. The rows
 are proved to be exactly the simple paths of the hazard graph, one row per path.
 */
module CausalChains {
  import opened Basics

  /** A row of `hazard_relationships`; parallel rows between the same events are allowed. */
  datatype Relation = Relation(parent: nat, child: nat, confidence: real)

  /** A row of `hazard_events`; the label of its region and its details may be missing. */
  datatype Event = Event(kind: string, region: Option<string>, details: Option<string>)

  datatype Graph = Graph(events: map<nat, Event>, relations: seq<Relation>)

  datatype Row = Row(event: nat, shown: Event, pathIds: seq<nat>, pathTypes: seq<string>, depth: nat, confidences: seq<real>)

  // ---------------------------------------------------------------- the query

  function EventOf(g: Graph, id: nat): Event { if id in g.events then g.events[id] else Event("", None, None) }

  function TypeOf(g: Graph, id: nat): string { EventOf(g, id).kind }

  /** The anchor member: one row per start event. */
  function AnchorRows(g: Graph, anchors: seq<nat>): seq<Row> {
    seq(|anchors|, i requires 0 <= i < |anchors| => Row(anchors[i], EventOf(g, anchors[i]), [anchors[i]], [TypeOf(g, anchors[i])], 1, []))
  }

  /** The join and the WHERE clause of the recursive member. */
  predicate Joins(g: Graph, maxDepth: int, row: Row, r: Relation) {
    row.event == r.parent && r.child in g.events && row.depth < maxDepth && r.child !in row.pathIds
  }

  function Extended(g: Graph, row: Row, r: Relation): Row {
    Row(r.child, EventOf(g, r.child), row.pathIds + [r.child], row.pathTypes + [TypeOf(g, r.child)], row.depth + 1,
        row.confidences + [r.confidence])
  }

  /** The recursive member on one row and the first `k` relations. */
  function JoinRow(g: Graph, maxDepth: int, row: Row, k: nat): seq<Row>
    requires k <= |g.relations|
  {
    if k == 0 then [] else
      JoinRow(g, maxDepth, row, k - 1)
      + if Joins(g, maxDepth, row, g.relations[k - 1]) then [Extended(g, row, g.relations[k - 1])] else []
  }

  /** The recursive member on a whole working table. */
  function JoinTable(g: Graph, maxDepth: int, working: seq<Row>): seq<Row> {
    if working == [] then [] else
      JoinTable(g, maxDepth, working[..|working| - 1])
      + JoinRow(g, maxDepth, working[|working| - 1], |g.relations|)
  }

  /** The working table of iteration `d`, counting the anchor member as the first. */
  function WorkingTable(g: Graph, maxDepth: int, anchors: seq<nat>, d: nat): seq<Row>
    requires d >= 1
  {
    if d == 1 then AnchorRows(g, anchors) else JoinTable(g, maxDepth, WorkingTable(g, maxDepth, anchors, d - 1))
  }

  /** The union of the first `d` working tables. */
  function QueryRows(g: Graph, maxDepth: int, anchors: seq<nat>, d: nat): seq<Row> {
    if d == 0 then [] else QueryRows(g, maxDepth, anchors, d - 1) + WorkingTable(g, maxDepth, anchors, d)
  }

  function Rounds(maxDepth: int): nat { if maxDepth < 1 then 1 else maxDepth }

  lemma {:induction false} RowDepths(g: Graph, maxDepth: int, row: Row, k: nat)
    requires k <= |g.relations|
    ensures forall r :: r in JoinRow(g, maxDepth, row, k) ==> r.depth == row.depth + 1 <= maxDepth
    decreases k
  {
    if k > 0 { RowDepths(g, maxDepth, row, k - 1); }
  }

  lemma {:induction false} TableDepths(g: Graph, maxDepth: int, working: seq<Row>, d: nat)
    requires forall r :: r in working ==> r.depth == d
    ensures forall r :: r in JoinTable(g, maxDepth, working) ==> r.depth == d + 1 <= maxDepth
    decreases |working|
  {
    if working != [] {
      TableDepths(g, maxDepth, working[..|working| - 1], d);
      RowDepths(g, maxDepth, working[|working| - 1], |g.relations|);
    }
  }

  lemma {:induction false} WorkingDepths(g: Graph, maxDepth: int, anchors: seq<nat>, d: nat)
    requires d >= 1
    ensures forall r :: r in WorkingTable(g, maxDepth, anchors, d) ==> r.depth == d <= Rounds(maxDepth)
    decreases d
  {
    if d > 1 {
      WorkingDepths(g, maxDepth, anchors, d - 1);
      TableDepths(g, maxDepth, WorkingTable(g, maxDepth, anchors, d - 1), d - 1);
    }
  }

  lemma {:induction false} EmptyTables(g: Graph, maxDepth: int, anchors: seq<nat>, d: nat, e: nat)
    requires 1 <= d <= e && WorkingTable(g, maxDepth, anchors, d) == []
    ensures WorkingTable(g, maxDepth, anchors, e) == []
    ensures QueryRows(g, maxDepth, anchors, e) == QueryRows(g, maxDepth, anchors, d)
    decreases e - d
  {
    if d < e { EmptyTables(g, maxDepth, anchors, d, e - 1); }
  }

  /**
   The evaluation of the recursive query: repeat the recursive member on the rows of the previous
   round until a round yields nothing. It ends on every graph, cyclic or not.
   */
  method RunQuery(g: Graph, maxDepth: int, anchors: seq<nat>) returns (rows: seq<Row>)
    ensures rows == QueryRows(g, maxDepth, anchors, Rounds(maxDepth))
  {
    var working := AnchorRows(g, anchors);
    rows := working;
    ghost var d := 1;
    while working != []
      invariant 1 <= d <= Rounds(maxDepth) + 1
      invariant working == WorkingTable(g, maxDepth, anchors, d)
      invariant rows == QueryRows(g, maxDepth, anchors, d)
      decreases Rounds(maxDepth) + 1 - d
    {
      WorkingDepths(g, maxDepth, anchors, d);
      assert working[0] in working;
      working := JoinTable(g, maxDepth, working);
      d := d + 1;
      rows := rows + working;
    }
    if d <= Rounds(maxDepth) {
      EmptyTables(g, maxDepth, anchors, d, Rounds(maxDepth));
    } else {
      assert QueryRows(g, maxDepth, anchors, d) == QueryRows(g, maxDepth, anchors, d - 1);
    }
  }

  // ---------------------------------------------------------------- simple paths

  /** A path: a start event and the positions of the relations it follows. */
  datatype Chain = Chain(start: nat, edges: seq<nat>)

  ghost predicate EdgesExist(g: Graph, c: Chain) {
    forall i :: 0 <= i < |c.edges| ==> c.edges[i] < |g.relations|
  }

  ghost function Vertices(g: Graph, c: Chain): (vs: seq<nat>)
    requires EdgesExist(g, c)
    ensures |vs| == |c.edges| + 1
  {
    [c.start] + seq(|c.edges|, i requires 0 <= i < |c.edges| => g.relations[c.edges[i]].child)
  }

  /** Each edge leaves the vertex the path has reached, for an event that exists. */
  ghost predicate Linked(g: Graph, c: Chain)
    requires EdgesExist(g, c)
  {
    forall i :: 0 <= i < |c.edges| ==> LinkedAt(g, c, i)
  }

  ghost predicate LinkedAt(g: Graph, c: Chain, i: nat)
    requires EdgesExist(g, c) && i < |c.edges|
  {
    g.relations[c.edges[i]].parent == Vertices(g, c)[i] && g.relations[c.edges[i]].child in g.events
  }

  /** A path over existing events, without a repeated vertex, of at most `maxDepth` vertices. */
  ghost predicate IsChain(g: Graph, maxDepth: int, anchors: seq<nat>, c: Chain) {
    && c.start in anchors && EdgesExist(g, c)
    && Linked(g, c) && NoRepeats(Vertices(g, c))
    && (c.edges != [] ==> |Vertices(g, c)| <= maxDepth)
  }

  /** The row that describes a path. */
  ghost function RowOf(g: Graph, c: Chain): Row
    requires EdgesExist(g, c)
  {
    var vs := Vertices(g, c);
    Row(vs[|vs| - 1], EventOf(g, vs[|vs| - 1]), vs, seq(|vs|, i requires 0 <= i < |vs| => TypeOf(g, vs[i])), |vs|,
        seq(|c.edges|, i requires 0 <= i < |c.edges| => g.relations[c.edges[i]].confidence))
  }

  function Snoc(c: Chain, k: nat): Chain { Chain(c.start, c.edges + [k]) }

  lemma SnocRow(g: Graph, c: Chain, k: nat)
    requires EdgesExist(g, c) && k < |g.relations|
    ensures EdgesExist(g, Snoc(c, k))
    ensures Vertices(g, Snoc(c, k)) == Vertices(g, c) + [g.relations[k].child]
    ensures RowOf(g, Snoc(c, k)) == Extended(g, RowOf(g, c), g.relations[k])
  {
    var c' := Snoc(c, k);
    assert forall i :: 0 <= i < |c.edges| ==> c'.edges[i] == c.edges[i];
    assert Vertices(g, c') == Vertices(g, c) + [g.relations[k].child];
    assert RowOf(g, c').pathTypes == RowOf(g, c).pathTypes + [TypeOf(g, g.relations[k].child)];
    assert RowOf(g, c').confidences == RowOf(g, c).confidences + [g.relations[k].confidence];
  }

  /** A path extends by a relation exactly when the recursive member joins that relation to its row. */
  lemma SnocIsChain(g: Graph, maxDepth: int, anchors: seq<nat>, c: Chain, k: nat)
    requires k < |g.relations| && EdgesExist(g, c)
    ensures IsChain(g, maxDepth, anchors, Snoc(c, k))
       <==> IsChain(g, maxDepth, anchors, c) && Joins(g, maxDepth, RowOf(g, c), g.relations[k])
  {
    SnocRow(g, c, k);
    SnocLinked(g, c, k);
    DistinctSnoc(Vertices(g, c), g.relations[k].child);
  }

  lemma SnocLinkedAt(g: Graph, c: Chain, k: nat, i: nat)
    requires k < |g.relations| && EdgesExist(g, c) && EdgesExist(g, Snoc(c, k)) && i < |c.edges|
    ensures LinkedAt(g, Snoc(c, k), i) <==> LinkedAt(g, c, i)
  {
    SnocRow(g, c, k);
    assert Snoc(c, k).edges[i] == c.edges[i];
    assert Vertices(g, Snoc(c, k))[i] == Vertices(g, c)[i];
  }

  lemma SnocLinked(g: Graph, c: Chain, k: nat)
    requires k < |g.relations| && EdgesExist(g, c) && EdgesExist(g, Snoc(c, k))
    ensures Linked(g, Snoc(c, k)) <==>
      Linked(g, c) && g.relations[k].parent == Vertices(g, c)[|c.edges|] && g.relations[k].child in g.events
  {
    var c' := Snoc(c, k);
    SnocRow(g, c, k);
    assert c'.edges[|c.edges|] == k && Vertices(g, c')[|c.edges|] == Vertices(g, c)[|c.edges|];
    if Linked(g, c') {
      assert LinkedAt(g, c', |c.edges|);
      forall i | 0 <= i < |c.edges| ensures LinkedAt(g, c, i) { assert LinkedAt(g, c', i); SnocLinkedAt(g, c, k, i); }
    }
    if Linked(g, c) && g.relations[k].parent == Vertices(g, c)[|c.edges|] && g.relations[k].child in g.events {
      forall i | 0 <= i < |c'.edges| ensures LinkedAt(g, c', i) {
        if i < |c.edges| { SnocLinkedAt(g, c, k, i); }
      }
    }
  }

  lemma DistinctSnoc<T>(s: seq<T>, x: T)
    ensures NoRepeats(s + [x]) <==> NoRepeats(s) && x !in s
  {
    var t := s + [x];
    assert forall i :: 0 <= i < |s| ==> t[i] == s[i];
    assert t[|s|] == x;
    if NoRepeats(t) {
      assert forall i, j :: 0 <= i < j < |s| ==> s[i] != s[j];
    }
  }

  // ---------------------------------------------------------------- the query with provenance

  /** Extensions of one path by the first `k` relations, in the order of the join. */
  ghost function Extensions(g: Graph, maxDepth: int, c: Chain, k: nat): seq<Chain>
    requires k <= |g.relations| && EdgesExist(g, c)
  {
    if k == 0 then [] else
      Extensions(g, maxDepth, c, k - 1)
      + if Joins(g, maxDepth, RowOf(g, c), g.relations[k - 1]) then [Snoc(c, k - 1)] else []
  }

  ghost predicate AllExist(g: Graph, cs: seq<Chain>) { forall i :: 0 <= i < |cs| ==> EdgesExist(g, cs[i]) }

  ghost function RowsOf(g: Graph, cs: seq<Chain>): seq<Row>
    requires AllExist(g, cs)
  {
    seq(|cs|, i requires 0 <= i < |cs| => RowOf(g, cs[i]))
  }

  lemma RowsOfAppend(g: Graph, a: seq<Chain>, b: seq<Chain>)
    requires AllExist(g, a) && AllExist(g, b)
    ensures AllExist(g, a + b) && RowsOf(g, a + b) == RowsOf(g, a) + RowsOf(g, b)
  {
  }

  lemma {:induction false} ExtensionsMirrorJoin(g: Graph, maxDepth: int, c: Chain, k: nat)
    requires k <= |g.relations| && EdgesExist(g, c)
    ensures AllExist(g, Extensions(g, maxDepth, c, k))
    ensures RowsOf(g, Extensions(g, maxDepth, c, k)) == JoinRow(g, maxDepth, RowOf(g, c), k)
    decreases k
  {
    if k > 0 {
      ExtensionsMirrorJoin(g, maxDepth, c, k - 1);
      SnocRow(g, c, k - 1);
      if Joins(g, maxDepth, RowOf(g, c), g.relations[k - 1]) {
        RowsOfAppend(g, Extensions(g, maxDepth, c, k - 1), [Snoc(c, k - 1)]);
        assert RowsOf(g, [Snoc(c, k - 1)]) == [RowOf(g, Snoc(c, k - 1))];
      } else {
        assert Extensions(g, maxDepth, c, k) == Extensions(g, maxDepth, c, k - 1);
        assert JoinRow(g, maxDepth, RowOf(g, c), k) == JoinRow(g, maxDepth, RowOf(g, c), k - 1);
      }
    }
  }

  lemma {:induction false} ExtensionsMembers(g: Graph, maxDepth: int, c: Chain, k: nat, x: Chain)
    requires k <= |g.relations| && EdgesExist(g, c)
    ensures x in Extensions(g, maxDepth, c, k)
       <==> exists j :: 0 <= j < k && x == Snoc(c, j) && Joins(g, maxDepth, RowOf(g, c), g.relations[j])
    decreases k
  {
    if k > 0 {
      ExtensionsMembers(g, maxDepth, c, k - 1, x);
      if Joins(g, maxDepth, RowOf(g, c), g.relations[k - 1]) && x == Snoc(c, k - 1) {
        assert x in [Snoc(c, k - 1)];
      }
    }
  }

  lemma SnocDiffers(c: Chain, j: nat, k: nat)
    requires j != k
    ensures Snoc(c, j) != Snoc(c, k)
  {
    assert Snoc(c, j).edges[|c.edges|] == j;
    assert Snoc(c, k).edges[|c.edges|] == k;
  }

  lemma {:induction false} ExtensionsDistinct(g: Graph, maxDepth: int, c: Chain, k: nat)
    requires k <= |g.relations| && EdgesExist(g, c)
    ensures NoRepeats(Extensions(g, maxDepth, c, k))
    decreases k
  {
    if k > 0 {
      ExtensionsDistinct(g, maxDepth, c, k - 1);
      ExtensionsMembers(g, maxDepth, c, k - 1, Snoc(c, k - 1));
      forall j | 0 <= j < k - 1 ensures Snoc(c, j) != Snoc(c, k - 1) { SnocDiffers(c, j, k - 1); }
      DistinctSnoc(Extensions(g, maxDepth, c, k - 1), Snoc(c, k - 1));
    }
  }

  ghost function ExtendAll(g: Graph, maxDepth: int, cs: seq<Chain>): seq<Chain>
    requires AllExist(g, cs)
  {
    if cs == [] then [] else
      ExtendAll(g, maxDepth, cs[..|cs| - 1]) + Extensions(g, maxDepth, cs[|cs| - 1], |g.relations|)
  }

  lemma {:induction false} ExtendAllMirrorsJoin(g: Graph, maxDepth: int, cs: seq<Chain>)
    requires AllExist(g, cs)
    ensures AllExist(g, ExtendAll(g, maxDepth, cs))
    ensures RowsOf(g, ExtendAll(g, maxDepth, cs)) == JoinTable(g, maxDepth, RowsOf(g, cs))
    decreases |cs|
  {
    if cs != [] {
      var before, last := cs[..|cs| - 1], cs[|cs| - 1];
      ExtendAllMirrorsJoin(g, maxDepth, before);
      ExtensionsMirrorJoin(g, maxDepth, last, |g.relations|);
      RowsOfAppend(g, ExtendAll(g, maxDepth, before), Extensions(g, maxDepth, last, |g.relations|));
      assert RowsOf(g, cs)[..|cs| - 1] == RowsOf(g, before);
    }
  }

  /** `x` extends path number `i` by relation `j`. */
  ghost predicate ExtendsBy(g: Graph, maxDepth: int, cs: seq<Chain>, x: Chain, i: int, j: int)
    requires AllExist(g, cs)
  {
    && 0 <= i < |cs| && 0 <= j < |g.relations|
    && x == Snoc(cs[i], j) && Joins(g, maxDepth, RowOf(g, cs[i]), g.relations[j])
  }

  lemma ExtendsByPrefix(g: Graph, maxDepth: int, cs: seq<Chain>, x: Chain, i: int, j: int)
    requires AllExist(g, cs) && cs != [] && i < |cs| - 1
    ensures ExtendsBy(g, maxDepth, cs, x, i, j) <==> ExtendsBy(g, maxDepth, cs[..|cs| - 1], x, i, j)
  {
    if i >= 0 { assert cs[..|cs| - 1][i] == cs[i]; }
  }

  lemma ExtendsByLast(g: Graph, maxDepth: int, cs: seq<Chain>, x: Chain)
    requires AllExist(g, cs) && cs != []
    ensures var end := |cs| - 1;
      x in Extensions(g, maxDepth, cs[end], |g.relations|) <==> exists j :: ExtendsBy(g, maxDepth, cs, x, end, j)
  {
    var last := cs[|cs| - 1];
    ExtensionsMembers(g, maxDepth, last, |g.relations|, x);
    if x in Extensions(g, maxDepth, last, |g.relations|) {
      var j :| 0 <= j < |g.relations| && x == Snoc(last, j) && Joins(g, maxDepth, RowOf(g, last), g.relations[j]);
      assert ExtendsBy(g, maxDepth, cs, x, |cs| - 1, j);
    }
  }

  lemma {:induction false} ExtendAllMembers(g: Graph, maxDepth: int, cs: seq<Chain>, x: Chain)
    requires AllExist(g, cs)
    ensures x in ExtendAll(g, maxDepth, cs) <==> exists i, j :: ExtendsBy(g, maxDepth, cs, x, i, j)
    decreases |cs|
  {
    if cs != [] {
      var before := cs[..|cs| - 1];
      ExtendAllMembers(g, maxDepth, before, x);
      ExtendsByLast(g, maxDepth, cs, x);
      if x in ExtendAll(g, maxDepth, before) {
        var i, j :| ExtendsBy(g, maxDepth, before, x, i, j);
        ExtendsByPrefix(g, maxDepth, cs, x, i, j);
      }
      if i, j :| ExtendsBy(g, maxDepth, cs, x, i, j) {
        if i < |before| { ExtendsByPrefix(g, maxDepth, cs, x, i, j); }
      }
    }
  }

  lemma {:induction false} ExtendAllDistinct(g: Graph, maxDepth: int, cs: seq<Chain>)
    requires AllExist(g, cs) && NoRepeats(cs)
    ensures NoRepeats(ExtendAll(g, maxDepth, cs))
    decreases |cs|
  {
    if cs != [] {
      var before, last := cs[..|cs| - 1], cs[|cs| - 1];
      assert cs == before + [last];
      DistinctSnoc(before, last);
      ExtendAllDistinct(g, maxDepth, before);
      var a, b := ExtendAll(g, maxDepth, before), Extensions(g, maxDepth, last, |g.relations|);
      ExtensionsDistinct(g, maxDepth, last, |g.relations|);
      forall x | x in a && x in b ensures false {
        ExtendAllMembers(g, maxDepth, before, x);
        ExtensionsMembers(g, maxDepth, last, |g.relations|, x);
        var i, j :| ExtendsBy(g, maxDepth, before, x, i, j);
        SnocInjective(before[i], j, last);
      }
      DistinctAppend(a, b);
    }
  }

  lemma SnocInjective(c: Chain, j: nat, c': Chain)
    requires exists k :: Snoc(c, j) == Snoc(c', k)
    ensures c == c'
  {
    var k :| Snoc(c, j) == Snoc(c', k);
    assert (c.edges + [j])[..|c.edges|] == c.edges;
    assert (c'.edges + [k])[..|c'.edges|] == c'.edges;
  }

  ghost function AnchorChains(anchors: seq<nat>): seq<Chain> {
    seq(|anchors|, i requires 0 <= i < |anchors| => Chain(anchors[i], []))
  }

  /** The paths behind the working table of iteration `d`. */
  ghost function ChainTable(g: Graph, maxDepth: int, anchors: seq<nat>, d: nat): (cs: seq<Chain>)
    requires d >= 1
    ensures AllExist(g, cs)
    decreases d
  {
    if d == 1 then AnchorChains(anchors) else
      var before := ChainTable(g, maxDepth, anchors, d - 1);
      ExtendAllMirrorsJoin(g, maxDepth, before);
      ExtendAll(g, maxDepth, before)
  }

  ghost function ChainsUpTo(g: Graph, maxDepth: int, anchors: seq<nat>, d: nat): (cs: seq<Chain>)
    ensures AllExist(g, cs)
    decreases d
  {
    if d == 0 then [] else ChainsUpTo(g, maxDepth, anchors, d - 1) + ChainTable(g, maxDepth, anchors, d)
  }

  lemma AnchorsMirrorChains(g: Graph, anchors: seq<nat>)
    ensures AllExist(g, AnchorChains(anchors))
    ensures RowsOf(g, AnchorChains(anchors)) == AnchorRows(g, anchors)
  {
    var cs := AnchorChains(anchors);
    forall i | 0 <= i < |anchors| ensures RowOf(g, cs[i]) == AnchorRows(g, anchors)[i] {
      assert Vertices(g, cs[i]) == [anchors[i]];
      assert RowOf(g, cs[i]).pathTypes == [TypeOf(g, anchors[i])];
    }
  }

  lemma {:induction false} TableMirrorsChains(g: Graph, maxDepth: int, anchors: seq<nat>, d: nat)
    requires d >= 1
    ensures RowsOf(g, ChainTable(g, maxDepth, anchors, d)) == WorkingTable(g, maxDepth, anchors, d)
    decreases d
  {
    if d == 1 {
      AnchorsMirrorChains(g, anchors);
    } else {
      TableMirrorsChains(g, maxDepth, anchors, d - 1);
      ExtendAllMirrorsJoin(g, maxDepth, ChainTable(g, maxDepth, anchors, d - 1));
    }
  }

  lemma AnchorsAreChains(g: Graph, maxDepth: int, anchors: seq<nat>, x: Chain)
    ensures x in AnchorChains(anchors) <==> IsChain(g, maxDepth, anchors, x) && x.edges == []
  {
    if x.edges == [] { assert Vertices(g, x) == [x.start]; }
    if IsChain(g, maxDepth, anchors, x) && x.edges == [] {
      var i :| 0 <= i < |anchors| && anchors[i] == x.start;
      assert AnchorChains(anchors)[i] == x;
    }
  }

  /** `cs` holds exactly the paths with `d` vertices. */
  ghost predicate HoldsDepth(g: Graph, maxDepth: int, anchors: seq<nat>, cs: seq<Chain>, d: nat) {
    forall c :: c in cs <==> IsChain(g, maxDepth, anchors, c) && |c.edges| + 1 == d
  }

  lemma {:induction false} ExtendAllSound(
    g: Graph, maxDepth: int, anchors: seq<nat>, cs: seq<Chain>, d: nat, x: Chain)
    requires AllExist(g, cs) && HoldsDepth(g, maxDepth, anchors, cs, d) && x in ExtendAll(g, maxDepth, cs)
    ensures IsChain(g, maxDepth, anchors, x) && |x.edges| == d
  {
    ExtendAllMembers(g, maxDepth, cs, x);
    var i, j :| ExtendsBy(g, maxDepth, cs, x, i, j);
    assert cs[i] in cs;
    SnocIsChain(g, maxDepth, anchors, cs[i], j);
  }

  lemma {:induction false} ExtendAllComplete(
    g: Graph, maxDepth: int, anchors: seq<nat>, cs: seq<Chain>, d: nat, x: Chain)
    requires AllExist(g, cs) && HoldsDepth(g, maxDepth, anchors, cs, d) && d >= 1
    requires IsChain(g, maxDepth, anchors, x) && |x.edges| == d
    ensures x in ExtendAll(g, maxDepth, cs)
  {
    var c := Chain(x.start, x.edges[..d - 1]);
    var k := x.edges[d - 1];
    assert x == Snoc(c, k);
    assert EdgesExist(g, c);
    SnocIsChain(g, maxDepth, anchors, c, k);
    assert c in cs;
    ExtensionIsMember(g, maxDepth, cs, c, k);
  }

  lemma {:induction false} ExtensionIsMember(g: Graph, maxDepth: int, cs: seq<Chain>, c: Chain, k: nat)
    requires AllExist(g, cs) && c in cs && k < |g.relations| && EdgesExist(g, c) && Joins(g, maxDepth, RowOf(g, c), g.relations[k])
    ensures Snoc(c, k) in ExtendAll(g, maxDepth, cs)
  {
    var i :| 0 <= i < |cs| && cs[i] == c;
    assert ExtendsBy(g, maxDepth, cs, Snoc(c, k), i, k);
    ExtendAllMembers(g, maxDepth, cs, Snoc(c, k));
  }

  /** Iteration `d` finds exactly the paths with `d` vertices. */
  lemma {:induction false} TableIsAllChains(g: Graph, maxDepth: int, anchors: seq<nat>, d: nat, x: Chain)
    requires d >= 1
    ensures x in ChainTable(g, maxDepth, anchors, d)
       <==> IsChain(g, maxDepth, anchors, x) && |x.edges| + 1 == d
    decreases d
  {
    if d == 1 {
      AnchorsAreChains(g, maxDepth, anchors, x);
    } else {
      var cs := ChainTable(g, maxDepth, anchors, d - 1);
      forall c ensures c in cs <==> IsChain(g, maxDepth, anchors, c) && |c.edges| + 1 == d - 1 {
        TableIsAllChains(g, maxDepth, anchors, d - 1, c);
      }
      assert HoldsDepth(g, maxDepth, anchors, cs, d - 1);
      if x in ExtendAll(g, maxDepth, cs) { ExtendAllSound(g, maxDepth, anchors, cs, d - 1, x); }
      if IsChain(g, maxDepth, anchors, x) && |x.edges| + 1 == d {
        ExtendAllComplete(g, maxDepth, anchors, cs, d - 1, x);
      }
    }
  }

  lemma {:induction false} TableIsDistinct(g: Graph, maxDepth: int, anchors: seq<nat>, d: nat)
    requires d >= 1 && NoRepeats(anchors)
    ensures NoRepeats(ChainTable(g, maxDepth, anchors, d))
    decreases d
  {
    if d > 1 {
      TableIsDistinct(g, maxDepth, anchors, d - 1);
      ExtendAllDistinct(g, maxDepth, ChainTable(g, maxDepth, anchors, d - 1));
    }
  }

  lemma {:induction false} QueryMirrorsChains(g: Graph, maxDepth: int, anchors: seq<nat>, d: nat)
    ensures RowsOf(g, ChainsUpTo(g, maxDepth, anchors, d)) == QueryRows(g, maxDepth, anchors, d)
    decreases d
  {
    if d > 0 {
      QueryMirrorsChains(g, maxDepth, anchors, d - 1);
      TableMirrorsChains(g, maxDepth, anchors, d);
      RowsOfAppend(g, ChainsUpTo(g, maxDepth, anchors, d - 1), ChainTable(g, maxDepth, anchors, d));
      assert QueryRows(g, maxDepth, anchors, d)
          == QueryRows(g, maxDepth, anchors, d - 1) + WorkingTable(g, maxDepth, anchors, d);
    }
  }

  lemma {:induction false} ChainsUpToMembers(g: Graph, maxDepth: int, anchors: seq<nat>, d: nat, x: Chain)
    ensures x in ChainsUpTo(g, maxDepth, anchors, d)
       <==> IsChain(g, maxDepth, anchors, x) && |x.edges| + 1 <= d
    decreases d
  {
    if d > 0 {
      ChainsUpToMembers(g, maxDepth, anchors, d - 1, x);
      TableIsAllChains(g, maxDepth, anchors, d, x);
      InEither(ChainsUpTo(g, maxDepth, anchors, d - 1), ChainTable(g, maxDepth, anchors, d), x);
    }
  }

  lemma InEither<T>(a: seq<T>, b: seq<T>, x: T)
    ensures x in a + b <==> x in a || x in b
  {
  }

  lemma {:induction false} TablesAreDisjoint(g: Graph, maxDepth: int, anchors: seq<nat>, d: nat, x: Chain)
    requires d >= 1 && x in ChainsUpTo(g, maxDepth, anchors, d - 1)
    ensures x !in ChainTable(g, maxDepth, anchors, d)
  {
    ChainsUpToMembers(g, maxDepth, anchors, d - 1, x);
    TableIsAllChains(g, maxDepth, anchors, d, x);
  }

  lemma {:induction false} ChainsUpToDistinct(g: Graph, maxDepth: int, anchors: seq<nat>, d: nat)
    requires NoRepeats(anchors)
    ensures NoRepeats(ChainsUpTo(g, maxDepth, anchors, d))
    decreases d
  {
    if d > 0 {
      ChainsUpToDistinct(g, maxDepth, anchors, d - 1);
      TableIsDistinct(g, maxDepth, anchors, d);
      forall x | x in ChainsUpTo(g, maxDepth, anchors, d - 1) ensures x !in ChainTable(g, maxDepth, anchors, d) {
        TablesAreDisjoint(g, maxDepth, anchors, d, x);
      }
      DistinctAppend(ChainsUpTo(g, maxDepth, anchors, d - 1), ChainTable(g, maxDepth, anchors, d));
    }
  }

  /** All the paths the query reports, in the order of its rows. */
  ghost function AllChains(g: Graph, maxDepth: int, anchors: seq<nat>): (cs: seq<Chain>)
    ensures AllExist(g, cs)
  {
    ChainsUpTo(g, maxDepth, anchors, Rounds(maxDepth))
  }

  /**
   For every graph, cyclic or with parallel edges: the query's rows are the rows of `AllChains`, one for
   one; `AllChains` repeats no path; and it holds exactly the simple paths from an anchor over existing
   events with at most `maxDepth` vertices (the anchors themselves always).
   */
  lemma {:induction false} QueryFindsExactlyTheSimplePaths(g: Graph, maxDepth: int, anchors: seq<nat>, x: Chain)
    requires NoRepeats(anchors)
    ensures QueryRows(g, maxDepth, anchors, Rounds(maxDepth)) == RowsOf(g, AllChains(g, maxDepth, anchors))
    ensures NoRepeats(AllChains(g, maxDepth, anchors))
    ensures x in AllChains(g, maxDepth, anchors) <==> IsChain(g, maxDepth, anchors, x)
  {
    QueryMirrorsChains(g, maxDepth, anchors, Rounds(maxDepth));
    ChainsUpToDistinct(g, maxDepth, anchors, Rounds(maxDepth));
    ChainsUpToMembers(g, maxDepth, anchors, Rounds(maxDepth), x);
  }

  // ---------------------------------------------------------------- confidence and evidence

  function MinOf(cs: seq<real>): (m: real)
    requires cs != []
    ensures m in cs && forall i :: 0 <= i < |cs| ==> m <= cs[i]
  {
    if |cs| == 1 then cs[0] else MinReal(MinOf(cs[..|cs| - 1]), cs[|cs| - 1])
  }

  function ChainConfidence(cs: seq<real>): real { if cs == [] then 1.0 else MinOf(cs) }

  /** Extending a chain never raises its confidence. */
  lemma ExtendingNeverRaises(cs: seq<real>, more: seq<real>)
    requires cs != []
    ensures ChainConfidence(cs + more) <= ChainConfidence(cs)
    ensures more != [] ==> ChainConfidence(cs + more) == MinReal(ChainConfidence(cs), ChainConfidence(more))
  {
    var all := cs + more;
    var i :| 0 <= i < |cs| && cs[i] == MinOf(cs);
    assert all[i] == cs[i];
    if more != [] {
      var j :| 0 <= j < |more| && more[j] == MinOf(more);
      assert all[|cs| + j] == more[j];
      var k :| 0 <= k < |all| && all[k] == MinOf(all);
      assert all[k] == if k < |cs| then cs[k] else more[k - |cs|];
    } else {
      assert all == cs;
    }
  }

  /** `region` and `triggerDetails` are the two texts of the claim that are taken from an event. */
  datatype Evidence = Evidence(chunk: nat, region: string, triggerDetails: string, pathIds: seq<nat>,
                               pathTypes: seq<string>, depth: nat, confidences: seq<real>, confidence: real)

  /** Python's `text or default`. */
  function TextOr(text: Option<string>, default: string): string {
    if text.None? || text.value == "" then default else text.value
  }

  function ToEvidence(r: Row): Evidence {
    Evidence(r.event, TextOr(r.shown.region, "unspecified region"), TextOr(r.shown.details, "N/A"),
             r.pathIds, r.pathTypes, r.depth, r.confidences, ChainConfidence(r.confidences))
  }

  /** The paths with at least one edge. */
  ghost function Proper(cs: seq<Chain>): seq<Chain> {
    if cs == [] then [] else
      Proper(cs[..|cs| - 1]) + if cs[|cs| - 1].edges != [] then [cs[|cs| - 1]] else []
  }

  /** The simple paths with an edge, in the order of the query's rows. */
  ghost function SimplePaths(g: Graph, maxDepth: int, anchors: seq<nat>): seq<Chain> {
    Proper(AllChains(g, maxDepth, anchors))
  }

  lemma {:induction false} ProperMembers(cs: seq<Chain>, x: Chain)
    ensures x in Proper(cs) <==> x in cs && x.edges != []
    decreases |cs|
  {
    if cs != [] {
      ProperMembers(cs[..|cs| - 1], x);
      assert cs == cs[..|cs| - 1] + [cs[|cs| - 1]];
    }
  }

  lemma {:induction false} ProperKeeps(g: Graph, cs: seq<Chain>)
    ensures NoRepeats(cs) ==> NoRepeats(Proper(cs))
    ensures AllExist(g, cs) ==> AllExist(g, Proper(cs))
    decreases |cs|
  {
    if cs != [] {
      var before, last := cs[..|cs| - 1], cs[|cs| - 1];
      assert cs == before + [last];
      ProperKeeps(g, before);
      ProperMembers(before, last);
      DistinctSnoc(before, last);
      DistinctSnoc(Proper(before), last);
    }
  }

  /** The evidence loop: rows of depth 1 are bare anchors and are skipped. */
  function EvidenceOf(rows: seq<Row>): seq<Evidence> {
    if rows == [] then [] else
      var last := rows[|rows| - 1];
      EvidenceOf(rows[..|rows| - 1]) + if last.depth < 2 then [] else [ToEvidence(last)]
  }

  /** A text that is present and not empty is shown as it is, any other one as the default. */
  ghost predicate ShownAs(text: Option<string>, default: string, shown: string) {
    match text
    case Some(t) => shown == (if |t| > 0 then t else default)
    case None => shown == default
  }

  /** The evidence reports the row: its fields one by one, the weakest confidence, and the two texts of its event. */
  ghost predicate Reports(e: Evidence, r: Row) {
    && e.chunk == r.event && e.pathIds == r.pathIds && e.pathTypes == r.pathTypes && e.depth == r.depth
    && e.confidences == r.confidences
    && (r.confidences != [] ==> e.confidence in r.confidences && forall c :: c in r.confidences ==> e.confidence <= c)
    && ShownAs(r.shown.region, "unspecified region", e.region) && ShownAs(r.shown.details, "N/A", e.triggerDetails)
  }

  lemma ToEvidenceReports(r: Row)
    ensures Reports(ToEvidence(r), r)
  {
  }

  /** The loop reports exactly the rows of depth 2 and more, in order. */
  method BuildEvidence(rows: seq<Row>) returns (evidence: seq<Evidence>, ghost places: seq<nat>)
    ensures evidence == EvidenceOf(rows)
    ensures Picks(rows, (r: Row) => r.depth >= 2, places) && |evidence| == |places|
    ensures forall k :: 0 <= k < |places| ==> Reports(evidence[k], rows[places[k]])
  {
    evidence, places := [], [];
    for i := 0 to |rows|
      invariant evidence == EvidenceOf(rows[..i])
      invariant Picks(rows[..i], (r: Row) => r.depth >= 2, places) && |evidence| == |places|
      invariant forall k :: 0 <= k < |places| ==> Reports(evidence[k], rows[places[k]])
    {
      assert rows[..i + 1][..i] == rows[..i];
      PicksNext(rows[..i + 1], (r: Row) => r.depth >= 2, places);
      if rows[i].depth < 2 { continue; }
      ToEvidenceReports(rows[i]);
      evidence := evidence + [ToEvidence(rows[i])];
      places := places + [i];
    }
    assert rows[..|rows|] == rows;
  }

  // --- evidence and paths

  /**
   The evidence tells the path: its vertices, the types of their events, the confidence of each edge, the last
   vertex as its chunk, the weakest confidence, and the texts of the last vertex's event.
   */
  ghost predicate Tells(g: Graph, e: Evidence, c: Chain) {
    EdgesExist(g, c) &&
    var vs := Vertices(g, c); var end := vs[|vs| - 1];
    && e.pathIds == vs && e.depth == |vs| && e.chunk == end
    && |e.pathTypes| == |vs|
    && (forall k :: 0 <= k < |vs| && vs[k] in g.events ==> e.pathTypes[k] == g.events[vs[k]].kind)
    && |e.confidences| == |c.edges|
    && (forall k :: 0 <= k < |c.edges| ==> e.confidences[k] == g.relations[c.edges[k]].confidence)
    && (c.edges != [] ==> e.confidence in e.confidences)
    && (forall k :: 0 <= k < |e.confidences| ==> e.confidence <= e.confidences[k])
    && (end in g.events ==>
          ShownAs(g.events[end].region, "unspecified region", e.region) && ShownAs(g.events[end].details, "N/A", e.triggerDetails))
  }

  lemma ReportTellsPath(g: Graph, c: Chain, e: Evidence)
    requires EdgesExist(g, c) && c.edges != [] && Reports(e, RowOf(g, c))
    ensures Tells(g, e, c)
  {
    assert |e.confidences| == |c.edges| > 0;
    forall k | 0 <= k < |e.confidences| ensures e.confidence <= e.confidences[k] { assert e.confidences[k] in e.confidences; }
  }

  /** Evidence number `i` tells path number `i`. */
  ghost predicate Describes(g: Graph, evidence: seq<Evidence>, cs: seq<Chain>) {
    |evidence| == |cs| && forall i :: 0 <= i < |cs| ==> Tells(g, evidence[i], cs[i])
  }

  lemma {:induction false} EvidenceDescribesProper(g: Graph, cs: seq<Chain>)
    requires AllExist(g, cs)
    ensures Describes(g, EvidenceOf(RowsOf(g, cs)), Proper(cs))
    decreases |cs|
  {
    if cs != [] {
      var before, last := cs[..|cs| - 1], cs[|cs| - 1];
      EvidenceDescribesProper(g, before);
      assert RowsOf(g, cs)[..|cs| - 1] == RowsOf(g, before);
      assert RowsOf(g, cs)[|cs| - 1] == RowOf(g, last);
      if last.edges != [] {
        ToEvidenceReports(RowOf(g, last));
        ReportTellsPath(g, last, ToEvidence(RowOf(g, last)));
      }
    }
  }

  /** The vertices of a path: its start, and the child of each edge. */
  lemma VerticesAre(g: Graph, c: Chain)
    requires EdgesExist(g, c)
    ensures Vertices(g, c)[0] == c.start
    ensures forall k :: 0 <= k < |c.edges| ==> Vertices(g, c)[k + 1] == g.relations[c.edges[k]].child
  {
  }

  /** The last vertex of a path with an edge is an event other than its start. */
  lemma LastVertex(g: Graph, maxDepth: int, anchors: seq<nat>, c: Chain)
    requires IsChain(g, maxDepth, anchors, c) && c.edges != []
    ensures var end := Vertices(g, c)[|c.edges|]; end in g.events && end != c.start
  {
    VerticesAre(g, c);
    assert LinkedAt(g, c, |c.edges| - 1);
    assert Vertices(g, c)[0] != Vertices(g, c)[|c.edges|];
  }

  /** Evidence that tells a path of the query is consistent with the depth limit. */
  lemma EvidenceIsConsistent(g: Graph, maxDepth: int, anchors: seq<nat>, c: Chain, e: Evidence)
    requires IsChain(g, maxDepth, anchors, c) && c.edges != [] && Tells(g, e, c)
    ensures 2 <= e.depth == |c.edges| + 1 == |e.pathIds| <= maxDepth && |e.confidences| == e.depth - 1
    ensures NoRepeats(e.pathIds) && e.pathIds[0] == c.start && c.start in anchors
  {
    assert e.pathIds == Vertices(g, c);
  }

  /**
   The claim's "initial trigger details" are those of the last event of the path, not of the event it starts with.
   */
  lemma TriggerDetailsComeFromTheEnd(g: Graph, maxDepth: int, anchors: seq<nat>, c: Chain, e: Evidence)
    requires IsChain(g, maxDepth, anchors, c) && c.edges != [] && Tells(g, e, c)
    ensures e.chunk in g.events && ShownAs(g.events[e.chunk].details, "N/A", e.triggerDetails) && e.chunk != c.start
  {
    LastVertex(g, maxDepth, anchors, c);
  }

  /**
   The whole lookup, query and loop. There is exactly one piece of evidence per simple path of 2 to
   `maxDepth` vertices, and it tells that path (`Tells`).
   */
  method FindCausalChains(g: Graph, maxDepth: int, anchors: seq<nat>) returns (evidence: seq<Evidence>)
    requires NoRepeats(anchors)
    ensures NoRepeats(SimplePaths(g, maxDepth, anchors))
    ensures forall c :: c in SimplePaths(g, maxDepth, anchors) <==> IsChain(g, maxDepth, anchors, c) && c.edges != []
    ensures Describes(g, evidence, SimplePaths(g, maxDepth, anchors))
  {
    var rows := RunQuery(g, maxDepth, anchors);
    ghost var places;
    evidence, places := BuildEvidence(rows);
    ghost var all := AllChains(g, maxDepth, anchors);
    QueryMirrorsChains(g, maxDepth, anchors, Rounds(maxDepth));
    EvidenceDescribesProper(g, all);
    ChainsUpToDistinct(g, maxDepth, anchors, Rounds(maxDepth));
    ProperKeeps(g, all);
    forall c ensures c in SimplePaths(g, maxDepth, anchors) <==> IsChain(g, maxDepth, anchors, c) && c.edges != [] {
      ProperMembers(all, c);
      ChainsUpToMembers(g, maxDepth, anchors, Rounds(maxDepth), c);
    }
  }
}
