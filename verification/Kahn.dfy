/**
  topologicalSort of src/component-runtime/resolver.ts: Kahn's algorithm with a sorted ready
  queue and depth tracking.
 */
module Kahn {
  import opened Text
  import opened Graphs
  import opened CycleFinder

  function Self(s: Str): Str {
    s
  }

  /** The number of edges into v whose source is not placed, counted with multiplicity. */
  ghost function InDegree(edges: seq<Edge>, placed: set<Str>, v: Str): nat {
    if edges == [] then 0
    else
      var e := edges[|edges| - 1];
      InDegree(edges[..|edges| - 1], placed, v) + (if e.to == v && e.from !in placed then 1 else 0)
  }

  lemma {:induction false} InDegreeZero(edges: seq<Edge>, placed: set<Str>, v: Str)
    ensures InDegree(edges, placed, v) == 0 <==> forall u :: Edge(u, v) in edges ==> u in placed
  {
    if edges != [] {
      InDegreeZero(edges[..|edges| - 1], placed, v);
      var e := edges[|edges| - 1];
      assert edges == edges[..|edges| - 1] + [e];
      assert e == Edge(e.from, e.to);
    }
  }

  /** Placing u frees its targets, each as often as an edge leads there. */
  lemma {:induction false} InDegreePlace(edges: seq<Edge>, placed: set<Str>, u: Str, v: Str)
    requires u !in placed
    ensures InDegree(edges, placed, v) == InDegree(edges, placed + {u}, v) + multiset(Targets(edges, u))[v]
  {
    if edges != [] {
      InDegreePlace(edges[..|edges| - 1], placed, u, v);
    }
  }

  // ---------------------------------------------------------------------------
  // What the loops keep
  // ---------------------------------------------------------------------------

  type Degrees = map<Str, int>
  type Depths = map<Str, nat>

  /** pending are the targets of the last placed vertex that have not been decremented yet. */
  ghost predicate DegreesRight(edges: seq<Edge>, vertices: set<Str>, inDegree: Degrees, order: seq<Str>, pending: seq<Str>) {
    && vertices == inDegree.Keys
    && (forall v :: v in vertices ==> inDegree[v] == InDegree(edges, Elements(order), v) + multiset(pending)[v])
  }

  ghost predicate QueueRight(vertices: set<Str>, inDegree: Degrees, order: seq<Str>, queue: seq<Str>)
    requires vertices == inDegree.Keys
  {
    && NoDuplicates(queue) && SortedBy(queue, Self)
    && (forall v :: v in queue <==> v in vertices && v !in order && inDegree[v] == 0)
  }

  ghost predicate OrderRight(edges: set<Edge>, vertices: set<Str>, order: seq<Str>) {
    && NoDuplicates(order) && Elements(order) <= vertices
    && (forall k :: 0 <= k < |order| ==> Available(edges, vertices, order[..k], order[k]))
    && Greedy(edges, vertices, order)
  }

  ghost predicate HasWalkTo(edges: set<Edge>, vertices: set<Str>, v: Str, n: nat) {
    exists w :: IsWalk(edges, vertices, w) && w[|w| - 1] == v && |w| == n + 1
  }

  /** depth never exceeds a walk, and every edge out of a placed vertex has been accounted for. */
  ghost predicate DepthRight(edges: set<Edge>, vertices: set<Str>, depth: Depths, order: seq<Str>, queue: seq<Str>, pending: seq<Str>) {
    && (forall v :: v in depth ==> HasWalkTo(edges, vertices, v, depth[v]))
    && (forall v :: v in order || v in queue ==> v in depth)
    && (forall a, b :: Edge(a, b) in edges && a in order && !(a == order[|order| - 1] && b in pending) ==>
          a in depth && b in depth && depth[a] + 1 <= depth[b])
  }

  /** The state at the head of the outer loop (pending is empty) and of the inner one. */
  ghost predicate Sorting(edges: seq<Edge>, vertices: set<Str>, inDegree: Degrees, depth: Depths,
                          queue: seq<Str>, order: seq<Str>, pending: seq<Str>) {
    && EdgesWithin(EdgeSet(edges), vertices)
    && vertices == inDegree.Keys
    && DegreesRight(edges, vertices, inDegree, order, pending)
    && QueueRight(vertices, inDegree, order, queue)
    && OrderRight(EdgeSet(edges), vertices, order)
    && DepthRight(EdgeSet(edges), vertices, depth, order, queue, pending)
    && (forall v :: v in pending ==> order != [] && Edge(order[|order| - 1], v) in edges)
  }

  // ---------------------------------------------------------------------------
  // Taking the least ready vertex
  // ---------------------------------------------------------------------------

  lemma ReadyMeansAvailable(edges: seq<Edge>, vertices: set<Str>, inDegree: Degrees, order: seq<Str>, queue: seq<Str>, v: Str)
    requires DegreesRight(edges, vertices, inDegree, order, []) && QueueRight(vertices, inDegree, order, queue)
    ensures v in queue <==> Available(EdgeSet(edges), vertices, order, v)
  {
    if v in vertices {
      InDegreeZero(edges, Elements(order), v);
      assert forall u :: Edge(u, v) in edges <==> Edge(u, v) in EdgeSet(edges);
      assert forall u :: u in Elements(order) <==> u in order;
    }
  }

  lemma PlaceKeepsOrder(edges: set<Edge>, vertices: set<Str>, order: seq<Str>, u: Str)
    requires OrderRight(edges, vertices, order) && Available(edges, vertices, order, u)
    requires forall v :: Available(edges, vertices, order, v) ==> AtMost(u, v)
    ensures OrderRight(edges, vertices, order + [u])
  {
    var o := order + [u];
    assert forall k :: 0 <= k < |order| ==> o[..k] == order[..k] && o[k] == order[k];
    assert o[..|order|] == order;
  }

  lemma PlaceKeepsDegrees(edges: seq<Edge>, vertices: set<Str>, inDegree: Degrees, order: seq<Str>, u: Str, pending: seq<Str>)
    requires DegreesRight(edges, vertices, inDegree, order, []) && u !in order
    requires multiset(pending) == multiset(Targets(edges, u))
    ensures DegreesRight(edges, vertices, inDegree, order + [u], pending)
  {
    assert Elements(order + [u]) == Elements(order) + {u};
    forall v | v in vertices
      ensures inDegree[v] == InDegree(edges, Elements(order + [u]), v) + multiset(pending)[v]
    {
      InDegreePlace(edges, Elements(order), u, v);
    }
  }

  lemma QueueHead(vertices: set<Str>, inDegree: Degrees, order: seq<Str>, queue: seq<Str>)
    requires vertices == inDegree.Keys && QueueRight(vertices, inDegree, order, queue) && queue != []
    ensures queue[0] in vertices && queue[0] !in order
    ensures QueueRight(vertices, inDegree, order + [queue[0]], queue[1..])
    ensures forall v :: v in queue ==> AtMost(queue[0], v)
  {
    hide AtMost;
    var u, rest := queue[0], queue[1..];
    assert forall i :: 0 <= i < |rest| ==> rest[i] == queue[i + 1];
    assert forall v :: v in queue <==> v == u || v in rest;
    assert forall v :: v in order + [u] <==> v == u || v in order;
    forall v | v in queue ensures AtMost(u, v) {
      var i :| 0 <= i < |queue| && queue[i] == v;
      AtMostReflexive(u);
      assert i > 0 ==> AtMost(Self(queue[0]), Self(queue[i]));
    }
  }

  lemma AtMostReflexive(a: Str)
    ensures AtMost(a, a)
  {
  }

  lemma PlaceKeepsDepth(edges: set<Edge>, vertices: set<Str>, depth: Depths, order: seq<Str>, queue: seq<Str>, pending: seq<Str>)
    requires queue != [] && DepthRight(edges, vertices, depth, order, queue, [])
    requires forall v :: Edge(queue[0], v) in edges ==> v in pending
    requires queue[0] !in order
    ensures DepthRight(edges, vertices, depth, order + [queue[0]], queue[1..], pending)
  {
    var u := queue[0];
    assert queue == [u] + queue[1..];
  }

  lemma Place(edges: seq<Edge>, vertices: set<Str>, inDegree: Degrees, depth: Depths, queue: seq<Str>, order: seq<Str>, pending: seq<Str>)
    requires Sorting(edges, vertices, inDegree, depth, queue, order, []) && queue != []
    requires multiset(pending) == multiset(Targets(edges, queue[0]))
    ensures Sorting(edges, vertices, inDegree, depth, queue[1..], order + [queue[0]], pending)
    ensures queue[0] in depth
  {
    var u := queue[0];
    QueueHead(vertices, inDegree, order, queue);
    forall v ensures v in queue <==> Available(EdgeSet(edges), vertices, order, v) {
      ReadyMeansAvailable(edges, vertices, inDegree, order, queue, v);
    }
    TargetsAreSuccessors(edges, u);
    assert forall v :: v in pending <==> v in multiset(pending);
    assert forall v :: v in Targets(edges, u) <==> v in multiset(Targets(edges, u));
    PlaceStep(edges, vertices, inDegree, depth, queue, order, pending);
  }

  lemma PlaceStep(edges: seq<Edge>, vertices: set<Str>, inDegree: Degrees, depth: Depths, queue: seq<Str>, order: seq<Str>,
                  pending: seq<Str>)
    requires Sorting(edges, vertices, inDegree, depth, queue, order, []) && queue != []
    requires multiset(pending) == multiset(Targets(edges, queue[0]))
    requires forall v :: v in pending <==> Edge(queue[0], v) in edges
    requires Available(EdgeSet(edges), vertices, order, queue[0])
    requires forall v :: Available(EdgeSet(edges), vertices, order, v) ==> AtMost(queue[0], v)
    requires QueueRight(vertices, inDegree, order + [queue[0]], queue[1..])
    ensures Sorting(edges, vertices, inDegree, depth, queue[1..], order + [queue[0]], pending)
    ensures queue[0] in depth
  {
    var u := queue[0];
    assert u in queue;
    hide Targets, IsWalk, HasWalkTo, AtMost, Greedy;
    PlaceKeepsOrder(EdgeSet(edges), vertices, order, u);
    PlaceKeepsDegrees(edges, vertices, inDegree, order, u, pending);
    PlaceKeepsDepth(EdgeSet(edges), vertices, depth, order, queue, pending);
  }

  // ---------------------------------------------------------------------------
  // Relaxing one edge
  // ---------------------------------------------------------------------------

  /** A target of the vertex just placed is not placed itself. */
  lemma PendingUnplaced(edges: set<Edge>, vertices: set<Str>, order: seq<Str>, v: Str)
    requires OrderRight(edges, vertices, order) && order != [] && Edge(order[|order| - 1], v) in edges
    ensures v !in order
  {
  }

  function DepthOf(depth: Depths, v: Str): nat {
    if v in depth then depth[v] else 0
  }

  function NextDepth(depth: Depths, u: Str, v: Str): nat {
    if DepthOf(depth, v) < DepthOf(depth, u) + 1 then DepthOf(depth, u) + 1 else DepthOf(depth, v)
  }

  lemma RelaxDepth(edges: set<Edge>, vertices: set<Str>, depth: Depths, order: seq<Str>, queue: seq<Str>, pending: seq<Str>, v: Str)
    requires DepthRight(edges, vertices, depth, order, queue, [v] + pending)
    requires order != [] && order[|order| - 1] in depth
    requires v in vertices && v !in order && Edge(order[|order| - 1], v) in edges
    ensures DepthRight(edges, vertices, depth[v := NextDepth(depth, order[|order| - 1], v)], order, queue, pending)
    ensures DepthRight(edges, vertices, depth[v := NextDepth(depth, order[|order| - 1], v)], order, queue + [v], pending)
  {
    var u := order[|order| - 1];
    var d := depth[v := NextDepth(depth, u, v)];
    forall x | x in d ensures HasWalkTo(edges, vertices, x, d[x]) {
      if x == v && d[v] == depth[u] + 1 {
        var w :| IsWalk(edges, vertices, w) && w[|w| - 1] == u && |w| == depth[u] + 1;
        WalkSnoc(edges, vertices, w, v);
      } else {
        assert HasWalkTo(edges, vertices, x, depth[x]);
      }
    }
    hide IsWalk, HasWalkTo;
    forall a, b | Edge(a, b) in edges && a in order && !(a == u && b in pending)
      ensures a in d && b in d && d[a] + 1 <= d[b]
    {
      assert a != v;
      assert b in [v] + pending ==> b == v || b in pending;
      if b != v || a != u {
        assert b == v || b !in [v] + pending || a != u;
      }
      if a == u && b == v {
      } else if a != u {
        assert depth[a] + 1 <= depth[b];
      } else {
        assert b !in [v] + pending;
      }
    }
  }

  lemma RelaxDegrees(edges: seq<Edge>, vertices: set<Str>, inDegree: Degrees, order: seq<Str>, pending: seq<Str>, v: Str)
    requires DegreesRight(edges, vertices, inDegree, order, [v] + pending) && v in vertices
    ensures inDegree[v] > 0
    ensures DegreesRight(edges, vertices, inDegree[v := inDegree[v] - 1], order, pending)
  {
    assert multiset([v] + pending) == multiset{v} + multiset(pending);
  }

  lemma RelaxQueue(vertices: set<Str>, inDegree: Degrees, order: seq<Str>, queue: seq<Str>, v: Str)
    requires vertices == inDegree.Keys && v in vertices && v !in order && inDegree[v] > 0
    requires QueueRight(vertices, inDegree, order, queue)
    ensures inDegree[v] > 1 ==> QueueRight(vertices, inDegree[v := inDegree[v] - 1], order, queue)
    ensures inDegree[v] == 1 ==> QueueRight(vertices, inDegree[v := 0], order, SortBy(queue + [v], Self))
    ensures forall x :: x in SortBy(queue + [v], Self) <==> x in queue + [v]
  {
    var q := queue + [v];
    assert v !in queue;
    assert NoDuplicates(q);
    SortBySorts(q, Self);
    SameMembers(SortBy(q, Self), q);
    SortKeepsNoDuplicates(q);
    hide SortBy, SortedBy, NoDuplicates;
  }

  lemma {:induction false} SortKeepsNoDuplicates(q: seq<Str>)
    requires NoDuplicates(q)
    ensures NoDuplicates(SortBy(q, Self))
  {
    assert DistinctKeys(q, Self);
    SortKeepsDistinct(q, Self);
    var s := SortBy(q, Self);
    forall i, j | 0 <= i < j < |s| ensures s[i] != s[j] {
      assert Self(s[i]) != Self(s[j]);
    }
  }

  lemma Relax(edges: seq<Edge>, vertices: set<Str>, inDegree: Degrees, depth: Depths, queue: seq<Str>, order: seq<Str>,
              v: Str, pending: seq<Str>)
    requires Sorting(edges, vertices, inDegree, depth, queue, order, [v] + pending)
    requires order != [] && order[|order| - 1] in depth
    ensures v in inDegree
    ensures
      var d := depth[v := NextDepth(depth, order[|order| - 1], v)];
      var n := inDegree[v] - 1;
      && order[|order| - 1] in d
      && (n == 0 ==> Sorting(edges, vertices, inDegree[v := n], d, SortBy(queue + [v], Self), order, pending))
      && (n != 0 ==> Sorting(edges, vertices, inDegree[v := n], d, queue, order, pending))
  {
    assert forall x :: x in pending ==> x in [v] + pending;
    assert v in [v] + pending;
    PendingUnplaced(EdgeSet(edges), vertices, order, v);
    RelaxDegrees(edges, vertices, inDegree, order, pending, v);
    RelaxQueue(vertices, inDegree, order, queue, v);
    RelaxDepth(EdgeSet(edges), vertices, depth, order, queue, pending, v);
    DepthOverQueue(EdgeSet(edges), vertices, depth[v := NextDepth(depth, order[|order| - 1], v)], order,
                   queue + [v], SortBy(queue + [v], Self), pending);
  }

  lemma DepthOverQueue(edges: set<Edge>, vertices: set<Str>, depth: Depths, order: seq<Str>, q: seq<Str>, s: seq<Str>,
                       pending: seq<Str>)
    requires DepthRight(edges, vertices, depth, order, q, pending)
    requires forall x :: x in s <==> x in q
    ensures DepthRight(edges, vertices, depth, order, s, pending)
  {
    hide HasWalkTo;
  }

  // ---------------------------------------------------------------------------
  // At the end
  // ---------------------------------------------------------------------------

  /** With nothing ready, either everything is placed or the rest has no source. */
  lemma Stuck(edges: seq<Edge>, vertices: set<Str>, inDegree: Degrees, depth: Depths, order: seq<Str>)
    requires Sorting(edges, vertices, inDegree, depth, [], order, [])
    ensures Elements(order) != vertices ==> !Acyclic(EdgeSet(edges), vertices)
  {
    var rest := vertices - Elements(order);
    assert Elements(order) <= vertices;
    if rest == {} {
      assert forall v :: v in vertices ==> v !in rest;
    } else {
      forall v | v in rest ensures HasPredecessor(EdgeSet(edges), rest, v) {
        ReadyMeansAvailable(edges, vertices, inDegree, order, [], v);
        var u :| Edge(u, v) in EdgeSet(edges) && u !in order;
        assert u in rest;
      }
      NoSourceCyclic(EdgeSet(edges), vertices, rest);
    }
  }

  lemma PlacedAll(edges: set<Edge>, vertices: set<Str>, order: seq<Str>)
    requires EdgesWithin(edges, vertices) && OrderRight(edges, vertices, order) && Elements(order) == vertices
    ensures Topological(edges, vertices, order) && Greedy(edges, vertices, order)
  {
    forall i, j | 0 <= i < |order| && 0 <= j < |order| && Edge(order[i], order[j]) in edges
      ensures i < j
    {
      assert Available(edges, vertices, order[..j], order[j]);
      var k :| 0 <= k < j && order[..j][k] == order[i];
      assert order[k] == order[i];
    }
  }

  /** A walk is no longer than the depth of its last vertex allows. */
  lemma {:induction false} WalkWithinDepth(edges: set<Edge>, vertices: set<Str>, depth: Depths, order: seq<Str>, w: seq<Str>)
    requires DepthRight(edges, vertices, depth, order, [], []) && Elements(order) == vertices
    requires IsWalk(edges, vertices, w)
    ensures w[|w| - 1] in depth && |w| <= depth[w[|w| - 1]] + 1
  {
    assert w[|w| - 1] in Elements(order);
    if |w| > 1 {
      WalkSlice(edges, vertices, w, 0, |w| - 1);
      var front := w[0..|w| - 1];
      WalkWithinDepth(edges, vertices, depth, order, front);
      assert Edge(w[|w| - 2], w[|w| - 1]) in edges && w[|w| - 2] in Elements(order);
    }
  }

  /** Math.max over the depths and 0. */
  method MaxValue(depth: Depths) returns (m: nat)
    ensures forall v :: v in depth ==> depth[v] <= m
    ensures m == 0 || exists v :: v in depth && depth[v] == m
  {
    m := 0;
    var rest := depth.Keys;
    while rest != {}
      invariant rest <= depth.Keys
      invariant forall v :: v in depth && v !in rest ==> depth[v] <= m
      invariant m == 0 || exists v :: v in depth && depth[v] == m
      decreases rest
    {
      var v :| v in rest;
      if depth[v] > m {
        m := depth[v];
      }
      rest := rest - {v};
    }
  }

  lemma MaxIsLongestWalk(edges: set<Edge>, vertices: set<Str>, depth: Depths, order: seq<Str>, m: nat)
    requires DepthRight(edges, vertices, depth, order, [], []) && Elements(order) == vertices
    requires forall v :: v in depth ==> depth[v] <= m
    requires m == 0 || exists v :: v in depth && depth[v] == m
    ensures IsLongestWalk(edges, vertices, m)
  {
    forall w | IsWalk(edges, vertices, w) ensures |w| <= m + 1 {
      WalkWithinDepth(edges, vertices, depth, order, w);
    }
    if v :| v in depth {
      assert HasWalkTo(edges, vertices, v, depth[v]);
    }
    if vertices != {} {
      var x :| x in Elements(order);
      var v :| v in depth && depth[v] == m;
      assert HasWalkTo(edges, vertices, v, m);
    }
  }

  // ---------------------------------------------------------------------------
  // The method
  // ---------------------------------------------------------------------------

  datatype Sorted = Ordered(order: seq<Str>, maxDepth: nat) | Unordered

  method CountEdges(edges: seq<Edge>, ids: seq<Str>) returns (inDegree: Degrees)
    requires EdgesWithin(EdgeSet(edges), Elements(ids))
    ensures DegreesRight(edges, Elements(ids), inDegree, [], [])
  {
    inDegree := map id | id in ids :: 0;
    var i := 0;
    while i < |edges|
      invariant 0 <= i <= |edges|
      invariant inDegree.Keys == Elements(ids)
      invariant forall v :: v in inDegree ==> inDegree[v] == InDegree(edges[..i], {}, v)
    {
      var e := edges[i];
      assert e in EdgeSet(edges);
      assert edges[..i + 1][..i] == edges[..i];
      inDegree := inDegree[e.to := inDegree[e.to] + 1];
      i := i + 1;
    }
    assert edges[..i] == edges;
    assert Elements([]) == {};
  }

  method ReadyIds(ids: seq<Str>, inDegree: Degrees) returns (queue: seq<Str>)
    requires inDegree.Keys == Elements(ids)
    ensures forall v :: v in queue ==> v in ids
    ensures NoDuplicates(ids) ==> QueueRight(Elements(ids), inDegree, [], queue)
  {
    var ready: seq<Str> := [];
    var i := 0;
    while i < |ids|
      invariant 0 <= i <= |ids|
      invariant NoDuplicates(ids) ==> NoDuplicates(ready)
      invariant forall v :: v in ready <==> v in ids[..i] && inDegree[v] == 0
    {
      assert ids[i] in Elements(ids);
      assert NoDuplicates(ids) ==> ids[i] !in ids[..i];
      if inDegree[ids[i]] == 0 {
        ready := ready + [ids[i]];
      }
      assert ids[..i + 1] == ids[..i] + [ids[i]];
      i := i + 1;
    }
    assert ids[..i] == ids;
    queue := SortBy(ready, Self);
    SortBySorts(ready, Self);
    SameMembers(queue, ready);
    if NoDuplicates(ids) {
      SortKeepsNoDuplicates(ready);
    }
  }

  lemma SameMembers(a: seq<Str>, b: seq<Str>)
    requires multiset(a) == multiset(b)
    ensures |a| == |b| && forall v :: v in a <==> v in b
  {
    assert |a| == |multiset(a)| == |multiset(b)| == |b|;
    assert forall v :: v in a <==> v in multiset(a);
    assert forall v :: v in b <==> v in multiset(b);
  }

  lemma StartState(edges: seq<Edge>, ids: seq<Str>, inDegree: Degrees, queue: seq<Str>)
    requires EdgesWithin(EdgeSet(edges), Elements(ids))
    requires DegreesRight(edges, Elements(ids), inDegree, [], []) && QueueRight(Elements(ids), inDegree, [], queue)
    ensures Sorting(edges, Elements(ids), inDegree, map id | id in queue :: 0, queue, [], [])
  {
    forall v | v in queue ensures HasWalkTo(EdgeSet(edges), Elements(ids), v, 0) {
      assert IsWalk(EdgeSet(edges), Elements(ids), [v]);
    }
  }

  // Each turn of the outer loop takes a vertex off the queue, and a vertex is put on it only when
  // its degree drops to zero.

  ghost function Positive(inDegree: Degrees): set<Str> {
    set v | v in inDegree && inDegree[v] > 0
  }

  ghost function Work(inDegree: Degrees, queue: seq<Str>): nat {
    |Positive(inDegree)| + |queue|
  }

  lemma Decrement(inDegree: Degrees, queue: seq<Str>, v: Str)
    requires v in inDegree
    ensures
      var n := inDegree[v] - 1;
      Work(inDegree[v := n], if n == 0 then SortBy(queue + [v], Self) else queue) <= Work(inDegree, queue)
  {
    var n := inDegree[v] - 1;
    var before, after := Positive(inDegree), Positive(inDegree[v := n]);
    if n > 0 {
      assert after == before;
    } else {
      assert after == before - {v};
      assert n == 0 ==> v in before;
    }
  }

  /** The inner loop: the edges out of u, the vertex placed last. */
  method RelaxAll(ghost distinct: bool, ghost edges: seq<Edge>, ghost vertices: set<Str>, inDegree0: Degrees, depth0: Depths,
                  queue0: seq<Str>, ghost order: seq<Str>, u: Str, neighbors: seq<Str>)
    returns (inDegree: Degrees, depth: Depths, queue: seq<Str>)
    requires vertices == inDegree0.Keys && (forall v :: v in queue0 || v in neighbors ==> v in vertices)
    requires distinct ==> Sorting(edges, vertices, inDegree0, depth0, queue0, order, neighbors)
    requires distinct ==> order != [] && order[|order| - 1] == u && u in depth0
    ensures vertices == inDegree.Keys && (forall v :: v in queue ==> v in vertices)
    ensures Work(inDegree, queue) <= Work(inDegree0, queue0)
    ensures distinct ==> Sorting(edges, vertices, inDegree, depth, queue, order, [])
  {
    hide *;
    inDegree, depth, queue := inDegree0, depth0, queue0;
    var i := 0;
    assert neighbors[0..] == neighbors;
    while i < |neighbors|
      invariant 0 <= i <= |neighbors|
      invariant vertices == inDegree.Keys && (forall v :: v in queue ==> v in vertices)
      invariant Work(inDegree, queue) <= Work(inDegree0, queue0)
      invariant distinct ==> Sorting(edges, vertices, inDegree, depth, queue, order, neighbors[i..])
      invariant distinct ==> u in depth
    {
      var v := neighbors[i];
      if distinct {
        Uncons(neighbors, i);
        Relax(edges, vertices, inDegree, depth, queue, order, v, neighbors[i + 1..]);
      }
      Decrement(inDegree, queue, v);
      var newDeg := inDegree[v] - 1;
      inDegree := inDegree[v := newDeg];
      depth := depth[v := NextDepth(depth, u, v)];
      if newDeg == 0 {
        SameMembers(SortBy(queue + [v], Self), queue + [v]);
        queue := SortBy(queue + [v], Self);
      }
      i := i + 1;
    }
    assert neighbors[i..] == [];
  }

  /**
    topologicalSort: for distinct ids it returns the lexicographically least order in which every
    edge's source precedes its target, and the length of the longest walk; it returns no
    order exactly when the graph has a cycle. It terminates on repeated ids as well.
   */
  method TopologicalSort(edges: seq<Edge>, ids: seq<Str>) returns (r: Sorted)
    requires EdgesWithin(EdgeSet(edges), Elements(ids))
    ensures r.Ordered? ==> |r.order| == |ids| && forall v :: v in r.order ==> v in ids
    ensures NoDuplicates(ids) ==> (r.Unordered? <==> !Acyclic(EdgeSet(edges), Elements(ids)))
    ensures NoDuplicates(ids) && r.Ordered? ==>
      && IsLeastOrder(EdgeSet(edges), Elements(ids), r.order)
      && IsLongestWalk(EdgeSet(edges), Elements(ids), r.maxDepth)
  {
    hide *;
    var inDegree := CountEdges(edges, ids);
    var adj := BuildAdjacency(edges, ids);
    var queue := ReadyIds(ids, inDegree);
    var order: seq<Str> := [];
    var depth: Depths := map id | id in queue :: 0;
    ghost var vertices, distinct := Elements(ids), NoDuplicates(ids);
    if distinct {
      StartState(edges, ids, inDegree, queue);
    }
    InElements(ids);
    while queue != []
      invariant vertices == inDegree.Keys && (forall v :: v in queue || v in order ==> v in vertices)
      invariant distinct ==> Sorting(edges, vertices, inDegree, depth, queue, order, [])
      decreases Work(inDegree, queue)
    {
      var u := queue[0];
      var neighbors := SortBy(adj[u], Self);
      SameMembers(neighbors, adj[u]);
      TargetsWithin(edges, vertices, u);
      if distinct {
        Place(edges, vertices, inDegree, depth, queue, order, neighbors);
      }
      order := order + [u];
      LessWork(inDegree, queue);
      inDegree, depth, queue := RelaxAll(distinct, edges, vertices, inDegree, depth, queue[1..], order, u, neighbors);
    }
    if distinct {
      Outcome(edges, ids, inDegree, depth, order);
    }
    if |order| != |ids| {
      return Unordered;
    }
    var maxDepth := MaxValue(depth);
    if distinct {
      MaxOutcome(edges, vertices, inDegree, depth, order, maxDepth);
    }
    r := Ordered(order, maxDepth);
  }

  lemma InElements(ids: seq<Str>)
    ensures forall v :: v in Elements(ids) <==> v in ids
  {
  }

  lemma LessWork(inDegree: Degrees, queue: seq<Str>)
    requires queue != []
    ensures Work(inDegree, queue[1..]) < Work(inDegree, queue)
  {
  }

  lemma TargetsWithin(edges: seq<Edge>, vertices: set<Str>, u: Str)
    requires EdgesWithin(EdgeSet(edges), vertices)
    ensures forall v :: v in Targets(edges, u) ==> v in vertices
  {
    TargetsAreSuccessors(edges, u);
    assert forall e :: e in edges ==> e in EdgeSet(edges);
  }

  lemma Uncons(s: seq<Str>, i: nat)
    requires i < |s|
    ensures s[i..] == [s[i]] + s[i + 1..]
  {
  }

  lemma Outcome(edges: seq<Edge>, ids: seq<Str>, inDegree: Degrees, depth: Depths, order: seq<Str>)
    requires NoDuplicates(ids) && Sorting(edges, Elements(ids), inDegree, depth, [], order, [])
    ensures |order| == |ids| <==> Acyclic(EdgeSet(edges), Elements(ids))
    ensures |order| == |ids| ==> Elements(order) == Elements(ids)
    ensures |order| == |ids| ==> IsLeastOrder(EdgeSet(edges), Elements(ids), order)
  {
    DistinctLength(order);
    DistinctLength(ids);
    if |order| == |ids| {
      SubsetSameSize(Elements(order), Elements(ids));
      PlacedAll(EdgeSet(edges), Elements(ids), order);
      TopologicalAcyclic(EdgeSet(edges), Elements(ids), order);
      GreedyIsLeast(EdgeSet(edges), Elements(ids), order);
    } else {
      assert Elements(order) != Elements(ids);
      Stuck(edges, Elements(ids), inDegree, depth, order);
    }
  }

  lemma MaxOutcome(edges: seq<Edge>, vertices: set<Str>, inDegree: Degrees, depth: Depths, order: seq<Str>, m: nat)
    requires Sorting(edges, vertices, inDegree, depth, [], order, []) && Elements(order) == vertices
    requires forall v :: v in depth ==> depth[v] <= m
    requires m == 0 || exists v :: v in depth && depth[v] == m
    ensures IsLongestWalk(EdgeSet(edges), vertices, m)
  {
    MaxIsLongestWalk(EdgeSet(edges), vertices, depth, order, m);
  }
}
