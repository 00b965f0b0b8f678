/**
  Directed graphs over identifiers: walks, cycles and topological orders. The definitions
  the two dependency sorters are measured against.
 */
module Graphs {
  import opened Text

  datatype Edge = Edge(from: Str, to: Str)

  ghost function Elements(ids: seq<Str>): set<Str> {
    set id | id in ids
  }

  /** A nonempty sequence of vertices, each joined to the next by an edge. */
  ghost predicate IsWalk(edges: set<Edge>, vertices: set<Str>, w: seq<Str>) {
    && w != []
    && (forall i :: 0 <= i < |w| ==> w[i] in vertices)
    && (forall i, j :: 0 <= i && j == i + 1 && j < |w| ==> Edge(w[i], w[j]) in edges)
  }

  ghost predicate IsClosedWalk(edges: set<Edge>, vertices: set<Str>, w: seq<Str>) {
    IsWalk(edges, vertices, w) && |w| >= 2 && w[0] == w[|w| - 1]
  }

  ghost predicate Acyclic(edges: set<Edge>, vertices: set<Str>) {
    forall w :: !IsClosedWalk(edges, vertices, w)
  }

  ghost predicate EdgesWithin(edges: set<Edge>, vertices: set<Str>) {
    forall e :: e in edges ==> e.from in vertices && e.to in vertices
  }

  /** The order lists every vertex once and every edge points forward in it. */
  ghost predicate Topological(edges: set<Edge>, vertices: set<Str>, order: seq<Str>) {
    && NoDuplicates(order) && Elements(order) == vertices
    && (forall i, j :: 0 <= i < |order| && 0 <= j < |order| && Edge(order[i], order[j]) in edges ==> i < j)
  }

  // ---------------------------------------------------------------------------
  // Ranks rule out cycles
  // ---------------------------------------------------------------------------

  /** Edges go up in rank. */
  ghost predicate Ranked(edges: set<Edge>, vertices: set<Str>, rank: map<Str, int>) {
    && vertices <= rank.Keys
    && (forall e :: e in edges && e.from in vertices && e.to in vertices ==> rank[e.from] < rank[e.to])
  }

  lemma {:induction false} RankGrows(edges: set<Edge>, vertices: set<Str>, rank: map<Str, int>, w: seq<Str>)
    requires Ranked(edges, vertices, rank) && IsWalk(edges, vertices, w)
    ensures rank[w[0]] + |w| - 1 <= rank[w[|w| - 1]]
  {
    if |w| > 1 {
      var front := w[..|w| - 1];
      assert IsWalk(edges, vertices, front);
      RankGrows(edges, vertices, rank, front);
      assert Edge(w[|w| - 2], w[|w| - 1]) in edges;
    }
  }

  lemma RankedAcyclic(edges: set<Edge>, vertices: set<Str>, rank: map<Str, int>)
    requires Ranked(edges, vertices, rank)
    ensures Acyclic(edges, vertices)
  {
    forall w | IsClosedWalk(edges, vertices, w)
      ensures false
    {
      RankGrows(edges, vertices, rank, w);
    }
  }

  /** Position in a duplicate-free sequence. */
  lemma {:induction false} PositionMap(order: seq<Str>) returns (rank: map<Str, int>)
    requires NoDuplicates(order)
    ensures rank.Keys == Elements(order)
    ensures forall i :: 0 <= i < |order| ==> rank[order[i]] == i
    ensures forall v :: v in rank ==> 0 <= rank[v] < |order| && order[rank[v]] == v
  {
    if order == [] {
      rank := map[];
    } else {
      var n := |order| - 1;
      rank := PositionMap(order[..n]);
      rank := rank[order[n] := n];
      assert order == order[..n] + [order[n]];
    }
  }

  lemma TopologicalAcyclic(edges: set<Edge>, vertices: set<Str>, order: seq<Str>)
    requires Topological(edges, vertices, order)
    ensures Acyclic(edges, vertices)
  {
    var rank := PositionMap(order);
    RankedAcyclic(edges, vertices, rank);
  }

  // ---------------------------------------------------------------------------
  // Without a source vertex there is a cycle
  // ---------------------------------------------------------------------------

  lemma {:induction false} Pigeonhole(w: seq<Str>, s: set<Str>)
    requires |w| > |s| && forall i :: 0 <= i < |w| ==> w[i] in s
    ensures exists i, j :: 0 <= i < j < |w| && w[i] == w[j]
  {
    var last := w[|w| - 1];
    if i :| 0 <= i < |w| - 1 && w[i] == last {
    } else {
      var front := w[..|w| - 1];
      Pigeonhole(front, s - {last});
      var i, j :| 0 <= i < j < |front| && front[i] == front[j];
      assert w[i] == w[j];
    }
  }

  lemma WalkCons(edges: set<Edge>, vertices: set<Str>, u: Str, w: seq<Str>)
    requires IsWalk(edges, vertices, w) && u in vertices && Edge(u, w[0]) in edges
    ensures IsWalk(edges, vertices, [u] + w)
  {
    var c := [u] + w;
    assert forall i :: 1 <= i < |c| ==> c[i] == w[i - 1];
  }

  lemma WalkSnoc(edges: set<Edge>, vertices: set<Str>, w: seq<Str>, v: Str)
    requires IsWalk(edges, vertices, w) && v in vertices && Edge(w[|w| - 1], v) in edges
    ensures IsWalk(edges, vertices, w + [v])
  {
  }

  lemma WalkSlice(edges: set<Edge>, vertices: set<Str>, w: seq<Str>, i: nat, j: nat)
    requires IsWalk(edges, vertices, w) && i < j <= |w|
    ensures IsWalk(edges, vertices, w[i..j])
  {
    var c := w[i..j];
    assert forall k :: 0 <= k < |c| ==> c[k] == w[i + k];
    assert forall k, l :: 0 <= k && l == k + 1 && l < |c| ==> c[k] == w[i + k] && c[l] == w[i + k + 1];
  }

  ghost predicate HasPredecessor(edges: set<Edge>, s: set<Str>, v: Str) {
    exists u :: u in s && Edge(u, v) in edges
  }

  /** Every vertex of s has a predecessor in s. */
  ghost predicate NoSource(edges: set<Edge>, s: set<Str>) {
    forall v {:trigger HasPredecessor(edges, s, v)} :: v in s ==> HasPredecessor(edges, s, v)
  }

  lemma {:induction false} BackwardWalk(edges: set<Edge>, s: set<Str>, n: nat) returns (w: seq<Str>)
    requires s != {} && NoSource(edges, s)
    ensures |w| == n + 1 && IsWalk(edges, s, w)
  {
    if n == 0 {
      var v :| v in s;
      w := [v];
    } else {
      var tail := BackwardWalk(edges, s, n - 1);
      assert HasPredecessor(edges, s, tail[0]);
      var u :| u in s && Edge(u, tail[0]) in edges;
      WalkCons(edges, s, u, tail);
      w := [u] + tail;
    }
  }

  lemma NoSourceCyclic(edges: set<Edge>, vertices: set<Str>, s: set<Str>)
    requires s != {} && s <= vertices && NoSource(edges, s)
    ensures !Acyclic(edges, vertices)
  {
    var w := BackwardWalk(edges, s, |s|);
    Pigeonhole(w, s);
    var i, j :| 0 <= i < j < |w| && w[i] == w[j];
    assert IsWalk(edges, vertices, w);
    WalkSlice(edges, vertices, w, i, j + 1);
    assert IsClosedWalk(edges, vertices, w[i..j + 1]);
  }

  // ---------------------------------------------------------------------------
  // The lexicographically least topological order
  // ---------------------------------------------------------------------------

  /** v may come next once the vertices in placed have been listed. */
  ghost predicate Available(edges: set<Edge>, vertices: set<Str>, placed: seq<Str>, v: Str) {
    v in vertices && v !in placed && forall u :: Edge(u, v) in edges ==> u in placed
  }

  /** Each listed vertex is the least of those available at its turn. */
  ghost predicate Greedy(edges: set<Edge>, vertices: set<Str>, order: seq<Str>) {
    forall k, v :: 0 <= k < |order| && Available(edges, vertices, order[..k], v) ==> AtMost(order[k], v)
  }

  ghost predicate LexLess(a: seq<Str>, b: seq<Str>) {
    exists k :: 0 <= k < |a| && k < |b| && a[..k] == b[..k] && Less(a[k], b[k])
  }

  lemma {:induction false} FirstDifference(a: seq<Str>, b: seq<Str>) returns (k: nat)
    requires |a| == |b| && a != b
    ensures k < |a| && a[..k] == b[..k] && a[k] != b[k]
  {
    if a[0] != b[0] {
      k := 0;
    } else {
      var j := FirstDifference(a[1..], b[1..]);
      k := j + 1;
      assert a[..k] == [a[0]] + a[1..][..j] && b[..k] == [b[0]] + b[1..][..j];
    }
  }

  lemma {:induction false} DistinctLength(ids: seq<Str>)
    requires NoDuplicates(ids)
    ensures |Elements(ids)| == |ids|
  {
    if ids != [] {
      DistinctLength(ids[1..]);
      assert Elements(ids) == {ids[0]} + Elements(ids[1..]);
      assert ids[0] !in ids[1..];
    }
  }

  /** In a topological order whatever comes next is available. */
  lemma NextIsAvailable(edges: set<Edge>, vertices: set<Str>, order: seq<Str>, k: nat)
    requires EdgesWithin(edges, vertices) && Topological(edges, vertices, order) && k < |order|
    ensures Available(edges, vertices, order[..k], order[k])
  {
    assert order[k] in Elements(order);
    forall u | Edge(u, order[k]) in edges
      ensures u in order[..k]
    {
      assert u in Elements(order);
      var i :| 0 <= i < |order| && order[i] == u;
      assert order[..k][i] == u;
    }
  }

  lemma GreedyBefore(edges: set<Edge>, vertices: set<Str>, order: seq<Str>, other: seq<Str>)
    requires EdgesWithin(edges, vertices)
    requires Topological(edges, vertices, order) && Greedy(edges, vertices, order)
    requires Topological(edges, vertices, other)
    ensures other == order || LexLess(order, other)
  {
    DistinctLength(order);
    DistinctLength(other);
    if other != order {
      var k := FirstDifference(order, other);
      NextIsAvailable(edges, vertices, other, k);
      assert Available(edges, vertices, order[..k], other[k]);
    }
  }

  /** Taking the least available vertex at every turn yields the least order. */
  lemma GreedyIsLeast(edges: set<Edge>, vertices: set<Str>, order: seq<Str>)
    requires EdgesWithin(edges, vertices)
    requires Topological(edges, vertices, order) && Greedy(edges, vertices, order)
    ensures IsLeastOrder(edges, vertices, order)
  {
    forall other | Topological(edges, vertices, other)
      ensures other == order || LexLess(order, other)
    {
      GreedyBefore(edges, vertices, order, other);
    }
  }

  lemma LexLessAsymmetric(a: seq<Str>, b: seq<Str>)
    requires LexLess(a, b)
    ensures !LexLess(b, a)
  {
    var k :| 0 <= k < |a| && k < |b| && a[..k] == b[..k] && Less(a[k], b[k]);
    LessAsymmetric(a[k], b[k]);
    if LexLess(b, a) {
      var j :| 0 <= j < |b| && j < |a| && b[..j] == a[..j] && Less(b[j], a[j]);
      if j < k {
        assert a[..k][j] == b[..k][j];
        LessIrreflexive(a[j]);
      }
    }
  }

  /** The order is topological and precedes every other topological order lexicographically. */
  ghost predicate IsLeastOrder(edges: set<Edge>, vertices: set<Str>, order: seq<Str>) {
    && Topological(edges, vertices, order)
    && (forall other :: Topological(edges, vertices, other) ==> other == order || LexLess(order, other))
  }

  /** So the least order depends on the graph alone. */
  lemma LeastOrderUnique(edges: set<Edge>, vertices: set<Str>, a: seq<Str>, b: seq<Str>)
    requires IsLeastOrder(edges, vertices, a) && IsLeastOrder(edges, vertices, b)
    ensures a == b
  {
    if a != b {
      LexLessAsymmetric(a, b);
    }
  }

  // ---------------------------------------------------------------------------
  // Longest walks
  // ---------------------------------------------------------------------------

  /** n is the number of edges of the longest walk, or 0 where there is none. */
  ghost predicate IsLongestWalk(edges: set<Edge>, vertices: set<Str>, n: nat) {
    && (forall w :: IsWalk(edges, vertices, w) ==> |w| <= n + 1)
    && (vertices != {} ==> exists w :: IsWalk(edges, vertices, w) && |w| == n + 1)
    && (vertices == {} ==> n == 0)
  }

  lemma LongestWalkUnique(edges: set<Edge>, vertices: set<Str>, m: nat, n: nat)
    requires IsLongestWalk(edges, vertices, m) && IsLongestWalk(edges, vertices, n)
    ensures m == n
  {
    if vertices != {} {
      var v :| IsWalk(edges, vertices, v) && |v| == m + 1;
      var w :| IsWalk(edges, vertices, w) && |w| == n + 1;
    }
  }
}
