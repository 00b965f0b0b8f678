/**
  detectCycle of src/component-runtime/resolver.ts: a depth-first search in three colours.
 */
module CycleFinder {
  import opened Text
  import opened Graphs

  ghost function EdgeSet(edges: seq<Edge>): set<Edge> {
    set e | e in edges
  }

  /** The adjacency list of u: the targets of its edges, in the order of the edges. */
  function Targets(edges: seq<Edge>, u: Str): seq<Str> {
    if edges == [] then []
    else
      var e := edges[|edges| - 1];
      Targets(edges[..|edges| - 1], u) + (if e.from == u then [e.to] else [])
  }

  lemma {:induction false} TargetsAreSuccessors(edges: seq<Edge>, u: Str)
    ensures forall v :: v in Targets(edges, u) <==> Edge(u, v) in edges
  {
    if edges != [] {
      TargetsAreSuccessors(edges[..|edges| - 1], u);
      assert edges == edges[..|edges| - 1] + [edges[|edges| - 1]];
    }
  }

  /** The adjacency map; edges that leave a vertex outside ids are dropped. */
  method BuildAdjacency(edges: seq<Edge>, ids: seq<Str>) returns (adj: map<Str, seq<Str>>)
    ensures adj.Keys == Elements(ids)
    ensures forall u :: u in adj ==> adj[u] == Targets(edges, u)
  {
    adj := map id | id in ids :: [];
    var i := 0;
    while i < |edges|
      invariant 0 <= i <= |edges|
      invariant adj.Keys == Elements(ids)
      invariant forall u :: u in adj ==> adj[u] == Targets(edges[..i], u)
    {
      var e := edges[i];
      assert edges[..i + 1][..i] == edges[..i];
      if e.from in adj {
        adj := adj[e.from := adj[e.from] + [e.to]];
      }
      i := i + 1;
    }
    assert edges[..i] == edges;
  }

  datatype Color = White | Gray | Black

  type Coloring = map<Str, Color>

  /**
    The search is in order: the gray vertices are the walk being explored, the black ones are
    listed as they finished, and whatever a black vertex points to finished before it.
   */
  ghost predicate Consistent(edges: set<Edge>, color: Coloring, path: seq<Str>, finished: seq<Str>) {
    && NoDuplicates(path) && NoDuplicates(finished)
    && (forall v :: v in path <==> v in color && color[v] == Gray)
    && (forall v :: v in finished <==> v in color && color[v] == Black)
    && (path == [] || IsWalk(edges, color.Keys, path))
    && FinishedClosed(edges, color.Keys, finished)
  }

  ghost predicate FinishedClosed(edges: set<Edge>, vertices: set<Str>, finished: seq<Str>) {
    forall i, v :: 0 <= i < |finished| && Edge(finished[i], v) in edges && v in vertices ==> v in finished[..i]
  }

  lemma ColorsRead(edges: set<Edge>, color: Coloring, path: seq<Str>, finished: seq<Str>, v: Str)
    requires Consistent(edges, color, path, finished) && v in color
    ensures color[v] == Gray <==> v in path
    ensures color[v] == Black <==> v in finished
    ensures path == [] || IsWalk(edges, color.Keys, path)
  {
  }

  lemma StartVertex(edges: set<Edge>, color: Coloring, path: seq<Str>, finished: seq<Str>, u: Str)
    requires Consistent(edges, color, path, finished) && u in color && color[u] == White
    requires path == [] || Edge(path[|path| - 1], u) in edges
    ensures Consistent(edges, color[u := Gray], path + [u], finished)
  {
    var c := color[u := Gray];
    assert c.Keys == color.Keys;
    if path != [] {
      WalkSnoc(edges, color.Keys, path, u);
    }
    assert u !in path && u !in finished;
  }

  lemma FinishVertex(edges: set<Edge>, color: Coloring, path: seq<Str>, finished: seq<Str>, u: Str)
    requires Consistent(edges, color, path + [u], finished)
    requires forall v :: Edge(u, v) in edges && v in color ==> v in finished
    ensures u in color && Consistent(edges, color[u := Black], path, finished + [u])
  {
    var whole := path + [u];
    assert whole[|path|] == u && u in whole;
    var c := color[u := Black];
    assert c.Keys == color.Keys;
    assert NoDuplicates(path) && u !in path by {
      assert forall i :: 0 <= i < |path| ==> whole[i] == path[i];
    }
    if path != [] {
      WalkSlice(edges, color.Keys, whole, 0, |path|);
      assert whole[0..|path|] == path;
    }
    assert u !in finished;
    FinishedSnoc(edges, c.Keys, finished, u);
  }

  lemma FinishedSnoc(edges: set<Edge>, vertices: set<Str>, finished: seq<Str>, u: Str)
    requires FinishedClosed(edges, vertices, finished)
    requires forall v :: Edge(u, v) in edges && v in vertices ==> v in finished
    ensures FinishedClosed(edges, vertices, finished + [u])
  {
    var f := finished + [u];
    forall i, v | 0 <= i < |f| && Edge(f[i], v) in edges && v in vertices
      ensures v in f[..i]
    {
      assert i < |finished| ==> f[..i] == finished[..i] && f[i] == finished[i];
      assert i == |finished| ==> f[..i] == finished;
    }
  }

  ghost function Whites(color: Coloring): set<Str> {
    set v | v in color && color[v] == White
  }

  lemma WhitesShrink(color: Coloring, u: Str)
    requires u in color && color[u] == White
    ensures Whites(color[u := Gray]) < Whites(color)
  {
    assert u in Whites(color) && u !in Whites(color[u := Gray]);
  }

  /** The closure of detectCycle: the adjacency map and what its dfs updates. */
  class Search {
    const edges: seq<Edge>
    const adj: map<Str, seq<Str>>
    var color: Coloring
    var path: seq<Str>
    var cyclePath: seq<Str>
    ghost var finished: seq<Str>  // black vertices in the order they turned black

    ghost predicate Valid()
      reads this
    {
      && color.Keys == adj.Keys
      && (forall u :: u in adj ==> adj[u] == Targets(edges, u))
      && Consistent(EdgeSet(edges), color, path, finished)
    }

    constructor (edges: seq<Edge>, adj: map<Str, seq<Str>>)
      requires forall u :: u in adj ==> adj[u] == Targets(edges, u)
      ensures Valid() && path == [] && finished == []
      ensures this.edges == edges && this.adj == adj
    {
      this.edges := edges;
      this.adj := adj;
      color := map v | v in adj :: White;
      path := [];
      cyclePath := [];
      finished := [];
    }

    /** Visits u; afterwards either a cycle is recorded, or u is black and the path is as before. */
    method Dfs(u: Str) returns (found: bool)
      requires Valid() && u in color && color[u] == White
      requires path == [] || Edge(path[|path| - 1], u) in EdgeSet(edges)
      modifies this
      ensures found ==> IsClosedWalk(EdgeSet(edges), adj.Keys, cyclePath)
      ensures !found ==> Valid() && path == old(path) && u in finished && old(finished) <= finished
      ensures !found ==> Whites(color) < Whites(old(color))
      decreases Whites(color)
    {
      hide Consistent, Targets, Whites, IsWalk, EdgeSet;
      StartVertex(EdgeSet(edges), color, path, finished, u);
      WhitesShrink(color, u);
      color := color[u := Gray];
      path := path + [u];
      EdgesOut(edges, u);
      var i := 0;
      while i < |adj[u]|
        invariant 0 <= i <= |adj[u]|
        invariant Valid() && path == old(path) + [u]
        invariant old(finished) <= finished && Whites(color) < Whites(old(color))
        invariant forall j :: 0 <= j < i && adj[u][j] in adj ==> adj[u][j] in finished
      {
        var v := adj[u][i];
        if v in color {
          ColorsRead(EdgeSet(edges), color, path, finished, v);
          if color[v] == Gray {
            var idx := IndexOf(path, v);
            CloseWalk(EdgeSet(edges), adj.Keys, path, idx);
            cyclePath := path[idx..] + [v];
            return true;
          }
          if color[v] == White {
            found := Dfs(v);
            if found {
              return;
            }
          }
        }
        i := i + 1;
      }
      FinishVertex(EdgeSet(edges), color, path[..|path| - 1], finished, u) by {
        assert path[..|path| - 1] + [u] == path;
      }
      BlackenKeepsWhites(color, u);
      path := path[..|path| - 1];
      color := color[u := Black];
      finished := finished + [u];
      found := false;
    }
  }

  lemma EdgesOut(edges: seq<Edge>, u: Str)
    ensures forall v :: Edge(u, v) in EdgeSet(edges) <==> v in Targets(edges, u)
  {
    TargetsAreSuccessors(edges, u);
  }

  lemma BlackenKeepsWhites(color: Coloring, u: Str)
    requires u in color
    ensures Whites(color[u := Black]) <= Whites(color)
  {
  }

  /** The walk from position idx on, closed by an edge back to its start. */
  lemma CloseWalk(edges: set<Edge>, vertices: set<Str>, path: seq<Str>, idx: nat)
    requires idx < |path| && IsWalk(edges, vertices, path)
    requires Edge(path[|path| - 1], path[idx]) in edges
    ensures IsClosedWalk(edges, vertices, path[idx..] + [path[idx]])
  {
    WalkSlice(edges, vertices, path, idx, |path|);
    assert path[idx..|path|] == path[idx..];
    WalkSnoc(edges, vertices, path[idx..], path[idx]);
  }

  method IndexOf(path: seq<Str>, v: Str) returns (i: nat)
    requires v in path
    ensures i < |path| && path[i] == v
  {
    i := 0;
    while path[i] != v
      invariant i < |path| && v in path[i..]
      decreases |path| - i
    {
      i := i + 1;
    }
  }

  /** When every successor in the graph is finished earlier, there is no cycle. */
  lemma FinishedAcyclic(edges: set<Edge>, vertices: set<Str>, finished: seq<Str>)
    requires NoDuplicates(finished) && vertices == Elements(finished)
    requires FinishedClosed(edges, vertices, finished)
    ensures Acyclic(edges, vertices)
  {
    var position := PositionMap(finished);
    var rank := map v | v in position :: -position[v];
    forall e | e in edges && e.from in vertices && e.to in vertices
      ensures rank[e.from] < rank[e.to]
    {
      var i := position[e.from];
      assert Edge(finished[i], e.to) in edges;
      var j :| 0 <= j < i && finished[..i][j] == e.to;
      assert finished[j] == e.to && position[e.to] == j;
    }
    RankedAcyclic(edges, vertices, rank);
  }

  /** All vertices are black at the end. */
  lemma AllFinished(edges: set<Edge>, color: Coloring, path: seq<Str>, finished: seq<Str>)
    requires Consistent(edges, color, path, finished) && forall v :: v in color ==> v in finished
    ensures Acyclic(edges, color.Keys)
  {
    assert color.Keys == Elements(finished);
    FinishedAcyclic(edges, color.Keys, finished);
  }

  datatype CycleResult = Cycle(path: seq<Str>) | NoCycle

  /**
    detectCycle: a reported path is a closed walk along real edges; no report means the graph
    on the given ids has no cycle.
   */
  method DetectCycle(edges: seq<Edge>, componentIds: seq<Str>) returns (r: CycleResult)
    ensures r.Cycle? ==> IsClosedWalk(EdgeSet(edges), Elements(componentIds), r.path)
    ensures r.NoCycle? ==> Acyclic(EdgeSet(edges), Elements(componentIds))
  {
    hide Consistent, Targets;
    var adj := BuildAdjacency(edges, componentIds);
    var search := new Search(edges, adj);
    var i := 0;
    while i < |componentIds|
      invariant 0 <= i <= |componentIds|
      invariant search.Valid() && search.path == []
      invariant forall j :: 0 <= j < i ==> componentIds[j] in search.finished
    {
      var id := componentIds[i];
      assert id in Elements(componentIds);
      ColorsRead(EdgeSet(edges), search.color, search.path, search.finished, id);
      if search.color[id] == White {
        var found := search.Dfs(id);
        if found {
          return Cycle(search.cyclePath);
        }
      }
      i := i + 1;
    }
    AllFinished(EdgeSet(edges), search.color, search.path, search.finished);
    r := NoCycle;
  }
}
