/**
  Positions in the caller's graph, and why a successful walk means that the reachable part is a
  tree.
 */
module WalkReach {
  import opened Text
  import opened Unicode
  import opened Json
  import opened Walk
  import opened WalkSpec

  datatype Position = Reached(x: Input) | Nowhere

  /** The value at the end of a path of child indices. */
  ghost function Follow(g: Graph, x: Input, path: seq<nat>): Position
    decreases path
  {
    if path == [] then Reached(x)
    else if x.Ref? && x.id in g && path[0] < |Kids(g[x.id])| then Follow(g, Kids(g[x.id])[path[0]], path[1..])
    else Nowhere
  }

  /** No plain object or array is reached along two different paths; in particular there is no cycle. */
  ghost predicate TreeLike(g: Graph, x: Input) {
    forall p, q :: Follow(g, x, p) == Follow(g, x, q) && IsNode(g, Follow(g, x, p)) ==> p == q
  }

  ghost predicate IsNode(g: Graph, p: Position) {
    p.Reached? && p.x.Ref? && p.x.id in g
  }

  ghost function Down(k: nat, p: seq<nat>): seq<nat> {
    [k] + p
  }

  // ---------------------------------------------------------------------------
  // The listed objects are the reachable ones
  // ---------------------------------------------------------------------------

  lemma FollowStep(g: Graph, id: Id, k: nat, p: seq<nat>)
    requires id in g && k < |Kids(g[id])|
    ensures Follow(g, Ref(id), Down(k, p)) == Follow(g, Kids(g[id])[k], p)
  {
    assert Down(k, p)[1..] == p;
  }

  lemma {:induction false} IdsAllMember(g: Graph, xs: seq<Input>, cs: seq<Json>, id: Id)
    requires |xs| == |cs|
    ensures id in IdsAll(g, xs, cs) <==> exists k :: 0 <= k < |xs| && id in Ids(g, xs[k], cs[k])
  {
    if xs != [] {
      IdsAllMember(g, xs[1..], cs[1..], id);
      if k :| 0 <= k < |xs| && id in Ids(g, xs[k], cs[k]) {
        assert k > 0 ==> xs[k] == xs[1..][k - 1] && cs[k] == cs[1..][k - 1];
      }
      if k :| 0 <= k < |xs[1..]| && id in Ids(g, xs[1..][k], cs[1..][k]) {
        assert xs[k + 1] == xs[1..][k] && cs[k + 1] == cs[1..][k];
      }
    }
  }

  lemma {:induction false} ReachedIsListed(g: Graph, x: Input, c: Json, p: seq<nat>)
    requires Reads(g, x, c) && IsNode(g, Follow(g, x, p))
    ensures Follow(g, x, p).x.id in Ids(g, x, c)
    decreases p
  {
    if x.Ref? {
      ContainerSums(g, x.id, c);
      if p != [] {
        ReadsChildren(g, x.id, c);
        ReachedIsListed(g, Kids(g[x.id])[p[0]], Children(c)[p[0]], p[1..]);
        IdsAllMember(g, Kids(g[x.id]), Children(c), Follow(g, x, p).x.id);
      }
    }
  }

  lemma {:induction false} ListedIsReached(g: Graph, x: Input, c: Json, id: Id) returns (p: seq<nat>)
    requires Reads(g, x, c) && id in Ids(g, x, c)
    ensures id in g && Follow(g, x, p) == Reached(Ref(id))
    decreases c
  {
    ContainerSums(g, x.id, c);
    if id == x.id {
      p := [];
    } else {
      ReadsChildren(g, x.id, c);
      IdsAllMember(g, Kids(g[x.id]), Children(c), id);
      var k :| 0 <= k < |Children(c)| && id in Ids(g, Kids(g[x.id])[k], Children(c)[k]);
      ChildSmaller(c, k);
      p := ListedIsReached(g, Kids(g[x.id])[k], Children(c)[k], id);
      FollowStep(g, x.id, k, p);
      p := Down(k, p);
    }
  }

  lemma ChildSmaller(c: Json, k: nat)
    requires k < |Children(c)|
    ensures (c decreases to Children(c)[k])
  {
    match c
    case Arr(items) => assert items[k] in items;
    case Obj(fields) => assert fields[k] in fields;
  }

  // ---------------------------------------------------------------------------
  // Listed once, reached once
  // ---------------------------------------------------------------------------

  lemma NoDuplicatesSplit(a: seq<Id>, b: seq<Id>)
    ensures NoDuplicates(a + b) <==> NoDuplicates(a) && NoDuplicates(b) && forall id :: id in a ==> id !in b
  {
    FreshConcat(a, b, {});
    FreshMeansDistinct(a + b, {});
    FreshMeansDistinct(a, {});
    FreshMeansDistinct(b, After({}, a));
    AfterMembers({}, a);
    if NoDuplicates(a) && NoDuplicates(b) && forall id :: id in a ==> id !in b {
      assert forall id :: id in b ==> id !in After({}, a);
    }
  }

  lemma {:induction false} AfterMembers(visited: set<Id>, ids: seq<Id>)
    ensures forall id :: id in After(visited, ids) <==> id in visited || id in ids
    decreases ids
  {
    if ids != [] {
      AfterMembers(visited + {ids[0]}, ids[1..]);
      assert ids == [ids[0]] + ids[1..];
    }
  }

  /** The objects below two different children, or below one child, are apart. */
  ghost predicate ChildrenApart(g: Graph, xs: seq<Input>, cs: seq<Json>)
    requires |xs| == |cs|
  {
    && (forall k :: 0 <= k < |xs| ==> NoDuplicates(Ids(g, xs[k], cs[k])))
    && (forall j, k, id :: 0 <= j < k < |xs| && id in Ids(g, xs[j], cs[j]) ==> id !in Ids(g, xs[k], cs[k]))
  }

  lemma {:induction false} DistinctChildren(g: Graph, xs: seq<Input>, cs: seq<Json>)
    requires |xs| == |cs|
    ensures NoDuplicates(IdsAll(g, xs, cs)) <==> ChildrenApart(g, xs, cs)
  {
    if xs != [] {
      var first, rest := Ids(g, xs[0], cs[0]), IdsAll(g, xs[1..], cs[1..]);
      NoDuplicatesSplit(first, rest);
      DistinctChildren(g, xs[1..], cs[1..]);
      forall id ensures id in rest <==> exists k :: 1 <= k < |xs| && id in Ids(g, xs[k], cs[k]) {
        IdsAllMember(g, xs[1..], cs[1..], id);
        if k :| 1 <= k < |xs| && id in Ids(g, xs[k], cs[k]) {
          assert xs[1..][k - 1] == xs[k] && cs[1..][k - 1] == cs[k];
        }
        if k :| 0 <= k < |xs[1..]| && id in Ids(g, xs[1..][k], cs[1..][k]) {
          assert xs[1..][k] == xs[k + 1] && cs[1..][k] == cs[k + 1];
        }
      }
      ApartCons(g, xs, cs);
    }
  }

  lemma ApartCons(g: Graph, xs: seq<Input>, cs: seq<Json>)
    requires |xs| == |cs| && xs != []
    ensures ChildrenApart(g, xs, cs) <==>
      && NoDuplicates(Ids(g, xs[0], cs[0])) && ChildrenApart(g, xs[1..], cs[1..])
      && (forall k, id :: 1 <= k < |xs| && id in Ids(g, xs[0], cs[0]) ==> id !in Ids(g, xs[k], cs[k]))
  {
    var ys, ds := xs[1..], cs[1..];
    assert forall k :: 1 <= k < |xs| ==> xs[k] == ys[k - 1] && cs[k] == ds[k - 1];
    assert forall k :: 0 <= k < |ys| ==> ys[k] == xs[k + 1] && ds[k] == cs[k + 1];
  }

  /** With a finite unfolding: no object is listed twice exactly when the reachable part is a tree. */
  lemma {:induction false} DistinctIffTree(g: Graph, x: Input, c: Json)
    requires Reads(g, x, c)
    ensures NoDuplicates(Ids(g, x, c)) <==> TreeLike(g, x)
    decreases c
  {
    if NoDuplicates(Ids(g, x, c)) {
      forall p, q | Follow(g, x, p) == Follow(g, x, q) && IsNode(g, Follow(g, x, p))
        ensures p == q
      {
        DistinctMeansOnePath(g, x, c, p, q);
      }
    } else {
      var p, q := DuplicateMeansTwoPaths(g, x, c);
    }
  }

  lemma {:induction false} DistinctMeansOnePath(g: Graph, x: Input, c: Json, p: seq<nat>, q: seq<nat>)
    requires Reads(g, x, c) && NoDuplicates(Ids(g, x, c))
    requires Follow(g, x, p) == Follow(g, x, q) && IsNode(g, Follow(g, x, p))
    ensures p == q
    decreases |p| + |q|
  {
    hide Reads, Ids, IdsAll, NoDuplicates, Children;
    if p != [] || q != [] {
      var xs, cs := Kids(g[x.id]), Children(c);
      var id := Follow(g, x, p).x.id;
      ContainerSums(g, x.id, c);
      ReadsChildren(g, x.id, c);
      NoDuplicatesSplit([x.id], IdsAll(g, xs, cs));
      DistinctChildren(g, xs, cs);
      IdsAllMember(g, xs, cs, id);
      if p != [] {
        ReachedIsListed(g, xs[p[0]], cs[p[0]], p[1..]);
      }
      if q != [] {
        ReachedIsListed(g, xs[q[0]], cs[q[0]], q[1..]);
      }
      assert id in IdsAll(g, xs, cs);
      assert p != [] && q != [] && p[0] == q[0];
      DistinctMeansOnePath(g, xs[p[0]], cs[p[0]], p[1..], q[1..]);
      assert p == [p[0]] + p[1..] && q == [q[0]] + q[1..];
    }
  }

  /** A duplicate is the node itself, or lies below one child, or below two. */
  lemma WhereDuplicated(g: Graph, id: Id, c: Json)
    requires id in g && Reads(g, Ref(id), c) && !NoDuplicates(Ids(g, Ref(id), c))
    ensures |Kids(g[id])| == |Children(c)|
    ensures var xs, cs := Kids(g[id]), Children(c);
      || (exists k :: 0 <= k < |xs| && id in Ids(g, xs[k], cs[k]))
      || (exists k :: 0 <= k < |xs| && !NoDuplicates(Ids(g, xs[k], cs[k])))
      || (exists j, k, d :: 0 <= j < k < |xs| && d in Ids(g, xs[j], cs[j]) && d in Ids(g, xs[k], cs[k]))
  {
    var xs, cs := Kids(g[id]), Children(c);
    ContainerSums(g, id, c);
    NoDuplicatesSplit([id], IdsAll(g, xs, cs));
    DistinctChildren(g, xs, cs);
    IdsAllMember(g, xs, cs, id);
  }

  lemma PrependPaths(g: Graph, id: Id, j: nat, k: nat, p: seq<nat>, q: seq<nat>)
    requires id in g && j < |Kids(g[id])| && k < |Kids(g[id])|
    requires j != k || p != q
    requires Follow(g, Kids(g[id])[j], p) == Follow(g, Kids(g[id])[k], q)
    ensures Down(j, p) != Down(k, q)
    ensures Follow(g, Ref(id), Down(j, p)) == Follow(g, Ref(id), Down(k, q)) == Follow(g, Kids(g[id])[j], p)
  {
    FollowStep(g, id, j, p);
    FollowStep(g, id, k, q);
    assert Down(j, p)[0] == j && Down(j, p)[1..] == p && Down(k, q)[0] == k && Down(k, q)[1..] == q;
  }

  lemma {:induction false} DuplicateMeansTwoPaths(g: Graph, x: Input, c: Json) returns (p: seq<nat>, q: seq<nat>)
    requires Reads(g, x, c) && !NoDuplicates(Ids(g, x, c))
    ensures p != q && Follow(g, x, p) == Follow(g, x, q) && IsNode(g, Follow(g, x, p))
    decreases c
  {
    var xs, cs := Kids(g[x.id]), Children(c);
    ReadsChildren(g, x.id, c);
    WhereDuplicated(g, x.id, c);
    if k :| 0 <= k < |xs| && x.id in Ids(g, xs[k], cs[k]) {
      q := ListedIsReached(g, xs[k], cs[k], x.id);
      FollowStep(g, x.id, k, q);
      p, q := [], Down(k, q);
    } else if k :| 0 <= k < |xs| && !NoDuplicates(Ids(g, xs[k], cs[k])) {
      ChildSmaller(c, k);
      p, q := DuplicateMeansTwoPaths(g, xs[k], cs[k]);
      PrependPaths(g, x.id, k, k, p, q);
      p, q := Down(k, p), Down(k, q);
    } else {
      var j, k, id :| 0 <= j < k < |xs| && id in Ids(g, xs[j], cs[j]) && id in Ids(g, xs[k], cs[k]);
      p := ListedIsReached(g, xs[j], cs[j], id);
      q := ListedIsReached(g, xs[k], cs[k], id);
      PrependPaths(g, x.id, j, k, p, q);
      p, q := Down(j, p), Down(k, q);
    }
  }

  /**
    The walk succeeds exactly when the reachable part is a tree that unfolds to a value within
    the limits. On a cyclic or shared input it therefore fails, and it always terminates.
   */
  lemma WalkSucceedsIffTree(g: Graph, x: Input, depth: nat, nodes: nat)
    ensures WalkValue(g, x, depth, nodes, {}).Done? <==>
      TreeLike(g, x) && exists c :: Reads(g, x, c) && Fits(c, depth) && nodes + Size(c) <= MAX_NODES
  {
    forall c | Reads(g, x, c)
      ensures Fresh(Ids(g, x, c), {}) <==> TreeLike(g, x)
    {
      FreshMeansDistinct(Ids(g, x, c), {});
      DistinctIffTree(g, x, c);
    }
    if WalkValue(g, x, depth, nodes, {}).Done? {
      WalkSound(g, x, depth, nodes, {});
    }
    if c :| TreeLike(g, x) && Reads(g, x, c) && Fits(c, depth) && nodes + Size(c) <= MAX_NODES {
      WalkComplete(g, x, c, depth, nodes, {});
    }
  }
}
