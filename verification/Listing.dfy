/** Lists that hold one item for each place of a nested list where there is one, in order. */
module Listing {
  import opened Lists
  import opened Manifests

  datatype Place = Place(outer: nat, inner: nat)

  predicate Earlier(a: Place, b: Place) {
    a.outer < b.outer || (a.outer == b.outer && a.inner < b.inner)
  }

  ghost predicate InOrder(places: seq<Place>) {
    forall a, b :: 0 <= a < b < |places| ==> Earlier(places[a], places[b])
  }

  /** ys holds what x has at each of its first n places, if anything; places says where from. */
  ghost predicate Picks<A, B>(ys: seq<B>, n: nat, x: A, item: (A, nat) -> Option<B>, places: seq<nat>) {
    && |places| == |ys|
    && (forall a, b :: 0 <= a < b < |places| ==> places[a] < places[b])
    && (forall j: nat :: j in places <==> j < n && item(x, j).Some?)
    && (forall k :: 0 <= k < |ys| ==> item(x, places[k]) == Some(ys[k]))
  }

  lemma PickNext<A, B>(ys: seq<B>, n: nat, x: A, item: (A, nat) -> Option<B>, places: seq<nat>) returns (more: seq<nat>)
    requires Picks(ys, n, x, item, places)
    ensures Picks(ys + (if item(x, n).Some? then [item(x, n).value] else []), n + 1, x, item, more)
  {
    more := if item(x, n).Some? then places + [n] else places;
    assert forall j: nat :: j in more <==> j in places || (j == n && item(x, n).Some?);
    assert forall k :: 0 <= k < |places| ==> places[k] in places;
  }

  ghost predicate PickedFrom<A, B>(ys: seq<B>, x: A, item: (A, nat) -> Option<B>) {
    exists n: nat, places :: Picks(ys, n, x, item, places) && forall j: nat :: n <= j ==> item(x, j).None?
  }

  ghost predicate Occupied<A, B>(xs: seq<A>, item: (A, nat) -> Option<B>, p: Place) {
    p.outer < |xs| && item(xs[p.outer], p.inner).Some?
  }

  /** ys holds what the elements of xs have at their places, in order, each once. */
  ghost predicate Itemises<A, B>(ys: seq<B>, xs: seq<A>, item: (A, nat) -> Option<B>, places: seq<Place>) {
    && |places| == |ys|
    && InOrder(places)
    && (forall p :: p in places <==> Occupied(xs, item, p))
    && (forall k :: 0 <= k < |ys| ==> places[k].outer < |xs| && item(xs[places[k].outer], places[k].inner) == Some(ys[k]))
  }

  function At(outer: nat, inners: seq<nat>): (places: seq<Place>)
    ensures |places| == |inners|
    ensures forall k :: 0 <= k < |inners| ==> places[k] == Place(outer, inners[k])
  {
    seq(|inners|, k requires 0 <= k < |inners| => Place(outer, inners[k]))
  }

  lemma InAt(outer: nat, inners: seq<nat>, p: Place)
    ensures p in At(outer, inners) <==> p.outer == outer && p.inner in inners
  {
    var places := At(outer, inners);
    if p.outer == outer && p.inner in inners {
      var k :| 0 <= k < |inners| && inners[k] == p.inner;
      assert places[k] == p;
    }
  }

  lemma OccupiedWithin<A, B>(xs: seq<A>, item: (A, nat) -> Option<B>, p: Place)
    ensures Occupied(xs, item, p) ==> p.outer < |xs|
  {
  }

  lemma OccupiedNext<A, B>(xs: seq<A>, x: A, item: (A, nat) -> Option<B>, p: Place)
    ensures Occupied(xs + [x], item, p) <==> Occupied(xs, item, p) || (p.outer == |xs| && item(x, p.inner).Some?)
  {
  }

  lemma InOrderNext(places: seq<Place>, outer: nat, inners: seq<nat>)
    requires InOrder(places) && forall p :: p in places ==> p.outer < outer
    requires forall a, b :: 0 <= a < b < |inners| ==> inners[a] < inners[b]
    ensures InOrder(places + At(outer, inners))
  {
    var more := places + At(outer, inners);
    forall a, b | 0 <= a < b < |more| ensures Earlier(more[a], more[b]) {
      assert a < |places| ==> more[a] in places;
    }
  }

  lemma ItemiseNext<A, B>(ys: seq<B>, xs: seq<A>, zs: seq<B>, x: A, item: (A, nat) -> Option<B>, places: seq<Place>)
    returns (more: seq<Place>)
    requires Itemises(ys, xs, item, places) && PickedFrom(zs, x, item)
    ensures Itemises(ys + zs, xs + [x], item, more)
  {
    hide Occupied, InOrder;
    var n: nat, inners :| Picks(zs, n, x, item, inners) && forall j: nat :: n <= j ==> item(x, j).None?;
    var last := At(|xs|, inners);
    more := places + last;
    forall p ensures p in places ==> p.outer < |xs| {
      OccupiedWithin(xs, item, p);
    }
    InOrderNext(places, |xs|, inners);
    forall p ensures p in more <==> Occupied(xs + [x], item, p) {
      InAt(|xs|, inners, p);
      OccupiedNext(xs, x, item, p);
    }
    forall k | 0 <= k < |ys + zs|
      ensures more[k].outer < |xs + [x]| && item((xs + [x])[more[k].outer], more[k].inner) == Some((ys + zs)[k])
    {
      assert more[k] == if k < |ys| then places[k] else last[k - |ys|];
    }
  }

  lemma {:induction false} FlatMapItemises<A, B>(xs: seq<A>, f: A -> seq<B>, item: (A, nat) -> Option<B>) returns (places: seq<Place>)
    requires forall x :: x in xs ==> PickedFrom(f(x), x, item)
    ensures Itemises(FlatMap(xs, f), xs, item, places)
  {
    if xs == [] {
      places := [];
    } else {
      var n := |xs| - 1;
      places := FlatMapItemises(xs[..n], f, item);
      assert xs == xs[..n] + [xs[n]];
      places := ItemiseNext(FlatMap(xs[..n], f), xs[..n], f(xs[n]), xs[n], item, places);
    }
  }

  /** The list is empty iff there is nothing, and single iff there is something at one place only. */
  lemma ItemiseCount<A, B>(ys: seq<B>, xs: seq<A>, item: (A, nat) -> Option<B>, places: seq<Place>)
    requires Itemises(ys, xs, item, places)
    ensures ys == [] <==> forall p :: !Occupied(xs, item, p)
    ensures |ys| > 1 <==> exists p, q :: p != q && Occupied(xs, item, p) && Occupied(xs, item, q)
    ensures |ys| == 1 ==> forall p :: Occupied(xs, item, p) ==> item(xs[p.outer], p.inner) == Some(ys[0])
  {
    if ys != [] {
      assert places[0] in places;
    }
    if |ys| > 1 {
      assert places[1] in places && places[0] != places[1];
    }
    assert forall p :: Occupied(xs, item, p) <==> p in places;
  }
}
