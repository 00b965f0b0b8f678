/**
  What resolve promises about its result: the order of the desired manifests does not matter,
  and success means every requirement is met by exactly one component, listed after its
  dependents.
 */
module ResolverOrder {
  import opened Text
  import opened Lists
  import opened Graphs
  import opened CycleFinder
  import opened Manifests
  import opened Resolver

  // ---------------------------------------------------------------------------
  // The dependency graph
  // ---------------------------------------------------------------------------

  lemma {:induction false} LinksPermute(m: Manifest, required: seq<Require>, all: seq<Manifest>, other: seq<Manifest>)
    requires multiset(all) == multiset(other)
    ensures Links(m, required, all) == Links(m, required, other)
    ensures Unmatched(m, required, all) == Unmatched(m, required, other)
  {
    hide MatchRequirement;
    if required != [] {
      LinksPermute(m, required[..|required| - 1], all, other);
      MatchPermute(required[|required| - 1], all, other);
    }
  }

  lemma EdgesPermute(all: seq<Manifest>, other: seq<Manifest>)
    requires multiset(all) == multiset(other)
    ensures Edges(other) == FlatMap(other, EdgesFrom(all))
    ensures multiset(Edges(all)) == multiset(Edges(other))
    ensures EdgeSet(Edges(all)) == EdgeSet(Edges(other)) && |Edges(all)| == |Edges(other)|
  {
    forall m ensures EdgesFrom(all)(m) == EdgesFrom(other)(m) {
      LinksPermute(m, m.required, all, other);
    }
    FlatMapSame(other, EdgesFrom(all), EdgesFrom(other));
    FlatMapPermute(all, other, EdgesFrom(all));
    SameElements(Edges(all), Edges(other));
  }

  lemma IdsPermute(all: seq<Manifest>, other: seq<Manifest>)
    requires multiset(all) == multiset(other)
    ensures Ids(all) == Ids(other)
  {
    SameElements(all, other);
    IdsAreIds(all);
    IdsAreIds(other);
  }

  lemma IdsAreIds(all: seq<Manifest>)
    ensures Ids(all) == set m | m in all :: m.componentId
  {
    var ids := Map(all, IdOf);
    forall m | m in all ensures m.componentId in ids {
      var i :| 0 <= i < |all| && all[i] == m;
      assert ids[i] == m.componentId;
    }
    forall id | id in ids ensures exists m :: m in all && m.componentId == id {
      var i :| 0 <= i < |ids| && ids[i] == id;
      assert all[i] in all && all[i].componentId == id;
    }
  }

  // ---------------------------------------------------------------------------
  // The violations
  // ---------------------------------------------------------------------------

  ghost predicate Rearranged(a: Input, b: Input) {
    b == a.(desired := b.desired) && multiset(a.desired) == multiset(b.desired)
  }

  lemma EmptyTogether<T>(a: seq<T>, b: seq<T>)
    requires multiset(a) == multiset(b)
    ensures a == [] <==> b == []
  {
    SameElements(a, b);
  }

  /** The same violations are reported, manifest by manifest. */
  lemma FaultsPermute(a: Input, b: Input)
    requires Rearranged(a, b)
    ensures multiset(FirstFaults(a)) == multiset(FirstFaults(b))
  {
    hide FlatMap;
    var x, y := a.desired, b.desired;
    FlatMapPermute(x, y, Defects(a.defects));
    EmptyTogether(FlatMap(x, Defects(a.defects)), FlatMap(y, Defects(a.defects)));
    FlatMapPermute(x, y, ArtifactFaults(a.artifacts));
    EmptyTogether(FlatMap(x, ArtifactFaults(a.artifacts)), FlatMap(y, ArtifactFaults(a.artifacts)));
    FlatMapPermute(x, y, GrantFaults(AdmittedKeys(a.admitted)));
    EmptyTogether(FlatMap(x, GrantFaults(AdmittedKeys(a.admitted))), FlatMap(y, GrantFaults(AdmittedKeys(a.admitted))));
    forall m ensures MatchFaults(x)(m) == MatchFaults(y)(m) {
      LinksPermute(m, m.required, x, y);
    }
    FlatMapSame(y, MatchFaults(x), MatchFaults(y));
    FlatMapPermute(x, y, MatchFaults(x));
  }

  // ---------------------------------------------------------------------------
  // The hashes
  // ---------------------------------------------------------------------------

  /** What the component id pattern guarantees: lower-case letters, digits, hyphens and a slash. */
  predicate PlainId(id: Str) {
    COLON !in id && GREATER !in id
  }

  function EdgeOwner(m: Manifest): Str {
    m.componentId + [HYPHEN]
  }

  lemma {:induction false} LinksOwned(m: Manifest, required: seq<Require>, all: seq<Manifest>, e: Edge)
    requires PlainId(m.componentId) && e in Links(m, required, all)
    ensures Before(EdgeKey(e), GREATER) == EdgeOwner(m)
  {
    LinksJoinDesired(m, required, all, e);
    BeforeSeparator(e.from + [HYPHEN], GREATER, e.to);
  }

  lemma OwnedEdges(all: seq<Manifest>, within: seq<Manifest>)
    requires forall m :: m in all ==> PlainId(m.componentId)
    ensures Owned(all, EdgesFrom(within), EdgeOwner, EdgeKey, GREATER)
  {
    forall m, e | m in all && e in EdgesFrom(within)(m)
      ensures Before(EdgeKey(e), GREATER) == EdgeOwner(m)
    {
      LinksOwned(m, m.required, within, e);
    }
  }

  lemma OwnedEntries(all: seq<Manifest>)
    requires forall m :: m in all ==> PlainId(m.componentId)
    ensures Owned(all, GrantEntries(), IdOf, GrantEntryKey, COLON)
    ensures Owned(all, EffectEntries(), IdOf, EffectEntryKey, COLON)
    ensures Owned(all, IsolationEntries(), IdOf, IsolationEntryKey, COLON)
  {
    forall m, g | m in all && g in GrantEntries()(m)
      ensures Before(GrantEntryKey(g), COLON) == IdOf(m)
    {
      BeforeSeparator(m.componentId, COLON, g.scope + [COLON] + g.resource);
    }
    forall m, e | m in all && e in EffectEntries()(m)
      ensures Before(EffectEntryKey(e), COLON) == IdOf(m)
    {
      BeforeSeparator(m.componentId, COLON, e.effectClass);
    }
    forall m, i | m in all && i in IsolationEntries()(m)
      ensures Before(IsolationEntryKey(i), COLON) == IdOf(m)
    {
      BeforeSeparator(m.componentId, COLON, i.tier);
    }
  }

  lemma DistinctOwners(all: seq<Manifest>)
    requires DistinctKeys(all, IdOf)
    ensures DistinctKeys(all, EdgeOwner)
  {
    forall i, j | 0 <= i < j < |all| ensures EdgeOwner(all[i]) != EdgeOwner(all[j]) {
      var a, b := all[i].componentId, all[j].componentId;
      assert IdOf(all[i]) != IdOf(all[j]);
      assert (a + [HYPHEN])[..|a|] == a && (b + [HYPHEN])[..|b|] == b;
    }
  }

  /** The four payloads hashed into the set do not depend on the order of the manifests. */
  lemma PayloadsPermute(all: seq<Manifest>, other: seq<Manifest>)
    requires multiset(all) == multiset(other) && DistinctKeys(all, IdOf)
    requires forall m :: m in all ==> PlainId(m.componentId)
    ensures SortBy(Edges(all), EdgeKey) == SortBy(Edges(other), EdgeKey)
    ensures SortBy(FlatMap(all, GrantEntries()), GrantEntryKey) == SortBy(FlatMap(other, GrantEntries()), GrantEntryKey)
    ensures SortBy(FlatMap(all, EffectEntries()), EffectEntryKey) == SortBy(FlatMap(other, EffectEntries()), EffectEntryKey)
    ensures SortBy(FlatMap(all, IsolationEntries()), IsolationEntryKey) == SortBy(FlatMap(other, IsolationEntries()), IsolationEntryKey)
  {
    PermuteKeepsDistinct(all, other, IdOf);
    DistinctOwners(all);
    DistinctOwners(other);
    EdgesPermute(all, other);
    OwnedEdges(all, all);
    OwnedEntries(all);
    hide FlatMap, SortBy, Owned, GrantEntries, EffectEntries, IsolationEntries;
    SortForgetsOrder(all, other, EdgesFrom(all), EdgeOwner, EdgeKey, GREATER);
    SortForgetsOrder(all, other, GrantEntries(), IdOf, GrantEntryKey, COLON);
    SortForgetsOrder(all, other, EffectEntries(), IdOf, EffectEntryKey, COLON);
    SortForgetsOrder(all, other, IsolationEntries(), IdOf, IsolationEntryKey, COLON);
  }

  // ---------------------------------------------------------------------------
  // Order independence
  // ---------------------------------------------------------------------------

  lemma SameComponents(all: seq<Manifest>, other: seq<Manifest>, a: seq<Identity>, b: seq<Identity>)
    requires multiset(all) == multiset(other) && DistinctKeys(all, IdOf)
    requires ListsComponents(all, a) && ListsComponents(other, b)
    ensures a == b
  {
    EdgesPermute(all, other);
    IdsPermute(all, other);
    var order := Map(a, ComponentOf);
    LeastOrderUnique(EdgeSet(Edges(all)), Ids(all), order, Map(b, ComponentOf));
    assert |b| == |order| == |a|;
    SameElements(all, other);
    forall k | 0 <= k < |a| ensures a[k] == b[k] {
      assert a[k] in a && b[k] in b;
      var m :| m in all && a[k] == IdentityOf(m);
      var n :| n in other && b[k] == IdentityOf(n);
      assert ComponentOf(a[k]) == order[k] == Map(b, ComponentOf)[k] == ComponentOf(b[k]);
      assert n in all;
      var i :| 0 <= i < |all| && all[i] == m;
      var j :| 0 <= j < |all| && all[j] == n;
      assert IdOf(all[i]) == IdOf(all[j]);
    }
  }

  lemma {:induction false} ValidWhenFaultFree(input: Input, m: Manifest)
    requires FirstFaults(input) == [] && m in input.desired
    ensures input.defects(m) == 0
  {
    if input.defects(m) > 0 {
      var f := Defects(input.defects);
      assert f(m)[0] in f(m);
      FlatMapIn(input.desired, f, f(m)[0]);
      assert false;
    }
  }

  /** resolve's status, component order, hashes, edge count and depth forget the order of the manifests. */
  lemma OrderIrrelevant(a: Input, b: Input, digests: Digests, r: Resolution, s: Resolution)
    requires Rearranged(a, b) && DistinctKeys(a.desired, IdOf)
    requires forall m :: m in a.desired && a.defects(m) == 0 ==> PlainId(m.componentId)
    requires Settles(a, digests, r) && Settles(b, digests, s)
    ensures r.Resolved? <==> s.Resolved?
    ensures r.Resolved? ==> r == s
    ensures FirstFaults(a) != [] ==> r.Blocked? && s.Blocked? && multiset(r.violations) == multiset(s.violations)
  {
    FaultsPermute(a, b);
    EmptyTogether(FirstFaults(a), FirstFaults(b));
    EdgesPermute(a.desired, b.desired);
    IdsPermute(a.desired, b.desired);
    if r.Resolved? {
      forall m | m in a.desired ensures PlainId(m.componentId) {
        ValidWhenFaultFree(a, m);
      }
      hide FirstFaults, ListsComponents, IsLongestWalk, Acyclic, Edges, SortBy, FlatMap, EdgeSet, Ids, IsClosedWalk, PlainId,
        GrantEntries, EffectEntries, IsolationEntries;
      PayloadsPermute(a.desired, b.desired);
      SameComponents(a.desired, b.desired, r.payload.components, s.payload.components);
      LongestWalkUnique(EdgeSet(Edges(a.desired)), Ids(a.desired), r.maxDepth, s.maxDepth);
    }
  }

  // ---------------------------------------------------------------------------
  // What success means
  // ---------------------------------------------------------------------------

  /** m's requirement is met by p of component n. */
  ghost predicate DependsOn(all: seq<Manifest>, m: Manifest, n: Manifest) {
    m in all && m != n && exists req, p :: req in m.required && Supplies(n, p, req, all)
  }

  lemma {:induction false} UnmatchedIn(m: Manifest, required: seq<Require>, all: seq<Manifest>, req: Require)
    requires req in required && MatchRequirement(req, all).Fail?
    ensures Unmatched(m, required, all) != []
  {
    hide MatchRequirement;
    var n := |required| - 1;
    if req in required[..n] {
      UnmatchedIn(m, required[..n], all, req);
    } else {
      assert req == required[n];
    }
  }

  lemma {:induction false} LinkedIn(m: Manifest, required: seq<Require>, all: seq<Manifest>, req: Require)
    requires req in required && MatchRequirement(req, all).Link? && MatchRequirement(req, all).provider != m.componentId
    ensures Edge(m.componentId, MatchRequirement(req, all).provider) in Links(m, required, all)
  {
    hide MatchRequirement;
    var n := |required| - 1;
    if req in required[..n] {
      LinkedIn(m, required[..n], all, req);
    } else {
      assert req == required[n];
    }
  }

  lemma NoFailure(input: Input, m: Manifest, req: Require)
    requires FirstFaults(input) == [] && m in input.desired && req in m.required
    ensures !MatchRequirement(req, input.desired).Fail?
  {
    var f := MatchFaults(input.desired);
    if MatchRequirement(req, input.desired).Fail? {
      UnmatchedIn(m, m.required, input.desired, req);
      FlatMapIn(input.desired, f, f(m)[0]);
      assert false;
    }
  }

  /** A mandatory requirement has one supplier, an optional one at most one. */
  lemma RequirementsMet(input: Input, digests: Digests, r: Resolution, m: Manifest, req: Require)
    requires Settles(input, digests, r) && r.Resolved?
    requires m in input.desired && req in m.required
    ensures !req.optional ==> exists n, p :: Supplies(n, p, req, input.desired)
    ensures forall n, p, k, q :: Supplies(n, p, req, input.desired) && Supplies(k, q, req, input.desired) ==> n == k && p == q
  {
    NoFailure(input, m, req);
    NoSupplier(req, input.desired);
    hide MatchRequirement, Supplies, Settles;
    if MatchRequirement(req, input.desired).Link? {
      var n, p := LinkIsTheOnlySupplier(req, input.desired);
    }
  }

  /** Every component is listed before those it depends on. */
  lemma DependentsFirst(input: Input, digests: Digests, r: Resolution, m: Manifest, n: Manifest, i: nat, j: nat)
    requires DistinctKeys(input.desired, IdOf)
    requires Settles(input, digests, r) && r.Resolved?
    requires DependsOn(input.desired, m, n)
    requires i < |r.payload.components| && r.payload.components[i] == IdentityOf(m)
    requires j < |r.payload.components| && r.payload.components[j] == IdentityOf(n)
    ensures i < j
  {
    var all := input.desired;
    var req, p :| req in m.required && Supplies(n, p, req, all);
    NoFailure(input, m, req);
    NoSupplier(req, all);
    assert MatchRequirement(req, all).Link?;
    var k, q := LinkIsTheOnlySupplier(req, all);
    DifferentIds(all, m, n);
    LinkedIn(m, m.required, all, req);
    FlatMapIn(all, EdgesFrom(all), Edge(m.componentId, n.componentId));
    var order := Map(r.payload.components, ComponentOf);
    assert order[i] == m.componentId && order[j] == n.componentId;
    assert Edge(order[i], order[j]) in EdgeSet(Edges(all));
  }

  lemma DifferentIds(all: seq<Manifest>, m: Manifest, n: Manifest)
    requires DistinctKeys(all, IdOf) && m in all && n in all && m != n
    ensures m.componentId != n.componentId
  {
    var i :| 0 <= i < |all| && all[i] == m;
    var j :| 0 <= j < |all| && all[j] == n;
    assert IdOf(all[i]) == m.componentId && IdOf(all[j]) == n.componentId;
  }
}
