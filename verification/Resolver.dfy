/**
  resolve of src/component-runtime/resolver.ts with the hash payloads of
  src/component/identity.ts. Hashing is a parameter.
 */
module Resolver {
  import opened Text
  import opened Lists
  import opened Graphs
  import opened CycleFinder
  import opened Kahn
  import opened Manifests

  // ---------------------------------------------------------------------------
  // Input and result
  // ---------------------------------------------------------------------------

  datatype Admitted = Admitted(scope: Str, resource: Str)

  /** defects counts what parseComponentManifestV1 finds wrong with a manifest. */
  datatype Input = Input(
    profileId: Str,
    desired: seq<Manifest>,
    defects: Manifest -> nat,
    artifacts: map<Str, Str>,
    admitted: seq<Admitted>,
    effectPolicyHash: Str,
    isolationPolicyHash: Str)

  datatype Violation = Violation(code: nat, componentId: Option<Str>, capability: Option<Str>, cyclePath: seq<Str>)

  datatype Identity = Identity(componentId: Str, version: Str, artifactHash: Str)

  datatype GrantEntry = GrantEntry(componentId: Str, scope: Str, resource: Str, attenuated: bool)

  datatype EffectEntry = EffectEntry(componentId: Str, effectClass: Str)

  datatype IsolationEntry = IsolationEntry(componentId: Str, tier: Str, adapterId: Option<Str>)

  datatype SetPayload = SetPayload(
    profileId: Str,
    components: seq<Identity>,
    dependencyGraphHash: Str,
    grantSetHash: Str,
    effectPolicyHash: Str,
    isolationPolicyHash: Str)

  /** The digests of the five kinds of payload. */
  datatype Digests = Digests(
    graph: seq<Edge> -> Str,
    grants: seq<GrantEntry> -> Str,
    effects: seq<EffectEntry> -> Str,
    isolations: seq<IsolationEntry> -> Str,
    payload: SetPayload -> Str)

  datatype Resolution =
    | Blocked(violations: seq<Violation>)
    | Resolved(payload: SetPayload, setHash: Str, edgeCount: nat, maxDepth: nat)

  // ---------------------------------------------------------------------------
  // The phases, manifest by manifest
  // ---------------------------------------------------------------------------

  function About(code: nat, m: Manifest): Violation {
    Violation(code, Some(m.componentId), None, [])
  }

  function Defects(defects: Manifest -> nat): Manifest -> seq<Violation> {
    (m: Manifest) => seq(defects(m), _ => About(1, m))
  }

  predicate ArtifactMissing(artifacts: map<Str, Str>, m: Manifest) {
    m.componentId !in artifacts || artifacts[m.componentId] == [] || artifacts[m.componentId] != m.artifactHash
  }

  function ArtifactFaults(artifacts: map<Str, Str>): Manifest -> seq<Violation> {
    (m: Manifest) => if ArtifactMissing(artifacts, m) then [About(2, m)] else []
  }

  const COLON: Unit := 58
  const HYPHEN: Unit := 45
  const GREATER: Unit := 62
  const AT: Unit := 64

  function GrantKey(scope: Str, resource: Str): Str {
    scope + [COLON] + resource
  }

  function Refused(admittedKeys: set<Str>, m: Manifest, grants: seq<Grant>): seq<Violation> {
    if grants == [] then []
    else
      var n := |grants| - 1;
      Refused(admittedKeys, m, grants[..n])
      + (if GrantKey(grants[n].scope, grants[n].resource) in admittedKeys then [] else [About(3, m)])
  }

  function GrantFaults(admittedKeys: set<Str>): Manifest -> seq<Violation> {
    (m: Manifest) => Refused(admittedKeys, m, m.requestedGrants)
  }

  function AdmittedKeys(admitted: seq<Admitted>): set<Str> {
    set g | g in admitted :: GrantKey(g.scope, g.resource)
  }

  function Unmatched(m: Manifest, required: seq<Require>, all: seq<Manifest>): seq<Violation> {
    if required == [] then []
    else
      var n := |required| - 1;
      Unmatched(m, required[..n], all)
      + (match MatchRequirement(required[n], all)
         case Fail(code) => [Violation(code, Some(m.componentId), Some(required[n].capability), [])]
         case _ => [])
  }

  function MatchFaults(all: seq<Manifest>): Manifest -> seq<Violation> {
    (m: Manifest) => Unmatched(m, m.required, all)
  }

  function Links(m: Manifest, required: seq<Require>, all: seq<Manifest>): seq<Edge> {
    if required == [] then []
    else
      var n := |required| - 1;
      Links(m, required[..n], all)
      + (match MatchRequirement(required[n], all)
         case Link(provider) => if provider != m.componentId then [Edge(m.componentId, provider)] else []
         case _ => [])
  }

  function EdgesFrom(all: seq<Manifest>): Manifest -> seq<Edge> {
    (m: Manifest) => Links(m, m.required, all)
  }

  function Edges(all: seq<Manifest>): seq<Edge> {
    FlatMap(all, EdgesFrom(all))
  }

  // ---------------------------------------------------------------------------
  // Hash payloads
  // ---------------------------------------------------------------------------

  function EdgeKey(e: Edge): Str {
    (e.from + [HYPHEN]) + [GREATER] + e.to
  }

  function GrantEntryKey(g: GrantEntry): Str {
    g.componentId + [COLON] + (g.scope + [COLON] + g.resource)
  }

  function EffectEntryKey(e: EffectEntry): Str {
    e.componentId + [COLON] + e.effectClass
  }

  function IsolationEntryKey(i: IsolationEntry): Str {
    i.componentId + [COLON] + i.tier
  }

  function IdentityKey(c: Identity): Str {
    c.componentId + [AT] + c.version
  }

  function GrantEntries(): Manifest -> seq<GrantEntry> {
    (m: Manifest) => Map(m.requestedGrants, (g: Grant) => GrantEntry(m.componentId, g.scope, g.resource, g.attenuated))
  }

  function EffectEntries(): Manifest -> seq<EffectEntry> {
    (m: Manifest) => Map(m.effects, (e: Str) => EffectEntry(m.componentId, e))
  }

  function IsolationEntries(): Manifest -> seq<IsolationEntry> {
    (m: Manifest) => [IsolationEntry(m.componentId, m.tier, m.adapterId)]
  }

  function OrElse(given: Str, computed: Str): Str {
    if given != [] then given else computed
  }

  function IdentityOf(m: Manifest): Identity {
    Identity(m.componentId, m.version, m.artifactHash)
  }

  function ComponentOf(c: Identity): Str {
    c.componentId
  }

  // ---------------------------------------------------------------------------
  // What resolve must return
  // ---------------------------------------------------------------------------

  ghost function Ids(desired: seq<Manifest>): set<Str> {
    Elements(Map(desired, IdOf))
  }

  /** The violations of the first of the four per-manifest phases that finds any. */
  ghost function FirstFaults(input: Input): seq<Violation> {
    var defects := FlatMap(input.desired, Defects(input.defects));
    var artifacts := FlatMap(input.desired, ArtifactFaults(input.artifacts));
    var grants := FlatMap(input.desired, GrantFaults(AdmittedKeys(input.admitted)));
    if defects != [] then defects
    else if artifacts != [] then artifacts
    else if grants != [] then grants
    else FlatMap(input.desired, MatchFaults(input.desired))
  }

  ghost predicate DependenciesAcyclic(desired: seq<Manifest>) {
    Acyclic(EdgeSet(Edges(desired)), Ids(desired))
  }

  /** The components are those desired, listed in the least order of the dependency graph. */
  ghost predicate ListsComponents(desired: seq<Manifest>, components: seq<Identity>) {
    && IsLeastOrder(EdgeSet(Edges(desired)), Ids(desired), Map(components, ComponentOf))
    && (forall c :: c in components ==> exists m :: m in desired && c == IdentityOf(m))
  }

  ghost predicate PoliciesHashed(input: Input, digests: Digests, payload: SetPayload) {
    && payload.profileId == input.profileId
    && payload.dependencyGraphHash == digests.graph(SortBy(Edges(input.desired), EdgeKey))
    && payload.grantSetHash == digests.grants(SortBy(FlatMap(input.desired, GrantEntries()), GrantEntryKey))
    && payload.effectPolicyHash == OrElse(input.effectPolicyHash,
                                          digests.effects(SortBy(FlatMap(input.desired, EffectEntries()), EffectEntryKey)))
    && payload.isolationPolicyHash == OrElse(input.isolationPolicyHash,
                                             digests.isolations(SortBy(FlatMap(input.desired, IsolationEntries()), IsolationEntryKey)))
  }

  ghost predicate Settles(input: Input, digests: Digests, r: Resolution) {
    && (r.Resolved? <==> FirstFaults(input) == [] && DependenciesAcyclic(input.desired))
    && (FirstFaults(input) != [] ==> r == Blocked(FirstFaults(input)))
    && (r.Blocked? && FirstFaults(input) == [] ==> exists path ::
          && IsClosedWalk(EdgeSet(Edges(input.desired)), Ids(input.desired), path)
          && r.violations == [Violation(7, Some(path[0]), None, path)])
    && (r.Resolved? ==>
          && ListsComponents(input.desired, r.payload.components)
          && PoliciesHashed(input, digests, r.payload)
          && r.setHash == digests.payload(r.payload.(components := SortBy(r.payload.components, IdentityKey)))
          && r.edgeCount == |Edges(input.desired)|
          && IsLongestWalk(EdgeSet(Edges(input.desired)), Ids(input.desired), r.maxDepth))
  }

  // ---------------------------------------------------------------------------
  // The loops
  // ---------------------------------------------------------------------------

  method ValidateManifests(input: Input) returns (violations: seq<Violation>)
    ensures violations == FlatMap(input.desired, Defects(input.defects))
  {
    violations := [];
    var i := 0;
    while i < |input.desired|
      invariant 0 <= i <= |input.desired|
      invariant violations == FlatMap(input.desired[..i], Defects(input.defects))
    {
      var manifest := input.desired[i];
      var j := 0;
      while j < input.defects(manifest)
        invariant 0 <= j <= input.defects(manifest)
        invariant violations == FlatMap(input.desired[..i], Defects(input.defects)) + seq(j, _ => About(1, manifest))
      {
        violations := violations + [About(1, manifest)];
        j := j + 1;
      }
      assert Defects(input.defects)(manifest) == seq(j, _ => About(1, manifest));
      assert input.desired[..i + 1] == input.desired[..i] + [manifest];
      FlatMapSnoc(input.desired[..i], manifest, Defects(input.defects));
      i := i + 1;
    }
    assert input.desired[..i] == input.desired;
  }

  method CheckArtifacts(input: Input) returns (violations: seq<Violation>)
    ensures violations == FlatMap(input.desired, ArtifactFaults(input.artifacts))
  {
    violations := [];
    var i := 0;
    while i < |input.desired|
      invariant 0 <= i <= |input.desired|
      invariant violations == FlatMap(input.desired[..i], ArtifactFaults(input.artifacts))
    {
      var manifest := input.desired[i];
      var available := if manifest.componentId in input.artifacts then input.artifacts[manifest.componentId] else [];
      if available == [] {
        violations := violations + [About(2, manifest)];
      } else if available != manifest.artifactHash {
        violations := violations + [About(2, manifest)];
      }
      assert input.desired[..i + 1] == input.desired[..i] + [manifest];
      FlatMapSnoc(input.desired[..i], manifest, ArtifactFaults(input.artifacts));
      i := i + 1;
    }
    assert input.desired[..i] == input.desired;
  }

  method CheckGrants(input: Input) returns (violations: seq<Violation>)
    ensures violations == FlatMap(input.desired, GrantFaults(AdmittedKeys(input.admitted)))
  {
    var admittedSet := AdmittedKeys(input.admitted);
    violations := [];
    var i := 0;
    while i < |input.desired|
      invariant 0 <= i <= |input.desired|
      invariant violations == FlatMap(input.desired[..i], GrantFaults(admittedSet))
    {
      var manifest := input.desired[i];
      var grants := manifest.requestedGrants;
      var j := 0;
      while j < |grants|
        invariant 0 <= j <= |grants|
        invariant violations == FlatMap(input.desired[..i], GrantFaults(admittedSet)) + Refused(admittedSet, manifest, grants[..j])
      {
        assert grants[..j + 1][..j] == grants[..j];
        if GrantKey(grants[j].scope, grants[j].resource) !in admittedSet {
          violations := violations + [About(3, manifest)];
        }
        j := j + 1;
      }
      assert grants[..j] == grants;
      assert input.desired[..i + 1] == input.desired[..i] + [manifest];
      FlatMapSnoc(input.desired[..i], manifest, GrantFaults(admittedSet));
      i := i + 1;
    }
    assert input.desired[..i] == input.desired;
  }

  /** One requirement, as the body of the matching loop decides it. */
  method MatchOne(req: Require, all: seq<Manifest>) returns (r: Match)
    ensures r == MatchRequirement(req, all)
  {
    var providers := FindProviders(req.capability, all);
    if |providers| == 0 && !req.optional {
      return Fail(4);
    }
    if |providers| == 0 && req.optional {
      return Skip;
    }
    var compatible := CompatibleOnes(providers, req);
    if |compatible| == 0 {
      return if !req.optional then Fail(5) else Skip;
    }
    if |compatible| > 1 {
      return Fail(6);
    }
    r := Link(compatible[0].manifest.componentId);
  }

  method MatchRequirements(all: seq<Manifest>) returns (edges: seq<Edge>, violations: seq<Violation>)
    ensures edges == Edges(all)
    ensures violations == FlatMap(all, MatchFaults(all))
  {
    hide MatchRequirement;
    edges, violations := [], [];
    var i := 0;
    while i < |all|
      invariant 0 <= i <= |all|
      invariant edges == FlatMap(all[..i], EdgesFrom(all))
      invariant violations == FlatMap(all[..i], MatchFaults(all))
    {
      var m := all[i];
      var j := 0;
      while j < |m.required|
        invariant 0 <= j <= |m.required|
        invariant edges == FlatMap(all[..i], EdgesFrom(all)) + Links(m, m.required[..j], all)
        invariant violations == FlatMap(all[..i], MatchFaults(all)) + Unmatched(m, m.required[..j], all)
      {
        var req := m.required[j];
        assert m.required[..j + 1][..j] == m.required[..j];
        var outcome := MatchOne(req, all);
        match outcome {
          case Skip =>
          case Fail(code) =>
            violations := violations + [Violation(code, Some(m.componentId), Some(req.capability), [])];
          case Link(provider) =>
            if provider != m.componentId {
              edges := edges + [Edge(m.componentId, provider)];
            }
        }
        j := j + 1;
      }
      assert m.required[..j] == m.required;
      assert all[..i + 1] == all[..i] + [m];
      FlatMapSnoc(all[..i], m, EdgesFrom(all));
      FlatMapSnoc(all[..i], m, MatchFaults(all));
      i := i + 1;
    }
    assert all[..i] == all;
  }

  method Find(desired: seq<Manifest>, id: Str) returns (m: Manifest)
    requires id in Ids(desired)
    ensures m in desired && m.componentId == id
  {
    var i := 0;
    while desired[i].componentId != id
      invariant i < |desired|
      invariant exists k :: i <= k < |desired| && desired[k].componentId == id
      decreases |desired| - i
    {
      i := i + 1;
    }
    m := desired[i];
  }

  method IdentitiesOf(desired: seq<Manifest>, order: seq<Str>) returns (components: seq<Identity>)
    requires Elements(order) <= Ids(desired)
    ensures Map(components, ComponentOf) == order
    ensures forall c :: c in components ==> exists m :: m in desired && c == IdentityOf(m)
  {
    hide Ids;
    components := [];
    var i := 0;
    while i < |order|
      invariant 0 <= i <= |order| && |components| == i
      invariant forall k :: 0 <= k < i ==> ComponentOf(components[k]) == order[k]
      invariant forall c :: c in components ==> exists m :: m in desired && c == IdentityOf(m)
    {
      assert order[i] in Elements(order);
      var m := Find(desired, order[i]);
      components := components + [IdentityOf(m)];
      i := i + 1;
    }
  }

  // ---------------------------------------------------------------------------
  // resolve
  // ---------------------------------------------------------------------------

  /** Edges join desired components. */
  lemma EdgesJoinDesired(all: seq<Manifest>)
    ensures EdgesWithin(EdgeSet(Edges(all)), Ids(all))
  {
    forall e | e in Edges(all)
      ensures e.from in Ids(all) && e.to in Ids(all)
    {
      FlatMapIn(all, EdgesFrom(all), e);
      var m :| m in all && e in EdgesFrom(all)(m);
      var i :| 0 <= i < |all| && all[i] == m;
      assert Map(all, IdOf)[i] == m.componentId;
      LinksJoinDesired(m, m.required, all, e);
    }
  }

  lemma {:induction false} LinksJoinDesired(m: Manifest, required: seq<Require>, all: seq<Manifest>, e: Edge)
    requires e in Links(m, required, all)
    ensures e.from == m.componentId != e.to && e.to in Ids(all)
    ensures exists req :: req in required && MatchRequirement(req, all) == Link(e.to)
  {
    hide MatchRequirement;
    var n := |required| - 1;
    assert required == required[..n] + [required[n]];
    if e in Links(m, required[..n], all) {
      LinksJoinDesired(m, required[..n], all, e);
    } else {
      assert MatchRequirement(required[n], all) == Link(e.to);
      var s, p := LinkIsTheOnlySupplier(required[n], all);
      var i :| 0 <= i < |all| && all[i] == s;
      assert Map(all, IdOf)[i] == s.componentId;
    }
  }

  lemma DistinctIds(desired: seq<Manifest>)
    requires DistinctKeys(desired, IdOf)
    ensures NoDuplicates(Map(desired, IdOf))
  {
  }

  lemma CycleBlocks(all: seq<Manifest>, path: seq<Str>)
    requires IsClosedWalk(EdgeSet(Edges(all)), Ids(all), path)
    ensures !DependenciesAcyclic(all)
  {
  }

  /**
    resolve. For distinct component ids its last branch, an order that fails although no cycle was
    found, is never taken: every violation 7 carries the cycle.
   */
  method Resolve(input: Input, digests: Digests) returns (r: Resolution)
    ensures FirstFaults(input) != [] ==> r == Blocked(FirstFaults(input))
    ensures r.Resolved? ==> FirstFaults(input) == [] && DependenciesAcyclic(input.desired)
    ensures DistinctKeys(input.desired, IdOf) ==> Settles(input, digests, r)
  {
    hide DistinctKeys, FlatMap, IsLeastOrder, IsLongestWalk, Acyclic, IsClosedWalk, EdgesWithin, EdgeSet, Edges, SortBy;
    var violations := ValidateManifests(input);
    if |violations| > 0 {
      return Blocked(violations);
    }
    violations := CheckArtifacts(input);
    if |violations| > 0 {
      return Blocked(violations);
    }
    violations := CheckGrants(input);
    if |violations| > 0 {
      return Blocked(violations);
    }
    var edges;
    edges, violations := MatchRequirements(input.desired);
    if |violations| > 0 {
      return Blocked(violations);
    }
    var componentIds := Map(input.desired, IdOf);
    var cycle := DetectCycle(edges, componentIds);
    if cycle.Cycle? {
      CycleBlocks(input.desired, cycle.path);
      ClosedWalkStarts(EdgeSet(edges), Elements(componentIds), cycle.path);
      return Blocked([Violation(7, Some(cycle.path[0]), None, cycle.path)]);
    }
    if DistinctKeys(input.desired, IdOf) {
      DistinctIds(input.desired);
    }
    EdgesJoinDesired(input.desired);
    var sorted := TopologicalSort(edges, componentIds);
    if sorted.Unordered? {
      return Blocked([Violation(7, None, None, [])]);
    }
    InElements(componentIds);
    var components := IdentitiesOf(input.desired, sorted.order);
    var payload := SetPayload(
      input.profileId,
      components,
      digests.graph(SortBy(edges, EdgeKey)),
      digests.grants(SortBy(FlatMap(input.desired, GrantEntries()), GrantEntryKey)),
      OrElse(input.effectPolicyHash, digests.effects(SortBy(FlatMap(input.desired, EffectEntries()), EffectEntryKey))),
      OrElse(input.isolationPolicyHash, digests.isolations(SortBy(FlatMap(input.desired, IsolationEntries()), IsolationEntryKey))));
    var setHash := digests.payload(payload.(components := SortBy(components, IdentityKey)));
    r := Resolved(payload, setHash, |edges|, sorted.maxDepth);
  }

  lemma ClosedWalkStarts(edges: set<Edge>, vertices: set<Str>, path: seq<Str>)
    requires IsClosedWalk(edges, vertices, path)
    ensures path != []
  {
  }

}
