/**
  What resolve finds, in terms of its input alone: when a requirement is met, what each phase
  reports and in which order, when a set resolves, and what its hash fixes.
 */
module ResolverLaws {
  import opened Text
  import opened Lists
  import opened Listing
  import opened Graphs
  import opened CycleFinder
  import opened Manifests
  import opened Resolver
  import opened ResolverOrder

  // ---------------------------------------------------------------------------
  // Requirements
  // ---------------------------------------------------------------------------

  ghost predicate InRange(v: Version, c: Compatibility) {
    exists n: Triple :: v == Plain(n) &&
      match c
      case Caret(r) => n.major == r.major && (n.minor > r.minor || (n.minor == r.minor && n.patch >= r.patch))
      case Tilde(r) => n.major == r.major && n.minor == r.minor
      case Exact(r) => n == r
      case Other(_) => false
  }

  ghost predicate Offering(all: seq<Manifest>, capability: Str, p: Place) {
    && p.outer < |all| && p.inner < |all[p.outer].provided|
    && all[p.outer].provided[p.inner].capability == capability
  }

  /** A capability offered in the range asked for and under the same schema. */
  ghost predicate MetAt(all: seq<Manifest>, req: Require, p: Place) {
    && Offering(all, req.capability, p)
    && InRange(all[p.outer].provided[p.inner].version, req.compatibility)
    && req.schemaHash == Some(all[p.outer].provided[p.inner].schemaHash)
  }

  ghost predicate Meets(m: Manifest, j: nat, req: Require) {
    MetAt([m], req, Place(0, j))
  }

  ghost function Candidate(req: Require): (Manifest, nat) -> Option<Provider> {
    (m: Manifest, j: nat) => if Meets(m, j, req) then Some(Provider(m, m.provided[j])) else None
  }

  function CandidatesOf(req: Require): Manifest -> seq<Provider> {
    (m: Manifest) => CompatibleOnes(Offers(m, m.provided, req.capability), req)
  }

  lemma CompatibleIff(m: Manifest, j: nat, req: Require)
    requires j < |m.provided|
    ensures Meets(m, j, req) <==> m.provided[j].capability == req.capability && IsCompatible(Provider(m, m.provided[j]), req)
  {
    assert [m][0] == m;
  }

  lemma CandidatesNext(m: Manifest, n: nat, req: Require)
    requires n < |m.provided|
    ensures CompatibleOnes(Offers(m, m.provided[..n + 1], req.capability), req)
         == CompatibleOnes(Offers(m, m.provided[..n], req.capability), req)
            + (if Candidate(req)(m, n).Some? then [Candidate(req)(m, n).value] else [])
  {
    hide FlatMap, Meets, IsCompatible;
    CompatibleIff(m, n, req);
    var offered := m.provided[..n + 1];
    assert offered[..n] == m.provided[..n] && offered[n] == m.provided[n];
    var before := Offers(m, m.provided[..n], req.capability);
    FlatMapSnoc(before, Provider(m, m.provided[n]), IfCompatible(req));
    assert before + [] == before && CompatibleOnes(before, req) + [] == CompatibleOnes(before, req);
  }

  lemma {:induction false} CandidatesPicked(m: Manifest, n: nat, req: Require) returns (places: seq<nat>)
    requires n <= |m.provided|
    ensures Picks(CompatibleOnes(Offers(m, m.provided[..n], req.capability), req), n, m, Candidate(req), places)
  {
    if n == 0 {
      places := [];
    } else {
      hide CompatibleOnes, Offers, Candidate, Picks;
      places := CandidatesPicked(m, n - 1, req);
      CandidatesNext(m, n - 1, req);
      places := PickNext(CompatibleOnes(Offers(m, m.provided[..n - 1], req.capability), req), n - 1, m, Candidate(req), places);
    }
  }

  lemma {:induction false} CandidatesFlat(req: Require, all: seq<Manifest>)
    ensures CompatibleOnes(FlatMap(all, OffersOf(req.capability)), req) == FlatMap(all, CandidatesOf(req))
  {
    if all != [] {
      var n := |all| - 1;
      CandidatesFlat(req, all[..n]);
      FlatMapConcat(FlatMap(all[..n], OffersOf(req.capability)), OffersOf(req.capability)(all[n]), IfCompatible(req));
    }
  }

  /** The compatible providers are those that meet the requirement, manifest by manifest. */
  lemma CandidatesAre(req: Require, all: seq<Manifest>) returns (places: seq<Place>)
    ensures Itemises(CompatibleOnes(FlatMap(all, OffersOf(req.capability)), req), all, Candidate(req), places)
    ensures forall p :: p in places <==> MetAt(all, req, p)
  {
    forall m | m in all ensures PickedFrom(CandidatesOf(req)(m), m, Candidate(req)) {
      var inner := CandidatesPicked(m, |m.provided|, req);
      assert m.provided[..|m.provided|] == m.provided;
    }
    CandidatesFlat(req, all);
    places := FlatMapItemises(all, CandidatesOf(req), Candidate(req));
  }

  /**
    A requirement is skipped or fails with 4 when nothing offers its capability, with 5 when no
    offer meets it, fails with 6 when two do, and otherwise links to the one that does.
   */
  lemma MatchIs(req: Require, all: seq<Manifest>)
    ensures match MatchRequirement(req, all)
            case Skip => req.optional && forall p :: !MetAt(all, req, p)
            case Fail(code) =>
              && code in {4, 5, 6}
              && (code == 4 ==> !req.optional && forall p :: !Offering(all, req.capability, p))
              && (code == 5 ==> !req.optional && (exists p :: Offering(all, req.capability, p)) && forall p :: !MetAt(all, req, p))
              && (code == 6 ==> exists p, q :: p != q && MetAt(all, req, p) && MetAt(all, req, q))
            case Link(id) =>
              && (exists p :: MetAt(all, req, p))
              && (forall p, q :: MetAt(all, req, p) && MetAt(all, req, q) ==> p == q && all[p.outer].componentId == id)
  {
    hide CompatibleOnes, OffersOf, FlatMap, Itemises, InRange;
    var compatible := CompatibleOnes(FlatMap(all, OffersOf(req.capability)), req);
    CandidateCount(req, all);
    OfferCount(req.capability, all);
    NoneCompatible(FlatMap(all, OffersOf(req.capability)), req);
  }

  lemma CandidateCount(req: Require, all: seq<Manifest>)
    ensures var compatible := CompatibleOnes(FlatMap(all, OffersOf(req.capability)), req);
      && (compatible == [] <==> forall p :: !MetAt(all, req, p))
      && (|compatible| > 1 <==> exists p, q :: p != q && MetAt(all, req, p) && MetAt(all, req, q))
      && (|compatible| == 1 ==> forall p :: MetAt(all, req, p) ==> compatible[0].manifest == all[p.outer])
  {
    hide CompatibleOnes, OffersOf, FlatMap, InRange;
    var places := CandidatesAre(req, all);
    var compatible := CompatibleOnes(FlatMap(all, OffersOf(req.capability)), req);
    ItemiseCount(compatible, all, Candidate(req), places);
    forall p ensures Occupied(all, Candidate(req), p) <==> MetAt(all, req, p) {
      assert p in places <==> MetAt(all, req, p);
    }
  }

  lemma OfferCount(capability: Str, all: seq<Manifest>)
    ensures FlatMap(all, OffersOf(capability)) == [] <==> forall p :: !Offering(all, capability, p)
  {
    forall p | Offering(all, capability, p) ensures FlatMap(all, OffersOf(capability)) != [] {
      OfferIn(capability, all, all[p.outer], all[p.outer].provided[p.inner]);
    }
    if FlatMap(all, OffersOf(capability)) != [] {
      OfferFrom(capability, all, FlatMap(all, OffersOf(capability))[0]);
    }
  }

  lemma OfferIn(capability: Str, all: seq<Manifest>, m: Manifest, p: Provide)
    requires m in all && p in m.provided && p.capability == capability
    ensures Provider(m, p) in FlatMap(all, OffersOf(capability))
  {
    OffersIn(m, m.provided, capability, Provider(m, p));
    FlatMapIn(all, OffersOf(capability), Provider(m, p));
  }

  lemma OfferFrom(capability: Str, all: seq<Manifest>, x: Provider)
    requires x in FlatMap(all, OffersOf(capability))
    ensures exists p :: Offering(all, capability, p)
  {
    FlatMapIn(all, OffersOf(capability), x);
    var m :| m in all && x in OffersOf(capability)(m);
    OffersIn(m, m.provided, capability, x);
    var i :| 0 <= i < |all| && all[i] == m;
    var j :| 0 <= j < |m.provided| && m.provided[j] == x.provide;
    assert Offering(all, capability, Place(i, j));
  }

  // ---------------------------------------------------------------------------
  // What each phase reports
  // ---------------------------------------------------------------------------

  ghost predicate ArtifactPresent(input: Input, m: Manifest) {
    m.artifactHash != [] && m.componentId in input.artifacts && input.artifacts[m.componentId] == m.artifactHash
  }

  /** Scope and resource are compared as one text with a colon (58) between them. */
  ghost predicate Admits(input: Input, g: Grant) {
    exists a :: a in input.admitted && a.scope + [58] + a.resource == g.scope + [58] + g.resource
  }

  ghost function ManifestFault(input: Input): (Manifest, nat) -> Option<Violation> {
    (m: Manifest, j: nat) => if j < input.defects(m) then Some(Violation(1, Some(m.componentId), None, [])) else None
  }

  ghost function ArtifactFault(input: Input): (Manifest, nat) -> Option<Violation> {
    (m: Manifest, j: nat) =>
      if j == 0 && !ArtifactPresent(input, m) then Some(Violation(2, Some(m.componentId), None, [])) else None
  }

  ghost function GrantFault(input: Input): (Manifest, nat) -> Option<Violation> {
    (m: Manifest, j: nat) =>
      if j < |m.requestedGrants| && !Admits(input, m.requestedGrants[j]) then Some(Violation(3, Some(m.componentId), None, []))
      else None
  }

  ghost function RequirementFault(all: seq<Manifest>): (Manifest, nat) -> Option<Violation> {
    (m: Manifest, j: nat) =>
      if j < |m.required| && MatchRequirement(m.required[j], all).Fail? then
        Some(Violation(MatchRequirement(m.required[j], all).code, Some(m.componentId), Some(m.required[j].capability), []))
      else None
  }

  /** A dependency on another component, the only one to meet a requirement. */
  ghost function Dependency(all: seq<Manifest>): (Manifest, nat) -> Option<Edge> {
    (m: Manifest, j: nat) =>
      if j < |m.required| && SoleSupplier(all, m.required[j]) !in {None, Some(m.componentId)} then
        Some(Edge(m.componentId, SoleSupplier(all, m.required[j]).value))
      else None
  }

  ghost predicate OnlyMetAt(all: seq<Manifest>, req: Require, p: Place) {
    MetAt(all, req, p) && forall q :: MetAt(all, req, q) ==> q == p
  }

  ghost function SoleSupplier(all: seq<Manifest>, req: Require): Option<Str> {
    if p: Place :| OnlyMetAt(all, req, p) then Some(all[p.outer].componentId) else None
  }

  lemma ManifestFaultsPicked(input: Input, m: Manifest)
    ensures PickedFrom(Defects(input.defects)(m), m, ManifestFault(input))
  {
    var places: seq<nat> := seq(input.defects(m), j => j);
    forall j: nat | j < input.defects(m) ensures j in places {
      assert places[j] == j;
    }
    assert Picks(Defects(input.defects)(m), input.defects(m), m, ManifestFault(input), places);
  }

  lemma ArtifactFaultsPicked(input: Input, m: Manifest)
    ensures PickedFrom(ArtifactFaults(input.artifacts)(m), m, ArtifactFault(input))
  {
    var places: seq<nat> := if ArtifactPresent(input, m) then [] else [0];
    assert Picks(ArtifactFaults(input.artifacts)(m), 1, m, ArtifactFault(input), places);
  }

  lemma AdmitsIff(input: Input, g: Grant)
    ensures Admits(input, g) <==> GrantKey(g.scope, g.resource) in AdmittedKeys(input.admitted)
  {
  }

  /** Without a colon in the scopes, only the very pair admits a grant. */
  lemma AdmittedPair(input: Input, g: Grant)
    requires 58 !in g.scope && forall a :: a in input.admitted ==> 58 !in a.scope
    ensures Admits(input, g) <==> Admitted(g.scope, g.resource) in input.admitted
  {
    if a :| a in input.admitted && a.scope + [58] + a.resource == g.scope + [58] + g.resource {
      BeforeSeparator(a.scope, 58, a.resource);
      BeforeSeparator(g.scope, 58, g.resource);
      assert (a.scope + [58] + a.resource)[|a.scope| + 1..] == a.resource;
      assert (g.scope + [58] + g.resource)[|g.scope| + 1..] == g.resource;
    }
  }

  lemma {:induction false} GrantFaultsPicked(input: Input, m: Manifest, n: nat) returns (places: seq<nat>)
    requires n <= |m.requestedGrants|
    ensures Picks(Refused(AdmittedKeys(input.admitted), m, m.requestedGrants[..n]), n, m, GrantFault(input), places)
  {
    if n == 0 {
      places := [];
    } else {
      places := GrantFaultsPicked(input, m, n - 1);
      hide Admits, GrantKey, AdmittedKeys, Picks;
      AdmitsIff(input, m.requestedGrants[n - 1]);
      assert m.requestedGrants[..n][..n - 1] == m.requestedGrants[..n - 1];
      places := PickNext(Refused(AdmittedKeys(input.admitted), m, m.requestedGrants[..n - 1]), n - 1, m, GrantFault(input), places);
    }
  }

  lemma {:induction false} RequirementFaultsPicked(all: seq<Manifest>, m: Manifest, n: nat) returns (places: seq<nat>)
    requires n <= |m.required|
    ensures Picks(Unmatched(m, m.required[..n], all), n, m, RequirementFault(all), places)
  {
    hide MatchRequirement;
    if n == 0 {
      places := [];
    } else {
      places := RequirementFaultsPicked(all, m, n - 1);
      assert m.required[..n][..n - 1] == m.required[..n - 1];
      places := PickNext(Unmatched(m, m.required[..n - 1], all), n - 1, m, RequirementFault(all), places);
    }
  }

  lemma LinkIff(all: seq<Manifest>, req: Require)
    ensures SoleSupplier(all, req) == match MatchRequirement(req, all) case Link(id) => Some(id) case _ => None
  {
    hide MatchRequirement, InRange;
    MatchIs(req, all);
    if MatchRequirement(req, all).Link? {
      var p :| MetAt(all, req, p);
      assert OnlyMetAt(all, req, p);
      assert forall q :: OnlyMetAt(all, req, q) ==> q == p;
      assert SoleSupplier(all, req) == Some(all[p.outer].componentId);
    } else {
      assert forall p :: !OnlyMetAt(all, req, p);
    }
  }

  lemma {:induction false} DependenciesPicked(all: seq<Manifest>, m: Manifest, n: nat) returns (places: seq<nat>)
    requires n <= |m.required|
    ensures Picks(Links(m, m.required[..n], all), n, m, Dependency(all), places)
  {
    hide MatchRequirement, SoleSupplier;
    if n == 0 {
      places := [];
    } else {
      places := DependenciesPicked(all, m, n - 1);
      assert m.required[..n][..n - 1] == m.required[..n - 1];
      LinkIff(all, m.required[n - 1]);
      places := PickNext(Links(m, m.required[..n - 1], all), n - 1, m, Dependency(all), places);
    }
  }

  /** The violations of each phase: one for each fault, manifest by manifest, in order. */
  lemma PhasesAre(input: Input) returns (defects: seq<Place>, artifacts: seq<Place>, grants: seq<Place>, requirements: seq<Place>)
    ensures Itemises(FlatMap(input.desired, Defects(input.defects)), input.desired, ManifestFault(input), defects)
    ensures Itemises(FlatMap(input.desired, ArtifactFaults(input.artifacts)), input.desired, ArtifactFault(input), artifacts)
    ensures Itemises(FlatMap(input.desired, GrantFaults(AdmittedKeys(input.admitted))), input.desired, GrantFault(input), grants)
    ensures Itemises(FlatMap(input.desired, MatchFaults(input.desired)), input.desired, RequirementFault(input.desired), requirements)
  {
    hide Defects, ArtifactFaults, Refused, Unmatched, FlatMap, Itemises, ManifestFault, ArtifactFault, GrantFault, RequirementFault;
    var all := input.desired;
    forall m
      ensures PickedFrom(Defects(input.defects)(m), m, ManifestFault(input))
      ensures PickedFrom(ArtifactFaults(input.artifacts)(m), m, ArtifactFault(input))
      ensures PickedFrom(GrantFaults(AdmittedKeys(input.admitted))(m), m, GrantFault(input))
      ensures PickedFrom(MatchFaults(all)(m), m, RequirementFault(all))
    {
      ManifestFaultsPicked(input, m);
      ArtifactFaultsPicked(input, m);
      AllGrantsPicked(input, m);
      AllRequirementsPicked(all, m);
    }
    defects := FlatMapItemises(all, Defects(input.defects), ManifestFault(input));
    artifacts := FlatMapItemises(all, ArtifactFaults(input.artifacts), ArtifactFault(input));
    grants := FlatMapItemises(all, GrantFaults(AdmittedKeys(input.admitted)), GrantFault(input));
    requirements := FlatMapItemises(all, MatchFaults(all), RequirementFault(all));
  }

  lemma AllGrantsPicked(input: Input, m: Manifest)
    ensures PickedFrom(GrantFaults(AdmittedKeys(input.admitted))(m), m, GrantFault(input))
  {
    hide Refused, AdmittedKeys, Picks;
    var n := |m.requestedGrants|;
    assert m.requestedGrants[..n] == m.requestedGrants;
    var places := GrantFaultsPicked(input, m, n);
  }

  lemma AllRequirementsPicked(all: seq<Manifest>, m: Manifest)
    ensures PickedFrom(MatchFaults(all)(m), m, RequirementFault(all))
    ensures PickedFrom(EdgesFrom(all)(m), m, Dependency(all))
  {
    hide Unmatched, Links, Picks;
    var n := |m.required|;
    assert m.required[..n] == m.required;
    var places := RequirementFaultsPicked(all, m, n);
    places := DependenciesPicked(all, m, n);
  }

  /** The edges: one for each dependency on another component, manifest by manifest, in order. */
  lemma EdgesAre(all: seq<Manifest>) returns (places: seq<Place>)
    ensures Itemises(Edges(all), all, Dependency(all), places)
  {
    forall m ensures PickedFrom(EdgesFrom(all)(m), m, Dependency(all)) {
      AllRequirementsPicked(all, m);
    }
    places := FlatMapItemises(all, EdgesFrom(all), Dependency(all));
  }

  // ---------------------------------------------------------------------------
  // When a set resolves
  // ---------------------------------------------------------------------------

  ghost predicate Satisfied(all: seq<Manifest>, req: Require) {
    (exists p :: OnlyMetAt(all, req, p)) || (req.optional && forall p :: !MetAt(all, req, p))
  }

  /** Every manifest is valid, its artifact present, its grants admitted and its requirements satisfied. */
  ghost predicate Admissible(input: Input) {
    forall m :: m in input.desired ==> FaultFree(input, m)
  }

  ghost predicate FaultFree(input: Input, m: Manifest) {
    && input.defects(m) == 0
    && ArtifactPresent(input, m)
    && (forall g :: g in m.requestedGrants ==> Admits(input, g))
    && (forall req :: req in m.required ==> Satisfied(input.desired, req))
  }

  lemma SatisfiedIff(all: seq<Manifest>, req: Require)
    ensures Satisfied(all, req) <==> !MatchRequirement(req, all).Fail?
  {
    hide MatchRequirement, InRange;
    MatchIs(req, all);
    if MatchRequirement(req, all).Link? {
      var p :| MetAt(all, req, p);
      assert OnlyMetAt(all, req, p);
    }
  }

  ghost function Fault(input: Input, phase: nat): (Manifest, nat) -> Option<Violation> {
    match phase
    case 1 => ManifestFault(input)
    case 2 => ArtifactFault(input)
    case 3 => GrantFault(input)
    case _ => RequirementFault(input.desired)
  }

  /** What is reported are the faults of the first of the four phases that finds any. */
  lemma FirstFaultsAre(input: Input) returns (phase: nat, places: seq<Place>)
    ensures 1 <= phase <= 4
    ensures Itemises(FirstFaults(input), input.desired, Fault(input, phase), places)
    ensures forall earlier: nat, p :: 1 <= earlier < phase ==> !Occupied(input.desired, Fault(input, earlier), p)
    ensures FirstFaults(input) == [] <==> forall k: nat, p :: 1 <= k <= 4 ==> !Occupied(input.desired, Fault(input, k), p)
  {
    hide FlatMap, Itemises, Occupied, ManifestFault, ArtifactFault, GrantFault, RequirementFault;
    var all := input.desired;
    var defects, artifacts, grants, requirements := PhasesAre(input);
    ItemiseCount(FlatMap(all, Defects(input.defects)), all, Fault(input, 1), defects);
    ItemiseCount(FlatMap(all, ArtifactFaults(input.artifacts)), all, Fault(input, 2), artifacts);
    ItemiseCount(FlatMap(all, GrantFaults(AdmittedKeys(input.admitted))), all, Fault(input, 3), grants);
    ItemiseCount(FlatMap(all, MatchFaults(all)), all, Fault(input, 4), requirements);
    if FlatMap(all, Defects(input.defects)) != [] {
      phase, places := 1, defects;
    } else if FlatMap(all, ArtifactFaults(input.artifacts)) != [] {
      phase, places := 2, artifacts;
    } else if FlatMap(all, GrantFaults(AdmittedKeys(input.admitted))) != [] {
      phase, places := 3, grants;
    } else {
      phase, places := 4, requirements;
    }
  }

  lemma FaultlessIff(input: Input, m: Manifest)
    ensures FaultFree(input, m) <==> forall k: nat, j: nat :: 1 <= k <= 4 ==> Fault(input, k)(m, j).None?
  {
    hide ArtifactPresent, Admits, MatchRequirement, Satisfied;
    forall req ensures Satisfied(input.desired, req) <==> !MatchRequirement(req, input.desired).Fail? {
      SatisfiedIff(input.desired, req);
    }
    if forall k: nat, j: nat :: 1 <= k <= 4 ==> Fault(input, k)(m, j).None? {
      assert Fault(input, 1)(m, 0).None? && Fault(input, 2)(m, 0).None?;
      forall j: nat | j < |m.requestedGrants| ensures Admits(input, m.requestedGrants[j]) {
        assert Fault(input, 3)(m, j).None?;
      }
      forall j: nat | j < |m.required| ensures Satisfied(input.desired, m.required[j]) {
        assert Fault(input, 4)(m, j).None?;
      }
    }
  }

  lemma FaultFreeIff(input: Input)
    ensures FirstFaults(input) == [] <==> Admissible(input)
  {
    hide FirstFaults, Fault, FaultFree;
    var all := input.desired;
    var phase, places := FirstFaultsAre(input);
    if FirstFaults(input) == [] {
      forall m | m in all ensures FaultFree(input, m) {
        var i :| 0 <= i < |all| && all[i] == m;
        forall k: nat, j: nat | 1 <= k <= 4 ensures Fault(input, k)(m, j).None? {
          assert !Occupied(all, Fault(input, k), Place(i, j));
        }
        FaultlessIff(input, m);
      }
    }
    if Admissible(input) {
      forall k: nat, p | 1 <= k <= 4 ensures !Occupied(all, Fault(input, k), p) {
        if p.outer < |all| {
          FaultlessIff(input, all[p.outer]);
        }
      }
    }
  }

  /** A set resolves iff it is admissible and its dependencies have no cycle. */
  lemma ResolvesIff(input: Input, digests: Digests, r: Resolution)
    requires Settles(input, digests, r)
    ensures r.Resolved? <==> Admissible(input) && Acyclic(EdgeSet(Edges(input.desired)), Ids(input.desired))
  {
    FaultFreeIff(input);
  }

  /** Without a fault, what blocks is one violation 07 at the start of a cycle, which it carries. */
  lemma CycleIsReported(input: Input, digests: Digests, r: Resolution)
    requires Settles(input, digests, r) && Admissible(input) && r.Blocked?
    ensures |r.violations| == 1
    ensures var v := r.violations[0];
      && v.code == 7 && v.capability == None
      && |v.cyclePath| >= 2 && v.cyclePath[0] == v.cyclePath[|v.cyclePath| - 1] && v.componentId == Some(v.cyclePath[0])
      && (forall k :: 0 <= k < |v.cyclePath| ==> exists m :: m in input.desired && m.componentId == v.cyclePath[k])
      && (forall i, j :: 0 <= i && j == i + 1 && j < |v.cyclePath| ==> Edge(v.cyclePath[i], v.cyclePath[j]) in Edges(input.desired))
  {
    FaultFreeIff(input);
    IdsAreIds(input.desired);
    hide FirstFaults, Edges, Admissible;
    assert forall k :: 0 <= k < |r.violations[0].cyclePath| ==> r.violations[0].cyclePath[k] in Ids(input.desired);
  }

  // ---------------------------------------------------------------------------
  // What the hash of a resolved set fixes
  // ---------------------------------------------------------------------------

  ghost predicate CollisionFree(d: Digests) {
    && (forall x, y :: d.graph(x) == d.graph(y) ==> x == y)
    && (forall x, y :: d.grants(x) == d.grants(y) ==> x == y)
    && (forall x, y :: d.effects(x) == d.effects(y) ==> x == y)
    && (forall x, y :: d.isolations(x) == d.isolations(y) ==> x == y)
    && (forall x, y :: d.payload(x) == d.payload(y) ==> x == y)
  }

  lemma {:induction false} CountOwned<B>(xs: seq<Manifest>, f: Manifest -> seq<B>, x: Manifest, u: B)
    requires DistinctKeys(xs, IdOf) && x in xs
    requires forall y :: y in xs && u in f(y) ==> y == x
    ensures multiset(FlatMap(xs, f))[u] == multiset(f(x))[u]
  {
    var n := |xs| - 1;
    var front, last := xs[..n], xs[n];
    assert xs == front + [last];
    DistinctSnoc(front, last, IdOf);
    FlatMapIn(front, f, u);
    if last != x {
      CountOwned(front, f, x, u);
    }
  }

  lemma {:induction false} CountTagged<A, B>(xs: seq<A>, ys: seq<B>, x: A, y: B)
    requires |xs| == |ys| && forall i :: 0 <= i < |xs| ==> (ys[i] == y <==> xs[i] == x)
    ensures multiset(xs)[x] == multiset(ys)[y]
  {
    if xs != [] {
      assert xs == [xs[0]] + xs[1..] && ys == [ys[0]] + ys[1..];
      CountTagged(xs[1..], ys[1..], x, y);
    }
  }

  lemma CountGrant(xs: seq<Manifest>, m: Manifest, g: Grant)
    requires DistinctKeys(xs, IdOf) && m in xs
    ensures multiset(FlatMap(xs, GrantEntries()))[GrantEntry(m.componentId, g.scope, g.resource, g.attenuated)]
         == multiset(m.requestedGrants)[g]
  {
    var e := GrantEntry(m.componentId, g.scope, g.resource, g.attenuated);
    forall y | y in xs && e in GrantEntries()(y) ensures y == m {
      SameId(xs, y, m);
    }
    CountOwned(xs, GrantEntries(), m, e);
    CountTagged(m.requestedGrants, GrantEntries()(m), g, e);
  }

  lemma CountEffect(xs: seq<Manifest>, m: Manifest, e: Str)
    requires DistinctKeys(xs, IdOf) && m in xs
    ensures multiset(FlatMap(xs, EffectEntries()))[EffectEntry(m.componentId, e)] == multiset(m.effects)[e]
  {
    var u := EffectEntry(m.componentId, e);
    forall y | y in xs && u in EffectEntries()(y) ensures y == m {
      SameId(xs, y, m);
    }
    CountOwned(xs, EffectEntries(), m, u);
    CountTagged(m.effects, EffectEntries()(m), e, u);
  }

  lemma SameId(xs: seq<Manifest>, y: Manifest, m: Manifest)
    requires DistinctKeys(xs, IdOf) && y in xs && m in xs
    ensures y.componentId == m.componentId ==> y == m
  {
    if y != m {
      DifferentIds(xs, y, m);
    }
  }

  lemma IsolationIn(xs: seq<Manifest>, i: IsolationEntry)
    ensures i in FlatMap(xs, IsolationEntries()) <==>
            exists m :: m in xs && i == IsolationEntry(m.componentId, m.tier, m.adapterId)
  {
    FlatMapIn(xs, IsolationEntries(), i);
  }

  lemma NoIdTwice(components: seq<Identity>)
    requires NoDuplicates(Map(components, ComponentOf))
    ensures forall i, j :: 0 <= i < j < |components| ==> components[i].componentId != components[j].componentId
  {
    var ids := Map(components, ComponentOf);
    forall i, j | 0 <= i < j < |components| ensures components[i].componentId != components[j].componentId {
      assert ids[i] != ids[j];
    }
  }

  /** The components are those desired, with their own version and artifact, each once. */
  lemma ComponentsAre(desired: seq<Manifest>, components: seq<Identity>)
    requires DistinctKeys(desired, IdOf) && ListsComponents(desired, components)
    ensures forall i, j :: 0 <= i < j < |components| ==> components[i].componentId != components[j].componentId
    ensures forall c :: c in components ==> exists m :: m in desired && c == Identity(m.componentId, m.version, m.artifactHash)
    ensures forall m :: m in desired ==> Identity(m.componentId, m.version, m.artifactHash) in components
  {
    hide Edges, EdgeSet;
    var ids := Map(components, ComponentOf);
    NoIdTwice(components);
    IdsAreIds(desired);
    forall m | m in desired ensures Identity(m.componentId, m.version, m.artifactHash) in components {
      assert m.componentId in Elements(ids);
      var i :| 0 <= i < |ids| && ids[i] == m.componentId;
      assert components[i] in components;
      var n :| n in desired && components[i] == IdentityOf(n);
      SameId(desired, n, m);
    }
  }

  /** What two resolved sets share when their hashes are equal. */
  ghost predicate SameSet(a: Input, b: Input) {
    && a.profileId == b.profileId
    && multiset(Edges(a.desired)) == multiset(Edges(b.desired))
    && (a.effectPolicyHash != [] && b.effectPolicyHash != [] ==> a.effectPolicyHash == b.effectPolicyHash)
    && (a.isolationPolicyHash != [] && b.isolationPolicyHash != [] ==> a.isolationPolicyHash == b.isolationPolicyHash)
    && (forall m :: m in a.desired ==> exists n :: n in b.desired && SameManifest(a, b, m, n))
  }

  ghost predicate SameManifest(a: Input, b: Input, m: Manifest, n: Manifest) {
    && m.componentId == n.componentId && m.version == n.version && m.artifactHash == n.artifactHash
    && multiset(m.requestedGrants) == multiset(n.requestedGrants)
    && (a.effectPolicyHash == b.effectPolicyHash == [] ==> multiset(m.effects) == multiset(n.effects))
    && (a.isolationPolicyHash == b.isolationPolicyHash == [] ==> m.tier == n.tier && m.adapterId == n.adapterId)
  }

  lemma SortedAlike<T>(xs: seq<T>, ys: seq<T>, key: T -> Str)
    requires SortBy(xs, key) == SortBy(ys, key)
    ensures multiset(xs) == multiset(ys)
  {
    assert multiset(SortBy(xs, key)) == multiset(xs) && multiset(SortBy(ys, key)) == multiset(ys);
  }

  lemma HashesShared(a: Input, b: Input, d: Digests, p: SetPayload, q: SetPayload)
    requires CollisionFree(d) && PoliciesHashed(a, d, p) && PoliciesHashed(b, d, q)
    requires p.(components := []) == q.(components := [])
    ensures multiset(Edges(a.desired)) == multiset(Edges(b.desired))
    ensures multiset(FlatMap(a.desired, GrantEntries())) == multiset(FlatMap(b.desired, GrantEntries()))
    ensures a.effectPolicyHash == b.effectPolicyHash == [] ==>
      multiset(FlatMap(a.desired, EffectEntries())) == multiset(FlatMap(b.desired, EffectEntries()))
    ensures a.isolationPolicyHash == b.isolationPolicyHash == [] ==>
      multiset(FlatMap(a.desired, IsolationEntries())) == multiset(FlatMap(b.desired, IsolationEntries()))
  {
    hide FlatMap, Edges, SortBy;
    SortedAlike(Edges(a.desired), Edges(b.desired), EdgeKey);
    SortedAlike(FlatMap(a.desired, GrantEntries()), FlatMap(b.desired, GrantEntries()), GrantEntryKey);
    if a.effectPolicyHash == b.effectPolicyHash == [] {
      SortedAlike(FlatMap(a.desired, EffectEntries()), FlatMap(b.desired, EffectEntries()), EffectEntryKey);
    }
    if a.isolationPolicyHash == b.isolationPolicyHash == [] {
      SortedAlike(FlatMap(a.desired, IsolationEntries()), FlatMap(b.desired, IsolationEntries()), IsolationEntryKey);
    }
  }

  lemma SharedGrants(xs: seq<Manifest>, ys: seq<Manifest>, m: Manifest, n: Manifest)
    requires DistinctKeys(xs, IdOf) && DistinctKeys(ys, IdOf) && m in xs && n in ys && m.componentId == n.componentId
    requires multiset(FlatMap(xs, GrantEntries())) == multiset(FlatMap(ys, GrantEntries()))
    ensures multiset(m.requestedGrants) == multiset(n.requestedGrants)
  {
    forall g ensures multiset(m.requestedGrants)[g] == multiset(n.requestedGrants)[g] {
      CountGrant(xs, m, g);
      CountGrant(ys, n, g);
    }
  }

  lemma SharedEffects(xs: seq<Manifest>, ys: seq<Manifest>, m: Manifest, n: Manifest)
    requires DistinctKeys(xs, IdOf) && DistinctKeys(ys, IdOf) && m in xs && n in ys && m.componentId == n.componentId
    requires multiset(FlatMap(xs, EffectEntries())) == multiset(FlatMap(ys, EffectEntries()))
    ensures multiset(m.effects) == multiset(n.effects)
  {
    forall e ensures multiset(m.effects)[e] == multiset(n.effects)[e] {
      CountEffect(xs, m, e);
      CountEffect(ys, n, e);
    }
  }

  lemma SharedIsolation(xs: seq<Manifest>, ys: seq<Manifest>, m: Manifest, n: Manifest)
    requires DistinctKeys(ys, IdOf) && m in xs && n in ys && m.componentId == n.componentId
    requires multiset(FlatMap(xs, IsolationEntries())) == multiset(FlatMap(ys, IsolationEntries()))
    ensures m.tier == n.tier && m.adapterId == n.adapterId
  {
    hide FlatMap;
    var i := IsolationEntry(m.componentId, m.tier, m.adapterId);
    SameElements(FlatMap(xs, IsolationEntries()), FlatMap(ys, IsolationEntries()));
    IsolationIn(xs, i);
    IsolationIn(ys, i);
    var k :| k in ys && i == IsolationEntry(k.componentId, k.tier, k.adapterId);
    SameId(ys, k, n);
  }

  /**
    With collision-free digests, resolved sets with one hash have the same profile, components,
    versions, artifacts, dependencies, grants, and policies or effects and isolation.
   */
  lemma SetHashIdentifies(a: Input, b: Input, d: Digests, r: Resolution, s: Resolution)
    requires CollisionFree(d) && DistinctKeys(a.desired, IdOf) && DistinctKeys(b.desired, IdOf)
    requires Settles(a, d, r) && r.Resolved? && Settles(b, d, s) && s.Resolved?
    requires r.setHash == s.setHash
    ensures SameSet(a, b)
  {
    hide FirstFaults, IsLongestWalk, Edges, EdgeSet, FlatMap, SortBy, ListsComponents, Acyclic, DistinctKeys;
    var p, q := r.payload, s.payload;
    assert p.(components := SortBy(p.components, IdentityKey)) == q.(components := SortBy(q.components, IdentityKey));
    SortedAlike(p.components, q.components, IdentityKey);
    SameElements(p.components, q.components);
    ComponentsAre(a.desired, p.components);
    ComponentsAre(b.desired, q.components);
    HashesShared(a, b, d, p, q);
    forall m | m in a.desired ensures exists n :: n in b.desired && SameManifest(a, b, m, n) {
      var n :| n in b.desired && Identity(m.componentId, m.version, m.artifactHash) == Identity(n.componentId, n.version, n.artifactHash);
      SharedGrants(a.desired, b.desired, m, n);
      if a.effectPolicyHash == b.effectPolicyHash == [] {
        SharedEffects(a.desired, b.desired, m, n);
      }
      if a.isolationPolicyHash == b.isolationPolicyHash == [] {
        SharedIsolation(a.desired, b.desired, m, n);
      }
    }
  }

  /** Each list is hashed in the order of its key, and a policy that is given is taken as it is. */
  lemma PayloadsSorted(input: Input, d: Digests, r: Resolution)
    requires Settles(input, d, r) && r.Resolved?
    ensures exists edges :: r.payload.dependencyGraphHash == d.graph(edges)
              && SortedBy(edges, (e: Edge) => e.from + [45, 62] + e.to)
    ensures exists grants :: r.payload.grantSetHash == d.grants(grants)
              && SortedBy(grants, (g: GrantEntry) => g.componentId + [58] + g.scope + [58] + g.resource)
    ensures if input.effectPolicyHash != [] then r.payload.effectPolicyHash == input.effectPolicyHash
            else exists effects :: r.payload.effectPolicyHash == d.effects(effects)
                   && SortedBy(effects, (e: EffectEntry) => e.componentId + [58] + e.effectClass)
    ensures if input.isolationPolicyHash != [] then r.payload.isolationPolicyHash == input.isolationPolicyHash
            else exists isolations :: r.payload.isolationPolicyHash == d.isolations(isolations)
                   && SortedBy(isolations, (i: IsolationEntry) => i.componentId + [58] + i.tier)
    ensures exists components :: r.setHash == d.payload(r.payload.(components := components))
              && SortedBy(components, (c: Identity) => c.componentId + [64] + c.version)
  {
    hide Edges, FlatMap, SortBy, FirstFaults, ListsComponents, IsLongestWalk, Acyclic, EdgeSet;
    var all := input.desired;
    SortBySorts(Edges(all), EdgeKey);
    SortBySorts(FlatMap(all, GrantEntries()), GrantEntryKey);
    SortBySorts(FlatMap(all, EffectEntries()), EffectEntryKey);
    SortBySorts(FlatMap(all, IsolationEntries()), IsolationEntryKey);
    SortBySorts(r.payload.components, IdentityKey);
    assert forall e: Edge :: EdgeKey(e) == e.from + [45, 62] + e.to;
    assert forall g: GrantEntry :: GrantEntryKey(g) == g.componentId + [58] + g.scope + [58] + g.resource;
  }
}
