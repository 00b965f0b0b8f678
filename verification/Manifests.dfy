/**
  Component manifests and the matching of requirements to providers:
  src/component/contracts.ts and the first half of src/component-runtime/resolver.ts.
 */
module Manifests {
  import opened Text
  import opened Lists

  datatype Option<T> = None | Some(value: T)

  // ---------------------------------------------------------------------------
  // Versions
  // ---------------------------------------------------------------------------

  datatype Triple = Triple(major: nat, minor: nat, patch: nat)

  /** A schema-valid version: three plain numbers, or one with a pre-release or build part. */
  datatype Version = Plain(numbers: Triple) | Tagged(text: Str)

  /** A schema-valid compatibility range. Other holds the forms semverSatisfies never accepts. */
  datatype Compatibility = Caret(base: Triple) | Tilde(base: Triple) | Exact(base: Triple) | Other(text: Str)

  function SemverSatisfies(version: Version, compatibility: Compatibility): bool {
    version.Plain? &&
    var v := version.numbers;
    match compatibility
    case Caret(r) =>
      if r.major != v.major then false
      else if v.minor < r.minor then false
      else if v.minor == r.minor && v.patch < r.patch then false
      else true
    case Tilde(r) => r.major == v.major && r.minor == v.minor
    case Exact(r) => v == r
    case Other(_) => false
  }

  /** Precedence of versions. */
  predicate Older(a: Triple, b: Triple) {
    a.major < b.major || (a.major == b.major && (a.minor < b.minor || (a.minor == b.minor && a.patch < b.patch)))
  }

  /** A caret range holds exactly the versions from its base up to the next major version. */
  lemma CaretIsInterval(v: Triple, r: Triple)
    ensures SemverSatisfies(Plain(v), Caret(r)) <==> !Older(v, r) && Older(v, Triple(r.major + 1, 0, 0))
  {
  }

  /**
    A tilde range holds the versions from its base up to the next minor version, and also the
    older patches of that minor version: the patch of the base is not looked at.
   */
  lemma TildeIsInterval(v: Triple, r: Triple)
    ensures SemverSatisfies(Plain(v), Tilde(r))
       <==> !Older(v, Triple(r.major, r.minor, 0)) && Older(v, Triple(r.major, r.minor + 1, 0))
    ensures SemverSatisfies(Plain(v), Tilde(r)) && Older(v, r) <==>
      v.major == r.major && v.minor == r.minor && v.patch < r.patch
  {
  }

  // ---------------------------------------------------------------------------
  // Manifests
  // ---------------------------------------------------------------------------

  datatype Provide = Provide(capability: Str, version: Version, schemaHash: Str)

  datatype Require = Require(capability: Str, compatibility: Compatibility, schemaHash: Option<Str>, optional: bool)

  datatype Grant = Grant(scope: Str, resource: Str, attenuated: bool)

  datatype Manifest = Manifest(
    componentId: Str,
    version: Str,
    artifactHash: Str,
    provided: seq<Provide>,
    required: seq<Require>,
    requestedGrants: seq<Grant>,
    effects: seq<Str>,
    tier: Str,
    adapterId: Option<Str>)

  function IdOf(m: Manifest): Str {
    m.componentId
  }

  // ---------------------------------------------------------------------------
  // Providers
  // ---------------------------------------------------------------------------

  datatype Provider = Provider(manifest: Manifest, provide: Provide)

  function Offers(m: Manifest, offered: seq<Provide>, capability: Str): seq<Provider> {
    if offered == [] then []
    else
      var n := |offered| - 1;
      Offers(m, offered[..n], capability) + (if offered[n].capability == capability then [Provider(m, offered[n])] else [])
  }

  function OffersOf(capability: Str): Manifest -> seq<Provider> {
    (m: Manifest) => Offers(m, m.provided, capability)
  }

  method FindProviders(capability: Str, manifests: seq<Manifest>) returns (providers: seq<Provider>)
    ensures providers == FlatMap(manifests, OffersOf(capability))
  {
    providers := [];
    var i := 0;
    while i < |manifests|
      invariant 0 <= i <= |manifests|
      invariant providers == FlatMap(manifests[..i], OffersOf(capability))
    {
      var m := manifests[i];
      var j := 0;
      while j < |m.provided|
        invariant 0 <= j <= |m.provided|
        invariant providers == FlatMap(manifests[..i], OffersOf(capability)) + Offers(m, m.provided[..j], capability)
      {
        var p := m.provided[j];
        assert m.provided[..j + 1][..j] == m.provided[..j];
        if p.capability == capability {
          providers := providers + [Provider(m, p)];
        }
        j := j + 1;
      }
      assert m.provided[..j] == m.provided;
      assert manifests[..i + 1] == manifests[..i] + [m];
      FlatMapSnoc(manifests[..i], m, OffersOf(capability));
      i := i + 1;
    }
    assert manifests[..i] == manifests;
  }

  predicate IsCompatible(p: Provider, req: Require) {
    SemverSatisfies(p.provide.version, req.compatibility) && Some(p.provide.schemaHash) == req.schemaHash
  }

  function IfCompatible(req: Require): Provider -> seq<Provider> {
    (p: Provider) => if IsCompatible(p, req) then [p] else []
  }

  /** Array.prototype.filter by compatibility. */
  function CompatibleOnes(providers: seq<Provider>, req: Require): seq<Provider> {
    FlatMap(providers, IfCompatible(req))
  }

  /** What matching one requirement comes to. */
  datatype Match = Skip | Fail(code: nat) | Link(provider: Str)

  function MatchRequirement(req: Require, all: seq<Manifest>): Match {
    var providers := FlatMap(all, OffersOf(req.capability));
    var compatible := CompatibleOnes(providers, req);
    if providers == [] then (if req.optional then Skip else Fail(4))
    else if compatible == [] then (if req.optional then Skip else Fail(5))
    else if |compatible| > 1 then Fail(6)
    else Link(compatible[0].manifest.componentId)
  }

  /** A manifest and one of its provides that meet the requirement. */
  ghost predicate Supplies(m: Manifest, p: Provide, req: Require, all: seq<Manifest>) {
    m in all && p in m.provided && p.capability == req.capability && IsCompatible(Provider(m, p), req)
  }

  lemma {:induction false} OffersIn(m: Manifest, offered: seq<Provide>, capability: Str, x: Provider)
    ensures x in Offers(m, offered, capability) <==> x.manifest == m && x.provide in offered && x.provide.capability == capability
  {
    if offered != [] {
      var n := |offered| - 1;
      OffersIn(m, offered[..n], capability, x);
      assert offered == offered[..n] + [offered[n]];
    }
  }

  lemma CandidateIn(req: Require, all: seq<Manifest>, x: Provider)
    ensures x in CompatibleOnes(FlatMap(all, OffersOf(req.capability)), req) <==> Supplies(x.manifest, x.provide, req, all)
  {
    var f := OffersOf(req.capability);
    FlatMapIn(FlatMap(all, f), IfCompatible(req), x);
    FlatMapIn(all, f, x);
    forall m | m in all
      ensures x in f(m) <==> x.manifest == m && x.provide in m.provided && x.provide.capability == req.capability
    {
      OffersIn(m, m.provided, req.capability, x);
    }
  }

  /** A link leads to a component that meets the requirement, and no second one does. */
  lemma LinkIsTheOnlySupplier(req: Require, all: seq<Manifest>) returns (m: Manifest, p: Provide)
    requires MatchRequirement(req, all).Link?
    ensures MatchRequirement(req, all).provider == m.componentId
    ensures Supplies(m, p, req, all)
    ensures forall n, q :: Supplies(n, q, req, all) ==> n == m && q == p
  {
    var compatible := CompatibleOnes(FlatMap(all, OffersOf(req.capability)), req);
    m, p := compatible[0].manifest, compatible[0].provide;
    CandidateIn(req, all, compatible[0]);
    forall n, q | Supplies(n, q, req, all)
      ensures n == m && q == p
    {
      CandidateIn(req, all, Provider(n, q));
    }
  }

  /** Nothing that meets the requirement: it is skipped when optional and fails otherwise. */
  lemma NoSupplier(req: Require, all: seq<Manifest>)
    ensures MatchRequirement(req, all).Skip? <==> req.optional && forall m, p :: !Supplies(m, p, req, all)
    ensures MatchRequirement(req, all) in {Fail(4), Fail(5)} <==> !req.optional && forall m, p :: !Supplies(m, p, req, all)
  {
    var compatible := CompatibleOnes(FlatMap(all, OffersOf(req.capability)), req);
    forall m, p
      ensures Supplies(m, p, req, all) <==> Provider(m, p) in compatible
    {
      CandidateIn(req, all, Provider(m, p));
    }
    if compatible != [] {
      assert Provider(compatible[0].manifest, compatible[0].provide) in compatible;
    } else {
      NoneCompatible(FlatMap(all, OffersOf(req.capability)), req);
    }
  }

  lemma NoneCompatible(providers: seq<Provider>, req: Require)
    ensures providers == [] ==> CompatibleOnes(providers, req) == []
  {
  }

  lemma CandidatesPermute(req: Require, all: seq<Manifest>, other: seq<Manifest>)
    requires multiset(all) == multiset(other)
    ensures multiset(FlatMap(all, OffersOf(req.capability))) == multiset(FlatMap(other, OffersOf(req.capability)))
    ensures multiset(CompatibleOnes(FlatMap(all, OffersOf(req.capability)), req))
         == multiset(CompatibleOnes(FlatMap(other, OffersOf(req.capability)), req))
  {
    hide FlatMap;
    var f := OffersOf(req.capability);
    FlatMapPermute(all, other, f);
    FlatMapPermute(FlatMap(all, f), FlatMap(other, f), IfCompatible(req));
  }

  /** The order of the manifests does not matter to a match. */
  lemma MatchPermute(req: Require, all: seq<Manifest>, other: seq<Manifest>)
    requires multiset(all) == multiset(other)
    ensures MatchRequirement(req, all) == MatchRequirement(req, other)
  {
    hide FlatMap, CompatibleOnes, OffersOf;
    CandidatesPermute(req, all, other);
    var f := OffersOf(req.capability);
    SameElements(FlatMap(all, f), FlatMap(other, f));
    var c, d := CompatibleOnes(FlatMap(all, f), req), CompatibleOnes(FlatMap(other, f), req);
    SameElements(c, d);
    if |c| == 1 {
      assert c[0] in d;
    }
  }
}
