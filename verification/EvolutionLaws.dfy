/**
  When a candidate moves, in terms of the request and its evidence, and what is then written:
  over every call and every run.
 */
module EvolutionLaws {
  import opened Text
  import opened Manifests
  import opened Evolution

  // ---------------------------------------------------------------------------
  // What a move takes
  // ---------------------------------------------------------------------------

  ghost predicate Permitted(from: Stage, to: Stage) {
    || (from, to) in {(Defined, Tested), (Tested, Shadowed), (Shadowed, Canary), (Canary, Promoted)}
    || (to == RolledBack && from in {Defined, Tested, Shadowed, Canary})
    || to == Quarantined
  }

  /** What the evidence must show for a stage; a roll-back or a quarantine needs nothing. */
  ghost predicate Earned(to: Stage, e: Evidence) {
    && (to in {Tested, Promoted} ==>
          e.evaluation.deterministicFixturesPassed && e.evaluation.conformancePassed && e.evaluation.securityPassed)
    && (to == Promoted ==> e.evaluation.performancePassed && e.evaluation.regressionPassed)
    && (to == Shadowed ==>
          e.observation.exposure == Shadow && forall i :: i in e.observation.incidents ==> i in {Low, Medium})
    && (to in {Canary, Promoted} ==>
          e.observation.exposure == CanaryExposure && forall m :: m in e.observation.metricsPassed ==> m)
    && (to == Canary ==> forall i :: i in e.observation.incidents ==> i in {Low, Medium, High})
    && (to == Promoted ==> |e.observation.incidents| == 0 && !e.authority.killSwitchActive)
  }

  lemma EarnedIff(to: Stage, e: Evidence)
    ensures EvidenceSuffices(to, e) <==> Earned(to, e)
  {
    var metrics := e.observation.metricsPassed;
    if AllPassed(metrics) {
      forall m | m in metrics ensures m {
        var i :| 0 <= i < |metrics| && metrics[i] == m;
      }
    }
    assert forall i :: 0 <= i < |metrics| ==> metrics[i] in metrics;
    forall i | i in e.observation.incidents
      ensures i in {Low, Medium} <==> i != High && i != Critical
      ensures i in {Low, Medium, High} <==> i != Critical
    {
    }
  }

  ghost function About(log: seq<Record>, id: Str): set<nat> {
    set i: nat | i < |log| && log[i].candidateId == id
  }

  lemma {:induction false} HistoryCounts(log: seq<Record>, id: Str)
    ensures |History(log, id)| == |About(log, id)|
  {
    if log == [] {
      assert About(log, id) == {};
    } else {
      var n := |log| - 1;
      HistoryCounts(log[..n], id);
      assert About(log, id) == About(log[..n], id) + (if log[n].candidateId == id then {n} else {});
    }
  }

  /** The rules in the order in which they are looked at, and whether the request breaks each. */
  ghost function Broken(s: State, r: Request): seq<(Rule, bool)> {
    var known := r.candidateId in s.candidates;
    var stage := if known then s.candidates[r.candidateId].stage else r.fromStage;
    [ (Evo01KillSwitch, s.killSwitchActive),
      (Evo02Unknown, !known),
      (Evo07KeyUsed, exists t :: t in s.transitions && t.idempotencyKey == r.idempotencyKey),
      (Evo03StageMismatch, stage != r.fromStage),
      (Evo04Terminal, stage in {Promoted, RolledBack, Quarantined} && r.toStage != Quarantined),
      (Evo05NotForward, !Permitted(r.fromStage, r.toStage)),
      (Evo06Sequence, r.sequenceNumber != |About(s.transitions, r.candidateId)|),
      (Evo08Evidence, !Earned(r.toStage, r.evidence)) ]
  }

  ghost predicate FirstBroken(rules: seq<(Rule, bool)>, rule: Rule) {
    && (rule == Accepted <==> forall k :: 0 <= k < |rules| ==> !rules[k].1)
    && (rule != Accepted ==> exists k ::
          0 <= k < |rules| && rules[k] == (rule, true) && forall j :: 0 <= j < k ==> !rules[j].1)
  }

  /** The answer names the first rule that is broken; with none broken the request is accepted. */
  lemma JudgeIs(s: State, r: Request)
    ensures FirstBroken(Broken(s, r), Judge(s, r))
  {
    HistoryCounts(s.transitions, r.candidateId);
    EarnedIff(r.toStage, r.evidence);
    hide EvidenceSuffices, Earned, History, About;
    var k := match Judge(s, r)
             case Evo01KillSwitch => 0 case Evo02Unknown => 1 case Evo07KeyUsed => 2 case Evo03StageMismatch => 3
             case Evo04Terminal => 4 case Evo05NotForward => 5 case Evo06Sequence => 6 case _ => 7;
    assert Judge(s, r) != Accepted ==> Broken(s, r)[k] == (Judge(s, r), true);
  }

  /** The guards in their order, and whether each stops the request. */
  ghost function Stopped(c: Candidate, r: Request, killSwitch: bool, now: Str, limits: Limits): seq<(Rule, bool)> {
    var e := r.evidence;
    [ (Guard04KillSwitch, killSwitch),
      (Guard02CandidateHash, e.artifact.candidateHash != c.artifactHash),
      (Guard03ParentHash, e.artifact.parentHash != c.parentArtifactHash),
      (Guard05Expired, !Less(now, e.authority.expiry)),
      (Guard06ShadowIncident, e.observation.exposure == Shadow && Critical in e.observation.incidents),
      (Guard07Duration, e.observation.exposure == CanaryExposure && e.observation.duration > limits.maxCanaryDuration),
      (Guard08SampleSize, e.observation.exposure == CanaryExposure && e.observation.sampleSize < limits.minSampleSize),
      (Guard09Uncertainty, e.observation.exposure == CanaryExposure && e.observation.uncertaintyScore * 10.0 > 3.0),
      (Guard10SharedHash, |{e.definitionHash, e.evaluation.evidenceHash, e.observation.evidenceHash,
                            e.authority.evidenceHash, e.artifact.evidenceHash, e.bundleHash}| < 6),
      (Guard11BundleHash, e.bundleHash != limits.bundleDigest(e.definitionHash, e.evaluation.evidenceHash,
                            e.observation.evidenceHash, e.authority.evidenceHash, e.artifact.evidenceHash)) ]
  }

  lemma SharedHashIff(e: Evidence)
    ensures (exists i, j :: 0 <= i < j < 6 && Hashes(e)[i] == Hashes(e)[j]) <==>
            |{e.definitionHash, e.evaluation.evidenceHash, e.observation.evidenceHash,
              e.authority.evidenceHash, e.artifact.evidenceHash, e.bundleHash}| < 6
  {
    var h := Hashes(e);
    assert h == [e.definitionHash, e.evaluation.evidenceHash, e.observation.evidenceHash,
                 e.authority.evidenceHash, e.artifact.evidenceHash, e.bundleHash];
    DistinctIff(h);
    assert (set x | x in h) == {e.definitionHash, e.evaluation.evidenceHash, e.observation.evidenceHash,
                                e.authority.evidenceHash, e.artifact.evidenceHash, e.bundleHash};
  }

  lemma {:induction false} DistinctIff(h: seq<Str>)
    ensures |set x | x in h| <= |h|
    ensures |set x | x in h| < |h| <==> exists i, j :: 0 <= i < j < |h| && h[i] == h[j]
  {
    if h != [] {
      var n := |h| - 1;
      DistinctIff(h[..n]);
      assert (set x | x in h) == (set x | x in h[..n]) + {h[n]};
      if exists i, j :: 0 <= i < j < |h| && h[i] == h[j] {
        var i, j :| 0 <= i < j < |h| && h[i] == h[j];
        assert j < n ==> h[..n][i] == h[..n][j];
        assert j == n ==> h[..n][i] == h[n];
      }
      if h[n] in h[..n] {
        var i :| 0 <= i < n && h[..n][i] == h[n];
        assert h[i] == h[n];
      }
    }
  }

  lemma ExpiredIff(e: Evidence, now: Str)
    ensures AtMost(e.authority.expiry, now) <==> !Less(now, e.authority.expiry)
  {
    hide Less;
    LessTotal(now, e.authority.expiry);
    LessIrreflexive(now);
    if Less(now, e.authority.expiry) {
      LessAsymmetric(now, e.authority.expiry);
    }
  }

  /** The guards name the first of them that stops the request. */
  lemma GuardsAre(c: Candidate, r: Request, killSwitch: bool, now: Str, limits: Limits)
    ensures FirstBroken(Stopped(c, r, killSwitch, now, limits), RunAllGuards(c, r, killSwitch, now, limits))
  {
    hide Hashes, Less, AtMost;
    ExpiredIff(r.evidence, now);
    SharedHashIff(r.evidence);
    var g := RunAllGuards(c, r, killSwitch, now, limits);
    FirstFailureIs([
      if killSwitch then Guard04KillSwitch else Accepted,
      CheckEvidenceImmutability(c, r.evidence),
      CheckAuthorityExpiry(r.evidence, now),
      CheckShadowSideEffects(r.evidence),
      CheckCanaryBoundaries(r.evidence, limits),
      CheckEvidencePoisoning(r.evidence, limits)]);
    var k := match g
             case Guard04KillSwitch => 0 case Guard02CandidateHash => 1 case Guard03ParentHash => 2 case Guard05Expired => 3
             case Guard06ShadowIncident => 4 case Guard07Duration => 5 case Guard08SampleSize => 6
             case Guard09Uncertainty => 7 case Guard10SharedHash => 8 case _ => 9;
    assert g != Accepted ==> Stopped(c, r, killSwitch, now, limits)[k] == (g, true);
  }

  lemma {:induction false} FirstFailureAt(checks: seq<Rule>, k: nat)
    requires k <= |checks| && forall j :: 0 <= j < k ==> checks[j] == Accepted
    ensures k == |checks| ==> FirstFailure(checks) == Accepted
    ensures k < |checks| && checks[k] != Accepted ==> FirstFailure(checks) == checks[k]
  {
    if k > 0 {
      FirstFailureAt(checks[1..], k - 1);
    }
  }

  lemma FirstFailureIs(checks: seq<Rule>)
    requires |checks| == 6
    ensures FirstFailure(checks) ==
      if checks[0] != Accepted then checks[0] else if checks[1] != Accepted then checks[1]
      else if checks[2] != Accepted then checks[2] else if checks[3] != Accepted then checks[3]
      else if checks[4] != Accepted then checks[4] else checks[5]
  {
    hide FirstFailure;
    var k: nat := if checks[0] != Accepted then 0 else if checks[1] != Accepted then 1 else if checks[2] != Accepted then 2
                  else if checks[3] != Accepted then 3 else if checks[4] != Accepted then 4 else if checks[5] != Accepted then 5 else 6;
    FirstFailureAt(checks, k);
  }

  // ---------------------------------------------------------------------------
  // Steps
  // ---------------------------------------------------------------------------

  /** A request reaches the reducer from the controller, behind its guards, or directly. */
  ghost predicate Asks(a: Action, r: Request, now: Str) {
    a == RequestTransition(r, now) || a == ApplyTransition(r, now)
  }

  ghost predicate LetThrough(limits: Limits, s: State, a: Action, r: Request, now: Str) {
    && Asks(a, r, now) && r.candidateId in s.candidates
    && (a.RequestTransition? ==>
          forall k :: 0 <= k < 10 ==> !Stopped(s.candidates[r.candidateId], r, s.killSwitchActive, now, limits)[k].1)
  }

  /** The request is let through, and the first n rules of the reducer hold. */
  ghost predicate Holds(limits: Limits, s: State, a: Action, r: Request, now: Str, n: nat)
    requires n <= 8
  {
    LetThrough(limits, s, a, r, now) && forall k :: 0 <= k < n ==> !Broken(s, r)[k].1
  }

  ghost function Written(r: Request, decision: Decision, action: Option<CompensatingAction>, now: Str): Record {
    Record(
      candidateId := r.candidateId,
      fromStage := r.fromStage,
      toStage := r.toStage,
      decision := decision,
      evidenceBundleHash := r.evidence.bundleHash,
      authorityHash := r.evidence.authority.evidenceHash,
      policyVersion := r.evidence.authority.policyVersion,
      sequenceNumber := r.sequenceNumber,
      idempotencyKey := r.idempotencyKey,
      timestamp := now,
      action := action)
  }

  /** A roll-back goes to the parent's artifact, a quarantine is of the candidate's own. */
  ghost predicate Compensates(c: Candidate, to: Stage, action: Option<CompensatingAction>) {
    && (action.Some? <==> to in {RolledBack, Quarantined})
    && (to == RolledBack ==> action == Some(CompensatingAction(kind := Rollback, targetArtifactHash := c.parentArtifactHash)))
    && (to == Quarantined ==> action == Some(CompensatingAction(kind := Quarantine, targetArtifactHash := c.artifactHash)))
  }

  /** The candidate moves and the record is written. */
  ghost predicate Admits(s: State, r: Request, now: Str, t: State) {
    r.candidateId in s.candidates &&
    var c := s.candidates[r.candidateId];
    exists action ::
      && Compensates(c, r.toStage, action)
      && t == State(
           candidates := s.candidates[r.candidateId := Candidate(
             candidateId := c.candidateId, parentArtifactHash := c.parentArtifactHash, artifactHash := c.artifactHash,
             intentHash := c.intentHash, policyHash := c.policyHash, stage := r.toStage)],
           transitions := s.transitions + [Written(r, Admit, action, now)],
           killSwitchActive := s.killSwitchActive)
  }

  lemma GuardedIff(limits: Limits, s: State, r: Request, now: Str)
    requires r.candidateId in s.candidates
    ensures RunAllGuards(s.candidates[r.candidateId], r, s.killSwitchActive, now, limits) == Accepted
       <==> LetThrough(limits, s, RequestTransition(r, now), r, now)
  {
    GuardsAre(s.candidates[r.candidateId], r, s.killSwitchActive, now, limits);
    hide RunAllGuards;
    assert |Stopped(s.candidates[r.candidateId], r, s.killSwitchActive, now, limits)| == 10;
  }

  lemma AppliedIs(s: State, r: Request, now: Str)
    ensures (forall k :: 0 <= k < 8 ==> !Broken(s, r)[k].1) ==> Admits(s, r, now, Apply(s, r, now))
    ensures (forall k :: 0 <= k < 7 ==> !Broken(s, r)[k].1) && Broken(s, r)[7].1 ==>
      Apply(s, r, now) == s.(transitions := s.transitions + [Written(r, Incomplete, None, now)])
    ensures (exists k :: 0 <= k < 7 && Broken(s, r)[k].1) ==> Apply(s, r, now) == s
  {
    JudgeIs(s, r);
    hide Judge, Earned, Permitted, About;
    if Judge(s, r) == Accepted {
      assert !Broken(s, r)[1].1;
      assert Compensates(s.candidates[r.candidateId], r.toStage, ActionFor(s.candidates[r.candidateId], r.toStage));
    }
  }

  /** A request moves its candidate, is only noted down, or changes nothing. */
  lemma RequestIs(limits: Limits, s: State, a: Action, r: Request, now: Str)
    requires Asks(a, r, now)
    ensures Holds(limits, s, a, r, now, 8) ==> Admits(s, r, now, Step(limits, s, a))
    ensures Holds(limits, s, a, r, now, 7) && !Earned(r.toStage, r.evidence) ==>
      Step(limits, s, a) == s.(transitions := s.transitions + [Written(r, Incomplete, None, now)])
    ensures !Holds(limits, s, a, r, now, 7) ==> Step(limits, s, a) == s
  {
    AppliedIs(s, r, now);
    if r.candidateId in s.candidates {
      GuardedIff(limits, s, r, now);
    }
    hide RunAllGuards, Apply, Earned, Permitted, About, Stopped;
    assert Broken(s, r)[1].1 <==> r.candidateId !in s.candidates;
  }

  /** The id of a candidate: `cand-` and the first twelve digits after `sha256:`. */
  lemma CandidateIdIs(tag: Str, digits: Str)
    requires |tag| == 7 && |digits| >= 12
    ensures CandidateIdOf(tag + digits) == [99, 97, 110, 100, 45] + digits[..12]
  {
    assert (tag + digits)[7..19] == digits[..12];
  }

  /** A candidate is defined for an open scope under a new id, with what it was given. */
  lemma DefineIs(limits: Limits, s: State, intent: Intent, artifactHash: Str, parent: Str, policy: Str)
    ensures var id := CandidateIdOf(artifactHash);
      var t := Step(limits, s, Define(intent, artifactHash, parent, policy));
      if intent.scope !in {LawKernel, Permissions, EffectPolicy, IsolationContract, CanonicalIdentity, DiagnosticSchema,
                           ControllerCode, EvaluatorPolicy} && id !in s.candidates
      then t == s.(candidates := s.candidates[id := Candidate(
             candidateId := id, parentArtifactHash := parent, artifactHash := artifactHash,
             intentHash := intent.intentHash, policyHash := policy, stage := Defined)])
      else t == s
  {
    hide CandidateIdOf;
  }

  lemma RegisterIs(limits: Limits, s: State, c: Candidate)
    ensures Step(limits, s, RegisterCandidate(c)) ==
      if c.candidateId !in s.candidates && c.stage == Defined then s.(candidates := s.candidates[c.candidateId := c]) else s
  {
  }

  /** Pulling the kill switch writes a record from promoted to quarantined under the id `kill-switch`. */
  lemma KillIs(limits: Limits, s: State, now: Str)
    ensures var name: Str := [107, 105, 108, 108, 45, 115, 119, 105, 116, 99, 104];
      Step(limits, s, ActivateKillSwitch(now)) == State(
        candidates := s.candidates,
        transitions := s.transitions + [Record(
          candidateId := name, fromStage := Promoted, toStage := Quarantined, decision := Admit,
          evidenceBundleHash := name, authorityHash := name, policyVersion := [49, 46, 48, 46, 48],
          sequenceNumber := |s.transitions|, idempotencyKey := name + [45] + now, timestamp := now,
          action := Some(CompensatingAction(kind := KillSwitch, targetArtifactHash := name)))],
        killSwitchActive := true)
  {
  }

  lemma OneAsks(limits: Limits, s: State, a: Action, r: Request, now: Str)
    requires Asks(a, r, now)
    ensures Step(limits, s, a).candidates.Keys == s.candidates.Keys
    ensures forall q, time :: Holds(limits, s, a, q, time, 8) ==> q == r && time == now
    ensures forall id :: id in s.candidates ==>
      Step(limits, s, a).candidates[id] ==
        if Holds(limits, s, a, r, now, 8) && id == r.candidateId then s.candidates[id].(stage := r.toStage) else s.candidates[id]
  {
    RequestIs(limits, s, a, r, now);
    hide Step, Earned, Permitted, About, Stopped;
    assert Broken(s, r)[7].1 <==> !Earned(r.toStage, r.evidence);
  }

  lemma HoldsAsks(limits: Limits, s: State, a: Action)
    ensures forall r, now :: Holds(limits, s, a, r, now, 8) ==> Asks(a, r, now)
  {
    hide Broken, Stopped;
  }

  lemma ReachedLater(limits: Limits, actions: seq<Action>, n: nat, k: nat, id: Str, stage: Stage)
    requires n <= |actions| && Reached(limits, actions[..n], k, id, stage)
    ensures Reached(limits, actions, k, id, stage)
  {
    hide Holds, Run;
    assert actions[..n][..k] == actions[..k] && actions[..n][k] == actions[k];
  }

  lemma NewIsDefined(limits: Limits, s: State, a: Action, id: Str)
    requires id !in s.candidates
    ensures id in Step(limits, s, a).candidates ==> Step(limits, s, a).candidates[id].stage == Defined
  {
    hide RunAllGuards, EvidenceSuffices, History, KeyUsed, CandidateIdOf;
  }

  /** A candidate changes its stage iff a request for it is let through and breaks no rule. */
  lemma StageChangesIff(limits: Limits, s: State, a: Action, id: Str)
    requires id in s.candidates
    ensures id in Step(limits, s, a).candidates
    ensures Step(limits, s, a).candidates[id] != s.candidates[id] ==>
      exists r: Request, now :: r.candidateId == id && Holds(limits, s, a, r, now, 8)
    ensures forall r: Request, now :: r.candidateId == id && Holds(limits, s, a, r, now, 8) ==>
      Step(limits, s, a).candidates[id] == s.candidates[id].(stage := r.toStage)
  {
    HoldsAsks(limits, s, a);
    hide Step, Holds;
    match a {
      case Define(intent, artifactHash, parent, policy) => DefineIs(limits, s, intent, artifactHash, parent, policy);
      case RegisterCandidate(c) => RegisterIs(limits, s, c);
      case ActivateKillSwitch(now) => KillIs(limits, s, now);
      case RequestTransition(r, now) => OneAsks(limits, s, a, r, now);
      case ApplyTransition(r, now) => OneAsks(limits, s, a, r, now);
    }
  }

  // ---------------------------------------------------------------------------
  // Runs
  // ---------------------------------------------------------------------------

  /** The k-th action was a request that brought the candidate to a stage it had earned. */
  ghost predicate Reached(limits: Limits, actions: seq<Action>, k: nat, id: Str, stage: Stage) {
    && k < |actions|
    && exists r: Request, now :: r.candidateId == id && r.toStage == stage && Holds(limits, Run(limits, INITIAL, actions[..k]), actions[k], r, now, 8)
  }

  /** In every run, a candidate beyond defined was brought to its stage by a request that earned it. */
  lemma {:induction false} StageWasEarned(limits: Limits, actions: seq<Action>, id: Str)
    ensures var s := Run(limits, INITIAL, actions);
      id in s.candidates && s.candidates[id].stage != Defined ==> exists k: nat :: Reached(limits, actions, k, id, s.candidates[id].stage)
  {
    if actions != [] {
      var n := |actions| - 1;
      var s, t := Run(limits, INITIAL, actions[..n]), Run(limits, INITIAL, actions);
      StageWasEarned(limits, actions[..n], id);
      hide Step, Holds;
      if id in t.candidates && t.candidates[id].stage != Defined {
        if id !in s.candidates {
          NewIsDefined(limits, s, actions[n], id);
        }
        StageChangesIff(limits, s, actions[n], id);
        if t.candidates[id] == s.candidates[id] {
          var k: nat :| Reached(limits, actions[..n], k, id, s.candidates[id].stage);
          ReachedLater(limits, actions, n, k, id, s.candidates[id].stage);
        } else {
          assert Reached(limits, actions, n, id, t.candidates[id].stage);
        }
      }
    }
  }

  /** A promoted candidate got there by a request whose evidence shows all of this. */
  lemma PromotionShows(limits: Limits, actions: seq<Action>, id: Str) returns (k: nat, r: Request, now: Str)
    requires id in Run(limits, INITIAL, actions).candidates && Run(limits, INITIAL, actions).candidates[id].stage == Promoted
    ensures k < |actions| && Asks(actions[k], r, now) && r.candidateId == id && r.fromStage == Canary && r.toStage == Promoted
    ensures var e := r.evidence;
      && e.evaluation.deterministicFixturesPassed && e.evaluation.conformancePassed && e.evaluation.securityPassed
      && e.evaluation.performancePassed && e.evaluation.regressionPassed
      && e.observation.exposure == CanaryExposure && (forall m :: m in e.observation.metricsPassed ==> m)
      && e.observation.incidents == [] && !e.authority.killSwitchActive
    ensures !Run(limits, INITIAL, actions[..k]).killSwitchActive
  {
    StageWasEarned(limits, actions, id);
    hide Run, About;
    k :| Reached(limits, actions, k, id, Promoted);
    r, now :| r.candidateId == id && r.toStage == Promoted && Holds(limits, Run(limits, INITIAL, actions[..k]), actions[k], r, now, 8);
    var broken := Broken(Run(limits, INITIAL, actions[..k]), r);
    assert !broken[0].1 && !broken[5].1 && !broken[7].1;
  }
}
