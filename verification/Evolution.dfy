/**
  The evolution reducer with its guards and controller: src/evolution/contracts.ts, guards.ts,
  reducer.ts and controller.ts. Digests of records are left out; the bundle digest is a parameter.
 */
module Evolution {
  import opened Text
  import opened Manifests

  // ---------------------------------------------------------------------------
  // Stages
  // ---------------------------------------------------------------------------

  datatype Stage = Defined | Tested | Shadowed | Canary | Promoted | RolledBack | Quarantined

  const FORWARD_ONLY_SEQUENCE := [Defined, Tested, Shadowed, Canary, Promoted]

  /** indexOf in the forward sequence, or -1. */
  function ForwardIndex(s: Stage): int {
    match s
    case Defined => 0
    case Tested => 1
    case Shadowed => 2
    case Canary => 3
    case Promoted => 4
    case _ => -1
  }

  predicate IsForwardTransition(from: Stage, to: Stage) {
    to == RolledBack || to == Quarantined
    || (ForwardIndex(from) != -1 && ForwardIndex(to) != -1 && ForwardIndex(to) == ForwardIndex(from) + 1)
  }

  predicate IsTerminalStage(s: Stage) {
    s == Promoted || s == RolledBack || s == Quarantined
  }

  // ---------------------------------------------------------------------------
  // Evidence, requests, records
  // ---------------------------------------------------------------------------

  datatype Severity = Low | Medium | High | Critical

  datatype Exposure = Shadow | CanaryExposure

  datatype Evaluation = Evaluation(
    deterministicFixturesPassed: bool,
    conformancePassed: bool,
    securityPassed: bool,
    performancePassed: bool,
    regressionPassed: bool,
    evidenceHash: Str)

  datatype Observation = Observation(
    exposure: Exposure,
    duration: real,
    sampleSize: real,
    metricsPassed: seq<bool>,
    incidents: seq<Severity>,
    uncertaintyScore: real,
    evidenceHash: Str)

  datatype Authority = Authority(policyVersion: Str, expiry: Str, killSwitchActive: bool, evidenceHash: Str)

  datatype Artifact = Artifact(candidateHash: Str, parentHash: Str, evidenceHash: Str)

  datatype Evidence = Evidence(
    definitionHash: Str,
    evaluation: Evaluation,
    observation: Observation,
    authority: Authority,
    artifact: Artifact,
    bundleHash: Str)

  datatype Request = Request(
    candidateId: Str,
    fromStage: Stage,
    toStage: Stage,
    evidence: Evidence,
    idempotencyKey: Str,
    sequenceNumber: int)

  datatype Candidate = Candidate(
    candidateId: Str,
    parentArtifactHash: Str,
    artifactHash: Str,
    intentHash: Str,
    policyHash: Str,
    stage: Stage)

  datatype Decision = Admit | Incomplete

  datatype ActionKind = Rollback | Quarantine | KillSwitch

  datatype CompensatingAction = CompensatingAction(kind: ActionKind, targetArtifactHash: Str)

  datatype Record = Record(
    candidateId: Str,
    fromStage: Stage,
    toStage: Stage,
    decision: Decision,
    evidenceBundleHash: Str,
    authorityHash: Str,
    policyVersion: Str,
    sequenceNumber: int,
    idempotencyKey: Str,
    timestamp: Str,
    action: Option<CompensatingAction>)

  /** "kill-switch" */
  const KILL_SWITCH: Str := [107, 105, 108, 108, 45, 115, 119, 105, 116, 99, 104]

  datatype State = State(candidates: map<Str, Candidate>, transitions: seq<Record>, killSwitchActive: bool)

  const INITIAL := State(map[], [], false)

  datatype Rule =
    | Accepted
    | Evo01KillSwitch | Evo02Unknown | Evo03StageMismatch | Evo04Terminal | Evo05NotForward
    | Evo06Sequence | Evo07KeyUsed | Evo08Evidence | Evo09Exists | Evo10NotDefined
    | Guard01Scope | Guard02CandidateHash | Guard03ParentHash | Guard04KillSwitch | Guard05Expired
    | Guard06ShadowIncident | Guard07Duration | Guard08SampleSize | Guard09Uncertainty
    | Guard10SharedHash | Guard11BundleHash

  // ---------------------------------------------------------------------------
  // Evidence per stage
  // ---------------------------------------------------------------------------

  predicate AllPassed(metrics: seq<bool>) {
    forall i :: 0 <= i < |metrics| ==> metrics[i]
  }

  predicate AnyIncident(incidents: seq<Severity>, s: Severity) {
    s in incidents
  }

  /** checkEvidenceForStage */
  predicate EvidenceSuffices(stage: Stage, e: Evidence) {
    match stage
    case Tested => e.evaluation.deterministicFixturesPassed && e.evaluation.conformancePassed && e.evaluation.securityPassed
    case Shadowed =>
      && e.observation.exposure == Shadow
      && !AnyIncident(e.observation.incidents, Critical) && !AnyIncident(e.observation.incidents, High)
    case Canary =>
      && e.observation.exposure == CanaryExposure
      && AllPassed(e.observation.metricsPassed) && !AnyIncident(e.observation.incidents, Critical)
    case Promoted =>
      && e.evaluation.deterministicFixturesPassed && e.evaluation.conformancePassed && e.evaluation.securityPassed
      && e.evaluation.performancePassed && e.evaluation.regressionPassed
      && e.observation.exposure == CanaryExposure && AllPassed(e.observation.metricsPassed) && e.observation.incidents == []
      && !e.authority.killSwitchActive
    case _ => true
  }

  // ---------------------------------------------------------------------------
  // Guards
  // ---------------------------------------------------------------------------

  datatype Limits = Limits(maxCanaryDuration: real, minSampleSize: real, bundleDigest: (Str, Str, Str, Str, Str) -> Str)

  function CheckEvidenceImmutability(c: Candidate, e: Evidence): Rule {
    if e.artifact.candidateHash != c.artifactHash then Guard02CandidateHash
    else if e.artifact.parentHash != c.parentArtifactHash then Guard03ParentHash
    else Accepted
  }

  function CheckAuthorityExpiry(e: Evidence, now: Str): Rule {
    if AtMost(e.authority.expiry, now) then Guard05Expired else Accepted
  }

  function CheckShadowSideEffects(e: Evidence): Rule {
    if e.observation.exposure == Shadow && AnyIncident(e.observation.incidents, Critical) then Guard06ShadowIncident else Accepted
  }

  function CheckCanaryBoundaries(e: Evidence, limits: Limits): Rule {
    if e.observation.exposure != CanaryExposure then Accepted
    else if e.observation.duration > limits.maxCanaryDuration then Guard07Duration
    else if e.observation.sampleSize < limits.minSampleSize then Guard08SampleSize
    else if e.observation.uncertaintyScore > 0.3 then Guard09Uncertainty
    else Accepted
  }

  function Hashes(e: Evidence): seq<Str> {
    [e.definitionHash, e.evaluation.evidenceHash, e.observation.evidenceHash, e.authority.evidenceHash, e.artifact.evidenceHash, e.bundleHash]
  }

  function CheckEvidencePoisoning(e: Evidence, limits: Limits): Rule {
    if exists i, j :: 0 <= i < j < 6 && Hashes(e)[i] == Hashes(e)[j] then Guard10SharedHash
    else if limits.bundleDigest(e.definitionHash, e.evaluation.evidenceHash, e.observation.evidenceHash,
                                e.authority.evidenceHash, e.artifact.evidenceHash) != e.bundleHash then Guard11BundleHash
    else Accepted
  }

  function FirstFailure(checks: seq<Rule>): Rule {
    if checks == [] then Accepted else if checks[0] != Accepted then checks[0] else FirstFailure(checks[1..])
  }

  function RunAllGuards(c: Candidate, r: Request, killSwitch: bool, now: Str, limits: Limits): Rule {
    FirstFailure([
      if killSwitch then Guard04KillSwitch else Accepted,
      CheckEvidenceImmutability(c, r.evidence),
      CheckAuthorityExpiry(r.evidence, now),
      CheckShadowSideEffects(r.evidence),
      CheckCanaryBoundaries(r.evidence, limits),
      CheckEvidencePoisoning(r.evidence, limits)])
  }

  // ---------------------------------------------------------------------------
  // The reducer
  // ---------------------------------------------------------------------------

  /** The records about one candidate, in order. */
  function History(transitions: seq<Record>, id: Str): seq<Record> {
    if transitions == [] then []
    else
      var last := transitions[|transitions| - 1];
      History(transitions[..|transitions| - 1], id) + (if last.candidateId == id then [last] else [])
  }

  predicate KeyUsed(transitions: seq<Record>, key: Str) {
    exists t :: t in transitions && t.idempotencyKey == key
  }

  function BuildRecord(r: Request, decision: Decision, action: Option<CompensatingAction>, now: Str): Record {
    Record(r.candidateId, r.fromStage, r.toStage, decision, r.evidence.bundleHash, r.evidence.authority.evidenceHash,
           r.evidence.authority.policyVersion, r.sequenceNumber, r.idempotencyKey, now, action)
  }

  function ActionFor(c: Candidate, to: Stage): Option<CompensatingAction> {
    if to == RolledBack then Some(CompensatingAction(Rollback, c.parentArtifactHash))
    else if to == Quarantined then Some(CompensatingAction(Quarantine, c.artifactHash))
    else None
  }

  /** What applyTransition answers; Evo08Evidence and Accepted also append a record. */
  function Judge(s: State, r: Request): Rule {
    if s.killSwitchActive then Evo01KillSwitch
    else if r.candidateId !in s.candidates then Evo02Unknown
    else if KeyUsed(s.transitions, r.idempotencyKey) then Evo07KeyUsed
    else
      var stage := s.candidates[r.candidateId].stage;
      if stage != r.fromStage then Evo03StageMismatch
      else if IsTerminalStage(stage) && r.toStage != Quarantined then Evo04Terminal
      else if !IsForwardTransition(r.fromStage, r.toStage) then Evo05NotForward
      else if r.sequenceNumber != |History(s.transitions, r.candidateId)| then Evo06Sequence
      else if !EvidenceSuffices(r.toStage, r.evidence) then Evo08Evidence
      else Accepted
  }

  function Apply(s: State, r: Request, now: Str): State {
    match Judge(s, r)
    case Evo08Evidence => s.(transitions := s.transitions + [BuildRecord(r, Incomplete, None, now)])
    case Accepted =>
      if r.candidateId !in s.candidates then s
      else
        var c := s.candidates[r.candidateId];
        s.(candidates := s.candidates[r.candidateId := c.(stage := r.toStage)],
           transitions := s.transitions + [BuildRecord(r, Admit, ActionFor(c, r.toStage), now)])
    case _ => s
  }

  function JudgeRegistration(s: State, c: Candidate): Rule {
    if c.candidateId in s.candidates then Evo09Exists
    else if c.stage != Defined then Evo10NotDefined
    else Accepted
  }

  function Register(s: State, c: Candidate): State {
    if JudgeRegistration(s, c) == Accepted then s.(candidates := s.candidates[c.candidateId := c]) else s
  }

  function KillRecord(s: State, now: Str): Record {
    Record(KILL_SWITCH, Promoted, Quarantined, Admit, KILL_SWITCH, KILL_SWITCH, [49, 46, 48, 46, 48], |s.transitions|,
           KILL_SWITCH + [45] + now, now, Some(CompensatingAction(KillSwitch, KILL_SWITCH)))
  }

  function Kill(s: State, now: Str): State {
    s.(killSwitchActive := true, transitions := s.transitions + [KillRecord(s, now)])
  }

  // ---------------------------------------------------------------------------
  // The controller
  // ---------------------------------------------------------------------------

  /** The scope of an intent: the eight a controller may not propose to change, or another. */
  datatype Scope =
    | LawKernel | Permissions | EffectPolicy | IsolationContract | CanonicalIdentity | DiagnosticSchema
    | ControllerCode | EvaluatorPolicy
    | OtherScope(name: Str)

  datatype Intent = Intent(scope: Scope, intentHash: Str)

  predicate Forbidden(scope: Scope) {
    !scope.OtherScope?
  }

  /** `cand-` and twelve digits of the artifact hash, which starts with `sha256:`. */
  function CandidateIdOf(artifactHash: Str): Str {
    [99, 97, 110, 100, 45] + (if |artifactHash| >= 19 then artifactHash[7..19] else if |artifactHash| >= 7 then artifactHash[7..] else [])
  }

  function NewCandidate(intent: Intent, artifactHash: Str, parentArtifactHash: Str, policyHash: Str): Candidate {
    Candidate(CandidateIdOf(artifactHash), parentArtifactHash, artifactHash, intent.intentHash, policyHash, Defined)
  }

  datatype Action =
    | Define(intent: Intent, artifactHash: Str, parentArtifactHash: Str, policyHash: Str)
    | RequestTransition(request: Request, now: Str)
    | ActivateKillSwitch(now: Str)
    | RegisterCandidate(candidate: Candidate)
    | ApplyTransition(request: Request, now: Str)

  /** One call of the controller or, in the last two cases, of the reducer itself. */
  function Step(limits: Limits, s: State, a: Action): State {
    match a
    case Define(intent, artifactHash, parent, policy) =>
      if Forbidden(intent.scope) then s else Register(s, NewCandidate(intent, artifactHash, parent, policy))
    case RequestTransition(r, now) =>
      if r.candidateId !in s.candidates then s
      else if RunAllGuards(s.candidates[r.candidateId], r, s.killSwitchActive, now, limits) != Accepted then s
      else Apply(s, r, now)
    case ActivateKillSwitch(now) => Kill(s, now)
    case RegisterCandidate(c) => Register(s, c)
    case ApplyTransition(r, now) => Apply(s, r, now)
  }

  function Run(limits: Limits, s: State, actions: seq<Action>): State {
    if actions == [] then s
    else Step(limits, Run(limits, s, actions[..|actions| - 1]), actions[|actions| - 1])
  }

  /** The closure of createEvolutionController over the reducer's state. */
  class EvolutionController {
    const limits: Limits
    var candidates: map<Str, Candidate>
    var transitions: seq<Record>
    var killSwitchActive: bool
    var killSwitch: bool

    function Now(): State
      reads this
    {
      State(candidates, transitions, killSwitchActive)
    }

    /** The controller's own kill switch and the reducer's are set together. */
    ghost predicate Valid()
      reads this
    {
      killSwitch == killSwitchActive
    }

    constructor (limits: Limits)
      ensures this.limits == limits && Valid() && Now() == INITIAL
    {
      this.limits := limits;
      candidates, transitions, killSwitchActive, killSwitch := map[], [], false, false;
    }

    method ApplyRequest(r: Request, now: Str) returns (rule: Rule)
      requires Valid()
      modifies this
      ensures Valid()
      ensures rule == Judge(old(Now()), r) && Now() == Step(limits, old(Now()), ApplyTransition(r, now))
    {
      if killSwitchActive {
        return Evo01KillSwitch;
      }
      if r.candidateId !in candidates {
        return Evo02Unknown;
      }
      var candidate := candidates[r.candidateId];
      if KeyUsed(transitions, r.idempotencyKey) {
        return Evo07KeyUsed;
      }
      if candidate.stage != r.fromStage {
        return Evo03StageMismatch;
      }
      if IsTerminalStage(candidate.stage) && r.toStage != Quarantined {
        return Evo04Terminal;
      }
      if !IsForwardTransition(r.fromStage, r.toStage) {
        return Evo05NotForward;
      }
      var expectedSeq := |History(transitions, r.candidateId)|;
      if r.sequenceNumber != expectedSeq {
        return Evo06Sequence;
      }
      if !EvidenceSuffices(r.toStage, r.evidence) {
        transitions := transitions + [BuildRecord(r, Incomplete, None, now)];
        return Evo08Evidence;
      }
      var action: Option<CompensatingAction> := None;
      if r.toStage == RolledBack {
        action := Some(CompensatingAction(Rollback, candidate.parentArtifactHash));
      }
      if r.toStage == Quarantined {
        action := Some(CompensatingAction(Quarantine, candidate.artifactHash));
      }
      candidates := candidates[r.candidateId := candidate.(stage := r.toStage)];
      transitions := transitions + [BuildRecord(r, Admit, action, now)];
      rule := Accepted;
    }

    method RegisterNew(c: Candidate) returns (rule: Rule)
      requires Valid()
      modifies this
      ensures Valid()
      ensures rule == JudgeRegistration(old(Now()), c) && Now() == Step(limits, old(Now()), RegisterCandidate(c))
    {
      if c.candidateId in candidates {
        return Evo09Exists;
      }
      if c.stage != Defined {
        return Evo10NotDefined;
      }
      candidates := candidates[c.candidateId := c];
      rule := Accepted;
    }

    method DefineCandidate(intent: Intent, artifactHash: Str, parentArtifactHash: Str, policyHash: Str) returns (rule: Rule)
      requires Valid()
      modifies this
      ensures Valid()
      ensures Now() == Step(limits, old(Now()), Define(intent, artifactHash, parentArtifactHash, policyHash))
      ensures rule == if Forbidden(intent.scope) then Guard01Scope
                      else if CandidateIdOf(artifactHash) in old(candidates) then Evo09Exists
                      else Accepted
    {
      if Forbidden(intent.scope) {
        return Guard01Scope;
      }
      rule := RegisterNew(NewCandidate(intent, artifactHash, parentArtifactHash, policyHash));
    }

    method Request(r: Request, now: Str) returns (rule: Rule)
      requires Valid()
      modifies this
      ensures Valid()
      ensures Now() == Step(limits, old(Now()), RequestTransition(r, now))
      ensures rule ==
        if r.candidateId !in old(candidates) then Evo02Unknown
        else if RunAllGuards(old(candidates)[r.candidateId], r, old(killSwitchActive), now, limits) != Accepted
          then RunAllGuards(old(candidates)[r.candidateId], r, old(killSwitchActive), now, limits)
        else Judge(old(Now()), r)
    {
      hide Judge, RunAllGuards, Apply;
      if r.candidateId !in candidates {
        return Evo02Unknown;
      }
      var guardResult := RunAllGuards(candidates[r.candidateId], r, killSwitch, now, limits);
      if guardResult != Accepted {
        return guardResult;
      }
      rule := ApplyRequest(r, now);
    }

    method PullKillSwitch(now: Str)
      requires Valid()
      modifies this
      ensures Valid() && Now() == Step(limits, old(Now()), ActivateKillSwitch(now))
    {
      killSwitch := true;
      killSwitchActive := true;
      transitions := transitions + [KillRecord(Now(), now)];
    }
  }
}
