/** The log and the state of the evolution reducer agree in every run. */
module EvolutionLog {
  import opened Text
  import opened Manifests
  import opened Evolution

  // ---------------------------------------------------------------------------
  // Replay and the shape of histories
  // ---------------------------------------------------------------------------

  /** The stages admitted by a history, in order. */
  function Admitted(history: seq<Record>): seq<Stage> {
    if history == [] then []
    else
      var last := history[|history| - 1];
      Admitted(history[..|history| - 1]) + (if last.decision == Admit then [last.toStage] else [])
  }

  /** The stage after the admitted moves of a history. */
  function Replay(history: seq<Record>): Stage {
    if history == [] then Defined
    else
      var last := history[|history| - 1];
      if last.decision == Admit then last.toStage else Replay(history[..|history| - 1])
  }

  /** k moves along the forward sequence, then at most one roll-back, then quarantines. */
  datatype Form = Form(k: nat, rolledBack: bool, quarantines: nat)

  ghost predicate Proper(f: Form) {
    f.k <= 4 && (f.rolledBack ==> f.k < 4)
  }

  function Repeat(s: Stage, n: nat): seq<Stage> {
    if n == 0 then [] else Repeat(s, n - 1) + [s]
  }

  /** The first k stages after defined. */
  function ForwardMoves(k: nat): seq<Stage>
    requires k <= 4
  {
    if k == 0 then [] else ForwardMoves(k - 1) + [FORWARD_ONLY_SEQUENCE[k]]
  }

  function StagesOf(f: Form): seq<Stage>
    requires f.k <= 4
  {
    ForwardMoves(f.k) + (if f.rolledBack then [RolledBack] else []) + Repeat(Quarantined, f.quarantines)
  }

  function StageOf(f: Form): Stage
    requires f.k <= 4
  {
    if f.quarantines > 0 then Quarantined else if f.rolledBack then RolledBack else FORWARD_ONLY_SEQUENCE[f.k]
  }

  ghost predicate Shaped(stages: seq<Stage>, stage: Stage) {
    exists f :: Proper(f) && stages == StagesOf(f) && stage == StageOf(f)
  }

  lemma StartsShaped()
    ensures Shaped([], Defined)
  {
    var f := Form(0, false, 0);
    assert StagesOf(f) == [] && StageOf(f) == Defined;
  }

  predicate MayMove(from: Stage, to: Stage) {
    IsForwardTransition(from, to) && (IsTerminalStage(from) ==> to == Quarantined)
  }

  lemma MoveKeepsShape(stages: seq<Stage>, from: Stage, to: Stage)
    requires Shaped(stages, from) && MayMove(from, to)
    ensures Shaped(stages + [to], to)
  {
    var f :| Proper(f) && stages == StagesOf(f) && from == StageOf(f);
    var g :=
      if to == Quarantined then f.(quarantines := f.quarantines + 1)
      else if to == RolledBack then f.(rolledBack := true)
      else f.(k := f.k + 1);
    FormMoves(f, g, to);
  }

  lemma FormMoves(f: Form, g: Form, to: Stage)
    requires Proper(f) && Proper(g)
    requires (to == Quarantined && g == f.(quarantines := f.quarantines + 1))
          || (to == RolledBack && f.quarantines == 0 && !f.rolledBack && g == f.(rolledBack := true))
          || (f.quarantines == 0 && !f.rolledBack && g == f.(k := f.k + 1) && to == FORWARD_ONLY_SEQUENCE[f.k + 1])
    ensures StagesOf(g) == StagesOf(f) + [to] && StageOf(g) == to
  {
    hide ForwardMoves;
    assert Repeat(Quarantined, 0) == [];
    if to == Quarantined {
      Regroup(ForwardMoves(f.k) + (if f.rolledBack then [RolledBack] else []), Repeat(Quarantined, f.quarantines), [to]);
    } else if to == RolledBack {
      assert StagesOf(f) == ForwardMoves(f.k);
      assert StagesOf(g) == ForwardMoves(f.k) + [RolledBack];
    } else {
      ForwardNext(f.k);
      assert StagesOf(f) == ForwardMoves(f.k);
      assert StagesOf(g) == ForwardMoves(f.k + 1);
    }
  }

  lemma ForwardNext(k: nat)
    requires k < 4
    ensures ForwardMoves(k + 1) == ForwardMoves(k) + [FORWARD_ONLY_SEQUENCE[k + 1]]
  {
  }

  // ---------------------------------------------------------------------------
  // The invariant
  // ---------------------------------------------------------------------------

  ghost predicate GapFree(history: seq<Record>) {
    forall i :: 0 <= i < |history| ==> history[i].sequenceNumber == i
  }

  /** Each admitted record starts where the history before it has led. */
  ghost predicate Chained(history: seq<Record>) {
    forall i :: 0 <= i < |history| ==> history[i].fromStage == Replay(history[..i])
  }

  /** The log tells the truth about one candidate. */
  ghost predicate Told(s: State, id: Str) {
    var history := History(s.transitions, id);
    && GapFree(history) && Chained(history)
    && (id !in s.candidates ==> history == [])
    && (id in s.candidates ==>
          && s.candidates[id].candidateId == id
          && s.candidates[id].stage == Replay(history)
          && Shaped(Admitted(history), s.candidates[id].stage))
  }

  /** The idempotency keys of requests are used once. */
  ghost predicate KeysUnique(transitions: seq<Record>) {
    forall i, j :: 0 <= i < j < |transitions| && transitions[i].candidateId != KILL_SWITCH && transitions[j].candidateId != KILL_SWITCH ==>
      transitions[i].idempotencyKey != transitions[j].idempotencyKey
  }

  ghost predicate Agrees(s: State) {
    && (forall id {:trigger Told(s, id)} :: id != KILL_SWITCH ==> Told(s, id))
    && KeysUnique(s.transitions)
  }

  // ---------------------------------------------------------------------------
  // One record more
  // ---------------------------------------------------------------------------

  lemma HistorySnoc(transitions: seq<Record>, record: Record, id: Str)
    ensures History(transitions + [record], id) == History(transitions, id) + (if record.candidateId == id then [record] else [])
  {
    assert (transitions + [record])[..|transitions|] == transitions;
  }

  lemma ReplaySnoc(history: seq<Record>, record: Record)
    ensures Replay(history + [record]) == if record.decision == Admit then record.toStage else Replay(history)
    ensures Admitted(history + [record]) == Admitted(history) + (if record.decision == Admit then [record.toStage] else [])
  {
    assert (history + [record])[..|history|] == history;
  }

  lemma ChainedSnoc(history: seq<Record>, record: Record)
    requires GapFree(history) && Chained(history)
    requires record.sequenceNumber == |history| && record.fromStage == Replay(history)
    ensures GapFree(history + [record]) && Chained(history + [record])
  {
    var more := history + [record];
    forall i | 0 <= i < |more| ensures more[i].fromStage == Replay(more[..i]) {
      assert i < |history| ==> more[..i] == history[..i] && more[i] == history[i];
      assert i == |history| ==> more[..i] == history;
    }
  }

  lemma KeysSnoc(transitions: seq<Record>, record: Record)
    requires KeysUnique(transitions)
    requires record.candidateId == KILL_SWITCH || !KeyUsed(transitions, record.idempotencyKey)
    ensures KeysUnique(transitions + [record])
  {
    var more := transitions + [record];
    forall i, j | 0 <= i < j < |more| && more[i].candidateId != KILL_SWITCH && more[j].candidateId != KILL_SWITCH
      ensures more[i].idempotencyKey != more[j].idempotencyKey
    {
      if j == |transitions| {
        assert transitions[i] in transitions;
      }
    }
  }

  /** Appending the record of a judged request keeps the log truthful about its candidate. */
  lemma ApplyTells(s: State, r: Request, now: Str)
    requires Told(s, r.candidateId)
    ensures Told(Apply(s, r, now), r.candidateId)
  {
    hide EvidenceSuffices, Shaped, KeyUsed, ActionFor;
    var t := Apply(s, r, now);
    if t != s {
      var history := History(s.transitions, r.candidateId);
      var record := t.transitions[|s.transitions|];
      assert t.transitions == s.transitions + [record];
      HistorySnoc(s.transitions, record, r.candidateId);
      ChainedSnoc(history, record);
      ReplaySnoc(history, record);
      if record.decision == Admit {
        MoveKeepsShape(Admitted(history), r.fromStage, r.toStage);
      } else {
        assert Admitted(history) + [] == Admitted(history);
      }
    }
  }

  lemma ApplyTellsOthers(s: State, r: Request, now: Str, id: Str)
    requires id != r.candidateId && Told(s, id)
    ensures Told(Apply(s, r, now), id)
  {
    hide EvidenceSuffices, Shaped, KeyUsed, ActionFor;
    var t := Apply(s, r, now);
    if t != s {
      var record := t.transitions[|s.transitions|];
      assert t.transitions == s.transitions + [record];
      HistorySnoc(s.transitions, record, id);
      assert History(s.transitions, id) + [] == History(s.transitions, id);
    }
  }

  lemma ApplyAgrees(s: State, r: Request, now: Str)
    requires Agrees(s)
    ensures Agrees(Apply(s, r, now))
  {
    forall id | id != KILL_SWITCH ensures Told(Apply(s, r, now), id) {
      assert Told(s, id);
      if id == r.candidateId {
        ApplyTells(s, r, now);
      } else {
        ApplyTellsOthers(s, r, now, id);
      }
    }
    hide Told, EvidenceSuffices, History;
    var t := Apply(s, r, now);
    if t != s {
      var record := t.transitions[|s.transitions|];
      assert t.transitions == s.transitions + [record];
      KeysSnoc(s.transitions, record);
    }
  }

  lemma RegisterTells(s: State, c: Candidate, id: Str)
    requires Told(s, id)
    ensures Told(Register(s, c), id)
  {
    hide Shaped;
    StartsShaped();
  }

  lemma RegisterAgrees(s: State, c: Candidate)
    requires Agrees(s)
    ensures Agrees(Register(s, c))
  {
    hide Told;
    forall id | id != KILL_SWITCH ensures Told(Register(s, c), id) {
      RegisterTells(s, c, id);
    }
  }

  lemma KillAgrees(s: State, now: Str)
    requires Agrees(s)
    ensures Agrees(Kill(s, now))
  {
    hide Shaped;
    var t := Kill(s, now);
    var record := KillRecord(s, now);
    forall id | id != KILL_SWITCH ensures Told(t, id) {
      assert Told(s, id);
      HistorySnoc(s.transitions, record, id);
      assert History(s.transitions, id) + [] == History(s.transitions, id);
    }
    KeysSnoc(s.transitions, record);
  }

  // ---------------------------------------------------------------------------
  // Every run
  // ---------------------------------------------------------------------------

  lemma StepAgrees(limits: Limits, s: State, a: Action)
    requires Agrees(s)
    ensures Agrees(Step(limits, s, a))
  {
    hide Agrees, Apply, Register, Kill, RunAllGuards;
    match a {
      case Define(intent, artifactHash, parent, policy) => RegisterAgrees(s, NewCandidate(intent, artifactHash, parent, policy));
      case RequestTransition(r, now) => ApplyAgrees(s, r, now);
      case ActivateKillSwitch(now) => KillAgrees(s, now);
      case RegisterCandidate(c) => RegisterAgrees(s, c);
      case ApplyTransition(r, now) => ApplyAgrees(s, r, now);
    }
  }

  /**
    In every run, for every id but that of the kill switch: a candidate's stage is the replay of its admitted records, its sequence
    numbers are 0, 1, 2 and so on, its admitted stages have the one permitted shape, and no
    request's idempotency key is used twice.
   */
  lemma {:induction false} LogAndStateAgree(limits: Limits, actions: seq<Action>)
    ensures Agrees(Run(limits, INITIAL, actions))
  {
    if actions != [] {
      LogAndStateAgree(limits, actions[..|actions| - 1]);
      StepAgrees(limits, Run(limits, INITIAL, actions[..|actions| - 1]), actions[|actions| - 1]);
    }
  }

  /** A promoted candidate has passed every stage, one after the other. */
  lemma PromotedPassedAllStages(stages: seq<Stage>, stage: Stage)
    requires Shaped(stages, stage) && Promoted in stages
    ensures [Tested, Shadowed, Canary, Promoted] <= stages
    ensures RolledBack !in stages
  {
    var f :| Proper(f) && stages == StagesOf(f) && stage == StageOf(f);
    var tail := Repeat(Quarantined, f.quarantines);
    RepeatIs(Quarantined, f.quarantines);
    ForwardIn(f.k, Promoted);
    assert Promoted in ForwardMoves(f.k);
    assert f.k == 4;
    ForwardFour();
    assert stages == [Tested, Shadowed, Canary, Promoted] + tail;
  }

  lemma {:induction false} ForwardIn(k: nat, s: Stage)
    requires k <= 4
    ensures s in ForwardMoves(k) <==> 1 <= ForwardIndex(s) <= k
  {
    if k > 0 {
      ForwardIn(k - 1, s);
    }
  }

  lemma ForwardFour()
    ensures ForwardMoves(4) == [Tested, Shadowed, Canary, Promoted]
  {
    assert ForwardMoves(1) == [Tested] && ForwardMoves(2) == [Tested, Shadowed] && ForwardMoves(3) == [Tested, Shadowed, Canary];
  }

  lemma {:induction false} RepeatIs(s: Stage, n: nat)
    ensures |Repeat(s, n)| == n && forall i :: 0 <= i < n ==> Repeat(s, n)[i] == s
  {
    if n > 0 {
      RepeatIs(s, n - 1);
    }
  }

  // ---------------------------------------------------------------------------
  // What never changes
  // ---------------------------------------------------------------------------

  ghost predicate SameIdentity(c: Candidate, d: Candidate) {
    d == c.(stage := d.stage)
  }

  /** Candidates and log lines stay; with the kill switch on, so do stages and the switch itself. */
  ghost predicate Kept(s: State, t: State) {
    && (forall id :: id in s.candidates ==> id in t.candidates && SameIdentity(s.candidates[id], t.candidates[id]))
    && s.transitions <= t.transitions
    && (s.killSwitchActive ==>
          && t.killSwitchActive
          && forall id :: id in s.candidates ==> t.candidates[id].stage == s.candidates[id].stage)
  }

  lemma StepKeeps(limits: Limits, s: State, a: Action)
    ensures Kept(s, Step(limits, s, a))
  {
    hide RunAllGuards, EvidenceSuffices, History, KeyUsed, CandidateIdOf;
  }

  /** Identity hashes never change, the log only grows, and after the kill switch no stage changes. */
  lemma {:induction false} RunKeeps(limits: Limits, s: State, actions: seq<Action>)
    ensures Kept(s, Run(limits, s, actions))
  {
    if actions != [] {
      var n := |actions| - 1;
      RunKeeps(limits, s, actions[..n]);
      StepKeeps(limits, Run(limits, s, actions[..n]), actions[n]);
    }
  }

  /** With the kill switch on, only candidates are registered and kill switches logged. */
  lemma FrozenLog(limits: Limits, s: State, a: Action)
    requires s.killSwitchActive
    ensures Step(limits, s, a).transitions == s.transitions ||
      (a.ActivateKillSwitch? && Step(limits, s, a).transitions == s.transitions + [KillRecord(s, a.now)])
  {
    hide RunAllGuards, CandidateIdOf;
  }

  // ---------------------------------------------------------------------------
  // The id of the kill switch
  // ---------------------------------------------------------------------------

  /**
    The switch's own record has been read as an admitted move of the candidate called kill-switch:
    it starts where that candidate was not, or ends where it is not.
   */
  ghost predicate Mistold(s: State) {
    var history := History(s.transitions, KILL_SWITCH);
    && s.killSwitchActive && history != [] && Replay(history) == Quarantined
    && (Chained(history) && KILL_SWITCH in s.candidates ==> s.candidates[KILL_SWITCH].stage != Quarantined)
  }

  lemma NotChainedSnoc(history: seq<Record>, record: Record)
    requires record.fromStage != Replay(history)
    ensures !Chained(history + [record])
  {
    var more := history + [record];
    assert more[..|history|] == history;
    assert more[|history|].fromStage != Replay(more[..|history|]);
  }

  /** The switch goes on, or is pulled once more. */
  lemma KillMistells(s: State, now: Str)
    requires if s.killSwitchActive then Mistold(s) else Told(s, KILL_SWITCH)
    ensures Mistold(Kill(s, now))
  {
    hide Shaped;
    var history, record := History(s.transitions, KILL_SWITCH), KillRecord(s, now);
    HistorySnoc(s.transitions, record, KILL_SWITCH);
    ReplaySnoc(history, record);
    if Replay(history) != Promoted {
      NotChainedSnoc(history, record);
    }
  }

  lemma StepTellsSwitch(limits: Limits, s: State, a: Action)
    requires if s.killSwitchActive then Mistold(s) else Told(s, KILL_SWITCH)
    ensures var t := Step(limits, s, a); if t.killSwitchActive then Mistold(t) else Told(t, KILL_SWITCH)
  {
    hide Chained, GapFree, Replay, Shaped, History, EvidenceSuffices, RunAllGuards, KeyUsed, CandidateIdOf;
    match a {
      case Define(intent, artifactHash, parent, policy) => SwitchAfterRegister(s, NewCandidate(intent, artifactHash, parent, policy));
      case RegisterCandidate(c) => SwitchAfterRegister(s, c);
      case RequestTransition(r, now) => SwitchAfterApply(s, r, now);
      case ApplyTransition(r, now) => SwitchAfterApply(s, r, now);
      case ActivateKillSwitch(now) => KillMistells(s, now);
    }
  }

  lemma SwitchAfterRegister(s: State, c: Candidate)
    ensures Mistold(s) ==> Mistold(Register(s, c))
    ensures Told(s, KILL_SWITCH) ==> Told(Register(s, c), KILL_SWITCH)
  {
    hide Told, Chained, Replay, History;
    if Told(s, KILL_SWITCH) {
      RegisterTells(s, c, KILL_SWITCH);
    }
  }

  lemma SwitchAfterApply(s: State, r: Request, now: Str)
    ensures Apply(s, r, now).killSwitchActive == s.killSwitchActive
    ensures s.killSwitchActive ==> Apply(s, r, now) == s
    ensures Told(s, KILL_SWITCH) ==> Told(Apply(s, r, now), KILL_SWITCH)
  {
    hide Told, EvidenceSuffices, History, KeyUsed, ActionFor;
    if Told(s, KILL_SWITCH) {
      if r.candidateId == KILL_SWITCH {
        ApplyTells(s, r, now);
      } else {
        ApplyTellsOthers(s, r, now, KILL_SWITCH);
      }
    }
  }

  lemma {:induction false} SwitchInRun(limits: Limits, actions: seq<Action>)
    ensures var s := Run(limits, INITIAL, actions); if s.killSwitchActive then Mistold(s) else Told(s, KILL_SWITCH)
  {
    hide Mistold, Step;
    if actions != [] {
      var n := |actions| - 1;
      SwitchInRun(limits, actions[..n]);
      StepTellsSwitch(limits, Run(limits, INITIAL, actions[..n]), actions[n]);
    }
  }

  /** In every run the log tells the truth about the id of the kill switch iff the switch has not been pulled. */
  lemma KillSwitchToldIff(limits: Limits, actions: seq<Action>)
    ensures Told(Run(limits, INITIAL, actions), KILL_SWITCH) <==> !Run(limits, INITIAL, actions).killSwitchActive
  {
    SwitchInRun(limits, actions);
  }

  /** So every id is told the truth about iff the switch has not been pulled. */
  lemma EveryIdToldIff(limits: Limits, actions: seq<Action>)
    ensures (forall id {:trigger Told(Run(limits, INITIAL, actions), id)} :: Told(Run(limits, INITIAL, actions), id))
       <==> !Run(limits, INITIAL, actions).killSwitchActive
  {
    hide Told;
    LogAndStateAgree(limits, actions);
    KillSwitchToldIff(limits, actions);
  }

  /** For a candidate called kill-switch the switch's own record is a move that never happened. */
  lemma KillSwitchIdIsMistold(limits: Limits, c: Candidate, now: Str)
    requires c.candidateId == KILL_SWITCH && c.stage == Defined
    ensures !Told(Run(limits, INITIAL, [RegisterCandidate(c), ActivateKillSwitch(now)]), KILL_SWITCH)
  {
    var actions := [RegisterCandidate(c), ActivateKillSwitch(now)];
    hide Told;
    KillSwitchToldIff(limits, actions);
    assert Run(limits, INITIAL, actions) == Kill(Run(limits, INITIAL, actions[..1]), now);
  }
}
