/** The component life cycle of src/component-runtime/lifecycle.ts. */
module Lifecycle {
  datatype Phase = Declared | Waiting | Loading | Active | Draining | Unloading | Disposed | Failed | Quarantined

  function ValidTransitions(from: Phase): set<Phase> {
    match from
    case Declared => {Waiting, Failed}
    case Waiting => {Loading, Failed}
    case Loading => {Active, Failed}
    case Active => {Draining, Failed, Quarantined}
    case Draining => {Unloading, Failed, Quarantined}
    case Unloading => {Phase.Disposed, Failed, Quarantined}
    case Disposed => {}
    case Failed => {Quarantined}
    case Quarantined => {}
  }

  predicate IsValidTransition(from: Phase, to: Phase) {
    to in ValidTransitions(from)
  }

  datatype Outcome = Moved | SelfTransition | Invalid

  function Transition(from: Phase, to: Phase): Outcome {
    if from == to then SelfTransition
    else if !IsValidTransition(from, to) then Invalid
    else Moved
  }

  predicate IsTerminal(p: Phase) {
    p == Phase.Disposed || p == Quarantined
  }

  predicate IsDraining(p: Phase) {
    p == Draining || p == Unloading
  }

  predicate CanAcceptNewCalls(p: Phase) {
    p == Active
  }

  /** The phase after an attempted transition. */
  function Attempt(from: Phase, to: Phase): Phase {
    if Transition(from, to).Moved? then to else from
  }

  class LifecycleMachine {
    var phase: Phase

    constructor (initial: Phase)
      ensures phase == initial
    {
      phase := initial;
    }

    method TransitionTo(target: Phase) returns (outcome: Outcome)
      modifies this
      ensures outcome == Transition(old(phase), target)
      ensures phase == Attempt(old(phase), target)
    {
      outcome := Transition(phase, target);
      if outcome.Moved? {
        phase := target;
      }
    }
  }

  // ---------------------------------------------------------------------------
  // Whole lives
  // ---------------------------------------------------------------------------

  /** The phase after a series of attempts. */
  function Live(from: Phase, targets: seq<Phase>): Phase
    decreases targets
  {
    if targets == [] then from else Live(Attempt(from, targets[0]), targets[1..])
  }

  /** Every move goes up in rank. */
  function Rank(p: Phase): nat {
    match p
    case Declared => 0
    case Waiting => 1
    case Loading => 2
    case Active => 3
    case Draining => 4
    case Unloading => 5
    case Failed => 6
    case Disposed => 7
    case Quarantined => 7
  }

  /** The fiber has been active, or failed, and cannot accept calls any more. */
  predicate PastActive(p: Phase) {
    Rank(p) > Rank(Active)
  }

  /** Ranks never fall, and a phase that is left is never entered again. */
  lemma {:induction false} RankNeverFalls(from: Phase, targets: seq<Phase>)
    ensures Rank(from) <= Rank(Live(from, targets))
    ensures Rank(from) == Rank(Live(from, targets)) ==> Live(from, targets) == from
    decreases targets
  {
    if targets != [] {
      RankNeverFalls(Attempt(from, targets[0]), targets[1..]);
    }
  }

  /** Whatever is attempted, a fiber past active never accepts a call again. */
  lemma NeverActiveAgain(from: Phase, targets: seq<Phase>)
    requires PastActive(from)
    ensures PastActive(Live(from, targets)) && !CanAcceptNewCalls(Live(from, targets))
  {
    RankNeverFalls(from, targets);
  }

  /** Terminal phases are exactly those no series of attempts leads out of. */
  lemma TerminalIffStuck(p: Phase)
    ensures IsTerminal(p) ==> forall targets :: Live(p, targets) == p
    ensures !IsTerminal(p) ==> exists targets :: Live(p, targets) != p
  {
    if IsTerminal(p) {
      forall targets ensures Live(p, targets) == p {
        StuckForever(p, targets);
      }
    } else {
      var next := if p == Failed then Quarantined else Failed;
      assert [next][0] == next && [next][1..] == [];
      assert Attempt(p, next) == next;
      assert Live(p, [next]) == Live(next, []) == next;
      assert Live(p, [next]) != p;
    }
  }

  lemma {:induction false} StuckForever(p: Phase, targets: seq<Phase>)
    requires IsTerminal(p)
    ensures Live(p, targets) == p
    decreases targets
  {
    if targets != [] {
      StuckForever(p, targets[1..]);
    }
  }

  // ---------------------------------------------------------------------------
  // The table
  // ---------------------------------------------------------------------------

  ghost predicate Allowed(from: Phase, to: Phase) {
    || (from, to) in {(Declared, Waiting), (Waiting, Loading), (Loading, Active), (Active, Draining), (Draining, Unloading),
                      (Unloading, Phase.Disposed), (Failed, Quarantined)}
    || (to == Failed && from in {Declared, Waiting, Loading, Active, Draining, Unloading})
    || (to == Quarantined && from in {Active, Draining, Unloading})
  }

  /** Each phase leads to the next; every live one may fail, and from active on be quarantined. */
  lemma AllowedIff(from: Phase, to: Phase)
    ensures Transition(from, to) == if from == to then SelfTransition else if Allowed(from, to) then Moved else Invalid
    ensures Attempt(from, to) == if Allowed(from, to) then to else from
    ensures IsDraining(from) <==> from in {Draining, Unloading}
    ensures IsTerminal(from) <==> from in {Phase.Disposed, Quarantined}
  {
  }
}
