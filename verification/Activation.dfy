/**
  ActivationTransaction of src/component-runtime/activation.ts: a transaction over a new and a
  prior set of fibers, under any failures of draining and unwinding.
 */
module Activation {
  import opened Text
  import opened Lifecycle
  import opened Resolver
  import M = Manifests

  // ---------------------------------------------------------------------------
  // Fibers as a transaction sees them
  // ---------------------------------------------------------------------------

  /** busy, drainTimesOut and unwindFails are what the fiber's operations and effects are going to do. */
  datatype FiberState = FiberState(component: Identity, phase: Phase, disposed: bool, busy: bool, drainTimesOut: bool, unwindFails: bool)

  datatype DrainResult = DrainResult(drained: bool, timedOut: bool)

  /** An unwind report, reduced to its verdict. */
  datatype Unwound = Unwound(quarantined: bool)

  function TransitionFiber(f: FiberState, to: Phase): FiberState {
    f.(phase := Attempt(f.phase, to))
  }

  function DrainFiber(f: FiberState): FiberState {
    f.(phase := Attempt(f.phase, Draining))
  }

  /** Where the move to draining is invalid, drain returns at once, and never with a timeout. */
  function DrainReply(f: FiberState): DrainResult {
    if !Transition(f.phase, Draining).Moved? || !f.busy then DrainResult(!f.busy, false)
    else DrainResult(!f.drainTimesOut, f.drainTimesOut)
  }

  function DisposeFiber(f: FiberState): FiberState {
    if f.disposed then f
    else
      var p1 := if f.phase == Active then Attempt(Active, Draining) else f.phase;
      var p2 := if p1 == Draining then Attempt(Draining, Unloading) else p1;
      f.(phase := Attempt(p2, if f.unwindFails then Quarantined else Phase.Disposed), disposed := true)
  }

  /** A second dispose reports success without doing anything. */
  function DisposeReply(f: FiberState): Unwound {
    Unwound(!f.disposed && f.unwindFails)
  }

  // ---------------------------------------------------------------------------
  // The transaction as a function of its state
  // ---------------------------------------------------------------------------

  datatype TxnState = Idle | Preparing | Committing | Aborting | TxnCommitted | TxnAborted | TxnQuarantined

  /** createFiber may make different fibers of a component for the new set and for the prior one. */
  datatype Config = Config(
    proposed: seq<Identity>,
    prior: M.Option<seq<Identity>>,
    createNew: Identity -> FiberState,
    createPrior: Identity -> FiberState)

  datatype Txn = Txn(
    state: TxnState,
    newFibers: seq<FiberState>,
    priorFibers: seq<FiberState>,
    drainResults: seq<DrainResult>,
    unwindReports: seq<Unwound>)

  const START := Txn(Idle, [], [], [], [])

  /** sortByDependency, which sorts by id and version. */
  function CreateAll(components: seq<Identity>, create: Identity -> FiberState): seq<FiberState> {
    Map(SortBy(components, IdentityKey), create)
  }

  /** Moves the fibers from i on, stopping at the first that refuses. */
  function MoveFrom(fibers: seq<FiberState>, i: nat, to: Phase): (r: (seq<FiberState>, bool))
    requires i <= |fibers|
    ensures |r.0| == |fibers|
    decreases |fibers| - i
  {
    if i == |fibers| then (fibers, true)
    else if !Transition(fibers[i].phase, to).Moved? then (fibers, false)
    else MoveFrom(fibers[i := TransitionFiber(fibers[i], to)], i + 1, to)
  }

  /** Disposes what is not terminal below i, the last first, stopping at a quarantine. */
  function UnwindNew(t: Txn, i: nat): (r: Txn)
    requires i <= |t.newFibers|
    ensures |r.newFibers| == |t.newFibers|
    decreases i
  {
    if i == 0 then t.(state := TxnAborted)
    else
      var f := t.newFibers[i - 1];
      if IsTerminal(f.phase) then UnwindNew(t, i - 1)
      else
        var u := t.(newFibers := t.newFibers[i - 1 := DisposeFiber(f)], unwindReports := t.unwindReports + [DisposeReply(f)]);
        if DisposeReply(f).quarantined then u.(state := TxnQuarantined) else UnwindNew(u, i - 1)
  }

  function Abort(t: Txn): Txn {
    if t.state == TxnAborted || t.state == TxnQuarantined then t
    else UnwindNew(t.(state := Aborting), |t.newFibers|)
  }

  function Prepare(config: Config, t: Txn): Txn {
    if t.state != Idle then t
    else
      var created := CreateAll(config.proposed, config.createNew);
      var waiting := MoveFrom(created, 0, Waiting);
      var loading := MoveFrom(waiting.0, 0, Loading);
      var active := MoveFrom(loading.0, 0, Active);
      var u := t.(state := Preparing);
      if !waiting.1 then Abort(u.(newFibers := waiting.0))
      else if !loading.1 then Abort(u.(newFibers := loading.0))
      else if !active.1 then Abort(u.(newFibers := active.0))
      else u.(newFibers := active.0)
  }

  /** Drains the prior fibers below i, the last first; a timeout aborts. */
  function DrainPrior(t: Txn, i: nat): (r: Txn)
    requires i <= |t.priorFibers|
    decreases i
  {
    if i == 0 then t
    else
      var f := t.priorFibers[i - 1];
      var u := t.(priorFibers := t.priorFibers[i - 1 := DrainFiber(f)], drainResults := t.drainResults + [DrainReply(f)]);
      if DrainReply(f).timedOut then Abort(u) else DrainPrior(u, i - 1)
  }

  /** Disposes the prior fibers below i, the last first; a quarantine ends the transaction. */
  function UnwindPrior(t: Txn, i: nat): Txn
    requires i <= |t.priorFibers|
    decreases i
  {
    if i == 0 then t.(state := TxnCommitted)
    else
      var f := t.priorFibers[i - 1];
      var u := t.(priorFibers := t.priorFibers[i - 1 := DisposeFiber(f)], unwindReports := t.unwindReports + [DisposeReply(f)]);
      if DisposeReply(f).quarantined then u.(state := TxnQuarantined) else UnwindPrior(u, i - 1)
  }

  function Commit(config: Config, t: Txn): Txn {
    if t.state != Preparing then t
    else
      var u := t.(state := Committing);
      if config.prior.None? then u.(state := TxnCommitted)
      else
        var prior := CreateAll(config.prior.value, config.createPrior);
        var drained := DrainPrior(u.(priorFibers := prior), |prior|);
        if drained.state != Committing then drained else UnwindPrior(drained, |drained.priorFibers|)
  }

  // ---------------------------------------------------------------------------
  // The outcome tells the truth
  // ---------------------------------------------------------------------------

  ghost predicate AnyQuarantined(reports: seq<Unwound>) {
    exists r :: r in reports && r.quarantined
  }

  ghost predicate AllActive(fibers: seq<FiberState>) {
    forall f :: f in fibers ==> f.phase == Active && !f.disposed
  }

  /** The fiber cannot do anything any more, or its effects were unwound cleanly. */
  ghost predicate PutAway(f: FiberState) {
    IsTerminal(f.phase) || (f.disposed && !f.unwindFails)
  }

  ghost predicate NoTimeout(results: seq<DrainResult>) {
    forall r :: r in results ==> !r.timedOut
  }

  /** What the recorded state may claim. */
  ghost predicate Truthful(t: Txn) {
    && (t.state == TxnQuarantined <==> AnyQuarantined(t.unwindReports))
    && (t.state == Idle ==> t == START)
    && (t.state == Preparing ==> AllActive(t.newFibers) && t.drainResults == [] && t.unwindReports == [] && t.priorFibers == [])
    && (t.state == TxnCommitted ==>
          && AllActive(t.newFibers)
          && |t.drainResults| == |t.priorFibers| && NoTimeout(t.drainResults)
          && |t.unwindReports| == |t.priorFibers|
          && forall f :: f in t.priorFibers ==> f.disposed && !f.unwindFails)
    && (t.state == TxnAborted ==> forall f :: f in t.newFibers ==> PutAway(f))
    && (t.state != Committing && t.state != Aborting)
    && (|t.drainResults| <= |t.priorFibers|
          && forall k :: |t.priorFibers| - |t.drainResults| <= k < |t.priorFibers| ==> t.priorFibers[k].phase != Active)
  }

  /** createFiber makes fibers that have not been disposed. */
  ghost predicate FreshFibers(config: Config) {
    forall id :: !config.createNew(id).disposed && !config.createPrior(id).disposed
  }

  lemma {:induction false} MoveFromKeeps(fibers: seq<FiberState>, i: nat, to: Phase)
    requires i <= |fibers| && forall f :: f in fibers ==> !f.disposed
    requires forall j :: 0 <= j < i ==> fibers[j].phase == to
    ensures forall f :: f in MoveFrom(fibers, i, to).0 ==> !f.disposed
    ensures MoveFrom(fibers, i, to).1 ==> forall f :: f in MoveFrom(fibers, i, to).0 ==> f.phase == to
    decreases |fibers| - i
  {
    if i < |fibers| && Transition(fibers[i].phase, to).Moved? {
      MoveFromKeeps(fibers[i := TransitionFiber(fibers[i], to)], i + 1, to);
    }
  }

  lemma AnyQuarantinedSnoc(reports: seq<Unwound>, r: Unwound)
    ensures AnyQuarantined(reports + [r]) <==> AnyQuarantined(reports) || r.quarantined
  {
    assert forall x :: x in reports + [r] <==> x in reports || x == r;
  }

  lemma DisposedPutAway(f: FiberState)
    requires !f.disposed
    ensures !DisposeReply(f).quarantined ==> PutAway(DisposeFiber(f))
  {
  }

  lemma {:induction false} UnwindNewTruth(t: Txn, i: nat)
    requires i <= |t.newFibers| && !AnyQuarantined(t.unwindReports)
    requires forall j :: 0 <= j < i ==> !t.newFibers[j].disposed
    requires forall j :: i <= j < |t.newFibers| ==> PutAway(t.newFibers[j])
    ensures
      var u := UnwindNew(t, i);
      && u.state in {TxnAborted, TxnQuarantined}
      && (u.state == TxnQuarantined <==> AnyQuarantined(u.unwindReports))
      && (u.state == TxnAborted ==> forall f :: f in u.newFibers ==> PutAway(f))
      && u.priorFibers == t.priorFibers && u.drainResults == t.drainResults
    decreases i
  {
    hide AnyQuarantined, PutAway, DisposeFiber;
    if i > 0 {
      var f := t.newFibers[i - 1];
      if IsTerminal(f.phase) {
        TerminalPutAway(f);
        UnwindNewTruth(t, i - 1);
      } else {
        var u := t.(newFibers := t.newFibers[i - 1 := DisposeFiber(f)], unwindReports := t.unwindReports + [DisposeReply(f)]);
        AnyQuarantinedSnoc(t.unwindReports, DisposeReply(f));
        DisposedPutAway(f);
        if !DisposeReply(f).quarantined {
          UnwindNewTruth(u, i - 1);
        }
      }
    }
  }

  lemma TerminalPutAway(f: FiberState)
    requires IsTerminal(f.phase)
    ensures PutAway(f)
  {
  }

  lemma AbortTruth(t: Txn)
    requires t.state != TxnAborted && t.state != TxnQuarantined && !AnyQuarantined(t.unwindReports)
    requires forall f :: f in t.newFibers ==> !f.disposed
    ensures
      var u := Abort(t);
      && u.state in {TxnAborted, TxnQuarantined}
      && (u.state == TxnQuarantined <==> AnyQuarantined(u.unwindReports))
      && (u.state == TxnAborted ==> forall f :: f in u.newFibers ==> PutAway(f))
      && u.priorFibers == t.priorFibers && u.drainResults == t.drainResults
  {
    UnwindNewTruth(t.(state := Aborting), |t.newFibers|);
  }

  lemma CreatedFresh(components: seq<Identity>, create: Identity -> FiberState)
    requires forall id :: !create(id).disposed
    ensures forall f :: f in CreateAll(components, create) ==> !f.disposed
  {
  }

  /** Aborting while preparing, when nothing has been drained or unwound. */
  lemma AbortPreparing(fibers: seq<FiberState>)
    requires forall f :: f in fibers ==> !f.disposed
    ensures Truthful(Abort(START.(state := Preparing, newFibers := fibers)))
  {
    hide Abort, PutAway;
    var u := START.(state := Preparing, newFibers := fibers);
    assert !AnyQuarantined(u.unwindReports);
    AbortTruth(u);
  }

  lemma PrepareTruth(config: Config, t: Txn)
    requires FreshFibers(config) && Truthful(t)
    ensures Truthful(Prepare(config, t))
  {
    if t.state == Idle {
      var created := CreateAll(config.proposed, config.createNew);
      CreatedFresh(config.proposed, config.createNew);
      MoveFromKeeps(created, 0, Waiting);
      var waiting := MoveFrom(created, 0, Waiting);
      MoveFromKeeps(waiting.0, 0, Loading);
      var loading := MoveFrom(waiting.0, 0, Loading);
      MoveFromKeeps(loading.0, 0, Active);
      var active := MoveFrom(loading.0, 0, Active);
      AbortPreparing(waiting.0);
      AbortPreparing(loading.0);
      AbortPreparing(active.0);
      PreparedTruth(active.0);
      hide CreateAll, MoveFrom, Abort, FreshFibers, Truthful;
    }
  }

  lemma PreparedTruth(fibers: seq<FiberState>)
    requires forall f :: f in fibers ==> !f.disposed
    ensures (forall f :: f in fibers ==> f.phase == Active) ==> Truthful(START.(state := Preparing, newFibers := fibers))
  {
    assert !AnyQuarantined([]);
  }

  /** While the prior fibers below i are still to be drained. */
  ghost predicate DrainingPrior(t: Txn, i: nat) {
    && t.state == Committing && AllActive(t.newFibers) && t.unwindReports == []
    && i <= |t.priorFibers| && |t.drainResults| == |t.priorFibers| - i && NoTimeout(t.drainResults)
    && (forall f :: f in t.priorFibers ==> !f.disposed)
    && (forall k :: i <= k < |t.priorFibers| ==> t.priorFibers[k].phase != Active)
  }

  lemma {:induction false} DrainPriorTruth(t: Txn, i: nat)
    requires DrainingPrior(t, i)
    ensures DrainPrior(t, i).state == Committing ==> DrainingPrior(DrainPrior(t, i), 0)
    ensures DrainPrior(t, i).state != Committing ==> Truthful(DrainPrior(t, i))
    decreases i
  {
    hide PutAway;
    if i > 0 {
      var f := t.priorFibers[i - 1];
      var u := t.(priorFibers := t.priorFibers[i - 1 := DrainFiber(f)], drainResults := t.drainResults + [DrainReply(f)]);
      DrainedNotActive(f);
      if DrainReply(f).timedOut {
        AbortTruth(u);
      } else {
        DrainPriorTruth(u, i - 1);
      }
    }
  }

  lemma DrainedNotActive(f: FiberState)
    ensures DrainFiber(f).phase != Active && DrainFiber(f).disposed == f.disposed
  {
  }

  ghost predicate UnwindingPrior(t: Txn, i: nat) {
    && t.state == Committing && AllActive(t.newFibers)
    && i <= |t.priorFibers| && |t.drainResults| == |t.priorFibers| && NoTimeout(t.drainResults)
    && |t.unwindReports| == |t.priorFibers| - i && !AnyQuarantined(t.unwindReports)
    && (forall k :: 0 <= k < i ==> !t.priorFibers[k].disposed)
    && (forall k :: i <= k < |t.priorFibers| ==> t.priorFibers[k].disposed && !t.priorFibers[k].unwindFails)
    && (forall k :: 0 <= k < |t.priorFibers| ==> t.priorFibers[k].phase != Active)
  }

  lemma {:induction false} UnwindPriorTruth(t: Txn, i: nat)
    requires UnwindingPrior(t, i)
    ensures Truthful(UnwindPrior(t, i))
    decreases i
  {
    hide AnyQuarantined, AllActive, NoTimeout, PutAway;
    if i > 0 {
      var f := t.priorFibers[i - 1];
      var u := t.(priorFibers := t.priorFibers[i - 1 := DisposeFiber(f)], unwindReports := t.unwindReports + [DisposeReply(f)]);
      AnyQuarantinedSnoc(t.unwindReports, DisposeReply(f));
      if !DisposeReply(f).quarantined {
        UnwindPriorTruth(u, i - 1);
      }
    }
  }

  lemma CommitTruth(config: Config, t: Txn)
    requires FreshFibers(config) && Truthful(t)
    ensures Truthful(Commit(config, t))
  {
    if t.state == Preparing && config.prior.Some? {
      var prior := CreateAll(config.prior.value, config.createPrior);
      CreatedFresh(config.prior.value, config.createPrior);
      var u := t.(state := Committing, priorFibers := prior);
      assert DrainingPrior(u, |prior|);
      DrainPriorTruth(u, |prior|);
      var drained := DrainPrior(u, |prior|);
      if drained.state == Committing {
        assert UnwindingPrior(drained, |drained.priorFibers|);
        UnwindPriorTruth(drained, |drained.priorFibers|);
      }
    }
  }

  lemma AbortKeepsTruth(t: Txn)
    requires Truthful(t)
    ensures Truthful(Abort(t))
  {
    if t.state != TxnAborted && t.state != TxnQuarantined {
      AbortTruth(t);
    }
  }

  datatype Action = DoPrepare | DoCommit | DoAbort

  function Perform(config: Config, t: Txn, a: Action): Txn {
    match a
    case DoPrepare => Prepare(config, t)
    case DoCommit => Commit(config, t)
    case DoAbort => Abort(t)
  }

  function Run(config: Config, actions: seq<Action>): Txn {
    if actions == [] then START else Perform(config, Run(config, actions[..|actions| - 1]), actions[|actions| - 1])
  }

  /**
    After any calls, whatever drains and unwinds do: committed means that every prior fiber was
    drained without a timeout and unwound cleanly and every new one is active; aborted means that
    every new fiber is terminal or was unwound cleanly; quarantined means that some recorded report is.
   */
  lemma {:induction false} OutcomeTruthful(config: Config, actions: seq<Action>)
    requires FreshFibers(config)
    ensures Truthful(Run(config, actions))
  {
    if actions == [] {
      assert !AnyQuarantined([]);
    } else {
      var n := |actions| - 1;
      OutcomeTruthful(config, actions[..n]);
      hide Truthful, Prepare, Commit, Abort, FreshFibers;
      var t := Run(config, actions[..n]);
      match actions[n] {
        case DoPrepare => PrepareTruth(config, t);
        case DoCommit => CommitTruth(config, t);
        case DoAbort => AbortKeepsTruth(t);
      }
    }
  }

  // ---------------------------------------------------------------------------
  // What the outcome does not say
  // ---------------------------------------------------------------------------

  /** A busy fiber that cannot move to draining: its drain gives up at once, and not by a timeout. */
  predicate Undrainable(f: FiberState) {
    f.busy && !Transition(f.phase, Draining).Moved?
  }

  ghost predicate AllDrained(results: seq<DrainResult>) {
    forall r :: r in results ==> r.drained
  }

  lemma AllDrainedSnoc(results: seq<DrainResult>, r: DrainResult)
    ensures AllDrained(results + [r]) <==> AllDrained(results) && r.drained
  {
    assert forall x :: x in results + [r] <==> x in results || x == r;
  }

  /** While no drain times out, each fiber is drained unless it is undrainable. */
  lemma {:induction false} DrainPriorReplies(t: Txn, i: nat)
    requires i <= |t.priorFibers| && t.state == Committing
    requires DrainPrior(t, i).state == Committing
    ensures AllDrained(DrainPrior(t, i).drainResults)
       <==> AllDrained(t.drainResults) && forall k :: 0 <= k < i ==> !Undrainable(t.priorFibers[k])
    decreases i
  {
    hide DrainFiber, Undrainable, Abort, DrainReply, AllDrained;
    if i > 0 {
      var f := t.priorFibers[i - 1];
      var u := t.(priorFibers := t.priorFibers[i - 1 := DrainFiber(f)], drainResults := t.drainResults + [DrainReply(f)]);
      AbortEnds(u);
      DrainedUnlessUndrainable(f);
      AllDrainedSnoc(t.drainResults, DrainReply(f));
      DrainPriorReplies(u, i - 1);
      assert forall k :: 0 <= k < i - 1 ==> u.priorFibers[k] == t.priorFibers[k];
    }
  }

  lemma DrainedUnlessUndrainable(f: FiberState)
    ensures !DrainReply(f).timedOut ==> (DrainReply(f).drained <==> !Undrainable(f))
  {
  }

  lemma {:induction false} UnwindPriorKeepsResults(t: Txn, i: nat)
    requires i <= |t.priorFibers|
    ensures UnwindPrior(t, i).drainResults == t.drainResults
    decreases i
  {
    hide DisposeFiber, DisposeReply;
    if i > 0 {
      var f := t.priorFibers[i - 1];
      UnwindPriorKeepsResults(t.(priorFibers := t.priorFibers[i - 1 := DisposeFiber(f)], unwindReports := t.unwindReports + [DisposeReply(f)]), i - 1);
    }
  }

  /**
    A transaction that has committed was over drained fibers iff no prior fiber was busy in a
    phase that cannot move to draining.
   */
  lemma CommittedDrainedIff(config: Config, t: Txn)
    requires t.state == Preparing && t.drainResults == [] && config.prior.Some?
    requires Commit(config, t).state == TxnCommitted
    ensures AllDrained(Commit(config, t).drainResults)
       <==> (forall f :: f in CreateAll(config.prior.value, config.createPrior) ==> !Undrainable(f))
  {
    hide CreateAll, UnwindPrior, DrainPrior, Undrainable;
    var prior := CreateAll(config.prior.value, config.createPrior);
    var n := |prior|;
    var u := t.(state := Committing, priorFibers := prior);
    var drained := DrainPrior(u, n);
    DrainPriorEnds(u, n);
    DrainPriorReplies(u, n);
    UnwindPriorKeepsResults(drained, |drained.priorFibers|);
    assert AllDrained(t.drainResults);
    assert forall k :: 0 <= k < n ==> prior[k] in prior;
  }

  lemma {:induction false} DrainPriorEnds(t: Txn, i: nat)
    requires i <= |t.priorFibers| && t.state == Committing
    ensures DrainPrior(t, i).state in {Committing, TxnAborted, TxnQuarantined}
    decreases i
  {
    hide DrainFiber, DrainReply;
    if i > 0 {
      var f := t.priorFibers[i - 1];
      var u := t.(priorFibers := t.priorFibers[i - 1 := DrainFiber(f)], drainResults := t.drainResults + [DrainReply(f)]);
      AbortEnds(u);
      DrainPriorEnds(u, i - 1);
    }
  }

  /** In every run: where the transaction has ended committed, every drain drained iff no prior fiber was undrainable. */
  lemma {:induction false} CommittedRunDrainedIff(config: Config, actions: seq<Action>)
    requires FreshFibers(config) && config.prior.Some?
    requires Run(config, actions).state == TxnCommitted
    ensures AllDrained(Run(config, actions).drainResults)
       <==> (forall f :: f in CreateAll(config.prior.value, config.createPrior) ==> !Undrainable(f))
  {
    hide CreateAll, Undrainable, UnwindNew, DrainPrior, UnwindPrior, MoveFrom, FreshFibers, PutAway, AnyQuarantined, AllActive;
    if actions != [] {
      var n := |actions| - 1;
      var t := Run(config, actions[..n]);
      OutcomeTruthful(config, actions[..n]);
      AbortEnds(t);
      PrepareNeverCommits(config, t);
      if t.state == TxnCommitted {
        CommittedRunDrainedIff(config, actions[..n]);
      } else {
        CommittedDrainedIff(config, t);
      }
    }
  }

  lemma PrepareNeverCommits(config: Config, t: Txn)
    ensures Prepare(config, t).state == TxnCommitted ==> Prepare(config, t) == t
  {
    hide CreateAll, MoveFrom, Abort;
    var created := CreateAll(config.proposed, config.createNew);
    var waiting := MoveFrom(created, 0, Waiting);
    var loading := MoveFrom(waiting.0, 0, Loading);
    var active := MoveFrom(loading.0, 0, Active);
    var u := t.(state := Preparing);
    AbortEnds(u.(newFibers := waiting.0));
    AbortEnds(u.(newFibers := loading.0));
    AbortEnds(u.(newFibers := active.0));
  }

  /** A fiber that stands in the way of committing: its drain times out, or its effects do not unwind. */
  predicate Obstructs(f: FiberState) {
    (f.busy && f.drainTimesOut && Transition(f.phase, Draining).Moved?) || f.unwindFails
  }

  lemma {:induction false} DrainPriorCommitsIff(t: Txn, i: nat)
    requires i <= |t.priorFibers| && t.state == Committing
    requires forall f :: f in t.priorFibers ==> !f.disposed
    ensures DrainPrior(t, i).state == Committing <==> forall k :: 0 <= k < i ==> !DrainReply(t.priorFibers[k]).timedOut
    ensures DrainPrior(t, i).state == Committing ==>
      && |DrainPrior(t, i).priorFibers| == |t.priorFibers|
      && forall k :: 0 <= k < |t.priorFibers| ==>
           DisposeReply(DrainPrior(t, i).priorFibers[k]) == DisposeReply(t.priorFibers[k])
    decreases i
  {
    hide DrainReply, Abort;
    if i > 0 {
      var f := t.priorFibers[i - 1];
      var u := t.(priorFibers := t.priorFibers[i - 1 := DrainFiber(f)], drainResults := t.drainResults + [DrainReply(f)]);
      AbortEnds(u);
      DrainPriorCommitsIff(u, i - 1);
      assert forall k :: 0 <= k < i - 1 ==> u.priorFibers[k] == t.priorFibers[k];
    }
  }

  lemma {:induction false} UnwindPriorCommitsIff(t: Txn, i: nat)
    requires i <= |t.priorFibers|
    ensures UnwindPrior(t, i).state == TxnCommitted <==> forall k :: 0 <= k < i ==> !DisposeReply(t.priorFibers[k]).quarantined
    decreases i
  {
    hide DisposeFiber, DisposeReply;
    if i > 0 {
      var f := t.priorFibers[i - 1];
      var u := t.(priorFibers := t.priorFibers[i - 1 := DisposeFiber(f)], unwindReports := t.unwindReports + [DisposeReply(f)]);
      UnwindPriorCommitsIff(u, i - 1);
      assert forall k :: 0 <= k < i - 1 ==> u.priorFibers[k] == t.priorFibers[k];
    }
  }

  /** Committing a prepared transaction succeeds iff no prior fiber obstructs; being undrainable is no obstruction. */
  lemma CommitsIff(config: Config, t: Txn)
    requires FreshFibers(config) && t.state == Preparing && config.prior.Some?
    ensures Commit(config, t).state == TxnCommitted <==> forall f :: f in CreateAll(config.prior.value, config.createPrior) ==> !Obstructs(f)
  {
    var prior := CreateAll(config.prior.value, config.createPrior);
    CreatedFresh(config.prior.value, config.createPrior);
    hide CreateAll, UnwindPrior, DrainPrior, FreshFibers;
    var u := t.(state := Committing, priorFibers := prior);
    DrainPriorEnds(u, |prior|);
    DrainPriorCommitsIff(u, |prior|);
    var drained := DrainPrior(u, |prior|);
    UnwindPriorCommitsIff(drained, |drained.priorFibers|);
    hide DrainReply, DisposeReply, Transition;
    forall k | 0 <= k < |prior|
      ensures Obstructs(prior[k]) <==> DrainReply(prior[k]).timedOut || DisposeReply(prior[k]).quarantined
    {
      assert prior[k] in prior;
      ObstructsMeans(prior[k]);
    }
  }

  lemma ObstructsMeans(f: FiberState)
    requires !f.disposed
    ensures Obstructs(f) <==> DrainReply(f).timedOut || DisposeReply(f).quarantined
  {
  }

  /** A prepared transaction commits over a fiber that was not drained iff nothing obstructs and some prior fiber is undrainable. */
  lemma CommitsUndrainedIff(config: Config, t: Txn)
    requires FreshFibers(config) && t.state == Preparing && t.drainResults == [] && config.prior.Some?
    ensures
      var prior := CreateAll(config.prior.value, config.createPrior);
      Commit(config, t).state == TxnCommitted && !AllDrained(Commit(config, t).drainResults)
      <==> (forall f :: f in prior ==> !Obstructs(f)) && (exists f :: f in prior && Undrainable(f))
  {
    CommitsIff(config, t);
    hide Commit, CreateAll, Obstructs, Undrainable, FreshFibers;
    if Commit(config, t).state == TxnCommitted {
      CommittedDrainedIff(config, t);
    }
  }

  /** For instance: a busy prior fiber that is draining already. */
  lemma CommittedOverBusyFiber(config: Config, id: Identity)
    requires FreshFibers(config) && config.proposed == [] && config.prior == M.Some([id])
    requires config.createPrior(id) == FiberState(id, Draining, false, true, true, false)
    ensures
      var t := Run(config, [DoPrepare, DoCommit]);
      t.state == TxnCommitted && !AllDrained(t.drainResults)
  {
    hide IdentityKey, Commit, FreshFibers;
    assert [DoPrepare, DoCommit][..1] == [DoPrepare] && [DoPrepare][..0] == [];
    assert Run(config, []) == START;
    assert SortBy([], IdentityKey) == [];
    var t := Run(config, [DoPrepare]);
    assert t == START.(state := Preparing);
    assert SortBy([id], IdentityKey) == [id] by { assert [id][1..] == []; }
    var f := config.createPrior(id);
    assert CreateAll([id], config.createPrior) == [f];
    assert f in [f] && Undrainable(f) && !Obstructs(f);
    CommitsUndrainedIff(config, t);
  }

  // ---------------------------------------------------------------------------
  // The class
  // ---------------------------------------------------------------------------

  class ActivationTransaction {
    const config: Config
    var state: TxnState
    var newFibers: seq<FiberState>
    var priorFibers: seq<FiberState>
    var drainResults: seq<DrainResult>
    var unwindReports: seq<Unwound>

    function Now(): Txn
      reads this
    {
      Txn(state, newFibers, priorFibers, drainResults, unwindReports)
    }

    constructor (config: Config)
      ensures this.config == config && Now() == START
    {
      this.config := config;
      state := Idle;
      newFibers, priorFibers, drainResults, unwindReports := [], [], [], [];
    }

    /** One of the three loops of prepare. */
    method MoveNewFibers(to: Phase) returns (ok: bool)
      modifies this
      ensures (newFibers, ok) == MoveFrom(old(newFibers), 0, to)
      ensures Now() == old(Now()).(newFibers := newFibers)
    {
      ghost var start := newFibers;
      var i := 0;
      while i < |newFibers|
        invariant 0 <= i <= |newFibers|
        invariant MoveFrom(start, 0, to) == MoveFrom(newFibers, i, to)
        invariant Now() == old(Now()).(newFibers := newFibers)
      {
        if !Transition(newFibers[i].phase, to).Moved? {
          return false;
        }
        newFibers := newFibers[i := TransitionFiber(newFibers[i], to)];
        i := i + 1;
      }
      ok := true;
    }

    /** ok is false where the source throws. */
    method PrepareFibers() returns (ok: bool)
      modifies this
      ensures Now() == Prepare(config, old(Now()))
      ensures ok <==> old(state) == Idle && state == Preparing
    {
      if state != Idle {
        return false;
      }
      hide CreateAll, MoveFrom, UnwindNew;
      state := Preparing;
      newFibers := CreateAll(config.proposed, config.createNew);
      ok := MoveNewFibers(Waiting);
      if ok {
        ok := MoveNewFibers(Loading);
      }
      if ok {
        ok := MoveNewFibers(Active);
      }
      if !ok {
        AbortEnds(Now());
        AbortFibers();
      }
    }

    method AbortFibers()
      modifies this
      ensures Now() == Abort(old(Now()))
    {
      if state == TxnAborted || state == TxnQuarantined {
        return;
      }
      state := Aborting;
      ghost var start := Now();
      var i := |newFibers|;
      while i > 0
        invariant 0 <= i <= |newFibers|
        invariant UnwindNew(start, |start.newFibers|) == UnwindNew(Now(), i)
      {
        i := i - 1;
        if !IsTerminal(newFibers[i].phase) {
          var report := DisposeReply(newFibers[i]);
          newFibers := newFibers[i := DisposeFiber(newFibers[i])];
          unwindReports := unwindReports + [report];
          if report.quarantined {
            state := TxnQuarantined;
            return;
          }
        }
      }
      state := TxnAborted;
    }

    method CommitFibers() returns (ok: bool)
      modifies this
      ensures Now() == Commit(config, old(Now()))
      ensures ok <==> old(state) == Preparing && state == TxnCommitted
    {
      if state != Preparing {
        return false;
      }
      state := Committing;
      if config.prior.Some? {
        priorFibers := CreateAll(config.prior.value, config.createPrior);
        ok := DrainPriorFibers();
        if !ok {
          return;
        }
        ok := UnwindPriorFibers();
        return;
      }
      state := TxnCommitted;
      ok := true;
    }

    method DrainPriorFibers() returns (ok: bool)
      requires state == Committing
      modifies this
      ensures Now() == DrainPrior(old(Now()), |old(priorFibers)|)
      ensures ok <==> state == Committing
      ensures !ok ==> state != TxnCommitted
    {
      hide UnwindNew;
      ghost var start := Now();
      var i := |priorFibers|;
      while i > 0
        invariant 0 <= i <= |priorFibers| && state == Committing
        invariant DrainPrior(start, |start.priorFibers|) == DrainPrior(Now(), i)
      {
        i := i - 1;
        var drainResult := DrainReply(priorFibers[i]);
        priorFibers := priorFibers[i := DrainFiber(priorFibers[i])];
        drainResults := drainResults + [drainResult];
        if drainResult.timedOut {
          AbortEnds(Now());
          AbortFibers();
          return false;
        }
      }
      ok := true;
    }

    method UnwindPriorFibers() returns (ok: bool)
      requires state == Committing
      modifies this
      ensures Now() == UnwindPrior(old(Now()), |old(priorFibers)|)
      ensures ok <==> state == TxnCommitted
    {
      ghost var start := Now();
      var i := |priorFibers|;
      while i > 0
        invariant 0 <= i <= |priorFibers|
        invariant UnwindPrior(start, |start.priorFibers|) == UnwindPrior(Now(), i)
      {
        i := i - 1;
        var report := DisposeReply(priorFibers[i]);
        priorFibers := priorFibers[i := DisposeFiber(priorFibers[i])];
        unwindReports := unwindReports + [report];
        if report.quarantined {
          state := TxnQuarantined;
          return false;
        }
      }
      state := TxnCommitted;
      ok := true;
    }
  }

  lemma AbortEnds(t: Txn)
    ensures Abort(t).state in {TxnAborted, TxnQuarantined}
  {
    if t.state != TxnAborted && t.state != TxnQuarantined {
      UnwindNewEnds(t.(state := Aborting), |t.newFibers|);
    }
  }

  lemma {:induction false} UnwindNewEnds(t: Txn, i: nat)
    requires i <= |t.newFibers|
    ensures UnwindNew(t, i).state in {TxnAborted, TxnQuarantined}
    decreases i
  {
    if i > 0 {
      var f := t.newFibers[i - 1];
      var u := t.(newFibers := t.newFibers[i - 1 := DisposeFiber(f)], unwindReports := t.unwindReports + [DisposeReply(f)]);
      UnwindNewEnds(if IsTerminal(f.phase) then t else u, i - 1);
    }
  }
}
