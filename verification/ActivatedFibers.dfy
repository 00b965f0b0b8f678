/**
  The fibers a transaction sees are views of fibers with operations and effects: what
  src/component-runtime/activation.ts relies on is what src/component-runtime/fiber.ts does.
 */
module ActivatedFibers {
  import opened Lifecycle
  import A = Activation
  import E = Effects
  import F = Fiber
  import Q = Quiescence
  import Resolver

  /**
    A fiber with its operations and its handlers, as the turns of its disposal find them; fate says
    which disposers succeed, timesOut whether a drain that polls gives up.
   */
  datatype Whole = Whole(
    component: Resolver.Identity,
    runtime: Q.Runtime,
    handlers: seq<E.Handler>,
    disposed: bool,
    fate: nat -> bool,
    timesOut: bool)

  /** What dispose reports: one entry per turn, or nothing once a disposal has ended. */
  ghost function ReportOf(w: Whole): E.Report {
    if w.disposed then E.Report([], true, false) else E.BuildUnwindReport(F.Unwinding(w.handlers, w.fate))
  }

  /** The fiber after dispose. */
  ghost function Disposed(w: Whole): Whole {
    if w.disposed then w
    else
      w.(runtime := Q.Step(Q.Step(w.runtime, Q.DisposeStart), Q.DisposeEnd(ReportOf(w).quarantined)), handlers := [], disposed := true)
  }

  ghost function View(w: Whole): A.FiberState {
    A.FiberState(w.component, w.runtime.phase, w.disposed, w.runtime.operations != map[], w.timesOut,
                 !w.disposed && E.BuildUnwindReport(F.Unwinding(w.handlers, w.fate)).quarantined)
  }

  /** The transaction's dispose is the fiber's: the same phase afterwards and the same verdict. */
  lemma DisposeViews(w: Whole)
    ensures A.DisposeFiber(View(w)).phase == View(Disposed(w)).phase
    ensures A.DisposeFiber(View(w)).disposed == View(Disposed(w)).disposed
    ensures A.DisposeReply(View(w)).quarantined == ReportOf(w).quarantined
  {
    hide F.Unwinding, E.BuildUnwindReport;
  }

  /** Its verdict is quarantined iff disposing some handler leaves something of that handler's effect. */
  lemma VerdictIsLeftover(w: Whole)
    requires forall i :: 0 <= i < |w.handlers| ==> E.Counted(w.handlers[i])
    ensures A.DisposeReply(View(w)).quarantined
       <==> !w.disposed && exists i :: 0 <= i < |w.handlers| && !E.NothingLeft(E.Step(w.handlers[i], E.Dispose, w.fate(i)).handler)
  {
    F.CleanUnwindIff(w.handlers, w.fate);
  }

  /** The drain answers before its first await. */
  predicate AnswersAtOnce(s: Q.Runtime) {
    !Transition(s.phase, Draining).Moved? || s.operations == map[]
  }

  /**
    How a drain of the runtime ends: at once, or, after whatever happens while it polls, by
    finding no operation or by giving up.
   */
  ghost predicate Drains(s: Q.Runtime, during: seq<Q.Event>, timesOut: bool, r: A.DrainResult) {
    if AnswersAtOnce(s) then r == A.DrainResult(Q.ReportsDrained(s, Q.DrainStart), false)
    else if timesOut then r == A.DrainResult(false, true)
    else Q.ReportsDrained(Q.After(Q.Step(s, Q.DrainStart), during), Q.Poll) && r == A.DrainResult(true, false)
  }

  /** The transaction's drain is the fiber's: the same move of the phase and the same answer. */
  lemma DrainViews(w: Whole, during: seq<Q.Event>, r: A.DrainResult)
    requires Drains(w.runtime, during, w.timesOut, r)
    ensures r == A.DrainReply(View(w))
    ensures A.DrainFiber(View(w)).phase == Q.Step(w.runtime, Q.DrainStart).phase
  {
  }

  /** The runtime once the drain has answered. */
  function Answered(s: Q.Runtime, during: seq<Q.Event>): Q.Runtime {
    if AnswersAtOnce(s) then Q.Step(s, Q.DrainStart) else Q.Step(Q.After(Q.Step(s, Q.DrainStart), during), Q.Poll)
  }

  /**
    So a fiber that a transaction has drained, having found it in or past active with no execute
    still to return, has nothing in flight from the answer on, whatever follows.
   */
  lemma DrainedInTransaction(phase: Phase, before: seq<Q.Event>, w: Whole, during: seq<Q.Event>)
    requires Q.DistinctIds(Q.Initial(phase), before + [Q.DrainStart] + during)
    requires w.runtime == Q.After(Q.Initial(phase), before)
    requires Rank(w.runtime.phase) >= Rank(Active) && w.runtime.starting == []
    requires Drains(w.runtime, during, w.timesOut, A.DrainReply(View(w))) && A.DrainReply(View(w)).drained
    ensures forall after :: Q.After(Answered(w.runtime, during), after).inflight == map[]
  {
    hide Q.Step, Q.After, Q.DistinctIds;
    var s := w.runtime;
    Q.AfterConcat(Q.Initial(phase), before + [Q.DrainStart], during);
    Q.AfterConcat(Q.Initial(phase), before, [Q.DrainStart]);
    Q.AfterOne(s, Q.DrainStart);
    if AnswersAtOnce(s) {
      Q.DrainedForeverIff(phase, before, Q.DrainStart);
    } else {
      var run := before + [Q.DrainStart] + during;
      Q.AlwaysTracked(Q.Initial(phase), run);
      PollsPastActive(Q.After(Q.Initial(phase), run));
      Q.DrainedForeverIff(phase, run, Q.Poll);
    }
  }

  lemma PollsPastActive(s: Q.Runtime)
    requires Q.Tracked(s) && Q.ReportsDrained(s, Q.Poll)
    ensures Rank(s.phase) >= Rank(Active) && s.starting == []
  {
  }
}
