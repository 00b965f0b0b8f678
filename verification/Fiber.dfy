/** ComponentFiber of src/component-runtime/fiber.ts. */
module Fiber {
  import opened Lifecycle
  import opened R = EffectRegistry
  import E = Effects
  import Q = Quiescence

  // ---------------------------------------------------------------------------
  // Handlers of any class
  // ---------------------------------------------------------------------------

  /** A reference to a handler of one of the four classes. */
  datatype HandlerRef =
    | OfRevertible(revertible: E.RevertibleEffectHandler)
    | OfTransactional(transactional: E.TransactionalEffectHandler)
    | OfCompensatable(compensatable: E.CompensatableEffectHandler)
    | OfIrreversible(irreversible: E.IrreversibleEmissionEffectHandler)

  ghost function ObjectOf(h: HandlerRef): object {
    match h
    case OfRevertible(o) => o
    case OfTransactional(o) => o
    case OfCompensatable(o) => o
    case OfIrreversible(o) => o
  }

  ghost function StateOf(h: HandlerRef): E.Handler
    reads ObjectOf(h)
  {
    match h
    case OfRevertible(o) => o.State()
    case OfTransactional(o) => o.State()
    case OfCompensatable(o) => o.State()
    case OfIrreversible(o) => o.State()
  }

  function ClassOf(h: HandlerRef): E.EffectClass {
    match h
    case OfRevertible(_) => E.Revertible
    case OfTransactional(_) => E.Transactional
    case OfCompensatable(_) => E.Compensatable
    case OfIrreversible(_) => E.Irreversible
  }

  lemma SameClass(h: HandlerRef)
    ensures E.ClassOf(StateOf(h)) == ClassOf(h)
  {
  }

  /** handler.dispose() */
  method DisposeHandler(h: HandlerRef, succeeds: bool) returns (r: E.HandlerResult)
    modifies ObjectOf(h)
    ensures E.Reply(StateOf(h), r) == E.Step(old(StateOf(h)), E.Dispose, succeeds)
  {
    match h {
      case OfRevertible(o) => r := o.Handle(E.Dispose, succeeds);
      case OfTransactional(o) => r := o.Handle(E.Dispose, succeeds);
      case OfCompensatable(o) => r := o.Handle(E.Dispose, succeeds);
      case OfIrreversible(o) => r := o.Handle(E.Dispose, succeeds);
    }
  }

  // ---------------------------------------------------------------------------
  // Disposal
  // ---------------------------------------------------------------------------

  /** The entries dispose reports: one per handler, the one registered last first. */
  ghost function Unwinding(before: seq<E.Handler>, fate: nat -> bool): (entries: seq<E.Entry>)
    ensures |entries| == |before|
  {
    if before == [] then []
    else
      var n := |before| - 1;
      [EntryOf(E.ClassOf(before[n]), E.Step(before[n], E.Dispose, fate(n)).result)] + Unwinding(before[..n], fate)
  }

  /** Disposing h leaves something of its effect. */
  ghost predicate LeavesSome(h: E.Handler, succeeds: bool) {
    !E.NothingLeft(E.Step(h, E.Dispose, succeeds).handler)
  }

  ghost predicate AnyLeaves(before: seq<E.Handler>, fate: nat -> bool) {
    exists i :: 0 <= i < |before| && LeavesSome(before[i], fate(i))
  }

  lemma AnyLeavesSnoc(front: seq<E.Handler>, h: E.Handler, fate: nat -> bool)
    ensures AnyLeaves(front + [h], fate) <==> AnyLeaves(front, fate) || LeavesSome(h, fate(|front|))
  {
    var before := front + [h];
    assert before[|front|] == h;
    if AnyLeaves(front, fate) {
      var i :| 0 <= i < |front| && LeavesSome(front[i], fate(i));
      assert LeavesSome(before[i], fate(i));
    }
  }

  lemma {:induction false} CleanIff(before: seq<E.Handler>, fate: nat -> bool)
    requires forall i :: 0 <= i < |before| ==> E.Counted(before[i])
    ensures AnyUnclean(Unwinding(before, fate)) <==> AnyLeaves(before, fate)
  {
    if before != [] {
      var n := |before| - 1;
      CleanIff(before[..n], fate);
      E.DisposeTellsTruth(before[n], fate(n));
      hide AnyUnclean, AnyLeaves, E.Step, E.NothingLeft, E.Counted;
      var first := EntryOf(E.ClassOf(before[n]), E.Step(before[n], E.Dispose, fate(n)).result);
      AnyUncleanConcat([first], Unwinding(before[..n], fate));
      assert AnyUnclean([first]) <==> E.Unclean(first.outcome) by {
        assert [first][0] == first;
      }
      assert before == before[..n] + [before[n]];
      AnyLeavesSnoc(before[..n], before[n], fate);
    }
  }

  /** Whatever the handlers went through before, the report is clean iff disposal leaves nothing of any effect. */
  lemma CleanUnwindIff(before: seq<E.Handler>, fate: nat -> bool)
    requires forall i :: 0 <= i < |before| ==> E.Counted(before[i])
    ensures !E.BuildUnwindReport(Unwinding(before, fate)).quarantined
       <==> forall i :: 0 <= i < |before| ==> E.NothingLeft(E.Step(before[i], E.Dispose, fate(i)).handler)
  {
    hide E.Step, E.NothingLeft, E.Counted, E.Unclean;
    CleanIff(before, fate);
    assert forall i :: 0 <= i < |before| ==>
      (LeavesSome(before[i], fate(i)) <==> !E.NothingLeft(E.Step(before[i], E.Dispose, fate(i)).handler));
  }

  /** The states of the registered handlers. */
  ghost function States(effects: seq<Registered<HandlerRef>>): seq<E.Handler>
    reads set i | 0 <= i < |effects| :: ObjectOf(effects[i].handler)
  {
    seq(|effects|, i requires 0 <= i < |effects| reads set j | 0 <= j < |effects| :: ObjectOf(effects[j].handler) =>
      StateOf(effects[i].handler))
  }

  lemma StatesAt(effects: seq<Registered<HandlerRef>>)
    ensures |States(effects)| == |effects|
    ensures forall i :: 0 <= i < |effects| ==> States(effects)[i] == StateOf(effects[i].handler)
  {
  }

  /** The handlers are different objects, and none is the fiber or its life cycle. */
  ghost predicate Apart(effects: seq<Registered<HandlerRef>>, fiber: object, lifecycle: object) {
    && (forall i, j :: 0 <= i < j < |effects| ==> ObjectOf(effects[i].handler) != ObjectOf(effects[j].handler))
    && (forall i :: 0 <= i < |effects| ==> ObjectOf(effects[i].handler) != fiber && ObjectOf(effects[i].handler) != lifecycle)
  }

  lemma ApartFrom(effects: seq<Registered<HandlerRef>>, fiber: object, lifecycle: object, i: nat)
    requires Apart(effects, fiber, lifecycle) && i < |effects|
    ensures ObjectOf(effects[i].handler) != fiber && ObjectOf(effects[i].handler) != lifecycle
    ensures forall j :: 0 <= j < |effects| && j != i ==> ObjectOf(effects[j].handler) != ObjectOf(effects[i].handler)
  {
  }

  /** The object a turn may change. */
  ghost function Touched(found: Option<HandlerRef>): set<object> {
    if found.None? then {} else {ObjectOf(found.value)}
  }

  datatype QuiescenceResult = QuiescenceResult(drained: bool, timedOut: bool, remainingOperations: nat)

  class ComponentFiber {
    const lifecycle: LifecycleMachine
    var operations: map<Q.Id, Q.Token>
    var effects: seq<Registered<HandlerRef>>
    var disposed: bool
    ghost var starting: seq<Q.Start>
    ghost var inflight: map<Q.Token, Q.Id>
    ghost var settled: map<Q.Token, Q.Id>
    ghost var disposals: map<nat, Stage>
    ghost var calls: nat
    ghost var log: seq<Turned<HandlerRef>>
    var cancelled: set<Q.Token>
    var polling: nat
    var next: Q.Token

    /** The part of the state the operations live in. */
    ghost function Runtime(): Q.Runtime
      reads this, lifecycle
    {
      Q.Runtime(lifecycle.phase, operations, starting, inflight, settled, cancelled, polling, next)
    }

    /** The part of the state the effects live in. */
    ghost function Registry(): R.State<HandlerRef>
      reads this
    {
      R.State(effects, disposed, disposals, calls, log)
    }

    ghost predicate Valid()
      reads this
    {
      && R.Sound(Registry())
      && Apart(effects, this, lifecycle)
    }

    constructor (initial: Phase)
      ensures Valid() && effects == [] && !disposed && fresh(lifecycle)
      ensures Runtime() == Q.Initial(initial) && Registry() == R.Initial()
    {
      lifecycle := new LifecycleMachine(initial);
      operations, effects, disposed := map[], [], false;
      disposals, calls, log := map[], 0, [];
      starting, inflight, settled, cancelled, polling, next := [], map[], map[], {}, 0, 0;
    }

    /** FIBER-01 refuses registration on a disposed fiber. */
    method RegisterEffect(id: Id, handler: HandlerRef) returns (ok: bool)
      requires Valid()
      requires ObjectOf(handler) != this && ObjectOf(handler) != lifecycle
      requires forall i :: 0 <= i < |effects| ==> ObjectOf(effects[i].handler) != ObjectOf(handler)
      modifies this`effects
      ensures Valid()
      ensures ok <==> !disposed
      ensures Registry() == R.Step(old(Registry()), R.Register(id, handler))
    {
      if disposed {
        return false;
      }
      StepSound(Registry(), R.Register(id, handler));
      hide R.Sound;
      SetEffectPlaces(effects, id, handler);
      if i :| 0 <= i < |effects| && effects[i].id == id {
        assert SetEffect(effects, id, handler) == effects[i := Registered(id, handler)];
      } else {
        assert SetEffect(effects, id, handler) == effects + [Registered(id, handler)];
      }
      effects := SetEffect(effects, id, handler);
      ok := true;
    }

    /** run up to its call of execute: FIBER-03 refuses the call outside active. */
    method AdmitRun(id: Q.Id) returns (ok: bool, token: Q.Token)
      modifies this
      ensures ok <==> CanAcceptNewCalls(old(lifecycle.phase))
      ensures ok ==> starting == old(starting) + [Q.Start(token, id)]
      ensures Runtime() == Q.Step(old(Runtime()), Q.Admit(id))
      ensures Registry() == old(Registry())
    {
      token := next;
      if !CanAcceptNewCalls(lifecycle.phase) {
        return false, token;
      }
      starting := starting + [Q.Start(token, id)];
      next := next + 1;
      ok := true;
    }

    /** run from the return of execute to its await, whatever execute has done to the fiber. */
    method RegisterRun(id: Q.Id, token: Q.Token)
      requires starting != [] && starting[|starting| - 1] == Q.Start(token, id)
      modifies this
      ensures Runtime() == Q.Step(old(Runtime()), Q.Register)
      ensures Registry() == old(Registry())
    {
      operations := operations[id := token];
      inflight := inflight[token := id];
      starting := starting[..|starting| - 1];
    }

    /** The environment: execute throws, and nothing is recorded. */
    ghost method ExecuteThrows()
      requires starting != []
      modifies this`starting
      ensures Runtime() == Q.Step(old(Runtime()), Q.Throw)
    {
      starting := starting[..|starting| - 1];
    }

    /** The environment: the promise of a running operation settles. */
    ghost method OperationSettles(token: Q.Token)
      modifies this`inflight, this`settled
      ensures Runtime() == Q.Step(old(Runtime()), Q.Settle(token))
    {
      if token in inflight {
        settled := settled[token := inflight[token]];
        inflight := inflight - {token};
      }
    }

    /** run after its await, however the operation ended. */
    method FinishRun(id: Q.Id, ghost token: Q.Token)
      requires starting == [] && token in settled && settled[token] == id
      modifies this
      ensures Runtime() == Q.Step(old(Runtime()), Q.Finish(token))
      ensures Registry() == old(Registry())
    {
      operations := operations - {id};
      settled := settled - {token};
    }

    /** drain up to its first await; waiting means that it goes on to poll. */
    method StartDrain() returns (waiting: bool, r: QuiescenceResult)
      modifies this, lifecycle
      ensures Runtime() == Q.Step(old(Runtime()), Q.DrainStart)
      ensures !waiting ==> (r.drained <==> Q.ReportsDrained(old(Runtime()), Q.DrainStart))
      ensures !waiting ==> !r.timedOut && r.remainingOperations == |operations|
      ensures Registry() == old(Registry())
    {
      var moved := lifecycle.TransitionTo(Draining);
      if !moved.Moved? {
        NoneLeft(operations);
        return false, QuiescenceResult(|operations| == 0, false, |operations|);
      }
      NoneLeft(operations);
      if |operations| > 0 {
        polling := polling + 1;
        return true, QuiescenceResult(false, false, |operations|);
      }
      return false, QuiescenceResult(true, false, 0);
    }

    /** One turn of the polling loop: timeUp is the deadline or an aborted signal. */
    method PollDrain(timeUp: bool) returns (waiting: bool, r: QuiescenceResult)
      requires starting == [] && polling > 0
      modifies this
      ensures !waiting && r.drained ==> Q.ReportsDrained(old(Runtime()), Q.Poll) && Runtime() == Q.Step(old(Runtime()), Q.Poll)
      ensures !waiting && !r.drained ==> timeUp && r.timedOut && Runtime() == Q.Step(old(Runtime()), Q.GiveUp)
      ensures waiting ==> Runtime() == old(Runtime()) && operations != map[]
      ensures !waiting ==> r.remainingOperations == |operations|
      ensures Registry() == old(Registry())
    {
      NoneLeft(operations);
      if |operations| > 0 {
        if timeUp {
          polling := polling - 1;
          return false, QuiescenceResult(false, true, |operations|);
        }
        return true, QuiescenceResult(false, false, |operations|);
      }
      polling := polling - 1;
      return false, QuiescenceResult(true, false, 0);
    }

    method CancelAllOperations()
      modifies this
      ensures Runtime() == Q.Step(old(Runtime()), Q.Cancel)
      ensures Registry() == old(Registry())
    {
      if !IsDraining(lifecycle.phase) && lifecycle.phase != Active {
        return;
      }
      cancelled := cancelled + operations.Values;
    }

    /** dispose up to its first await: it returns at once when a disposal has ended. */
    method CallDispose() returns (done: bool, ghost d: nat)
      requires Valid()
      modifies this, lifecycle
      ensures Valid()
      ensures done <==> old(disposed)
      ensures Registry() == R.Step(old(Registry()), R.Call) && effects == old(effects)
      ensures !done ==> R.Waiting(Registry(), d)
      ensures done ==> unchanged(this) && unchanged(lifecycle)
      ensures !done ==> d == old(calls) && Runtime() == Q.Step(old(Runtime()), Q.DisposeStart)
    {
      hide Q.Step, R.Sound;
      d := calls;
      if disposed {
        return true, d;
      }
      StepSound(Registry(), R.Call);
      StartDispose();
      disposals, calls := disposals[d := ForChildren], calls + 1;
      done := false;
    }

    /** Array.from(keys).reverse() */
    method IdsInReverse() returns (ids: seq<Id>)
      ensures ids == ReversedIds(effects)
    {
      ids := [];
      var i := |effects|;
      while i > 0
        invariant 0 <= i <= |effects|
        invariant ids == ReversedIds(effects[i..])
      {
        i := i - 1;
        assert effects[i..][1..] == effects[i + 1..];
        ids := ids + [effects[i].id];
      }
      assert effects[0..] == effects;
    }

    /** effects.get(id) */
    method FindEffect(id: Id) returns (found: Option<HandlerRef>)
      requires DistinctEffectIds(effects)
      ensures found == Lookup(effects, id)
      ensures found.Some? ==> exists i :: 0 <= i < |effects| && effects[i] == Registered(id, found.value)
    {
      LookupIn(effects, id);
      var i := 0;
      while i < |effects|
        invariant 0 <= i <= |effects|
        invariant forall j :: 0 <= j < i ==> effects[j].id != id
      {
        if effects[i].id == id {
          assert effects[i] == Registered(id, effects[i].handler);
          return Some(effects[i].handler);
        }
        i := i + 1;
      }
      found := None;
    }

    /** Once the children are disposed: the ids in reverse order of registration. */
    method SnapshotEffects(ghost d: nat) returns (ids: seq<Id>)
      requires Valid() && R.Waiting(Registry(), d)
      modifies this`disposals
      ensures Valid()
      ensures Registry() == R.Step(old(Registry()), R.Snapshot(d))
      ensures ids == ReversedIds(effects) && R.Turning(Registry(), d) && disposals[d].pending == ids
      ensures EntriesOf(log, d) == []
    {
      SnapshotIs(Registry(), d);
      hide R.Sound, R.Step, EntriesOf, ReversedIds;
      ids := IdsInReverse();
      disposals := disposals[d := Turns(ids)];
    }

    /**
      The turn of id: what is registered under it now is disposed, and its entry added to those of
      the disposal; where nothing is, dispose rejects.
     */
    method TakeTurn(ghost d: nat, id: Id, entries: seq<E.Entry>, succeeds: bool) returns (rejected: bool, more: seq<E.Entry>)
      requires Valid() && R.Turning(Registry(), d) && !R.Through(Registry(), d) && disposals[d].pending[0] == id
      requires entries == EntriesOf(log, d)
      modifies this`disposals, this`log, Touched(Lookup(effects, id))
      ensures Valid() && more == EntriesOf(log, d)
      ensures rejected <==> Lookup(effects, id).None?
      ensures !rejected ==> R.Turning(Registry(), d) && disposals[d].pending == old(disposals[d].pending)[1..]
      ensures rejected ==> forall before :: Registry() == R.Step(old(Registry()), R.Turn(d, before, succeeds))
      ensures !rejected ==>
        var before := old(StateOf(Lookup(effects, id).value));
        && Registry() == R.Step(old(Registry()), R.Turn(d, before, succeeds))
        && more == entries + [EntryOf(E.ClassOf(before), E.Step(before, E.Dispose, succeeds).result)]
        && StateOf(Lookup(effects, id).value) == E.Step(before, E.Dispose, succeeds).handler
    {
      ghost var s := Registry();
      SoundIds(s);
      hide E.Step, R.Sound, R.Step, EntriesOf, StateOf, DistinctEffectIds, Lookup, Apart;
      var found := FindEffect(id);
      if found.None? {
        TurnWithout(s, d, succeeds);
        disposals := disposals - {d};
        return true, entries;
      }
      var handler := found.value;
      ghost var i :| 0 <= i < |effects| && effects[i] == Registered(id, handler);
      ApartFrom(effects, this, lifecycle, i);
      ghost var before := StateOf(handler);
      TurnWith(s, d, before, succeeds);
      SameClass(handler);
      var result := DisposeHandler(handler, succeeds);
      disposals := disposals[d := Turns(disposals[d].pending[1..])];
      log := log + [Turned(d, id, handler, before, succeeds)];
      rejected, more := false, entries + [EntryOf(ClassOf(handler), result)];
    }

    /** dispose after its last turn. */
    method EndDispose(ghost d: nat, entries: seq<E.Entry>) returns (report: E.Report)
      requires Valid() && R.Through(Registry(), d) && entries == EntriesOf(log, d)
      modifies this, lifecycle
      ensures Valid()
      ensures Registry() == R.Step(old(Registry()), R.End(d)) && effects == [] && disposed
      ensures report == E.BuildUnwindReport(EntriesOf(log, d)) && log == old(log)
      ensures Runtime() == Q.Step(old(Runtime()), Q.DisposeEnd(report.quarantined))
    {
      EndIs(Registry(), d);
      hide R.Sound, R.Step, Q.Step, EntriesOf, E.BuildUnwindReport;
      effects, disposed, disposals := [], true, disposals - {d};
      report := E.BuildUnwindReport(entries);
      MoveOn(report.quarantined);
    }

    /**
      dispose without children, when nothing else runs while it awaits: every registered handler is
      disposed once, the one registered last first, and the report is quarantined iff something of an
      effect is left. A dispose after the end of another does nothing.
     */
    method Dispose(fate: nat -> bool) returns (report: E.Report)
      requires Valid()
      modifies this, lifecycle, set i | 0 <= i < |effects| :: ObjectOf(effects[i].handler)
      ensures Valid() && disposed
      ensures old(disposed) ==> report == E.Report([], true, false) && Runtime() == old(Runtime()) && Registry() == old(Registry())
      ensures old(disposed) ==> States(old(effects)) == old(States(effects))
      ensures !old(disposed) ==>
        var before := old(States(effects));
        && effects == []
        && report == E.BuildUnwindReport(Unwinding(before, fate))
        && (forall i :: 0 <= i < |before| ==> States(old(effects))[i] == E.Step(before[i], E.Dispose, fate(i)).handler)
        && Runtime() == Q.Step(Q.Step(old(Runtime()), Q.DisposeStart), Q.DisposeEnd(report.quarantined))
    {
      hide Q.Step, E.Step, R.Step, R.Sound, Unwinding, States, StateOf, ReversedIds, E.BuildUnwindReport;
      ghost var before, registered := States(effects), effects;
      StatesAt(effects);
      ghost var d;
      var done;
      done, d := CallDispose();
      if done {
        return E.Report([], true, false);
      }
      report := Unwind(d, before, fate);
      StatesAt(registered);
    }

    /** The effects of an undisturbed disposal. */
    method Unwind(ghost d: nat, ghost before: seq<E.Handler>, fate: nat -> bool) returns (report: E.Report)
      requires Valid() && R.Waiting(Registry(), d)
      requires |before| == |effects| && forall i :: 0 <= i < |effects| ==> StateOf(effects[i].handler) == before[i]
      modifies this, lifecycle, set i | 0 <= i < |effects| :: ObjectOf(effects[i].handler)
      ensures Valid() && disposed && effects == []
      ensures report == E.BuildUnwindReport(Unwinding(before, fate))
      ensures forall i :: 0 <= i < |before| ==> StateOf(old(effects)[i].handler) == E.Step(before[i], E.Dispose, fate(i)).handler
      ensures Runtime() == Q.Step(old(Runtime()), Q.DisposeEnd(report.quarantined))
    {
      hide Q.Step, E.Step, R.Step, R.Sound, Unwinding, StateOf, ReversedIds, EntriesOf, E.BuildUnwindReport;
      var ids := SnapshotEffects(d);
      var entries := TakeTurns(d, ids, before, fate);
      report := EndDispose(d, entries);
    }

    /** Leaves active or draining and signals the operations. */
    method StartDispose()
      modifies this, lifecycle
      ensures Runtime() == Q.Step(old(Runtime()), Q.DisposeStart)
      ensures Registry() == old(Registry())
    {
      if lifecycle.phase == Active {
        var _ := lifecycle.TransitionTo(Draining);
      }
      if lifecycle.phase == Draining {
        var _ := lifecycle.TransitionTo(Unloading);
      }
      CancelAllOperations();
    }

    method MoveOn(quarantined: bool)
      modifies lifecycle
      ensures Runtime() == Q.Step(old(Runtime()), Q.DisposeEnd(quarantined))
    {
      if quarantined {
        var _ := lifecycle.TransitionTo(Quarantined);
      } else {
        var _ := lifecycle.TransitionTo(Phase.Disposed);
      }
    }

    /** The turn of an id that is still registered, at i. */
    method TakeTurnAt(ghost d: nat, id: Id, ghost i: nat, entries: seq<E.Entry>, succeeds: bool) returns (more: seq<E.Entry>)
      requires Valid() && R.Turning(Registry(), d) && !R.Through(Registry(), d) && disposals[d].pending[0] == id
      requires i < |effects| && effects[i].id == id && entries == EntriesOf(log, d)
      modifies this`disposals, this`log, ObjectOf(effects[i].handler)
      ensures Valid() && R.Turning(Registry(), d) && disposals[d].pending == old(disposals[d].pending)[1..]
      ensures more == EntriesOf(log, d)
      ensures more == entries
        + [EntryOf(E.ClassOf(old(StateOf(effects[i].handler))), E.Step(old(StateOf(effects[i].handler)), E.Dispose, succeeds).result)]
      ensures StateOf(effects[i].handler) == E.Step(old(StateOf(effects[i].handler)), E.Dispose, succeeds).handler
      ensures forall j :: 0 <= j < |effects| && j != i ==> StateOf(effects[j].handler) == old(StateOf(effects[j].handler))
    {
      SoundIds(Registry());
      RegisteredAt(effects, i);
      ApartFrom(effects, this, lifecycle, i);
      hide E.Step, R.Step, StateOf, R.Sound, EntriesOf, Lookup, Apart;
      var rejected;
      rejected, more := TakeTurn(d, id, entries, succeeds);
    }

    /** The loop over the snapshot, undisturbed. */
    method TakeTurns(ghost d: nat, ids: seq<Id>, ghost before: seq<E.Handler>, fate: nat -> bool) returns (entries: seq<E.Entry>)
      requires Valid() && R.Turning(Registry(), d) && disposals[d].pending == ids == ReversedIds(effects)
      requires EntriesOf(log, d) == []
      requires |before| == |effects| && forall i :: 0 <= i < |effects| ==> StateOf(effects[i].handler) == before[i]
      modifies this`disposals, this`log, set i | 0 <= i < |effects| :: ObjectOf(effects[i].handler)
      ensures Valid() && R.Through(Registry(), d)
      ensures entries == Unwinding(before, fate) == EntriesOf(log, d)
      ensures forall i :: 0 <= i < |before| ==> StateOf(effects[i].handler) == E.Step(before[i], E.Dispose, fate(i)).handler
    {
      hide E.Step, E.Counted, R.Sound, Unwinding, Lookup, SetEffect, ReversedIds, StateOf, EntriesOf;
      ReversedIdsAre(effects);
      entries := [];
      var i := |effects|;
      assert before[..i] == before && ids[0..] == ids;
      NothingUnwinds(fate);
      while i > 0
        invariant 0 <= i <= |effects| && Valid()
        invariant R.Turning(Registry(), d) && disposals[d].pending == ids[|ids| - i..] && entries == EntriesOf(log, d)
        invariant entries + Unwinding(before[..i], fate) == Unwinding(before, fate)
        invariant forall j :: i <= j < |effects| ==> StateOf(effects[j].handler) == E.Step(before[j], E.Dispose, fate(j)).handler
        invariant forall j :: 0 <= j < i ==> StateOf(effects[j].handler) == before[j]
      {
        i := i - 1;
        UnwindStep(entries, before, i, fate);
        entries := TakeTurnAt(d, ids[|ids| - 1 - i], i, entries, fate(i));
      }
    }
  }

  /** A snapshot, field by field. */
  lemma SnapshotIs(s: R.State<HandlerRef>, d: nat)
    requires R.Sound(s) && R.Waiting(s, d)
    ensures R.Step(s, R.Snapshot(d)) == R.State(s.effects, s.disposed, s.running[d := Turns(ReversedIds(s.effects))], s.calls, s.log)
    ensures R.Sound(R.Step(s, R.Snapshot(d))) && EntriesOf(s.log, d) == []
  {
    StepSound(s, R.Snapshot(d));
    NoEntriesYet(s, d);
    hide R.Sound, EntriesOf, ReversedIds;
  }

  /** A turn that finds a handler, field by field. */
  lemma TurnWith(s: R.State<HandlerRef>, d: nat, before: E.Handler, succeeds: bool)
    requires R.Sound(s) && R.Turning(s, d) && !R.Through(s, d)
    requires Lookup(s.effects, s.running[d].pending[0]).Some?
    ensures var id := s.running[d].pending[0];
      var turned := Turned(d, id, Lookup(s.effects, id).value, before, succeeds);
      && R.Step(s, R.Turn(d, before, succeeds))
         == R.State(s.effects, s.disposed, s.running[d := Turns(s.running[d].pending[1..])], s.calls, s.log + [turned])
      && R.Sound(R.Step(s, R.Turn(d, before, succeeds)))
      && EntriesOf(s.log + [turned], d) == EntriesOf(s.log, d) + [EntryOf(E.ClassOf(before), E.Step(before, E.Dispose, succeeds).result)]
  {
    StepSound(s, R.Turn(d, before, succeeds));
    hide R.Sound, Lookup, EntriesOf, E.Step;
    EntriesOfSnoc(s.log, Turned(d, s.running[d].pending[0], Lookup(s.effects, s.running[d].pending[0]).value, before, succeeds), d);
  }

  lemma EndIs(s: R.State<HandlerRef>, d: nat)
    requires R.Sound(s) && R.Through(s, d)
    ensures R.Step(s, R.End(d)) == R.State([], true, s.running - {d}, s.calls, s.log) && R.Sound(R.Step(s, R.End(d)))
  {
    StepSound(s, R.End(d));
    hide R.Sound;
  }

  /** A turn that finds none ends the disposal. */
  lemma TurnWithout(s: R.State<HandlerRef>, d: nat, succeeds: bool)
    requires R.Sound(s) && R.Turning(s, d) && !R.Through(s, d)
    requires Lookup(s.effects, s.running[d].pending[0]).None?
    ensures forall before :: R.Step(s, R.Turn(d, before, succeeds)) == R.State(s.effects, s.disposed, s.running - {d}, s.calls, s.log)
    ensures R.Sound(R.State(s.effects, s.disposed, s.running - {d}, s.calls, s.log))
  {
    StepSound(s, R.Turn(d, E.RevertibleHandler(false, 0), succeeds));
    hide R.Sound, Lookup;
  }

  lemma SoundIds(s: R.State<HandlerRef>)
    requires R.Sound(s)
    ensures DistinctEffectIds(s.effects)
  {
  }

  lemma RegisteredAt(effects: seq<Registered<HandlerRef>>, i: nat)
    requires DistinctEffectIds(effects) && i < |effects|
    ensures Lookup(effects, effects[i].id) == Some(effects[i].handler)
    ensures forall j :: 0 <= j < |effects| && j != i ==> effects[j].id != effects[i].id
  {
    LookupIn(effects, effects[i].id);
  }

  lemma NothingUnwinds(fate: nat -> bool)
    ensures Unwinding([], fate) == []
  {
  }

  lemma UnwindStep(entries: seq<E.Entry>, before: seq<E.Handler>, i: nat, fate: nat -> bool)
    requires i < |before|
    ensures entries + Unwinding(before[..i + 1], fate)
         == entries + [EntryOf(E.ClassOf(before[i]), E.Step(before[i], E.Dispose, fate(i)).result)] + Unwinding(before[..i], fate)
  {
    hide E.Step;
    assert before[..i + 1][..i] == before[..i];
  }

  lemma NoneLeft(operations: map<Q.Id, Q.Token>)
    ensures |operations| == 0 <==> operations == map[]
  {
    if |operations| == 0 {
      assert operations.Keys == {};
    }
  }
}
