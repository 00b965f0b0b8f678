/**
  run, drain, cancelAllOperations and dispose of src/component-runtime/fiber.ts as a state
  machine: one event for each stretch between two points where other code of the fiber's users
  can run. run calls execute before it records the operation, so what execute does before its own
  first await comes between Admit and Register.
 */
module Quiescence {
  import opened Lifecycle

  type Id = string

  /** Names one execution of an operation. */
  type Token = nat

  /** An execution that has been let in and is not recorded yet. */
  datatype Start = Start(token: Token, id: Id)

  /**
    operations is the fiber's map from ids to running operations. starting is the stack of calls of
    execute that have not returned. inflight are the recorded executions whose promise is pending,
    settled those whose run has still to delete its id.
   */
  datatype Runtime = Runtime(
    phase: Phase,
    operations: map<Id, Token>,
    starting: seq<Start>,
    inflight: map<Token, Id>,
    settled: map<Token, Id>,
    cancelled: set<Token>,
    polling: nat,
    next: Token)

  datatype Event =
    | Admit(id: Id)
    | Register
    | Throw
    | Settle(token: Token)
    | Finish(token: Token)
    | DrainStart
    | Poll
    | GiveUp
    | Cancel
    | DisposeStart
    | DisposeEnd(quarantined: bool)
    | TransitionTo(target: Phase)

  function Initial(phase: Phase): Runtime {
    Runtime(phase, map[], [], map[], map[], {}, 0, 0)
  }

  /** cancelAllOperations signals the running operations; it removes none. */
  function CancelAll(s: Runtime): Runtime {
    if !IsDraining(s.phase) && s.phase != Active then s
    else s.(cancelled := s.cancelled + s.operations.Values)
  }

  function StartDispose(s: Runtime): Runtime {
    var p1 := if s.phase == Active then Attempt(Active, Draining) else s.phase;
    var p2 := if p1 == Draining then Attempt(Draining, Unloading) else p1;
    CancelAll(s.(phase := p2))
  }

  /** Finish and Poll continue after an await, so never while an execute has still to return. */
  function Step(s: Runtime, e: Event): Runtime {
    match e
    case Admit(id) =>
      if !CanAcceptNewCalls(s.phase) then s
      else s.(starting := s.starting + [Start(s.next, id)], next := s.next + 1)
    case Register =>
      if s.starting == [] then s
      else
        var top := s.starting[|s.starting| - 1];
        s.(starting := s.starting[..|s.starting| - 1],
           operations := s.operations[top.id := top.token], inflight := s.inflight[top.token := top.id])
    case Throw => if s.starting == [] then s else s.(starting := s.starting[..|s.starting| - 1])
    case Settle(t) =>
      if t !in s.inflight then s
      else s.(inflight := s.inflight - {t}, settled := s.settled[t := s.inflight[t]])
    case Finish(t) =>
      if s.starting != [] || t !in s.settled then s
      else s.(settled := s.settled - {t}, operations := s.operations - {s.settled[t]})
    case DrainStart =>
      if !Transition(s.phase, Draining).Moved? then s
      else s.(phase := Draining, polling := s.polling + (if s.operations == map[] then 0 else 1))
    case Poll => if s.starting == [] && s.polling > 0 && s.operations == map[] then s.(polling := s.polling - 1) else s
    case GiveUp => if s.polling > 0 then s.(polling := s.polling - 1) else s
    case Cancel => CancelAll(s)
    case DisposeStart => StartDispose(s)
    case DisposeEnd(quarantined) => s.(phase := Attempt(s.phase, if quarantined then Quarantined else Phase.Disposed))
    case TransitionTo(target) => s.(phase := Attempt(s.phase, target))
  }

  /** This event is a drain returning drained: at its start, or when it polls. */
  predicate ReportsDrained(s: Runtime, e: Event) {
    s.operations == map[] && (e == DrainStart || (e == Poll && s.polling > 0 && s.starting == []))
  }

  function After(s: Runtime, events: seq<Event>): Runtime
    decreases events
  {
    if events == [] then s else After(Step(s, events[0]), events[1..])
  }

  /** The event records no operation under an id that is taken. */
  predicate KeepsIdsDistinct(s: Runtime, e: Event) {
    e == Register && s.starting != [] ==> s.starting[|s.starting| - 1].id !in s.operations
  }

  /** No two operations run under one id at the same time. */
  predicate DistinctIds(s: Runtime, events: seq<Event>)
    decreases events
  {
    events != [] ==> KeepsIdsDistinct(s, events[0]) && DistinctIds(Step(s, events[0]), events[1..])
  }

  /** No execute makes its own fiber leave active before it has returned. */
  predicate Undisturbed(s: Runtime, events: seq<Event>)
    decreases events
  {
    events != [] ==>
      && (s.starting != [] && s.phase == Active ==> Step(s, events[0]).phase == Active)
      && Undisturbed(Step(s, events[0]), events[1..])
  }

  lemma {:induction false} AfterConcat(s: Runtime, a: seq<Event>, b: seq<Event>)
    ensures After(s, a + b) == After(After(s, a), b)
    ensures DistinctIds(s, a + b) <==> DistinctIds(s, a) && DistinctIds(After(s, a), b)
    ensures Undisturbed(s, a + b) <==> Undisturbed(s, a) && Undisturbed(After(s, a), b)
    decreases a
  {
    hide Step, KeepsIdsDistinct;
    if a == [] {
      assert a + b == b;
    } else {
      assert (a + b)[0] == a[0] && (a + b)[1..] == a[1..] + b;
      AfterConcat(Step(s, a[0]), a[1..], b);
    }
  }

  lemma AfterOne(s: Runtime, e: Event)
    ensures After(s, [e]) == Step(s, e)
  {
    hide Step;
    assert [e][0] == e && [e][1..] == [];
    assert After(Step(s, e), []) == Step(s, e);
  }

  // ---------------------------------------------------------------------------
  // What every step keeps
  // ---------------------------------------------------------------------------

  /** The execution t runs under id. */
  predicate RunsAs(s: Runtime, id: Id, t: Token) {
    (t in s.inflight && s.inflight[t] == id) || (t in s.settled && s.settled[t] == id)
  }

  /** Ids map to exactly the executions that have not been deleted yet. */
  ghost predicate Recorded(s: Runtime) {
    && (forall t :: t in s.inflight ==> t < s.next && s.inflight[t] in s.operations && s.operations[s.inflight[t]] == t)
    && (forall t :: t in s.settled ==> t < s.next && s.settled[t] in s.operations && s.operations[s.settled[t]] == t)
    && (forall t :: t in s.settled ==> t !in s.inflight)
    && (forall id :: id in s.operations ==> RunsAs(s, id, s.operations[id]))
  }

  /** Each execution that has still to be recorded has a token of its own, and nothing starts before active. */
  ghost predicate Starts(s: Runtime) {
    && (forall i :: 0 <= i < |s.starting| ==>
          s.starting[i].token < s.next && s.starting[i].token !in s.inflight && s.starting[i].token !in s.settled)
    && (forall i, j :: 0 <= i < j < |s.starting| ==> s.starting[i].token != s.starting[j].token)
    && (s.starting != [] ==> Rank(s.phase) >= Rank(Active))
  }

  /** Besides, drains poll past active only. */
  ghost predicate Tracked(s: Runtime) {
    Recorded(s) && Starts(s) && (s.polling > 0 ==> PastActive(s.phase))
  }

  lemma RegisterRecords(s: Runtime)
    requires Recorded(s) && Starts(s) && KeepsIdsDistinct(s, Register)
    ensures Recorded(Step(s, Register))
  {
  }

  lemma SettleRecords(s: Runtime, t: Token)
    requires Recorded(s)
    ensures Recorded(Step(s, Settle(t)))
  {
  }

  lemma FinishRecords(s: Runtime, t: Token)
    requires Recorded(s)
    ensures Recorded(Step(s, Finish(t)))
  {
  }

  lemma SameRecords(s: Runtime, r: Runtime)
    requires Recorded(s) && s.next <= r.next
    requires r.operations == s.operations && r.inflight == s.inflight && r.settled == s.settled
    ensures Recorded(r)
  {
  }

  lemma StepRecords(s: Runtime, e: Event)
    requires Recorded(s) && Starts(s) && KeepsIdsDistinct(s, e)
    ensures Recorded(Step(s, e))
  {
    hide Recorded, Starts, Attempt, Transition;
    match e {
      case Register => RegisterRecords(s);
      case Settle(t) => SettleRecords(s, t);
      case Finish(t) => FinishRecords(s, t);
      case _ => SameRecords(s, Step(s, e));
    }
  }

  /** Starts when the executions that have still to be recorded are those of s, or fewer. */
  lemma FewerStarts(s: Runtime, r: Runtime)
    requires Starts(s) && r.starting <= s.starting && s.next <= r.next && Rank(s.phase) <= Rank(r.phase)
    requires forall t :: t in r.inflight || t in r.settled ==>
      t in s.inflight || t in s.settled || (|r.starting| < |s.starting| && t == s.starting[|r.starting|].token)
    ensures Starts(r)
  {
    assert forall i :: 0 <= i < |r.starting| ==> r.starting[i] == s.starting[i];
  }

  lemma AdmitStarts(s: Runtime, id: Id)
    requires Recorded(s) && Starts(s)
    ensures Starts(Step(s, Admit(id)))
  {
    hide RunsAs;
  }

  lemma RankRises(s: Runtime, e: Event)
    ensures Rank(s.phase) <= Rank(Step(s, e).phase)
  {
  }

  lemma StepStarts(s: Runtime, e: Event)
    requires Recorded(s) && Starts(s)
    ensures Starts(Step(s, e))
  {
    RankRises(s, e);
    if e.Admit? {
      AdmitStarts(s, e.id);
    } else {
      hide Recorded, Starts, Rank, Attempt, Transition;
      FewerStarts(s, Step(s, e));
    }
  }

  lemma StepTracks(s: Runtime, e: Event)
    requires Tracked(s) && KeepsIdsDistinct(s, e)
    ensures Tracked(Step(s, e))
  {
    StepRecords(s, e);
    StepStarts(s, e);
    hide Recorded, Starts;
  }

  lemma {:induction false} AlwaysTracked(s: Runtime, events: seq<Event>)
    requires Tracked(s) && DistinctIds(s, events)
    ensures Tracked(After(s, events))
    decreases events
  {
    hide Step, Tracked, KeepsIdsDistinct;
    if events != [] {
      StepTracks(s, events[0]);
      AlwaysTracked(Step(s, events[0]), events[1..]);
    }
  }

  lemma NothingRuns(s: Runtime)
    requires Tracked(s) && s.operations == map[]
    ensures s.inflight == map[]
  {
    assert forall t :: t !in s.inflight;
  }

  // ---------------------------------------------------------------------------
  // Past active
  // ---------------------------------------------------------------------------

  lemma StepAddsNothing(s: Runtime, e: Event)
    requires PastActive(s.phase) && s.starting == []
    ensures PastActive(Step(s, e).phase) && Step(s, e).starting == []
    ensures Step(s, e).operations.Keys <= s.operations.Keys && Step(s, e).inflight.Keys <= s.inflight.Keys
  {
  }

  /** Once a fiber has left active and every execute has returned, it accepts no call and no operation is ever added. */
  lemma {:induction false} NothingAddedPastActive(s: Runtime, events: seq<Event>)
    requires PastActive(s.phase) && s.starting == []
    ensures PastActive(After(s, events).phase)
    ensures After(s, events).operations.Keys <= s.operations.Keys
    ensures After(s, events).inflight.Keys <= s.inflight.Keys
    decreases events
  {
    hide Step;
    if events != [] {
      StepAddsNothing(s, events[0]);
      NothingAddedPastActive(Step(s, events[0]), events[1..]);
    }
  }

  /** An execute that has still to return adds its operation when it does, whatever the phase is by then. */
  lemma RegisterAdds(s: Runtime)
    requires Tracked(s) && s.starting != []
    ensures !(After(s, [Register]).inflight.Keys <= s.inflight.Keys) && After(s, [Register]).inflight != map[]
  {
    AfterOne(s, Register);
    var token := s.starting[|s.starting| - 1].token;
    assert token in Step(s, Register).inflight.Keys && token !in s.inflight.Keys;
  }

  /** In every state past active that can be reached: no operation will be added iff no execute has still to return. */
  lemma NothingAddedIff(phase: Phase, before: seq<Event>)
    requires DistinctIds(Initial(phase), before) && PastActive(After(Initial(phase), before).phase)
    ensures var s := After(Initial(phase), before);
      (forall events {:trigger After(s, events)} :: After(s, events).inflight.Keys <= s.inflight.Keys) <==> s.starting == []
  {
    var s := After(Initial(phase), before);
    AlwaysTracked(Initial(phase), before);
    hide Step, Tracked;
    if s.starting == [] {
      forall events ensures After(s, events).inflight.Keys <= s.inflight.Keys {
        NothingAddedPastActive(s, events);
      }
    } else {
      RegisterAdds(s);
    }
  }

  /** While no execute disturbs its own fiber, an execute has still to return in active only. */
  lemma {:induction false} UndisturbedStarts(s: Runtime, events: seq<Event>)
    requires Undisturbed(s, events) && (s.starting != [] ==> s.phase == Active)
    ensures After(s, events).starting != [] ==> After(s, events).phase == Active
    decreases events
  {
    if events != [] {
      UndisturbedStarts(Step(s, events[0]), events[1..]);
    }
  }

  /** So in a run where none does, leaving active is enough. */
  lemma UndisturbedAddsNothing(phase: Phase, before: seq<Event>, after: seq<Event>)
    requires Undisturbed(Initial(phase), before) && PastActive(After(Initial(phase), before).phase)
    ensures After(Initial(phase), before + after).operations.Keys <= After(Initial(phase), before).operations.Keys
    ensures After(Initial(phase), before + after).inflight.Keys <= After(Initial(phase), before).inflight.Keys
  {
    UndisturbedStarts(Initial(phase), before);
    AfterConcat(Initial(phase), before, after);
    NothingAddedPastActive(After(Initial(phase), before), after);
  }

  // ---------------------------------------------------------------------------
  // What a drained report promises
  // ---------------------------------------------------------------------------

  lemma DrainLeavesActive(s: Runtime, e: Event)
    requires Tracked(s) && ReportsDrained(s, e)
    ensures Step(s, e).inflight == s.inflight && Step(s, e).starting == s.starting
    ensures Rank(s.phase) >= Rank(Active) ==> PastActive(Step(s, e).phase)
    ensures Rank(s.phase) < Rank(Active) ==> Step(s, e) == s && s.starting == []
  {
  }

  /** From any phase before active, three transitions and a run. */
  function ClimbAndRun(id: Id): seq<Event> {
    [TransitionTo(Waiting), TransitionTo(Loading), TransitionTo(Active), Admit(id), Register]
  }

  lemma ClimbedRuns(s: Runtime, id: Id)
    requires Rank(s.phase) < Rank(Active) && s.starting == []
    ensures After(s, ClimbAndRun(id)).inflight != map[]
  {
    hide After;
    var s1 := Step(s, TransitionTo(Waiting));
    var s2 := Step(s1, TransitionTo(Loading));
    var s3 := Step(s2, TransitionTo(Active));
    assert s3.phase == Active;
    var s4 := Step(s3, Admit(id));
    assert s.next in Step(s4, Register).inflight;
    AfterFive(s, TransitionTo(Waiting), TransitionTo(Loading), TransitionTo(Active), Admit(id), Register);
  }

  lemma AfterFive(s: Runtime, a: Event, b: Event, c: Event, d: Event, e: Event)
    ensures After(s, [a, b, c, d, e]) == Step(Step(Step(Step(Step(s, a), b), c), d), e)
  {
    hide Step;
    assert [a, b, c, d, e] == [a] + ([b] + ([c] + ([d] + [e])));
    AfterConcat(s, [a], [b] + ([c] + ([d] + [e])));
    AfterOne(s, a);
    var s1 := Step(s, a);
    AfterConcat(s1, [b], [c] + ([d] + [e]));
    AfterOne(s1, b);
    var s2 := Step(s1, b);
    AfterConcat(s2, [c], [d] + [e]);
    AfterOne(s2, c);
    var s3 := Step(s2, c);
    AfterConcat(s3, [d], [e]);
    AfterOne(s3, d);
    AfterOne(Step(s3, d), e);
  }

  /**
    In every run with distinct ids: a report of drained stays true, whatever follows, iff the fiber
    was active or later when it was made and no execute had still to return.
   */
  lemma DrainedForeverIff(phase: Phase, before: seq<Event>, e: Event)
    requires DistinctIds(Initial(phase), before) && ReportsDrained(After(Initial(phase), before), e)
    ensures var s := After(Initial(phase), before);
      (forall after {:trigger After(Step(s, e), after)} :: After(Step(s, e), after).inflight == map[])
      <==> Rank(s.phase) >= Rank(Active) && s.starting == []
  {
    var s := After(Initial(phase), before);
    AlwaysTracked(Initial(phase), before);
    var t := Step(s, e);
    NothingRuns(s);
    DrainLeavesActive(s, e);
    if Rank(s.phase) >= Rank(Active) {
      if s.starting == [] {
        forall after ensures After(t, after).inflight == map[] {
          NothingAddedPastActive(t, after);
        }
      } else {
        DrainTracked(s, e);
        RegisterAdds(t);
      }
    } else {
      ClimbedRuns(t, "");
    }
  }

  lemma DrainTracked(s: Runtime, e: Event)
    requires Tracked(s) && ReportsDrained(s, e)
    ensures Tracked(Step(s, e))
  {
    StepTracks(s, e);
  }

  /** The drain was called when the fiber was active or later. */
  predicate CalledInOrPastActive(s: Runtime, e: Event) {
    e == DrainStart ==> Rank(s.phase) >= Rank(Active)
  }

  /** Where no execute disturbs its own fiber, a report of drained by a drain called in or past active stays true. */
  lemma DrainedStaysDrained(phase: Phase, before: seq<Event>, e: Event, after: seq<Event>)
    requires DistinctIds(Initial(phase), before) && Undisturbed(Initial(phase), before + [e])
    requires ReportsDrained(After(Initial(phase), before), e) && CalledInOrPastActive(After(Initial(phase), before), e)
    ensures After(Initial(phase), before + [e] + after).inflight == map[]
  {
    var s := After(Initial(phase), before);
    AlwaysTracked(Initial(phase), before);
    AfterConcat(Initial(phase), before + [e], after);
    AfterConcat(Initial(phase), before, [e]);
    AfterOne(s, e);
    UndisturbedStarts(Initial(phase), before + [e]);
    DrainLeavesActive(s, e);
    DrainedForeverIff(phase, before, e);
    hide Step, After, Tracked, ReportsDrained;
    assert After(Step(s, e), after).inflight == map[];
  }

  // ---------------------------------------------------------------------------
  // Operations under one id
  // ---------------------------------------------------------------------------

  /** run of an operation whose execute does nothing to the fiber. */
  function RunPlainly(s: Runtime, id: Id): Runtime {
    Step(Step(s, Admit(id)), Register)
  }

  /** After these events a drain reports drained while the execution is in flight. */
  predicate FalselyDrained(s: Runtime, events: seq<Event>, e: Event, token: Token) {
    DistinctIds(s, events) && ReportsDrained(After(s, events), e) && token in After(s, events).inflight
  }

  /** Every id has an execution other than keep to delete it. */
  ghost predicate Clearable(s: Runtime, keep: Token) {
    && s.starting == [] && keep in s.inflight
    && (forall t :: t in s.settled ==> t !in s.inflight)
    && (forall id :: id in s.operations ==> exists t :: t != keep && RunsAs(s, id, t))
  }

  /** The end of one execution: it settles, unless it has, and its run deletes the id. */
  function Ending(s: Runtime, t: Token): seq<Event> {
    if t in s.inflight then [Settle(t), Finish(t)] else [Finish(t)]
  }

  lemma EndingDeletes(s: Runtime, id: Id, t: Token)
    requires s.starting == [] && RunsAs(s, id, t) && (t in s.settled ==> t !in s.inflight)
    ensures var r := After(s, Ending(s, t));
      && r == s.(operations := s.operations - {id}, inflight := s.inflight - {t}, settled := s.settled - {t})
      && DistinctIds(s, Ending(s, t))
  {
    var v := Step(s, Settle(t));
    AfterOne(s, Finish(t));
    AfterOne(v, Finish(t));
    AfterOne(s, Settle(t));
    AfterConcat(s, [Settle(t)], [Finish(t)]);
    assert [Settle(t), Finish(t)] == [Settle(t)] + [Finish(t)];
    if t in s.inflight {
      assert Step(v, Finish(t)).settled == s.settled - {t};
    } else {
      assert s.inflight - {t} == s.inflight;
    }
  }

  lemma EndingStaysClearable(s: Runtime, keep: Token, id: Id, t: Token)
    requires Clearable(s, keep) && t != keep && RunsAs(s, id, t)
    ensures Clearable(s.(operations := s.operations - {id}, inflight := s.inflight - {t}, settled := s.settled - {t}), keep)
  {
    var r := s.(operations := s.operations - {id}, inflight := s.inflight - {t}, settled := s.settled - {t});
    forall x | x in r.operations ensures exists u :: u != keep && RunsAs(r, x, u) {
      var u :| u != keep && RunsAs(s, x, u);
      assert RunsAs(r, x, u);
    }
  }

  /** Everything recorded can end, one execution per id, while keep goes on. */
  lemma {:induction false} ClearOut(s: Runtime, keep: Token) returns (events: seq<Event>)
    requires Clearable(s, keep)
    ensures DistinctIds(s, events)
    ensures After(s, events).operations == map[] && keep in After(s, events).inflight
    decreases |s.operations|
  {
    if s.operations == map[] {
      events := [];
    } else {
      var id :| id in s.operations;
      var t :| t != keep && RunsAs(s, id, t);
      EndingDeletes(s, id, t);
      EndingStaysClearable(s, keep, id, t);
      hide Clearable, Step, Ending, RunsAs;
      var r := After(s, Ending(s, t));
      assert r.operations.Keys == s.operations.Keys - {id};
      assert |r.operations.Keys| < |s.operations.Keys|;
      var rest := ClearOut(r, keep);
      events := Ending(s, t) + rest;
      AfterConcat(s, Ending(s, t), rest);
    }
  }

  lemma RunClearable(s: Runtime, id: Id)
    requires Tracked(s) && s.phase == Active && s.starting == [] && id in s.operations
    ensures Clearable(RunPlainly(s, id), s.next)
  {
    var u := RunPlainly(s, id);
    assert u.inflight == s.inflight[s.next := id] && u.settled == s.settled && u.operations == s.operations[id := s.next];
    forall x | x in u.operations ensures exists t :: t != s.next && RunsAs(u, x, t) {
      assert RunsAs(s, x, s.operations[x]);
      assert RunsAs(u, x, s.operations[x]);
    }
  }

  lemma RunTracks(s: Runtime, id: Id)
    requires Tracked(s) && s.phase == Active && s.starting == [] && id !in s.operations
    ensures Tracked(RunPlainly(s, id))
  {
    StepTracks(s, Admit(id));
    StepTracks(Step(s, Admit(id)), Register);
  }

  /**
    In every active state reached with distinct ids: running an operation can lead, with distinct
    ids from then on, to a drain that reports drained while it is in flight iff its id was taken.
   */
  lemma FalselyDrainedIffIdTaken(phase: Phase, before: seq<Event>, id: Id)
    requires DistinctIds(Initial(phase), before)
    requires After(Initial(phase), before).phase == Active && After(Initial(phase), before).starting == []
    ensures var s := After(Initial(phase), before);
      (exists events, e :: FalselyDrained(RunPlainly(s, id), events, e, s.next)) <==> id in s.operations
  {
    var s := After(Initial(phase), before);
    AlwaysTracked(Initial(phase), before);
    var u := RunPlainly(s, id);
    if id in s.operations {
      RunClearable(s, id);
      var events := ClearOut(u, s.next);
      assert FalselyDrained(u, events, DrainStart, s.next);
    } else {
      RunTracks(s, id);
      forall events, e | DistinctIds(u, events) && ReportsDrained(After(u, events), e)
        ensures s.next !in After(u, events).inflight
      {
        AlwaysTracked(u, events);
        NothingRuns(After(u, events));
      }
    }
  }
}
