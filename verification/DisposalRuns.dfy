/**
  Runs of the effects of a fiber: which registrations a disposal reaches, what its report is worth,
  and what calling dispose again while it runs can do.
 */
module DisposalRuns {
  import opened EffectRegistry
  import E = Effects

  // ---------------------------------------------------------------------------
  // Disposals that do not overlap
  // ---------------------------------------------------------------------------

  /** At most one disposal is running, and none once one has ended. */
  ghost predicate Single<H>(s: State<H>) {
    && (forall c, d :: c in s.running && d in s.running ==> c == d)
    && (s.disposed ==> s.running == map[])
  }

  /** dispose is not called while it is running. */
  predicate Alone<H>(s: State<H>, events: seq<Event<H>>)
    decreases |events|
  {
    events != [] ==>
      && (events[0] == Call ==> s.running == map[])
      && Alone(Step(s, events[0]), events[1..])
  }

  lemma {:induction false} AloneConcat<H>(s: State<H>, a: seq<Event<H>>, b: seq<Event<H>>)
    ensures Alone(s, a + b) <==> Alone(s, a) && Alone(After(s, a), b)
    decreases |a|
  {
    hide Step;
    if a == [] {
      assert a + b == b;
    } else {
      assert (a + b)[0] == a[0] && (a + b)[1..] == a[1..] + b;
      AloneConcat(Step(s, a[0]), a[1..], b);
    }
  }

  lemma StepSingle<H>(s: State<H>, e: Event<H>)
    requires Kept(s) && Single(s) && (e == Call ==> s.running == map[])
    ensures Single(Step(s, e))
  {
    hide SetEffect, ReversedIds, Lookup, DistinctEffectIds, NoRepeats;
  }

  /** The turn of an id is still to come: no disposal has ended, and none has made its snapshot without it or had its turn. */
  ghost predicate ToCome<H>(s: State<H>, id: Id) {
    !s.disposed && forall d :: Turning(s, d) ==> id in s.running[d].pending
  }

  /** Something is registered under id while its turn is still to come. */
  ghost predicate TakenLater<H>(s: State<H>, events: seq<Event<H>>, id: Id)
    decreases |events|
  {
    events != [] &&
    ((events[0].Register? && events[0].id == id && ToCome(s, id)) || TakenLater(Step(s, events[0]), events[1..], id))
  }

  lemma TurnForToCome<H>(s: State<H>, e: Event<H>, id: Id)
    requires Kept(s) && Single(s) && TurnFor(s, e, id)
    ensures ToCome(s, id) && !ToCome(Step(s, e), id)
  {
    hide Lookup, SetEffect, ReversedIds;
    var pending := s.running[e.d].pending;
    assert pending[0] == id && id in pending;
    assert Lookup<H>([], id) == None by { LookupNone<H>(id); }
    forall d | Turning(s, d) ensures d == e.d {
      assert d in s.running && e.d in s.running;
    }
    var t := Step(s, e);
    assert Turning(t, e.d) && t.running[e.d].pending == pending[1..];
    forall k | 0 <= k < |pending[1..]| ensures pending[1..][k] != id {
      assert pending[1..][k] == pending[k + 1];
    }
  }

  lemma LookupNone<H>(id: Id)
    ensures Lookup<H>([], id) == None
  {
  }

  /** A turn that has passed does not come again. */
  lemma ToComeBefore<H>(s: State<H>, e: Event<H>, id: Id)
    requires Kept(s) && Single(s) && (e == Call ==> s.running == map[]) && ToCome(Step(s, e), id)
    ensures ToCome(s, id)
  {
    hide Lookup, SetEffect, ReversedIds, DistinctEffectIds, NoRepeats;
    var t := Step(s, e);
    forall d | Turning(s, d) ensures id in s.running[d].pending {
      assert d in s.running;
      if d in t.running {
        assert Turning(t, d);
      }
    }
  }

  lemma ToComeAfter<H>(s: State<H>, e: Event<H>, id: Id)
    requires Kept(s) && Single(s) && (e == Call ==> s.running == map[])
    requires ToCome(s, id) && Lookup(s.effects, id).Some? && !TurnFor(s, e, id)
    ensures !(e.End? && Through(s, e.d)) && ToCome(Step(s, e), id)
  {
    hide Lookup, SetEffect, ReversedIds, DistinctEffectIds, NoRepeats;
    var t := Step(s, e);
    if e.Snapshot? {
      ReversedIdsOf(s.effects);
    }
    forall d | Turning(t, d) ensures id in t.running[d].pending {
      if Turning(s, d) && e.Turn? && e.d == d && !Through(s, d) {
        var pending := s.running[d].pending;
        var k :| 0 <= k < |pending| && pending[k] == id;
        assert k > 0;
        assert pending[1..][k - 1] == id;
      }
    }
  }

  lemma {:induction false} NotToCome<H>(s: State<H>, events: seq<Event<H>>, id: Id)
    requires Kept(s) && Single(s) && Alone(s, events) && !ToCome(s, id)
    ensures !ReachesTurn(s, events, id) && !TakenLater(s, events, id)
    decreases |events|
  {
    if events != [] {
      var e := events[0];
      StepKeeps(s, e);
      StepSingle(s, e);
      hide Step, Kept, Single, ToCome, TurnFor;
      if TurnFor(s, e, id) {
        TurnForToCome(s, e, id);
        assert false;
      } else {
        if ToCome(Step(s, e), id) {
          ToComeBefore(s, e, id);
        }
        NotToCome(Step(s, e), events[1..], id);
      }
    }
  }

  lemma TurnsRegisterNothing<H>(s: State<H>, e: Event<H>, id: Id)
    requires TurnFor(s, e, id)
    ensures !e.Register?
  {
  }

  /** Up to the end of a disposal that nothing overlaps, the condition can be read off the state and the registrations. */
  lemma {:induction false} ReachesIff<H>(s: State<H>, events: seq<Event<H>>, id: Id)
    requires Kept(s) && Single(s) && Alone(s, events) && Lookup(s.effects, id).Some?
    requires !s.disposed && After(s, events).disposed
    ensures ReachesTurn(s, events, id) <==> ToCome(s, id) && !TakenLater(s, events, id)
    decreases |events|
  {
    if !ToCome(s, id) {
      NotToCome(s, events, id);
    } else {
      var e, t := events[0], Step(s, events[0]);
      StepKeeps(s, e);
      StepSingle(s, e);
      StepLookup(s, e, id);
      assert After(s, events) == After(t, events[1..]);
      assert t.disposed ==> e.End? && Through(s, e.d);
      hide Step, Kept, Single, ToCome, TurnFor, Lookup, After, Through;
      if TurnFor(s, e, id) {
        TurnForToCome(s, e, id);
        NotToCome(t, events[1..], id);
        TurnsRegisterNothing(s, e, id);
      } else {
        ToComeAfter(s, e, id);
        if !(e.Register? && e.id == id) {
          ReachesIff(t, events[1..], id);
        }
      }
    }
  }

  // ---------------------------------------------------------------------------
  // Whole runs
  // ---------------------------------------------------------------------------

  /** The events register different handlers. */
  ghost predicate DistinctHandlers<H>(events: seq<Event<H>>) {
    forall i, j :: 0 <= i < j < |events| && events[i].Register? && events[j].Register? ==> events[i].handler != events[j].handler
  }

  /** Event k is a registration that is accepted. */
  ghost predicate Accepted<H>(events: seq<Event<H>>, k: int) {
    0 <= k < |events| && events[k].Register? && !After(Initial(), events[..k]).disposed
  }

  /** Its id has its turn still to come, and nothing else is registered under it before. */
  ghost predicate Comes<H>(events: seq<Event<H>>, k: int)
    requires Accepted(events, k)
  {
    var s := After(Initial(), events[..k + 1]);
    ToCome(s, events[k].id) && !TakenLater(s, events[k + 1..], events[k].id)
  }

  ghost predicate Complete<H>(events: seq<Event<H>>) {
    Alone(Initial(), events) && After(Initial(), events).disposed
  }

  lemma {:induction false} AlwaysSingle<H>(s: State<H>, events: seq<Event<H>>)
    requires Kept(s) && Single(s) && Alone(s, events)
    ensures Single(After(s, events))
    decreases |events|
  {
    hide Step, Kept, Single;
    if events != [] {
      StepKeeps(s, events[0]);
      StepSingle(s, events[0]);
      AlwaysSingle(Step(s, events[0]), events[1..]);
    }
  }

  /** h is neither registered nor has it had a turn. */
  ghost predicate Unknown<H>(s: State<H>, h: H) {
    Gone(s, h) && !HadTurn(s.log, h)
  }

  lemma {:induction false} StaysUnknown<H>(s: State<H>, events: seq<Event<H>>, h: H)
    requires Unknown(s, h) && NeverRegisters(events, h)
    ensures Unknown(After(s, events), h)
    decreases |events|
  {
    if events != [] {
      var e := events[0];
      StepTurn(s, e, h);
      forall x ensures Lookup(Step(s, e).effects, x) != Some(h) {
        StepLookup(s, e, x);
      }
      hide Step, HadTurn, Lookup, TurnFor;
      assert NeverRegisters(events[1..], h) by {
        assert forall i :: 0 <= i < |events[1..]| ==> events[1..][i] == events[i + 1];
      }
      StaysUnknown(Step(s, e), events[1..], h);
    }
  }

  /** Where an accepted registration leads to. */
  lemma AfterRegistration<H>(events: seq<Event<H>>, k: int)
    requires DistinctHandlers(events) && Accepted(events, k)
    ensures var s, h := After(Initial(), events[..k + 1]), events[k].handler;
      && Kept(s) && !s.disposed && Holds(s, events[k].id, h) && !HadTurn(s.log, h)
      && NeverRegisters(events[k + 1..], h)
      && After(s, events[k + 1..]) == After(Initial(), events)
      && (Alone(Initial(), events) ==> Single(s) && Alone(s, events[k + 1..]))
  {
    hide Step, Kept, Single, HadTurn, Lookup, SetEffect;
    var front, id, h := events[..k], events[k].id, events[k].handler;
    var r, s := After(Initial(), front), After(Initial(), events[..k + 1]);
    StartsKept<H>();
    AlwaysKept(Initial(), front);
    StartsUnknown(h);
    StaysUnknown(Initial(), front, h);
    assert events[..k + 1] == front + [events[k]];
    AfterConcat(Initial(), front, [events[k]]);
    AfterOne(r, events[k]);
    StepKeeps(r, events[k]);
    RegistrationHolds(r, id, h);
    assert events == events[..k + 1] + events[k + 1..];
    AfterConcat(Initial(), events[..k + 1], events[k + 1..]);
    AloneConcat(Initial(), events[..k + 1], events[k + 1..]);
    if Alone(Initial(), events) {
      StartsSingle<H>();
      AlwaysSingle(Initial(), events[..k + 1]);
    }
  }

  lemma StartsUnknown<H>(h: H)
    ensures Unknown(Initial(), h)
  {
  }

  lemma StartsSingle<H>()
    ensures Single(Initial<H>())
  {
  }

  lemma RegistrationHolds<H>(s: State<H>, id: Id, h: H)
    requires !s.disposed && Unknown(s, h)
    ensures var t := Step(s, Register(id, h)); !t.disposed && Holds(t, id, h) && !HadTurn(t.log, h)
  {
    hide HadTurn;
    forall x ensures Lookup(Step(s, Register(id, h)).effects, x) == if x == id then Some(h) else Lookup(s.effects, x) {
      StepLookup(s, Register(id, h), x);
    }
  }

  /**
    Of different handlers, in every run of one disposal to its end, one that was accepted is disposed
    iff the turn of its id was still to come and no later registration took the id before the turn.
   */
  lemma ForgottenIff<H>(events: seq<Event<H>>, k: int)
    requires DistinctHandlers(events) && Complete(events) && Accepted(events, k)
    ensures HadTurn(After(Initial(), events).log, events[k].handler) <==> Comes(events, k)
  {
    hide Step, Kept, Single, HadTurn, ToCome, TakenLater, ReachesTurn, Alone, NeverRegisters, DistinctHandlers, After, Lookup;
    AfterRegistration(events, k);
    var s := After(Initial(), events[..k + 1]);
    HadTurnIff(s, events[k + 1..], events[k].id, events[k].handler);
    ReachesIff(s, events[k + 1..], events[k].id);
  }

  /** With overlapping disposals it depends on what happens: a turn must come first. */
  lemma ForgottenAmongOverlapsIff<H>(events: seq<Event<H>>, k: int)
    requires DistinctHandlers(events) && Accepted(events, k)
    ensures HadTurn(After(Initial(), events).log, events[k].handler)
       <==> ReachesTurn(After(Initial(), events[..k + 1]), events[k + 1..], events[k].id)
  {
    hide Step, Kept, Single, HadTurn, ReachesTurn, Alone, NeverRegisters, DistinctHandlers, After, Lookup;
    AfterRegistration(events, k);
    HadTurnIff(After(Initial(), events[..k + 1]), events[k + 1..], events[k].id, events[k].handler);
  }

  // ---------------------------------------------------------------------------
  // Each handler once
  // ---------------------------------------------------------------------------

  /** h has been registered under id by an accepted registration. */
  ghost predicate CameBy<H>(events: seq<Event<H>>, id: Id, h: H) {
    exists k :: Accepted(events, k) && events[k].id == id && events[k].handler == h
  }

  lemma CameBySnoc<H>(front: seq<Event<H>>, e: Event<H>, id: Id, h: H)
    ensures CameBy(front, id, h) ==> CameBy(front + [e], id, h)
    ensures e == Register(id, h) && !After(Initial(), front).disposed ==> CameBy(front + [e], id, h)
  {
    hide After;
    var events := front + [e];
    if k :| Accepted(front, k) && front[k].id == id && front[k].handler == h {
      assert events[..k] == front[..k] && events[k] == front[k];
      assert Accepted(events, k);
    }
    if e == Register(id, h) && !After(Initial(), front).disposed {
      assert events[..|front|] == front;
      assert Accepted(events, |front|);
    }
  }

  /** Whatever is registered, or has had a turn, has come by an accepted registration under that id. */
  lemma {:induction false} Provenance<H>(events: seq<Event<H>>)
    ensures var s := After(Initial(), events);
      && (forall x, h :: Lookup(s.effects, x) == Some(h) ==> CameBy(events, x, h))
      && (forall i :: 0 <= i < |s.log| ==> CameBy(events, s.log[i].id, s.log[i].handler))
    decreases |events|
  {
    if events != [] {
      var n := |events| - 1;
      var front, e := events[..n], events[n];
      var r, s := After(Initial(), front), After(Initial(), events);
      Provenance(front);
      assert events == front + [e];
      AfterConcat(Initial(), front, [e]);
      AfterOne(r, e);
      forall id, h ensures (CameBy(front, id, h) ==> CameBy(events, id, h))
        && (e == Register(id, h) && !r.disposed ==> CameBy(events, id, h))
      {
        CameBySnoc(front, e, id, h);
      }
      forall x ensures Lookup(s.effects, x) ==
        if e.Register? && !r.disposed && e.id == x then Some(e.handler) else if e.End? && Through(r, e.d) then None else Lookup(r.effects, x)
      {
        StepLookup(r, e, x);
      }
      hide CameBy, After, SetEffect, ReversedIds, Lookup;
    }
  }

  /** No disposal takes an id twice. */
  ghost predicate OnceEach<H>(s: State<H>) {
    && (forall i, j :: 0 <= i < j < |s.log| && s.log[i].disposal == s.log[j].disposal ==> s.log[i].id != s.log[j].id)
    && (forall i :: 0 <= i < |s.log| && Turning(s, s.log[i].disposal) ==> s.log[i].id !in s.running[s.log[i].disposal].pending)
  }

  lemma StepOnceEach<H>(s: State<H>, e: Event<H>)
    requires Kept(s) && Logged(s) && OnceEach(s)
    ensures OnceEach(Step(s, e))
  {
    hide Lookup, SetEffect, ReversedIds, DistinctEffectIds;
  }

  lemma {:induction false} AlwaysOnceEach<H>(s: State<H>, events: seq<Event<H>>)
    requires Kept(s) && Logged(s) && OnceEach(s)
    ensures OnceEach(After(s, events))
    decreases |events|
  {
    hide Step, Kept, Logged, OnceEach;
    if events != [] {
      StepKeeps(s, events[0]);
      StepLogs(s, events[0]);
      StepOnceEach(s, events[0]);
      AlwaysOnceEach(Step(s, events[0]), events[1..]);
    }
  }

  /** Of different handlers, no disposal disposes one twice, overlapping or not. */
  lemma OncePerDisposal<H>(events: seq<Event<H>>, i: nat, j: nat)
    requires DistinctHandlers(events) && i < j < |After(Initial(), events).log|
    requires After(Initial(), events).log[i].disposal == After(Initial(), events).log[j].disposal
    ensures After(Initial(), events).log[i].handler != After(Initial(), events).log[j].handler
  {
    var log := After(Initial(), events).log;
    StartsKept<H>();
    AlwaysOnceEach(Initial(), events);
    Provenance(events);
    var k :| Accepted(events, k) && events[k].id == log[i].id && events[k].handler == log[i].handler;
    var l :| Accepted(events, l) && events[l].id == log[j].id && events[l].handler == log[j].handler;
    assert k != l;
  }

  lemma StepNumbers<H>(s: State<H>, e: Event<H>)
    requires Kept(s) && (e == Call ==> s.running == map[])
    requires s.calls == 0 || (s.calls == 1 && (s.disposed || 0 in s.running)) 
    requires forall i :: 0 <= i < |s.log| ==> s.log[i].disposal == 0
    ensures var t := Step(s, e);
      && (t.calls == 0 || (t.calls == 1 && (t.disposed || 0 in t.running)))
      && (forall i :: 0 <= i < |t.log| ==> t.log[i].disposal == 0)
  {
    hide SetEffect, ReversedIds, DistinctEffectIds, NoRepeats;
    if e.Turn? && Turning(s, e.d) && !Through(s, e.d) {
      assert s.running[e.d].pending[0] in s.running[e.d].pending;
    }
  }

  /** Without overlaps there is one disposal. */
  lemma {:induction false} OneDisposal<H>(s: State<H>, events: seq<Event<H>>)
    requires Kept(s) && Alone(s, events)
    requires s.calls == 0 || (s.calls == 1 && (s.disposed || 0 in s.running))
    requires forall i :: 0 <= i < |s.log| ==> s.log[i].disposal == 0
    ensures forall i :: 0 <= i < |After(s, events).log| ==> After(s, events).log[i].disposal == 0
    decreases |events|
  {
    hide Step, Kept;
    if events != [] {
      StepKeeps(s, events[0]);
      StepNumbers(s, events[0]);
      OneDisposal(Step(s, events[0]), events[1..]);
    }
  }

  // ---------------------------------------------------------------------------
  // What the report says
  // ---------------------------------------------------------------------------

  /** The turn has left nothing of the handler's effect. */
  ghost predicate LeftNothing<H>(t: Turned<H>) {
    E.NothingLeft(ReplyOf(t).handler)
  }

  lemma {:induction false} UncleanIff<H>(log: seq<Turned<H>>, d: nat)
    requires forall i :: 0 <= i < |log| ==> E.Counted(log[i].before)
    ensures AnyUnclean(EntriesOf(log, d)) <==> exists i :: 0 <= i < |log| && log[i].disposal == d && !LeftNothing(log[i])
  {
    if log != [] {
      var n := |log| - 1;
      var last := log[n];
      UncleanIff(log[..n], d);
      E.DisposeTellsTruth(last.before, last.succeeds);
      var tail := if last.disposal == d then [EntryOf(E.ClassOf(last.before), ReplyOf(last).result)] else [];
      AnyUncleanConcat(EntriesOf(log[..n], d), tail);
      hide E.Step, E.NothingLeft, E.Counted, E.Unclean;
      assert AnyUnclean(tail) <==> last.disposal == d && !LeftNothing(last) by {
        if last.disposal == d {
          assert tail[0].outcome == ReplyOf(last).result.outcome;
        }
      }
      forall i | 0 <= i < n ensures log[..n][i] == log[i] {
      }
    }
  }

  /** The handler has had a turn that left nothing of its effect. */
  ghost predicate Cleared<H>(log: seq<Turned<H>>, h: H) {
    exists i :: 0 <= i < |log| && log[i].handler == h && LeftNothing(log[i])
  }

  ghost predicate ReportsClean<H>(log: seq<Turned<H>>) {
    !E.BuildUnwindReport(EntriesOf(log, 0)).quarantined
  }

  lemma ReportsCleanIff<H>(events: seq<Event<H>>)
    requires Complete(events)
    requires forall i :: 0 <= i < |After(Initial(), events).log| ==> E.Counted(After(Initial(), events).log[i].before)
    ensures var log := After(Initial(), events).log;
      ReportsClean(log) <==> forall i :: 0 <= i < |log| ==> LeftNothing(log[i])
  {
    StartsKept<H>();
    OneDisposal(Initial(), events);
    UncleanIff(After(Initial(), events).log, 0);
    hide After, LeftNothing, EntriesOf, E.Counted, E.Unclean;
  }

  /** A cleared handler had the one turn it has in the log. */
  lemma ClearedOnce<H>(events: seq<Event<H>>, i: nat)
    requires DistinctHandlers(events) && Complete(events) && i < |After(Initial(), events).log|
    requires Cleared(After(Initial(), events).log, After(Initial(), events).log[i].handler)
    ensures LeftNothing(After(Initial(), events).log[i])
  {
    var log := After(Initial(), events).log;
    StartsKept<H>();
    OneDisposal(Initial(), events);
    hide After, LeftNothing, DistinctHandlers, Complete;
    var j :| 0 <= j < |log| && log[j].handler == log[i].handler && LeftNothing(log[j]);
    if i < j {
      OncePerDisposal(events, i, j);
    } else if j < i {
      OncePerDisposal(events, j, i);
    }
  }

  /**
    Of different handlers, in every run of one disposal to its end: nothing is left of any accepted
    effect iff the report is clean and each had its turn still to come, its id not taken before.
   */
  lemma AllClearedIff<H>(events: seq<Event<H>>)
    requires DistinctHandlers(events) && Complete(events)
    requires forall i :: 0 <= i < |After(Initial(), events).log| ==> E.Counted(After(Initial(), events).log[i].before)
    ensures var log := After(Initial(), events).log;
      (forall k :: Accepted(events, k) ==> Cleared(log, events[k].handler))
      <==> ReportsClean(log) && forall k :: Accepted(events, k) ==> Comes(events, k)
  {
    var log := After(Initial(), events).log;
    ReportsCleanIff(events);
    Provenance(events);
    hide After, LeftNothing, Comes, E.Counted, EntriesOf, DistinctHandlers, Complete, E.BuildUnwindReport;
    if forall k :: Accepted(events, k) ==> Cleared(log, events[k].handler) {
      forall i | 0 <= i < |log| ensures LeftNothing(log[i]) {
        var k :| Accepted(events, k) && events[k].id == log[i].id && events[k].handler == log[i].handler;
        ClearedOnce(events, i);
      }
      forall k | Accepted(events, k) ensures Comes(events, k) {
        ForgottenIff(events, k);
      }
    }
    if ReportsClean(log) && forall k :: Accepted(events, k) ==> Comes(events, k) {
      forall k | Accepted(events, k) ensures Cleared(log, events[k].handler) {
        ForgottenIff(events, k);
      }
    }
  }

  // ---------------------------------------------------------------------------
  // Registered too late
  // ---------------------------------------------------------------------------

  /** An effect registered while handlers are awaited, under an id that has no turn to come, is never disposed. */
  lemma LateIsLost<H>(events: seq<Event<H>>, k: int, d: nat)
    requires DistinctHandlers(events) && Complete(events) && Accepted(events, k)
    requires Turning(After(Initial(), events[..k]), d) && events[k].id !in After(Initial(), events[..k]).running[d].pending
    ensures !HadTurn(After(Initial(), events).log, events[k].handler)
  {
    assert events[..k + 1] == events[..k] + [events[k]];
    AfterConcat(Initial(), events[..k], [events[k]]);
    AfterOne(After(Initial(), events[..k]), events[k]);
    hide After, HadTurn, SetEffect, DistinctHandlers, Complete;
    assert Turning(After(Initial(), events[..k + 1]), d);
    ForgottenIff(events, k);
  }

  /** An effect b is registered while the disposer of a is awaited: the disposal ends, and b is not disposed. */
  lemma RegisteredDuringDisposal<H>(a: H, b: H, before: E.Handler, succeeds: bool)
    requires a != b
    ensures var events := [Register("a", a), Call, Snapshot(0), Turn(0, before, succeeds), Register("b", b), End(0)];
      Complete(events) && Accepted(events, 4) && !HadTurn(After(Initial(), events).log, b)
  {
    var events := [Register("a", a), Call, Snapshot(0), Turn(0, before, succeeds), Register("b", b), End(0)];
    var front, back := events[..4], events[4..];
    assert events == front + back && front == [Register("a", a), Call] + [Snapshot(0), Turn(0, before, succeeds)];
    assert back == [Register("b", b), End(0)];
    FirstTurn(a, before, succeeds);
    var s4 := After(Initial(), front);
    TwoSteps(s4, Register("b", b), End(0));
    AfterConcat(Initial(), front, back);
    AloneConcat(Initial(), front, back);
    assert Complete(events) && Accepted(events, 4) && !Step(s4, Register("b", b)).disposed;
    hide After, Complete, HadTurn, Step, Alone;
    assert DistinctHandlers(events);
    LateIsLost(events, 4, 0);
  }

  lemma FirstTurn<H>(a: H, before: E.Handler, succeeds: bool)
    ensures var events := [Register("a", a), Call] + [Snapshot(0), Turn(0, before, succeeds)];
      && Alone(Initial(), events) && !After(Initial(), events).disposed
      && After(Initial(), events).running == map[0 := Turns([])]
  {
    var one := [Registered("a", a)];
    TwoSteps(Initial(), Register("a", a), Call);
    var s2 := State(one, false, map[0 := ForChildren], 1, []);
    assert Step(Step(Initial(), Register("a", a)), Call) == s2;
    assert ReversedIds(one) == ["a"] by {
      assert one[1..] == [];
      assert ReversedIds<H>([]) == [];
    }
    TwoSteps(s2, Snapshot(0), Turn(0, before, succeeds));
    var s3 := s2.(running := map[0 := Turns(["a"])]);
    assert Step(s2, Snapshot(0)) == s3;
    assert Lookup(one, "a") == Some(a) && ["a"][1..] == [];
    var s4 := Step(s3, Turn(0, before, succeeds));
    assert s4.running == map[0 := Turns([])];
    AfterConcat(Initial(), [Register("a", a), Call], [Snapshot(0), Turn(0, before, succeeds)]);
    AloneConcat(Initial(), [Register("a", a), Call], [Snapshot(0), Turn(0, before, succeeds)]);
  }

  lemma TwoSteps<H>(s: State<H>, e: Event<H>, f: Event<H>)
    ensures After(s, [e, f]) == Step(Step(s, e), f)
    ensures Alone(s, [e, f]) <==> (e == Call ==> s.running == map[]) && (f == Call ==> Step(s, e).running == map[])
  {
    hide Step;
    assert [e, f][1..] == [f] && [f][1..] == [];
    assert After(Step(s, e), [f]) == Step(Step(s, e), f) by {
      AfterOne(Step(s, e), f);
    }
    assert Alone(Step(Step(s, e), f), []);
  }

  // ---------------------------------------------------------------------------
  // Calling dispose while it runs
  // ---------------------------------------------------------------------------

  /** Nothing is registered and dispose is not called. */
  ghost predicate Quiet<H>(events: seq<Event<H>>) {
    forall i :: 0 <= i < |events| ==> !events[i].Register? && !events[i].Call?
  }

  /** No handler has been disposed twice. */
  ghost predicate DistinctTurns<H>(log: seq<Turned<H>>) {
    forall i, j :: 0 <= i < j < |log| ==> log[i].handler != log[j].handler
  }

  ghost predicate DifferentHandlers<H>(s: State<H>) {
    forall x, y :: Lookup(s.effects, x).Some? && Lookup(s.effects, x) == Lookup(s.effects, y) ==> x == y
  }

  /** h has a turn at or after the log's index n. */
  ghost predicate TurnSince<H>(log: seq<Turned<H>>, n: nat, h: H) {
    exists j :: n <= j < |log| && log[j].handler == h
  }

  lemma TwiceIsNotDistinct<H>(log: seq<Turned<H>>, n: nat, h: H)
    requires n <= |log| && HadTurn(log[..n], h) && TurnSince(log, n, h)
    ensures !DistinctTurns(log)
  {
    var i :| 0 <= i < n && log[..n][i].handler == h;
    var j :| n <= j < |log| && log[j].handler == h;
    assert log[i].handler == log[j].handler;
  }

  /** Apart from d's turns and their log nothing changes. */
  ghost predicate OnlyTurns<H>(s: State<H>, t: State<H>, d: nat) {
    && t.effects == s.effects && t.disposed == s.disposed && t.calls == s.calls && s.log <= t.log
    && t.running.Keys == s.running.Keys && forall c :: c in s.running && c != d ==> t.running[c] == s.running[c]
  }

  /** A disposal can go on until a certain id has had its turn. */
  lemma {:induction false} TakeTurns<H>(s: State<H>, d: nat, id: Id) returns (events: seq<Event<H>>)
    requires Kept(s) && !s.disposed && Turning(s, d) && id in s.running[d].pending && Lookup(s.effects, id).Some?
    ensures Quiet(events) && OnlyTurns(s, After(s, events), d)
    ensures TurnSince(After(s, events).log, |s.log|, Lookup(s.effects, id).value)
    decreases if Turning(s, d) then |s.running[d].pending| else 0
  {
    var pending := s.running[d].pending;
    var e := Turn(d, E.RevertibleHandler(false, 0), true);
    assert pending[0] in pending;
    var t := Step(s, e);
    StepKeeps(s, e);
    AfterOne(s, e);
    assert t.running.Keys == s.running.Keys;
    if pending[0] == id {
      events := [e];
      assert t.log[|s.log|].handler == Lookup(s.effects, id).value;
    } else {
      assert id in pending[1..] by {
        var k :| 0 <= k < |pending| && pending[k] == id;
        assert pending[1..][k - 1] == id;
      }
      hide Kept, Lookup, Step;
      var rest := TakeTurns(t, d, id);
      events := [e] + rest;
      AfterConcat(s, [e], rest);
    }
  }

  lemma OnlyTurnsThen<H>(s: State<H>, t: State<H>, u: State<H>, c: nat, d: nat, h: H)
    requires OnlyTurns(s, t, c) && OnlyTurns(t, u, d) && TurnSince(t.log, |s.log|, h) && TurnSince(u.log, |t.log|, h)
    ensures !DistinctTurns(u.log)
  {
    var i :| |s.log| <= i < |t.log| && t.log[i].handler == h;
    var j :| |t.log| <= j < |u.log| && u.log[j].handler == h;
    assert u.log[i] == t.log[i];
  }

  /** dispose is called while d, the only disposal so far, is running. */
  ghost predicate Running<H>(s: State<H>, d: nat) {
    && Kept(s) && !s.disposed && s.running.Keys == {d}
    && DistinctTurns(s.log) && DifferentHandlers(s)
  }

  /** The handler registered under id has had its turn, or has it still to come. */
  ghost predicate InTurn<H>(s: State<H>, id: Id) {
    Lookup(s.effects, id).Some? && (HadTurn(s.log, Lookup(s.effects, id).value) || ToCome(s, id))
  }

  lemma SecondSnapshot<H>(s: State<H>, d: nat, id: Id) returns (v: State<H>)
    requires Running(s, d) && Lookup(s.effects, id).Some?
    ensures v == Step(Step(Step(s, Call), Snapshot(s.calls)), Snapshot(d))
    ensures Kept(v) && v.effects == s.effects && !v.disposed && v.log == s.log && s.calls != d
    ensures Turning(v, s.calls) && id in v.running[s.calls].pending
    ensures Turning(v, d) && (ToCome(s, id) ==> id in v.running[d].pending)
  {
    ReversedIdsOf(s.effects);
    StepKeeps(s, Call);
    StepKeeps(Step(s, Call), Snapshot(s.calls));
    v := Step(Step(Step(s, Call), Snapshot(s.calls)), Snapshot(d));
    StepKeeps(Step(Step(s, Call), Snapshot(s.calls)), Snapshot(d));
    assert d in s.running;
    hide Lookup, ReversedIds, DistinctEffectIds, NoRepeats;
  }

  /** Then that handler can be disposed twice. */
  lemma SecondMayRepeat<H>(s: State<H>, d: nat, id: Id) returns (events: seq<Event<H>>)
    requires Running(s, d) && InTurn(s, id)
    ensures Quiet(events) && !DistinctTurns(After(Step(s, Call), events).log)
  {
    var h := Lookup(s.effects, id).value;
    var v := SecondSnapshot(s, d, id);
    var snapshots := [Snapshot(s.calls), Snapshot(d)];
    TwoSteps(Step(s, Call), Snapshot(s.calls), Snapshot(d));
    hide Kept, Lookup, Step, ToCome, DistinctTurns, After;
    if HadTurn(s.log, h) {
      var more := TakeTurns(v, s.calls, id);
      events := snapshots + more;
      AfterConcat(Step(s, Call), snapshots, more);
      var log := After(v, more).log;
      assert log[..|s.log|] == s.log;
      TwiceIsNotDistinct(log, |s.log|, h);
    } else {
      var more := TakeTurns(v, d, id);
      var w := After(v, more);
      AlwaysKept(v, more);
      var still := TakeTurns(w, s.calls, id);
      events := snapshots + (more + still);
      AfterConcat(v, more, still);
      AfterConcat(Step(s, Call), snapshots, more + still);
      OnlyTurnsThen(v, w, After(w, still), d, s.calls, h);
    }
  }

  /** What a second disposal n can still do when the first has had all its turns: take each handler for the first time. */
  ghost predicate Fine<H>(t: State<H>, d: nat, n: nat) {
    && DistinctTurns(t.log) && DifferentHandlers(t)
    && (forall c :: c in t.running ==> c == d || c == n)
    && (d in t.running ==> Through(t, d) || t.effects == [])
    && (Turning(t, n) ==> NoRepeats(t.running[n].pending))
    && (forall id :: Lookup(t.effects, id).Some? && (Waiting(t, n) || (Turning(t, n) && id in t.running[n].pending)) ==>
          !HadTurn(t.log, Lookup(t.effects, id).value))
  }

  lemma DistinctTurnsSnoc<H>(log: seq<Turned<H>>, t: Turned<H>)
    requires DistinctTurns(log) && !HadTurn(log, t.handler)
    ensures DistinctTurns(log + [t])
  {
  }

  lemma FineTurn<H>(t: State<H>, d: nat, n: nat, before: E.Handler, succeeds: bool)
    requires Fine(t, d, n) && d != n && Turning(t, n) && !Through(t, n)
    ensures Fine(Step(t, Turn(n, before, succeeds)), d, n)
  {
    var pending := t.running[n].pending;
    var u := Step(t, Turn(n, before, succeeds));
    assert pending[0] in pending;
    hide Lookup, HadTurn, DistinctTurns;
    if Lookup(t.effects, pending[0]).Some? {
      var last := Turned(n, pending[0], Lookup(t.effects, pending[0]).value, before, succeeds);
      DistinctTurnsSnoc(t.log, last);
      forall id | Lookup(t.effects, id).Some? && id in pending[1..]
        ensures !HadTurn(u.log, Lookup(t.effects, id).value)
      {
        var k :| 0 <= k < |pending[1..]| && pending[1..][k] == id;
        assert pending[k + 1] == id != pending[0];
        HadTurnSnoc(t.log, last, Lookup(t.effects, id).value);
      }
    }
  }

  lemma FineStep<H>(t: State<H>, d: nat, n: nat, e: Event<H>)
    requires Fine(t, d, n) && d != n && !e.Register? && !e.Call? && DistinctEffectIds(t.effects)
    ensures Fine(Step(t, e), d, n) && DistinctEffectIds(Step(t, e).effects)
  {
    if e.Turn? && Turning(t, e.d) && !Through(t, e.d) {
      if e.d == n {
        FineTurn(t, d, n, e.before, e.succeeds);
      } else {
        LookupNone<H>(t.running[e.d].pending[0]);
      }
    } else if e.Snapshot? {
      ReversedIdsOf(t.effects);
      hide Lookup, HadTurn, DistinctTurns;
    } else {
      hide HadTurn, DistinctTurns;
    }
  }

  lemma {:induction false} StaysFine<H>(t: State<H>, d: nat, n: nat, events: seq<Event<H>>)
    requires Fine(t, d, n) && d != n && Quiet(events) && DistinctEffectIds(t.effects)
    ensures DistinctTurns(After(t, events).log)
    decreases |events|
  {
    hide Step, DistinctEffectIds;
    if events != [] {
      FineStep(t, d, n, events[0]);
      assert forall i :: 0 <= i < |events[1..]| ==> events[1..][i] == events[i + 1];
      hide Fine;
      StaysFine(Step(t, events[0]), d, n, events[1..]);
    }
  }

  lemma NextIsRegistered<H>(s: State<H>, d: nat)
    requires Kept(s) && !s.disposed && Turning(s, d)
    ensures Through(s, d) || exists id :: Lookup(s.effects, id).Some? && id in s.running[d].pending
  {
    if !Through(s, d) {
      assert s.running[d].pending[0] in s.running[d].pending;
    }
  }

  lemma SecondIsFine<H>(s: State<H>, d: nat)
    requires Running(s, d) && forall id :: !InTurn(s, id)
    ensures Fine(Step(s, Call), d, s.calls) && d != s.calls
  {
    assert d in s.running;
    hide HadTurn, DistinctTurns;
    forall id | Lookup(s.effects, id).Some? ensures Turning(s, d) && id !in s.running[d].pending {
      assert !InTurn(s, id);
      assert !ToCome(s, id);
    }
    if s.effects != [] {
      LookupIn(s.effects, s.effects[0].id);
      assert HasId(s.effects, s.effects[0].id);
      assert Turning(s, d);
      NextIsRegistered(s, d);
      assert Through(Step(s, Call), d);
    }
    var t := Step(s, Call);
    assert forall c :: c in t.running ==> c in s.running.Keys || c == s.calls;
    forall id | Lookup(t.effects, id).Some? ensures !HadTurn(t.log, Lookup(t.effects, id).value) {
      assert !InTurn(s, id);
    }
  }

  /**
    Calling dispose while a disposal is running, nothing being registered any more, disposes no
    handler twice, whatever happens, iff the handler of no registered effect has had a turn or has
    one to come.
   */
  lemma OverlapHarmlessIff<H>(before: seq<Event<H>>, d: nat)
    requires DistinctHandlers(before) && Alone(Initial(), before)
    requires After(Initial(), before).running.Keys == {d} && !After(Initial(), before).disposed
    ensures var s := After(Initial(), before);
      (forall events {:trigger After(Step(s, Call), events)} :: Quiet(events) ==> DistinctTurns(After(Step(s, Call), events).log))
      <==> forall id :: !InTurn(s, id)
  {
    var s := After(Initial(), before);
    AloneIsRunning(before, d);
    if id :| InTurn(s, id) {
      var events := SecondMayRepeat(s, d, id);
    } else {
      SecondIsFine(s, d);
      assert DistinctEffectIds(Step(s, Call).effects);
      hide Step, DistinctTurns, Fine, InTurn;
      forall events | Quiet(events) ensures DistinctTurns(After(Step(s, Call), events).log) {
        StaysFine(Step(s, Call), d, s.calls, events);
      }
    }
  }

  lemma AloneIsRunning<H>(before: seq<Event<H>>, d: nat)
    requires DistinctHandlers(before) && Alone(Initial(), before)
    requires After(Initial(), before).running.Keys == {d} && !After(Initial(), before).disposed
    ensures Running(After(Initial(), before), d)
  {
    var s := After(Initial(), before);
    StartsKept<H>();
    AlwaysKept(Initial(), before);
    OneDisposal(Initial(), before);
    Provenance(before);
    hide After, Kept, Alone;
    forall i, j | 0 <= i < j < |s.log| ensures s.log[i].handler != s.log[j].handler {
      OncePerDisposal(before, i, j);
    }
    forall x, y | Lookup(s.effects, x).Some? && Lookup(s.effects, x) == Lookup(s.effects, y) ensures x == y {
      var h := Lookup(s.effects, x).value;
      var k :| Accepted(before, k) && before[k].id == x && before[k].handler == h;
      var l :| Accepted(before, l) && before[l].id == y && before[l].handler == h;
      assert k == l;
    }
  }
}
