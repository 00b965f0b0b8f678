/**
  The effects of src/component-runtime/fiber.ts: registration by Map.set, and their unwinding by
  dispose, which awaits each handler. Whatever runs in between may register effects or call dispose
  again, so each turn is an event of its own.
 */
module EffectRegistry {
  import E = Effects

  type Id = string

  // ---------------------------------------------------------------------------
  // Registration
  // ---------------------------------------------------------------------------

  datatype Option<T> = None | Some(value: T)

  datatype Registered<H> = Registered(id: Id, handler: H)

  /** Map.set: a new id goes to the end, an id already there keeps its place and gets the new handler. */
  function SetEffect<H>(effects: seq<Registered<H>>, id: Id, handler: H): seq<Registered<H>> {
    if effects == [] then [Registered(id, handler)]
    else if effects[0].id == id then [Registered(id, handler)] + effects[1..]
    else [effects[0]] + SetEffect(effects[1..], id, handler)
  }

  /** Map.get */
  function Lookup<H>(effects: seq<Registered<H>>, id: Id): Option<H> {
    if effects == [] then None
    else if effects[0].id == id then Some(effects[0].handler)
    else Lookup(effects[1..], id)
  }

  ghost predicate DistinctEffectIds<H>(effects: seq<Registered<H>>) {
    forall i, j :: 0 <= i < j < |effects| ==> effects[i].id != effects[j].id
  }

  ghost predicate HasId<H>(effects: seq<Registered<H>>, id: Id) {
    exists i :: 0 <= i < |effects| && effects[i].id == id
  }

  lemma {:induction false} LookupSet<H>(effects: seq<Registered<H>>, id: Id, handler: H, x: Id)
    ensures Lookup(SetEffect(effects, id, handler), x) == if x == id then Some(handler) else Lookup(effects, x)
  {
    if effects != [] && effects[0].id != id {
      LookupSet(effects[1..], id, handler, x);
      var r := SetEffect(effects, id, handler);
      assert r[0] == effects[0] && r[1..] == SetEffect(effects[1..], id, handler);
    } else if effects != [] {
      assert SetEffect(effects, id, handler)[1..] == effects[1..];
    }
  }

  /** With distinct ids, looking up and being registered are the same. */
  lemma {:induction false} LookupIn<H>(effects: seq<Registered<H>>, id: Id)
    requires DistinctEffectIds(effects)
    ensures Lookup(effects, id).Some? <==> HasId(effects, id)
    ensures forall i :: 0 <= i < |effects| && effects[i].id == id ==> Lookup(effects, id) == Some(effects[i].handler)
  {
    if effects != [] {
      var rest := effects[1..];
      LookupIn(rest, id);
      if effects[0].id != id {
        forall i | 0 <= i < |effects| && effects[i].id == id
          ensures HasId(rest, id) && Lookup(effects, id) == Some(effects[i].handler)
        {
          assert rest[i - 1] == effects[i];
        }
        if HasId(rest, id) {
          var i :| 0 <= i < |rest| && rest[i].id == id;
          assert effects[i + 1].id == id;
        }
      } else {
        forall i | 0 <= i < |effects| && effects[i].id == id ensures i == 0 {
        }
      }
    }
  }

  /** A new id is registered last; a known one replaces its handler in place. */
  lemma {:induction false} SetEffectPlaces<H>(effects: seq<Registered<H>>, id: Id, handler: H)
    requires DistinctEffectIds(effects)
    ensures DistinctEffectIds(SetEffect(effects, id, handler))
    ensures !HasId(effects, id) ==> SetEffect(effects, id, handler) == effects + [Registered(id, handler)]
    ensures forall i :: 0 <= i < |effects| && effects[i].id == id ==>
      SetEffect(effects, id, handler) == effects[i := Registered(id, handler)]
    ensures HasId(SetEffect(effects, id, handler), id)
    ensures forall x :: HasId(SetEffect(effects, id, handler), x) ==> x == id || HasId(effects, x)
  {
    if effects == [] {
      assert SetEffect(effects, id, handler)[0].id == id;
    } else {
      var rest := effects[1..];
      assert DistinctEffectIds(rest);
      SetEffectPlaces(rest, id, handler);
      var r := SetEffect(effects, id, handler);
      if effects[0].id == id {
        assert r == effects[0 := Registered(id, handler)];
        assert r[0].id == id;
      } else {
        assert r == [effects[0]] + SetEffect(rest, id, handler);
        if !HasId(effects, id) {
          forall i | 0 <= i < |rest| ensures rest[i].id != id {
            assert effects[i + 1].id != id;
          }
          assert r == effects + [Registered(id, handler)];
        }
        forall i | 0 <= i < |effects| && effects[i].id == id
          ensures r == effects[i := Registered(id, handler)]
        {
          assert rest[i - 1].id == id;
          assert SetEffect(rest, id, handler) == rest[i - 1 := Registered(id, handler)];
          ReplaceBehind(effects[0], rest, i - 1, Registered(id, handler));
        }
        TailIds(effects, SetEffect(rest, id, handler), id);
      }
    }
  }

  lemma ReplaceBehind<H>(first: Registered<H>, rest: seq<Registered<H>>, i: nat, r: Registered<H>)
    requires i < |rest|
    ensures [first] + rest[i := r] == ([first] + rest)[i + 1 := r]
  {
  }

  lemma TailIds<H>(effects: seq<Registered<H>>, tail: seq<Registered<H>>, id: Id)
    requires effects != [] && DistinctEffectIds(effects) && DistinctEffectIds(tail) && effects[0].id != id
    requires HasId(tail, id) && forall x :: HasId(tail, x) ==> x == id || HasId(effects[1..], x)
    ensures DistinctEffectIds([effects[0]] + tail) && HasId([effects[0]] + tail, id)
    ensures forall x :: HasId([effects[0]] + tail, x) ==> x == id || HasId(effects, x)
  {
    var r := [effects[0]] + tail;
    forall x ensures HasId(r, x) <==> x == effects[0].id || HasId(tail, x) {
      if HasId(tail, x) {
        var i :| 0 <= i < |tail| && tail[i].id == x;
        assert r[i + 1].id == x;
      }
      assert r[0].id == effects[0].id;
    }
    forall x ensures HasId(effects[1..], x) ==> HasId(effects, x) {
      if i :| 0 <= i < |effects[1..]| && effects[1..][i].id == x {
        assert effects[i + 1].id == x;
      }
    }
    forall i | 0 <= i < |tail| ensures tail[i].id != effects[0].id {
      assert HasId(tail, tail[i].id);
      if HasId(effects[1..], tail[i].id) {
        var j :| 0 <= j < |effects[1..]| && effects[1..][j].id == tail[i].id;
        assert effects[j + 1].id == tail[i].id;
      }
    }
  }

  /** Registers one handler after the other. */
  function RegisterAll<H>(effects: seq<Registered<H>>, calls: seq<Registered<H>>): seq<Registered<H>> {
    if calls == [] then effects
    else
      var last := calls[|calls| - 1];
      SetEffect(RegisterAll(effects, calls[..|calls| - 1]), last.id, last.handler)
  }

  /** Registration under id makes h known, keeps what has another id, and drops what had id. */
  lemma {:induction false} SetEffectHolds<H>(effects: seq<Registered<H>>, id: Id, h: H, r: Registered<H>)
    requires DistinctEffectIds(effects)
    ensures r in SetEffect(effects, id, h) <==> r == Registered(id, h) || (r in effects && r.id != id)
  {
    SetEffectPlaces(effects, id, h);
    var after := SetEffect(effects, id, h);
    if HasId(effects, id) {
      var i :| 0 <= i < |effects| && effects[i].id == id;
      assert after == effects[i := Registered(id, h)];
      assert after[i] == Registered(id, h);
      forall j | 0 <= j < |effects| && j != i ensures after[j] == effects[j] && effects[j].id != id {
        assert if i < j then effects[i].id != effects[j].id else effects[j].id != effects[i].id;
      }
      if r in effects && r.id != id {
        var j :| 0 <= j < |effects| && effects[j] == r;
        assert after[j] == r;
      }
    } else {
      assert forall j :: 0 <= j < |effects| ==> effects[j].id != id;
    }
  }

  /** Call k registers r and is the last with its id. */
  ghost predicate LastAt<H>(calls: seq<Registered<H>>, k: int, r: Registered<H>) {
    0 <= k < |calls| && calls[k] == r && forall j :: k < j < |calls| ==> calls[j].id != r.id
  }

  lemma LastAtSnoc<H>(front: seq<Registered<H>>, last: Registered<H>, k: int, r: Registered<H>)
    ensures LastAt(front + [last], k, r) <==> if k == |front| then r == last else LastAt(front, k, r) && r.id != last.id
  {
    var calls := front + [last];
    assert calls[|front|] == last;
    assert forall j :: 0 <= j < |front| ==> calls[j] == front[j];
  }

  /** After any calls exactly the last registration for each id is kept. */
  lemma {:induction false} RegisteredAre<H>(calls: seq<Registered<H>>, r: Registered<H>)
    ensures DistinctEffectIds(RegisterAll([], calls))
    ensures r in RegisterAll([], calls) <==> exists k :: LastAt(calls, k, r)
  {
    if calls != [] {
      var n := |calls| - 1;
      var front, last := calls[..n], calls[n];
      RegisteredAre(front, r);
      var before := RegisterAll([], front);
      SetEffectPlaces(before, last.id, last.handler);
      SetEffectHolds(before, last.id, last.handler, r);
      assert calls == front + [last];
      hide LastAt, DistinctEffectIds, SetEffect, HasId;
      forall k ensures LastAt(calls, k, r) <==> if k == n then r == last else LastAt(front, k, r) && r.id != last.id {
        LastAtSnoc(front, last, k, r);
      }
      BeforeTheEnd(front, r);
    }
  }

  lemma BeforeTheEnd<H>(calls: seq<Registered<H>>, r: Registered<H>)
    ensures !LastAt(calls, |calls|, r)
  {
  }

  // ---------------------------------------------------------------------------
  // Unwinding, turn by turn
  // ---------------------------------------------------------------------------

  /** A disposal still waits for the fiber's children, or has these ids to go. */
  datatype Stage = ForChildren | Turns(pending: seq<Id>)

  /** One turn: the handler as the turn found it, and whether its callback succeeded. */
  datatype Turned<H> = Turned(disposal: nat, id: Id, handler: H, before: E.Handler, succeeds: bool)

  /** running are the calls of dispose that have not returned. */
  datatype State<H> = State(
    effects: seq<Registered<H>>,
    disposed: bool,
    running: map<nat, Stage>,
    calls: nat,
    log: seq<Turned<H>>)

  datatype Event<H> =
    | Register(id: Id, handler: H)
    | Call
    | Snapshot(d: nat)
    | Turn(d: nat, before: E.Handler, succeeds: bool)
    | End(d: nat)

  function Initial<H>(): State<H> {
    State([], false, map[], 0, [])
  }

  /** The ids in reverse order of registration. */
  function ReversedIds<H>(effects: seq<Registered<H>>): seq<Id> {
    if effects == [] then [] else ReversedIds(effects[1..]) + [effects[0].id]
  }

  /** Disposal d is in the middle of its turns, or through with them. */
  predicate Turning<H>(s: State<H>, d: nat) {
    d in s.running && s.running[d].Turns?
  }

  /** Disposal d has been called and still waits for the fiber's children. */
  predicate Waiting<H>(s: State<H>, d: nat) {
    d in s.running && s.running[d].ForChildren?
  }

  /** Disposal d has no turns left. */
  predicate Through<H>(s: State<H>, d: nat) {
    Turning(s, d) && s.running[d].pending == []
  }

  /** A turn for an id that is gone throws, inside the handler of errors too, and dispose rejects. */
  function TakeTurn<H>(s: State<H>, d: nat, before: E.Handler, succeeds: bool): State<H>
    requires Turning(s, d) && !Through(s, d)
  {
    var id := s.running[d].pending[0];
    var found := Lookup(s.effects, id);
    if found.None? then s.(running := s.running - {d})
    else
      s.(running := s.running[d := Turns(s.running[d].pending[1..])],
         log := s.log + [Turned(d, id, found.value, before, succeeds)])
  }

  /** registerEffect refuses, and dispose returns at once, only when a disposal has ended. */
  function Step<H>(s: State<H>, e: Event<H>): State<H> {
    match e
    case Register(id, h) => if s.disposed then s else s.(effects := SetEffect(s.effects, id, h))
    case Call => if s.disposed then s else s.(running := s.running[s.calls := ForChildren], calls := s.calls + 1)
    case Snapshot(d) =>
      if Waiting(s, d) then s.(running := s.running[d := Turns(ReversedIds(s.effects))]) else s
    case Turn(d, before, succeeds) =>
      if Turning(s, d) && !Through(s, d) then TakeTurn(s, d, before, succeeds) else s
    case End(d) =>
      if Through(s, d) then s.(effects := [], disposed := true, running := s.running - {d}) else s
  }

  function After<H>(s: State<H>, events: seq<Event<H>>): State<H>
    decreases |events|
  {
    if events == [] then s else After(Step(s, events[0]), events[1..])
  }

  lemma {:induction false} AfterConcat<H>(s: State<H>, a: seq<Event<H>>, b: seq<Event<H>>)
    ensures After(s, a + b) == After(After(s, a), b)
    decreases |a|
  {
    hide Step;
    if a == [] {
      assert a + b == b;
    } else {
      assert (a + b)[0] == a[0] && (a + b)[1..] == a[1..] + b;
      AfterConcat(Step(s, a[0]), a[1..], b);
    }
  }

  lemma AfterOne<H>(s: State<H>, e: Event<H>)
    ensures After(s, [e]) == Step(s, e)
  {
    hide Step;
    assert [e][1..] == [];
  }

  // ---------------------------------------------------------------------------
  // What every step keeps
  // ---------------------------------------------------------------------------

  ghost predicate NoRepeats(ids: seq<Id>) {
    forall i, j :: 0 <= i < j < |ids| ==> ids[i] != ids[j]
  }

  /** Until a disposal ends, every id with a turn to come is registered; then nothing is. */
  ghost predicate Kept<H>(s: State<H>) {
    && DistinctEffectIds(s.effects)
    && (s.disposed ==> s.effects == [])
    && (forall d :: d in s.running ==> d < s.calls)
    && (forall d :: Turning(s, d) ==> NoRepeats(s.running[d].pending))
    && (forall d, id :: Turning(s, d) && id in s.running[d].pending && !s.disposed ==> Lookup(s.effects, id).Some?)
  }

  lemma {:induction false} ReversedIdsAre<H>(effects: seq<Registered<H>>)
    ensures |ReversedIds(effects)| == |effects|
    ensures forall i :: 0 <= i < |effects| ==> ReversedIds(effects)[i] == effects[|effects| - 1 - i].id
  {
    if effects != [] {
      ReversedIdsAre(effects[1..]);
    }
  }

  lemma ReversedIdsOf<H>(effects: seq<Registered<H>>)
    requires DistinctEffectIds(effects)
    ensures NoRepeats(ReversedIds(effects))
    ensures forall id :: id in ReversedIds(effects) <==> Lookup(effects, id).Some?
  {
    ReversedIdsAre(effects);
    var ids := ReversedIds(effects);
    forall id ensures id in ids <==> Lookup(effects, id).Some? {
      LookupIn(effects, id);
      if HasId(effects, id) {
        var i :| 0 <= i < |effects| && effects[i].id == id;
        assert ids[|effects| - 1 - i] == id;
      }
    }
  }

  lemma StepKeeps<H>(s: State<H>, e: Event<H>)
    requires Kept(s)
    ensures Kept(Step(s, e))
  {
    hide SetEffect, DistinctEffectIds, HasId, Lookup;
    match e {
      case Register(id, h) =>
        SetEffectPlaces(s.effects, id, h);
        forall x ensures Lookup(SetEffect(s.effects, id, h), x) == if x == id then Some(h) else Lookup(s.effects, x) {
          LookupSet(s.effects, id, h, x);
        }
      case Snapshot(d) => ReversedIdsOf(s.effects);
      case End(d) => assert DistinctEffectIds<H>([]) by { NoneDistinct<H>(); }
      case _ =>
    }
  }

  lemma NoneDistinct<H>()
    ensures DistinctEffectIds<H>([])
  {
  }

  lemma {:induction false} AlwaysKept<H>(s: State<H>, events: seq<Event<H>>)
    requires Kept(s)
    ensures Kept(After(s, events))
    decreases |events|
  {
    hide Step, Kept;
    if events != [] {
      StepKeeps(s, events[0]);
      AlwaysKept(Step(s, events[0]), events[1..]);
    }
  }

  // ---------------------------------------------------------------------------
  // The turns of one disposal
  // ---------------------------------------------------------------------------

  /** The ids that have had their turn in disposal d. */
  function TurnedIds<H>(log: seq<Turned<H>>, d: nat): seq<Id> {
    if log == [] then []
    else
      var last := log[|log| - 1];
      TurnedIds(log[..|log| - 1], d) + (if last.disposal == d then [last.id] else [])
  }

  lemma TurnedIdsSnoc<H>(log: seq<Turned<H>>, t: Turned<H>, d: nat)
    ensures TurnedIds(log + [t], d) == TurnedIds(log, d) + (if t.disposal == d then [t.id] else [])
  {
    assert (log + [t])[..|log|] == log;
  }

  /** The ids that have had their turn in d and those that will. */
  function TurnsOf<H>(s: State<H>, d: nat): seq<Id>
    requires Turning(s, d)
  {
    TurnedIds(s.log, d) + s.running[d].pending
  }

  lemma StepTurns<H>(s: State<H>, e: Event<H>, d: nat)
    requires Turning(s, d) && d < s.calls && d in Step(s, e).running
    ensures Turning(Step(s, e), d) && TurnsOf(Step(s, e), d) == TurnsOf(s, d)
  {
    hide Lookup, SetEffect, ReversedIds, TurnedIds;
    var t := Step(s, e);
    if e.Turn? && Turning(s, e.d) && s.running[e.d].pending != [] {
      if Lookup(s.effects, s.running[e.d].pending[0]).Some? {
        TurnedIdsSnoc(s.log, t.log[|s.log|], d);
        assert t.log == s.log + [t.log[|s.log|]];
        var pending := s.running[e.d].pending;
        Regroup(TurnedIds(s.log, d), [pending[0]], pending[1..]);
        assert pending == [pending[0]] + pending[1..];
        assert TurnedIds(s.log, d) + [] == TurnedIds(s.log, d);
      }
    }
  }

  lemma Regroup(a: seq<Id>, b: seq<Id>, c: seq<Id>)
    ensures (a + b) + c == a + (b + c)
  {
  }

  /** A disposal takes the turns it has snapshotted, in order, and no others. */
  lemma {:induction false} TurnsInOrder<H>(s: State<H>, events: seq<Event<H>>, d: nat)
    requires Turning(s, d) && d < s.calls && d in After(s, events).running
    ensures Turning(After(s, events), d) && TurnsOf(After(s, events), d) == TurnsOf(s, d)
    decreases |events|
  {
    hide Step, TurnsOf, Turning;
    if events != [] {
      CallsGrow(s, events[0]);
      if d !in Step(s, events[0]).running {
        NeverAgain(Step(s, events[0]), events[1..], d);
      } else {
        StepTurns(s, events[0], d);
        TurnsInOrder(Step(s, events[0]), events[1..], d);
      }
    }
  }

  lemma CallsGrow<H>(s: State<H>, e: Event<H>)
    ensures s.calls <= Step(s, e).calls
  {
  }

  lemma {:induction false} NeverAgain<H>(s: State<H>, events: seq<Event<H>>, d: nat)
    requires d !in s.running && d < s.calls
    ensures d !in After(s, events).running
    decreases |events|
  {
    hide Lookup, SetEffect, ReversedIds;
    if events != [] {
      NeverAgain(Step(s, events[0]), events[1..], d);
    }
  }

  /** Turns are logged for calls of dispose, and not before their snapshot. */
  ghost predicate Logged<H>(s: State<H>) {
    forall i :: 0 <= i < |s.log| ==>
      s.log[i].disposal < s.calls && (s.log[i].disposal in s.running ==> Turning(s, s.log[i].disposal))
  }

  lemma StepLogs<H>(s: State<H>, e: Event<H>)
    requires Kept(s) && Logged(s)
    ensures Logged(Step(s, e))
  {
    hide Lookup, SetEffect, ReversedIds;
  }

  /** What the fiber relies on. */
  ghost predicate Sound<H>(s: State<H>) {
    Kept(s) && Logged(s)
  }

  lemma StepSound<H>(s: State<H>, e: Event<H>)
    requires Sound(s)
    ensures Sound(Step(s, e))
  {
    StepKeeps(s, e);
    StepLogs(s, e);
  }

  lemma {:induction false} AlwaysLogged<H>(s: State<H>, events: seq<Event<H>>)
    requires Kept(s) && Logged(s)
    ensures Logged(After(s, events))
    decreases |events|
  {
    hide Step, Logged, Kept;
    if events != [] {
      StepKeeps(s, events[0]);
      StepLogs(s, events[0]);
      AlwaysLogged(Step(s, events[0]), events[1..]);
    }
  }

  lemma {:induction false} NoTurns<H>(log: seq<Turned<H>>, d: nat)
    requires forall i :: 0 <= i < |log| ==> log[i].disposal != d
    ensures TurnedIds(log, d) == []
  {
    if log != [] {
      NoTurns(log[..|log| - 1], d);
    }
  }

  lemma SnapshotTurns<H>(s: State<H>, d: nat)
    requires Logged(s) && Waiting(s, d)
    ensures Turning(Step(s, Snapshot(d)), d) && TurnsOf(Step(s, Snapshot(d)), d) == ReversedIds(s.effects)
  {
    NoTurns(s.log, d);
    hide TurnedIds, ReversedIds;
    assert [] + ReversedIds(s.effects) == ReversedIds(s.effects);
  }

  lemma ThroughTurns<H>(s: State<H>, d: nat)
    requires Through(s, d)
    ensures TurnsOf(s, d) == TurnedIds(s.log, d)
  {
    hide TurnedIds;
    assert TurnedIds(s.log, d) + [] == TurnedIds(s.log, d);
  }

  /**
    In every run, overlapping disposals and registrations included: once a disposal is through with
    its turns it has taken exactly one for each id its snapshot found, the last registered first.
   */
  lemma DisposalTakesSnapshot<H>(before: seq<Event<H>>, d: nat, during: seq<Event<H>>)
    requires Waiting(After(Initial(), before), d)
    requires Through(After(Step(After(Initial(), before), Snapshot(d)), during), d)
    ensures var ids := TurnedIds(After(Step(After(Initial(), before), Snapshot(d)), during).log, d);
      ids == ReversedIds(After(Initial(), before).effects) && NoRepeats(ids)
  {
    hide After, TurnsOf, Step, TurnedIds, Logged, DistinctEffectIds, NoRepeats, ReversedIds;
    var s := After(Initial(), before);
    StartsKept<H>();
    AlwaysLogged(Initial(), before);
    AlwaysKept(Initial(), before);
    ReversedIdsOf(s.effects);
    SnapshotTurns(s, d);
    CallsGrow(s, Snapshot(d));
    TurnsInOrder(Step(s, Snapshot(d)), during, d);
    ThroughTurns(After(Step(s, Snapshot(d)), during), d);
  }

  lemma StartsKept<H>()
    ensures Kept(Initial<H>()) && Logged(Initial<H>())
  {
  }

  /** A disposal with turns to come rejects at the next iff another disposal has ended in the meantime. */
  lemma RejectsIff<H>(before: seq<Event<H>>, d: nat, handler: E.Handler, succeeds: bool)
    requires Turning(After(Initial(), before), d) && !Through(After(Initial(), before), d)
    ensures var s := After(Initial(), before); d !in Step(s, Turn(d, handler, succeeds)).running <==> s.disposed
  {
    StartsKept<H>();
    AlwaysKept(Initial(), before);
    var s := After(Initial(), before);
    assert s.running[d].pending[0] in s.running[d].pending;
    assert s.disposed ==> Lookup(s.effects, s.running[d].pending[0]) == None;
  }

  // ---------------------------------------------------------------------------
  // Which registrations are disposed
  // ---------------------------------------------------------------------------

  /** The handler has had a turn. */
  ghost predicate HadTurn<H>(log: seq<Turned<H>>, h: H) {
    exists i :: 0 <= i < |log| && log[i].handler == h
  }

  /** None of these events registers h. */
  ghost predicate NeverRegisters<H>(events: seq<Event<H>>, h: H) {
    forall i :: 0 <= i < |events| && events[i].Register? ==> events[i].handler != h
  }

  /** h is registered under id and nowhere else. */
  ghost predicate Holds<H>(s: State<H>, id: Id, h: H) {
    Lookup(s.effects, id) == Some(h) && forall x :: x != id ==> Lookup(s.effects, x) != Some(h)
  }

  ghost predicate Gone<H>(s: State<H>, h: H) {
    forall x :: Lookup(s.effects, x) != Some(h)
  }

  lemma HadTurnSnoc<H>(log: seq<Turned<H>>, t: Turned<H>, h: H)
    ensures HadTurn(log + [t], h) <==> HadTurn(log, h) || t.handler == h
  {
    var more := log + [t];
    assert more[|log|] == t;
    if HadTurn(log, h) {
      var i :| 0 <= i < |log| && log[i].handler == h;
      assert more[i].handler == h;
    }
  }

  /** The event is a turn for id that finds it. */
  predicate TurnFor<H>(s: State<H>, e: Event<H>, id: Id) {
    && e.Turn? && Turning(s, e.d) && !Through(s, e.d) && s.running[e.d].pending[0] == id
    && Lookup(s.effects, id).Some?
  }

  /** What one event does to the turns: it adds the one it is. */
  lemma StepTurn<H>(s: State<H>, e: Event<H>, h: H)
    ensures HadTurn(Step(s, e).log, h) <==> HadTurn(s.log, h) || exists id :: TurnFor(s, e, id) && Lookup(s.effects, id) == Some(h)
  {
    hide SetEffect, ReversedIds, Lookup, HadTurn;
    if e.Turn? && Turning(s, e.d) && !Through(s, e.d) {
      var id := s.running[e.d].pending[0];
      if Lookup(s.effects, id).Some? {
        assert TurnFor(s, e, id);
        HadTurnSnoc(s.log, Turned(e.d, id, Lookup(s.effects, id).value, e.before, e.succeeds), h);
      }
    }
  }

  /** What one event does to the registration of an id. */
  lemma StepLookup<H>(s: State<H>, e: Event<H>, x: Id)
    ensures Lookup(Step(s, e).effects, x) ==
      if e.Register? && !s.disposed && e.id == x then Some(e.handler)
      else if e.End? && Through(s, e.d) then None
      else Lookup(s.effects, x)
  {
    hide SetEffect, ReversedIds;
    if e.Register? && !s.disposed {
      LookupSet(s.effects, e.id, e.handler, x);
    }
  }

  lemma {:induction false} GoneForever<H>(s: State<H>, events: seq<Event<H>>, h: H)
    requires Gone(s, h) && NeverRegisters(events, h)
    ensures HadTurn(After(s, events).log, h) <==> HadTurn(s.log, h)
    decreases |events|
  {
    if events != [] {
      var e := events[0];
      StepTurn(s, e, h);
      forall x ensures Lookup(Step(s, e).effects, x) != Some(h) {
        StepLookup(s, e, x);
      }
      hide Step, HadTurn, Lookup, TurnFor;
      assert NeverRegisters(events[1..], h) by {
        assert forall i :: 0 <= i < |events[1..]| ==> events[1..][i] == events[i + 1];
      }
      GoneForever(Step(s, e), events[1..], h);
    }
  }

  lemma {:induction false} TurnStays<H>(s: State<H>, events: seq<Event<H>>, h: H)
    requires HadTurn(s.log, h)
    ensures HadTurn(After(s, events).log, h)
    decreases |events|
  {
    hide Step, HadTurn, TurnFor;
    if events != [] {
      StepTurn(s, events[0], h);
      TurnStays(Step(s, events[0]), events[1..], h);
    }
  }

  /** A turn for id comes before anything else is registered under id and before any disposal ends. */
  predicate ReachesTurn<H>(s: State<H>, events: seq<Event<H>>, id: Id)
    decreases |events|
  {
    events != [] &&
    var e := events[0];
    TurnFor(s, e, id) ||
    (!(e.Register? && e.id == id) && !(e.End? && Through(s, e.d)) && ReachesTurn(Step(s, e), events[1..], id))
  }

  /** Whatever is registered and however disposals overlap: a handler is disposed iff a turn for its id comes in time. */
  lemma {:induction false} HadTurnIff<H>(s: State<H>, events: seq<Event<H>>, id: Id, h: H)
    requires Kept(s) && Holds(s, id, h) && !HadTurn(s.log, h) && NeverRegisters(events, h)
    ensures HadTurn(After(s, events).log, h) <==> ReachesTurn(s, events, id)
    decreases |events|
  {
    if events != [] {
      var e, t := events[0], Step(s, events[0]);
      StepKeeps(s, e);
      StepTurn(s, e, h);
      assert NeverRegisters(events[1..], h) by {
        assert forall i :: 0 <= i < |events[1..]| ==> events[1..][i] == events[i + 1];
      }
      assert !s.disposed;
      forall x ensures Lookup(t.effects, x) ==
        if e.Register? && e.id == x then Some(e.handler) else if e.End? && Through(s, e.d) then None else Lookup(s.effects, x)
      {
        StepLookup(s, e, x);
      }
      assert After(s, events) == After(t, events[1..]);
      hide Step, HadTurn, Lookup, Kept, After, Through, Turning;
      if TurnFor(s, e, id) {
        TurnStays(t, events[1..], h);
      } else if (e.Register? && e.id == id) || (e.End? && Through(s, e.d)) {
        GoneForever(t, events[1..], h);
      } else {
        HadTurnIff(t, events[1..], id, h);
      }
    }
  }

  // ---------------------------------------------------------------------------
  // Entries of a report
  // ---------------------------------------------------------------------------

  function EntryOf(c: E.EffectClass, r: E.HandlerResult): E.Entry {
    E.Entry(c, r.outcome)
  }

  ghost predicate AnyUnclean(entries: seq<E.Entry>) {
    exists k :: 0 <= k < |entries| && E.Unclean(entries[k].outcome)
  }

  lemma AnyUncleanConcat(a: seq<E.Entry>, b: seq<E.Entry>)
    ensures AnyUnclean(a + b) <==> AnyUnclean(a) || AnyUnclean(b)
  {
    var ab := a + b;
    if k :| 0 <= k < |a| && E.Unclean(a[k].outcome) {
      assert E.Unclean(ab[k].outcome);
    }
    if k :| 0 <= k < |b| && E.Unclean(b[k].outcome) {
      assert E.Unclean(ab[|a| + k].outcome);
    }
  }

  function ReplyOf<H>(t: Turned<H>): E.Reply {
    E.Step(t.before, E.Dispose, t.succeeds)
  }

  /** What disposal d reports. */
  function EntriesOf<H>(log: seq<Turned<H>>, d: nat): seq<E.Entry> {
    if log == [] then []
    else
      var last := log[|log| - 1];
      EntriesOf(log[..|log| - 1], d) + (if last.disposal == d then [EntryOf(E.ClassOf(last.before), ReplyOf(last).result)] else [])
  }

  lemma EntriesOfSnoc<H>(log: seq<Turned<H>>, t: Turned<H>, d: nat)
    ensures EntriesOf(log + [t], d) ==
      EntriesOf(log, d) + (if t.disposal == d then [EntryOf(E.ClassOf(t.before), ReplyOf(t).result)] else [])
  {
    assert (log + [t])[..|log|] == log;
  }

  /** Before its snapshot a disposal has nothing to report. */
  lemma NoEntriesYet<H>(s: State<H>, d: nat)
    requires Sound(s) && Waiting(s, d)
    ensures EntriesOf(s.log, d) == []
  {
    NoEntries(s.log, d);
  }

  lemma {:induction false} NoEntries<H>(log: seq<Turned<H>>, d: nat)
    requires forall i :: 0 <= i < |log| ==> log[i].disposal != d
    ensures EntriesOf(log, d) == []
  {
    if log != [] {
      NoEntries(log[..|log| - 1], d);
    }
  }
}
