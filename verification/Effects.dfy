/**
  The four effect handlers of src/component-runtime/effects.ts. Every callback is an oracle
  that succeeds or fails; the counts of successful callbacks are ghost.
 */
module Effects {
  datatype EffectClass = Revertible | Transactional | Compensatable | Irreversible

  datatype Outcome = Committed | Aborted | Compensated | Withheld | FailedRollback | Quarantined

  datatype HandlerResult = HandlerResult(ok: bool, outcome: Outcome)

  /** The fields of a handler and how often its callbacks have succeeded. */
  datatype Handler =
    | RevertibleHandler(disposed: bool, disposals: nat)
    | TransactionalHandler(prepared: bool, committed: bool, aborted: bool, commits: nat, aborts: nat)
    | CompensatableHandler(committed: bool, compensated: bool, commits: nat, compensations: nat)
    | IrreversibleHandler(withheld: bool, emitted: bool, emissions: nat)

  function ClassOf(h: Handler): EffectClass {
    match h
    case RevertibleHandler(_, _) => Revertible
    case TransactionalHandler(_, _, _, _, _) => Transactional
    case CompensatableHandler(_, _, _, _) => Compensatable
    case IrreversibleHandler(_, _, _) => Irreversible
  }

  datatype Call = Prepare | Commit | Abort | Compensate | Dispose

  /** A handler after a call, and what the call returned. */
  datatype Reply = Reply(handler: Handler, result: HandlerResult)

  function Done(h: Handler, outcome: Outcome): Reply {
    Reply(h, HandlerResult(true, outcome))
  }

  function Refuse(h: Handler, outcome: Outcome): Reply {
    Reply(h, HandlerResult(false, outcome))
  }

  function StepRevertible(h: Handler, call: Call, succeeds: bool): Reply
    requires h.RevertibleHandler?
  {
    match call
    case Prepare => Done(h, Committed)
    case Commit => Done(h, Committed)
    case Compensate => Refuse(h, FailedRollback)
    case _ =>
      if h.disposed then Done(h, Aborted)
      else if succeeds then Done(h.(disposed := true, disposals := h.disposals + 1), Aborted)
      else Refuse(h, FailedRollback)
  }

  function AbortTransaction(h: Handler, succeeds: bool): Reply
    requires h.TransactionalHandler?
  {
    if h.aborted || h.committed then Done(h, Aborted)
    else if succeeds then Done(h.(aborted := true, aborts := h.aborts + 1), Aborted)
    else Refuse(h, FailedRollback)
  }

  function StepTransactional(h: Handler, call: Call, succeeds: bool): Reply
    requires h.TransactionalHandler?
  {
    match call
    case Prepare =>
      if h.prepared || h.committed || h.aborted then Done(h, Committed)
      else if succeeds then Done(h.(prepared := true), Committed)
      else Refuse(h, FailedRollback)
    case Commit =>
      if h.committed then Done(h, Committed)
      else if !h.prepared then Refuse(h, FailedRollback)
      else if succeeds then Done(TransactionalHandler(h.prepared, true, h.aborted, h.commits + 1, h.aborts), Committed)
      else Refuse(h, FailedRollback)
    case Abort => AbortTransaction(h, succeeds)
    case Compensate => Refuse(h, FailedRollback)
    case Dispose =>
      if h.committed then Done(h, Committed)
      else if !h.aborted then AbortTransaction(h, succeeds)
      else Done(h, Aborted)
  }

  function CompensateEffect(h: Handler, succeeds: bool): Reply
    requires h.CompensatableHandler?
  {
    if h.compensated then Done(h, Compensated)
    else if !h.committed then Done(h, Aborted)
    else if succeeds then Done(h.(compensated := true, compensations := h.compensations + 1), Compensated)
    else Refuse(h, Quarantined)
  }

  function StepCompensatable(h: Handler, call: Call, succeeds: bool): Reply
    requires h.CompensatableHandler?
  {
    match call
    case Prepare => Done(h, Committed)
    case Commit =>
      if h.committed then Done(h, Committed)
      else if succeeds then Done(CompensatableHandler(true, h.compensated, h.commits + 1, h.compensations), Committed)
      else Refuse(h, FailedRollback)
    case Abort => if !h.committed then Done(h, Aborted) else CompensateEffect(h, succeeds)
    case Compensate => CompensateEffect(h, succeeds)
    case Dispose =>
      if h.committed && !h.compensated then CompensateEffect(h, succeeds)
      else Done(h, if h.compensated then Compensated else Aborted)
  }

  function StepIrreversible(h: Handler, call: Call, succeeds: bool): Reply
    requires h.IrreversibleHandler?
  {
    match call
    case Prepare => Done(h, Withheld)
    case Commit =>
      if h.emitted then Done(h, Committed)
      else if succeeds then Done(h.(emitted := true, withheld := false, emissions := h.emissions + 1), Committed)
      else Refuse(h, FailedRollback)
    case Abort => if h.emitted then Refuse(h, Quarantined) else Done(h.(withheld := false), Aborted)
    case Compensate => if h.emitted then Refuse(h, Quarantined) else Done(h, Withheld)
    case Dispose => Done(h, if h.withheld && !h.emitted then Withheld else if h.emitted then Committed else Aborted)
  }

  function Step(h: Handler, call: Call, succeeds: bool): Reply {
    match h
    case RevertibleHandler(_, _) => StepRevertible(h, call, succeeds)
    case TransactionalHandler(_, _, _, _, _) => StepTransactional(h, call, succeeds)
    case CompensatableHandler(_, _, _, _) => StepCompensatable(h, call, succeeds)
    case IrreversibleHandler(_, _, _) => StepIrreversible(h, call, succeeds)
  }

  // ---------------------------------------------------------------------------
  // The classes
  // ---------------------------------------------------------------------------

  class RevertibleEffectHandler {
    var disposed: bool
    ghost var disposals: nat

    ghost function State(): Handler
      reads this
    {
      RevertibleHandler(disposed, disposals)
    }

    constructor ()
      ensures State() == RevertibleHandler(false, 0)
    {
      disposed, disposals := false, 0;
    }

    method DisposeOnce(succeeds: bool) returns (r: HandlerResult)
      modifies this
      ensures Reply(State(), r) == Step(old(State()), Dispose, succeeds)
    {
      if disposed {
        return HandlerResult(true, Aborted);
      }
      if succeeds {
        disposed := true;
        disposals := disposals + 1;
        return HandlerResult(true, Aborted);
      }
      r := HandlerResult(false, FailedRollback);
    }

    method Handle(call: Call, succeeds: bool) returns (r: HandlerResult)
      modifies this
      ensures Reply(State(), r) == Step(old(State()), call, succeeds)
    {
      match call {
        case Prepare => r := HandlerResult(true, Committed);
        case Commit => r := HandlerResult(true, Committed);
        case Abort =>
          if disposed {
            return HandlerResult(true, Aborted);
          }
          r := DisposeOnce(succeeds);
        case Compensate => r := HandlerResult(false, FailedRollback);
        case Dispose => r := DisposeOnce(succeeds);
      }
    }
  }

  class TransactionalEffectHandler {
    var prepared: bool
    var committed: bool
    var aborted: bool
    ghost var commits: nat
    ghost var aborts: nat

    ghost function State(): Handler
      reads this
    {
      TransactionalHandler(prepared, committed, aborted, commits, aborts)
    }

    constructor ()
      ensures State() == TransactionalHandler(false, false, false, 0, 0)
    {
      prepared, committed, aborted, commits, aborts := false, false, false, 0, 0;
    }

    method AbortOnce(succeeds: bool) returns (r: HandlerResult)
      modifies this
      ensures Reply(State(), r) == Step(old(State()), Abort, succeeds)
    {
      if aborted || committed {
        return HandlerResult(true, Aborted);
      }
      if succeeds {
        aborted := true;
        aborts := aborts + 1;
        return HandlerResult(true, Aborted);
      }
      r := HandlerResult(false, FailedRollback);
    }

    method Handle(call: Call, succeeds: bool) returns (r: HandlerResult)
      modifies this
      ensures Reply(State(), r) == Step(old(State()), call, succeeds)
    {
      match call {
        case Prepare =>
          if prepared || committed || aborted {
            return HandlerResult(true, Committed);
          }
          if succeeds {
            prepared := true;
            return HandlerResult(true, Committed);
          }
          r := HandlerResult(false, FailedRollback);
        case Commit =>
          if committed {
            return HandlerResult(true, Committed);
          }
          if !prepared {
            return HandlerResult(false, FailedRollback);
          }
          if succeeds {
            committed := true;
            commits := commits + 1;
            return HandlerResult(true, Committed);
          }
          r := HandlerResult(false, FailedRollback);
        case Abort => r := AbortOnce(succeeds);
        case Compensate => r := HandlerResult(false, FailedRollback);
        case Dispose =>
          if committed {
            return HandlerResult(true, Committed);
          }
          if !aborted {
            r := AbortOnce(succeeds);
            return;
          }
          r := HandlerResult(true, Aborted);
      }
    }
  }

  class CompensatableEffectHandler {
    var committed: bool
    var compensated: bool
    ghost var commits: nat
    ghost var compensations: nat

    ghost function State(): Handler
      reads this
    {
      CompensatableHandler(committed, compensated, commits, compensations)
    }

    constructor ()
      ensures State() == CompensatableHandler(false, false, 0, 0)
    {
      committed, compensated, commits, compensations := false, false, 0, 0;
    }

    method CompensateOnce(succeeds: bool) returns (r: HandlerResult)
      modifies this
      ensures Reply(State(), r) == Step(old(State()), Compensate, succeeds)
    {
      if compensated {
        return HandlerResult(true, Compensated);
      }
      if !committed {
        return HandlerResult(true, Aborted);
      }
      if succeeds {
        compensated := true;
        compensations := compensations + 1;
        return HandlerResult(true, Compensated);
      }
      r := HandlerResult(false, Quarantined);
    }

    method Handle(call: Call, succeeds: bool) returns (r: HandlerResult)
      modifies this
      ensures Reply(State(), r) == Step(old(State()), call, succeeds)
    {
      match call {
        case Prepare => r := HandlerResult(true, Committed);
        case Commit =>
          if committed {
            return HandlerResult(true, Committed);
          }
          if succeeds {
            committed := true;
            commits := commits + 1;
            return HandlerResult(true, Committed);
          }
          r := HandlerResult(false, FailedRollback);
        case Abort =>
          if !committed {
            return HandlerResult(true, Aborted);
          }
          r := CompensateOnce(succeeds);
        case Compensate => r := CompensateOnce(succeeds);
        case Dispose =>
          if committed && !compensated {
            r := CompensateOnce(succeeds);
            return;
          }
          r := HandlerResult(true, if compensated then Compensated else Aborted);
      }
    }
  }

  class IrreversibleEmissionEffectHandler {
    var withheld: bool
    var emitted: bool
    ghost var emissions: nat

    ghost function State(): Handler
      reads this
    {
      IrreversibleHandler(withheld, emitted, emissions)
    }

    constructor ()
      ensures State() == IrreversibleHandler(true, false, 0)
    {
      withheld, emitted, emissions := true, false, 0;
    }

    method Handle(call: Call, succeeds: bool) returns (r: HandlerResult)
      modifies this
      ensures Reply(State(), r) == Step(old(State()), call, succeeds)
    {
      match call {
        case Prepare => r := HandlerResult(true, Withheld);
        case Commit =>
          if emitted {
            return HandlerResult(true, Committed);
          }
          if succeeds {
            emitted := true;
            withheld := false;
            emissions := emissions + 1;
            return HandlerResult(true, Committed);
          }
          r := HandlerResult(false, FailedRollback);
        case Abort =>
          if emitted {
            return HandlerResult(false, Quarantined);
          }
          withheld := false;
          r := HandlerResult(true, Aborted);
        case Compensate =>
          if emitted {
            return HandlerResult(false, Quarantined);
          }
          r := HandlerResult(true, Withheld);
        case Dispose =>
          if withheld && !emitted {
            return HandlerResult(true, Withheld);
          }
          if emitted {
            return HandlerResult(true, Committed);
          }
          r := HandlerResult(true, Aborted);
      }
    }
  }

  // ---------------------------------------------------------------------------
  // Unwind reports
  // ---------------------------------------------------------------------------

  datatype Entry = Entry(effectClass: EffectClass, outcome: Outcome)

  datatype Report = Report(entries: seq<Entry>, allSucceeded: bool, quarantined: bool)

  predicate Succeeded(o: Outcome) {
    o == Aborted || o == Compensated || o == Withheld || o == Committed
  }

  predicate Unclean(o: Outcome) {
    o == Quarantined || o == FailedRollback
  }

  /** every and some over the entries. */
  function BuildUnwindReport(entries: seq<Entry>): Report {
    var allSucceeded := forall i :: 0 <= i < |entries| ==> Succeeded(entries[i].outcome);
    var quarantined := exists i :: 0 <= i < |entries| && Unclean(entries[i].outcome);
    Report(entries, allSucceeded && !quarantined, quarantined)
  }

  /** A report is either a success or quarantined. */
  lemma ReportIsEither(entries: seq<Entry>)
    ensures BuildUnwindReport(entries).allSucceeded <==> !BuildUnwindReport(entries).quarantined
  {
    if !BuildUnwindReport(entries).quarantined {
      forall i | 0 <= i < |entries| ensures Succeeded(entries[i].outcome) {
        assert !Unclean(entries[i].outcome);
      }
    }
  }

  // ---------------------------------------------------------------------------
  // Whole lives of a handler
  // ---------------------------------------------------------------------------

  function Fresh(c: EffectClass): Handler {
    match c
    case Revertible => RevertibleHandler(false, 0)
    case Transactional => TransactionalHandler(false, false, false, 0, 0)
    case Compensatable => CompensatableHandler(false, false, 0, 0)
    case Irreversible => IrreversibleHandler(true, false, 0)
  }

  datatype Attempt = Attempt(call: Call, succeeds: bool)

  /** A handler after a series of calls with their callbacks' fates. */
  function After(c: EffectClass, calls: seq<Attempt>): Handler {
    if calls == [] then Fresh(c)
    else
      var last := calls[|calls| - 1];
      Step(After(c, calls[..|calls| - 1]), last.call, last.succeeds).handler
  }

  function Count(b: bool): nat {
    if b then 1 else 0
  }

  /** The flags count the successful callbacks, none of which happens twice. */
  ghost predicate Counted(h: Handler) {
    match h
    case RevertibleHandler(disposed, disposals) => disposals == Count(disposed)
    case TransactionalHandler(prepared, committed, aborted, commits, aborts) =>
      commits == Count(committed) && aborts == Count(aborted) && (committed ==> prepared)
    case CompensatableHandler(committed, compensated, commits, compensations) =>
      commits == Count(committed) && compensations == Count(compensated) && (compensated ==> committed)
    case IrreversibleHandler(withheld, emitted, emissions) =>
      emissions == Count(emitted) && (emitted ==> !withheld)
  }

  lemma StepCounts(h: Handler, call: Call, succeeds: bool)
    requires Counted(h)
    ensures Counted(Step(h, call, succeeds).handler)
    ensures ClassOf(Step(h, call, succeeds).handler) == ClassOf(h)
  {
  }

  lemma {:induction false} AfterCounts(c: EffectClass, calls: seq<Attempt>)
    ensures Counted(After(c, calls)) && ClassOf(After(c, calls)) == c
  {
    if calls != [] {
      var last := calls[|calls| - 1];
      AfterCounts(c, calls[..|calls| - 1]);
      StepCounts(After(c, calls[..|calls| - 1]), last.call, last.succeeds);
    }
  }

  /** Nothing is left behind: reverted once, committed or aborted, net zero, or emitted at most once. */
  ghost predicate NothingLeft(h: Handler) {
    match h
    case RevertibleHandler(_, disposals) => disposals == 1
    case TransactionalHandler(_, _, _, commits, aborts) => commits + aborts >= 1
    case CompensatableHandler(_, _, commits, compensations) => commits - compensations == 0
    case IrreversibleHandler(_, _, emissions) => emissions <= 1
  }

  /** A clean outcome of dispose tells the truth, and an unclean one too. */
  lemma DisposeTellsTruth(h: Handler, succeeds: bool)
    requires Counted(h)
    ensures !Unclean(Step(h, Dispose, succeeds).result.outcome) <==> NothingLeft(Step(h, Dispose, succeeds).handler)
  {
  }

  /** Whatever was called before and failed, a clean dispose leaves nothing behind. */
  lemma CleanDisposeLeavesNothing(c: EffectClass, calls: seq<Attempt>, succeeds: bool)
    ensures
      var reply := Step(After(c, calls), Dispose, succeeds);
      !Unclean(reply.result.outcome) <==> NothingLeft(reply.handler)
  {
    AfterCounts(c, calls);
    DisposeTellsTruth(After(c, calls), succeeds);
  }

  /** A handler disposed cleanly stays as it is under further disposals. */
  lemma DisposeIsIdempotent(h: Handler, succeeds: bool, again: bool)
    requires Counted(h) && !Unclean(Step(h, Dispose, succeeds).result.outcome)
    ensures Step(Step(h, Dispose, succeeds).handler, Dispose, again).handler == Step(h, Dispose, succeeds).handler
  {
  }

  // ---------------------------------------------------------------------------
  // Commit after abort
  // ---------------------------------------------------------------------------

  ghost predicate Exclusive(h: Handler) {
    h.TransactionalHandler? ==> !(h.committed && h.aborted)
  }

  /** Only a successful commit of a prepared and aborted transaction makes it both. */
  lemma ExclusiveStepIff(h: Handler, call: Call, succeeds: bool)
    requires Exclusive(h)
    ensures Exclusive(Step(h, call, succeeds).handler)
       <==> !(h.TransactionalHandler? && call == Commit && succeeds && h.prepared && h.aborted)
  {
  }

  /** No commit is called once an abort or a disposal has been. */
  ghost predicate CommitsBeforeAborts(calls: seq<Attempt>) {
    forall i, j :: 0 <= i < j < |calls| && calls[j].call == Commit ==> calls[i].call != Abort && calls[i].call != Dispose
  }

  lemma {:induction false} AbortedByCall(calls: seq<Attempt>)
    ensures After(Transactional, calls).TransactionalHandler?
    ensures After(Transactional, calls).aborted ==> exists i :: 0 <= i < |calls| && (calls[i].call == Abort || calls[i].call == Dispose)
  {
    AfterCounts(Transactional, calls);
    if calls != [] {
      var n := |calls| - 1;
      AbortedByCall(calls[..n]);
      if After(Transactional, calls).aborted {
        if After(Transactional, calls[..n]).aborted {
          var i :| 0 <= i < n && (calls[..n][i].call == Abort || calls[..n][i].call == Dispose);
          assert calls[i] == calls[..n][i];
        } else {
          assert calls[n].call == Abort || calls[n].call == Dispose;
        }
      }
    }
  }

  /** Callers that stop committing once they abort never see a transaction that is both. */
  lemma {:induction false} ExclusiveWhenOrderly(calls: seq<Attempt>)
    requires CommitsBeforeAborts(calls)
    ensures Exclusive(After(Transactional, calls))
  {
    if calls != [] {
      var n := |calls| - 1;
      ExclusiveWhenOrderly(calls[..n]);
      AbortedByCall(calls[..n]);
      ExclusiveStepIff(After(Transactional, calls[..n]), calls[n].call, calls[n].succeeds);
    }
  }

  /** A successful abort or disposal is called at j. */
  predicate AbortAt(calls: seq<Attempt>, j: int) {
    0 <= j < |calls| && (calls[j].call == Abort || calls[j].call == Dispose) && calls[j].succeeds
  }

  /** The first successful preparation is called at i, and no abort has succeeded before. */
  predicate PreparedAt(calls: seq<Attempt>, i: int) {
    && 0 <= i < |calls| && calls[i] == Attempt(Prepare, true)
    && forall l :: 0 <= l < i ==> calls[l] != Attempt(Prepare, true) && !AbortAt(calls, l)
  }

  /** A successful commit is called at k, of a transaction prepared before. */
  ghost predicate CommitAt(calls: seq<Attempt>, k: int) {
    0 <= k < |calls| && calls[k] == Attempt(Commit, true) && exists i :: PreparedAt(calls, i) && i < k
  }

  /** An abort succeeds at j, before any such commit. */
  ghost predicate AbortBeforeCommits(calls: seq<Attempt>, j: int) {
    AbortAt(calls, j) && forall k :: CommitAt(calls, k) ==> j < k
  }

  lemma AtSnoc(front: seq<Attempt>, last: Attempt, i: int)
    ensures AbortAt(front + [last], i) <==>
      if i == |front| then (last.call == Abort || last.call == Dispose) && last.succeeds else AbortAt(front, i)
    ensures PreparedAt(front + [last], i) <==>
      if i == |front| then last == Attempt(Prepare, true) && forall l :: 0 <= l < i ==> front[l] != Attempt(Prepare, true) && !AbortAt(front, l)
      else PreparedAt(front, i)
  {
    var calls := front + [last];
    assert forall l :: 0 <= l < |front| ==> calls[l] == front[l];
    assert calls[|front|] == last;
    forall l | 0 <= l < |front| ensures AbortAt(calls, l) <==> AbortAt(front, l) {
    }
    if PreparedAt(calls, i) && i < |front| {
      assert forall l :: 0 <= l < i ==> front[l] == calls[l];
    }
  }

  lemma CommitSnoc(front: seq<Attempt>, last: Attempt, k: int)
    ensures CommitAt(front + [last], k) <==>
      if k == |front| then last == Attempt(Commit, true) && exists i :: PreparedAt(front, i) else CommitAt(front, k)
  {
    hide PreparedAt;
    var calls := front + [last];
    forall i ensures i < |front| ==> (PreparedAt(calls, i) <==> PreparedAt(front, i)) {
      AtSnoc(front, last, i);
    }
    PreparedWithin(front);
    assert 0 <= k < |front| ==> calls[k] == front[k];
  }

  lemma PreparedWithin(calls: seq<Attempt>)
    ensures forall i :: PreparedAt(calls, i) ==> 0 <= i < |calls|
    ensures forall i :: AbortAt(calls, i) ==> 0 <= i < |calls|
    ensures forall i :: CommitAt(calls, i) ==> 0 <= i < |calls|
  {
  }

  lemma AbortBeforeSnoc(front: seq<Attempt>, last: Attempt, j: int)
    ensures AbortBeforeCommits(front + [last], j) <==>
      if j == |front| then AbortAt(front + [last], j) && !exists k :: CommitAt(front, k) else AbortBeforeCommits(front, j)
  {
    var calls := front + [last];
    AtSnoc(front, last, j);
    PreparedWithin(front);
    forall k ensures CommitAt(calls, k) <==>
      if k == |front| then last == Attempt(Commit, true) && exists i :: PreparedAt(front, i) else CommitAt(front, k)
    {
      CommitSnoc(front, last, k);
    }
    hide CommitAt, PreparedAt;
  }

  ghost predicate SomePrepared(calls: seq<Attempt>) {
    exists i :: PreparedAt(calls, i)
  }

  ghost predicate SomeCommit(calls: seq<Attempt>) {
    exists k :: CommitAt(calls, k)
  }

  ghost predicate SomeAbort(calls: seq<Attempt>) {
    exists j :: AbortBeforeCommits(calls, j)
  }

  lemma SomeSnoc(front: seq<Attempt>, last: Attempt)
    ensures SomeCommit(front + [last]) <==> SomeCommit(front) || (last == Attempt(Commit, true) && SomePrepared(front))
    ensures SomeAbort(front + [last]) <==>
      SomeAbort(front) || ((last.call == Abort || last.call == Dispose) && last.succeeds && !SomeCommit(front))
  {
    var calls, n := front + [last], |front|;
    PreparedWithin(front);
    forall k ensures CommitAt(calls, k) <==>
      if k == n then last == Attempt(Commit, true) && exists i :: PreparedAt(front, i) else CommitAt(front, k)
    {
      CommitSnoc(front, last, k);
    }
    forall j ensures AbortBeforeCommits(calls, j) <==>
      if j == n then AbortAt(calls, j) && !exists k :: CommitAt(front, k) else AbortBeforeCommits(front, j)
    {
      AbortBeforeSnoc(front, last, j);
    }
    AtSnoc(front, last, n);
    assert !CommitAt(front, n) && !AbortBeforeCommits(front, n);
    hide CommitAt, PreparedAt, AbortBeforeCommits, AbortAt;
    if SomeCommit(front) {
      var k :| CommitAt(front, k);
      assert CommitAt(calls, k);
    }
    if last == Attempt(Commit, true) && SomePrepared(front) {
      assert CommitAt(calls, n);
    }
    if SomeAbort(front) {
      var j :| AbortBeforeCommits(front, j);
      assert AbortBeforeCommits(calls, j);
    }
    if (last.call == Abort || last.call == Dispose) && last.succeeds && !SomeCommit(front) {
      assert AbortBeforeCommits(calls, n);
    }
  }

  /** Before the first preparation nothing is committed, so the first abort counts. */
  lemma PreparedSnoc(front: seq<Attempt>, last: Attempt)
    ensures SomePrepared(front + [last]) <==>
      SomePrepared(front) || (last == Attempt(Prepare, true) && !SomeAbort(front))
  {
    var calls, n := front + [last], |front|;
    PreparedWithin(front);
    forall i ensures PreparedAt(calls, i) <==>
      if i == n then last == Attempt(Prepare, true) && forall l :: 0 <= l < i ==> front[l] != Attempt(Prepare, true) && !AbortAt(front, l)
      else PreparedAt(front, i)
    {
      AtSnoc(front, last, i);
    }
    if SomePrepared(front) {
      var i :| PreparedAt(front, i);
      assert PreparedAt(calls, i);
    } else {
      NotPrepared(front);
      if last == Attempt(Prepare, true) && !SomeAbort(front) {
        assert PreparedAt(calls, n);
      }
      if SomePrepared(calls) {
        var i :| PreparedAt(calls, i);
        assert i == n;
        assert forall j :: !AbortAt(front, j);
      }
    }
  }

  /** Without a preparation there is no commit, and a successful preparation comes after an abort. */
  lemma NotPrepared(calls: seq<Attempt>)
    requires !SomePrepared(calls)
    ensures !SomeCommit(calls)
    ensures SomeAbort(calls) <==> exists j :: AbortAt(calls, j)
    ensures !SomeAbort(calls) ==> forall l :: 0 <= l < |calls| ==> calls[l] != Attempt(Prepare, true)
  {
    assert forall k :: !CommitAt(calls, k);
    if j :| AbortAt(calls, j) {
      assert AbortBeforeCommits(calls, j);
    }
    if !SomeAbort(calls) {
      forall l | 0 <= l < |calls| ensures calls[l] != Attempt(Prepare, true) {
        NoneUpTo(calls, l);
      }
    }
  }

  lemma {:induction false} NoneUpTo(calls: seq<Attempt>, l: nat)
    requires !SomePrepared(calls) && !SomeAbort(calls) && l < |calls|
    requires forall j :: !AbortAt(calls, j)
    ensures forall i :: 0 <= i <= l ==> calls[i] != Attempt(Prepare, true)
  {
    if l > 0 {
      NoneUpTo(calls, l - 1);
    }
    assert !PreparedAt(calls, l);
  }

  /** The flags of a transactional handler, from the calls alone. */
  lemma {:induction false} FlagsAre(calls: seq<Attempt>)
    ensures var h := After(Transactional, calls);
      && h.TransactionalHandler?
      && (h.prepared <==> SomePrepared(calls)) && (h.committed <==> SomeCommit(calls)) && (h.aborted <==> SomeAbort(calls))
  {
    if calls == [] {
      PreparedWithin(calls);
      assert forall i :: !PreparedAt(calls, i) && !CommitAt(calls, i) && !AbortBeforeCommits(calls, i);
    } else {
      var n := |calls| - 1;
      var front, last := calls[..n], calls[n];
      FlagsAre(front);
      assert calls == front + [last];
      SomeSnoc(front, last);
      PreparedSnoc(front, last);
      CommittedPrepared(front);
      hide SomePrepared, SomeCommit, SomeAbort;
    }
  }

  lemma CommittedPrepared(calls: seq<Attempt>)
    ensures SomeCommit(calls) ==> SomePrepared(calls)
  {
  }

  /**
    After any calls a transaction is both aborted and committed iff an abort or a disposal
    succeeded before any commit of the prepared transaction did, and such a commit followed.
   */
  lemma BothIff(calls: seq<Attempt>)
    ensures !Exclusive(After(Transactional, calls))
       <==> exists j, k :: AbortBeforeCommits(calls, j) && CommitAt(calls, k)
  {
    FlagsAre(calls);
    hide After, AbortBeforeCommits, CommitAt;
  }

  /** A successful commit is called at k. */
  predicate SuccessAt(calls: seq<Attempt>, k: int) {
    0 <= k < |calls| && calls[k] == Attempt(Commit, true)
  }

  /** The effect is done: committed and perhaps compensated since, or emitted. */
  predicate Effective(h: Handler) {
    (h.CompensatableHandler? && h.committed) || (h.IrreversibleHandler? && h.emitted)
  }

  lemma {:induction false} EffectiveIff(c: EffectClass, calls: seq<Attempt>)
    requires c == Irreversible || c == Compensatable
    ensures ClassOf(After(c, calls)) == c
    ensures Effective(After(c, calls)) <==> exists k :: SuccessAt(calls, k)
  {
    if calls != [] {
      var n := |calls| - 1;
      EffectiveIff(c, calls[..n]);
      if calls[n] == Attempt(Commit, true) {
        assert SuccessAt(calls, n);
      }
      if k :| SuccessAt(calls[..n], k) {
        assert SuccessAt(calls, k);
      }
      if k :| SuccessAt(calls, k) && k < n {
        assert SuccessAt(calls[..n], k);
      }
    }
  }

  /** Call j is an abort that is answered as aborted. */
  predicate AnsweredAborted(c: EffectClass, calls: seq<Attempt>, j: int) {
    0 <= j < |calls| && calls[j].call == Abort
    && Step(After(c, calls[..j]), Abort, calls[j].succeeds).result == HandlerResult(true, Aborted)
  }

  lemma AnsweredAbortedIff(c: EffectClass, calls: seq<Attempt>, j: int)
    requires c == Irreversible || c == Compensatable
    ensures AnsweredAborted(c, calls, j) <==>
      0 <= j < |calls| && calls[j].call == Abort && forall k :: SuccessAt(calls, k) ==> j <= k
  {
    if 0 <= j < |calls| {
      EffectiveIff(c, calls[..j]);
      assert forall k :: SuccessAt(calls[..j], k) <==> k < j && SuccessAt(calls, k);
    }
  }

  /**
    After any calls an emission, or a compensatable effect, that was reported as aborted has taken
    place all the same iff an abort was called before any successful commit and such a commit followed.
   */
  lemma EffectiveAfterAbortIff(c: EffectClass, calls: seq<Attempt>)
    requires c == Irreversible || c == Compensatable
    ensures (exists j :: AnsweredAborted(c, calls, j)) && Effective(After(c, calls))
       <==> exists j, k :: 0 <= j < k && SuccessAt(calls, k) && calls[j].call == Abort && forall l :: SuccessAt(calls, l) ==> j < l
  {
    EffectiveIff(c, calls);
    forall j ensures AnsweredAborted(c, calls, j) <==>
      0 <= j < |calls| && calls[j].call == Abort && forall k :: SuccessAt(calls, k) ==> j <= k
    {
      AnsweredAbortedIff(c, calls, j);
    }
    hide AnsweredAborted, After, Effective;
    if j :| AnsweredAborted(c, calls, j) && exists k :: SuccessAt(calls, k) {
      var k :| SuccessAt(calls, k);
      assert forall l :: SuccessAt(calls, l) ==> j < l;
    }
    if j, k :| 0 <= j < k && SuccessAt(calls, k) && calls[j].call == Abort && forall l :: SuccessAt(calls, l) ==> j < l {
      assert AnsweredAborted(c, calls, j);
    }
  }

  /** prepare, abort and commit, all successful: the transaction is aborted and then committed. */
  lemma AbortThenCommit()
    ensures
      var calls := [Attempt(Prepare, true), Attempt(Abort, true), Attempt(Commit, true)];
      After(Transactional, calls) == TransactionalHandler(true, true, true, 1, 1)
  {
    var calls := [Attempt(Prepare, true), Attempt(Abort, true), Attempt(Commit, true)];
    assert calls[..2] == [Attempt(Prepare, true), Attempt(Abort, true)];
    assert calls[..2][..1] == [Attempt(Prepare, true)];
    assert calls[..1][..0] == [];
    assert After(Transactional, []) == Fresh(Transactional);
    assert After(Transactional, calls[..1]) == TransactionalHandler(true, false, false, 0, 0);
    assert After(Transactional, calls[..2]) == TransactionalHandler(true, false, true, 0, 1);
  }
}
