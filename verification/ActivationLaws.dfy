/** What a transaction does to each fiber, phase by phase, and in which order. */
module ActivationLaws {
  import opened Text
  import opened Lifecycle
  import opened Resolver
  import opened Activation
  import M = Manifests

  // ---------------------------------------------------------------------------
  // One fiber
  // ---------------------------------------------------------------------------

  /** A drain moves an active fiber only; it waits only where it has moved one that is busy. */
  lemma DrainIs(f: FiberState)
    ensures DrainFiber(f) == if f.phase == Active then f.(phase := Draining) else f
    ensures DrainReply(f).timedOut <==> f.phase == Active && f.busy && f.drainTimesOut
    ensures DrainReply(f).drained <==> !f.busy || (f.phase == Active && !f.drainTimesOut)
  {
  }

  /**
    A dispose ends in disposed or quarantined for a fiber from active to unloading, quarantines a
    failed one whose unwinding fails, and otherwise leaves the phase as it is.
   */
  lemma DisposeIs(f: FiberState)
    ensures f.disposed ==> DisposeFiber(f) == f
    ensures !f.disposed ==>
      DisposeFiber(f) == f.(
        disposed := true,
        phase := if f.phase in {Active, Draining, Unloading} then (if f.unwindFails then Quarantined else Phase.Disposed)
                 else if f.phase == Failed && f.unwindFails then Quarantined
                 else f.phase)
    ensures DisposeReply(f).quarantined <==> f.unwindFails && !f.disposed
  {
  }

  lemma TransitionIs(f: FiberState, to: Phase)
    ensures TransitionFiber(f, to) == if Allowed(f.phase, to) then f.(phase := to) else f
  {
    AllowedIff(f.phase, to);
  }

  lemma ObstructsIff(f: FiberState)
    ensures Obstructs(f) <==> f.unwindFails || (f.phase == Active && f.busy && f.drainTimesOut)
    ensures Undrainable(f) <==> f.phase != Active && f.busy
  {
  }

  // ---------------------------------------------------------------------------
  // All fibers
  // ---------------------------------------------------------------------------

  /** The components in the order of their ids and versions, `@` between them. */
  ghost predicate InOrder(components: seq<Identity>, order: seq<Identity>) {
    && multiset(order) == multiset(components)
    && forall i, j :: 0 <= i < j < |order| ==>
         AtMost(order[i].componentId + [64] + order[i].version, order[j].componentId + [64] + order[j].version)
  }

  /** A fiber is created for each component, in that order. */
  lemma CreatedAre(components: seq<Identity>, create: Identity -> FiberState) returns (order: seq<Identity>)
    ensures InOrder(components, order)
    ensures |CreateAll(components, create)| == |order|
    ensures forall i :: 0 <= i < |order| ==> CreateAll(components, create)[i] == create(order[i])
  {
    order := SortBy(components, IdentityKey);
    SortBySorts(components, IdentityKey);
    forall i, j | 0 <= i < j < |order|
      ensures AtMost(order[i].componentId + [64] + order[i].version, order[j].componentId + [64] + order[j].version)
    {
      assert AtMost(IdentityKey(order[i]), IdentityKey(order[j]));
    }
  }

  lemma {:induction false} MovedIs(fibers: seq<FiberState>, i: nat, to: Phase)
    requires i <= |fibers|
    ensures MoveFrom(fibers, i, to).1 <==> forall k :: i <= k < |fibers| ==> Allowed(fibers[k].phase, to)
    ensures MoveFrom(fibers, i, to).1 ==>
      forall k :: 0 <= k < |fibers| ==> MoveFrom(fibers, i, to).0[k] == if k < i then fibers[k] else fibers[k].(phase := to)
    decreases |fibers| - i
  {
    if i < |fibers| {
      AllowedIff(fibers[i].phase, to);
      TransitionIs(fibers[i], to);
      var more := fibers[i := TransitionFiber(fibers[i], to)];
      MovedIs(more, i + 1, to);
      hide Allowed;
      assert forall k :: i + 1 <= k < |fibers| ==> more[k] == fibers[k];
      assert Transition(fibers[i].phase, to).Moved? <==> Allowed(fibers[i].phase, to) by {
        NotToItself(to);
      }
    }
  }

  lemma NotToItself(p: Phase)
    ensures !Allowed(p, p)
  {
  }

  /** Prepare succeeds iff every fiber is created as declared; all of them are active then, in order. */
  lemma PreparesIff(config: Config, t: Txn) returns (order: seq<Identity>)
    requires t.state == Idle
    ensures InOrder(config.proposed, order)
    ensures Prepare(config, t).state == Preparing <==>
      forall id :: id in order ==> config.createNew(id).phase == Declared
    ensures Prepare(config, t).state == Preparing ==>
      && |Prepare(config, t).newFibers| == |order|
      && forall i :: 0 <= i < |order| ==> Prepare(config, t).newFibers[i] == config.createNew(order[i]).(phase := Active)
  {
    order := CreatedAre(config.proposed, config.createNew);
    hide CreateAll, InOrder, Abort, MoveFrom;
    var created := CreateAll(config.proposed, config.createNew);
    var waiting := MoveFrom(created, 0, Waiting);
    var loading := MoveFrom(waiting.0, 0, Loading);
    var active := MoveFrom(loading.0, 0, Active);
    MovedIs(created, 0, Waiting);
    MovedIs(waiting.0, 0, Loading);
    MovedIs(loading.0, 0, Active);
    var u := t.(state := Preparing);
    AbortEnds(u.(newFibers := waiting.0));
    AbortEnds(u.(newFibers := loading.0));
    AbortEnds(u.(newFibers := active.0));
    assert forall i :: 0 <= i < |order| ==> order[i] in order;
  }

  // ---------------------------------------------------------------------------
  // Commit
  // ---------------------------------------------------------------------------

  /** The first n fibers have been drained, from the last to the first, with these answers. */
  ghost predicate DrainedBackwards(before: seq<FiberState>, n: nat, after: seq<FiberState>, results: seq<DrainResult>) {
    && n <= |before| == |after| && |results| == n
    && (forall k :: 0 <= k < n ==> results[k] == DrainReply(before[n - 1 - k]))
    && (forall k :: 0 <= k < |before| ==> after[k] == if k < n then DrainFiber(before[k]) else before[k])
  }

  lemma {:induction false} DrainPriorIs(t: Txn, i: nat) returns (results: seq<DrainResult>)
    requires t.state == Committing && i <= |t.priorFibers|
    ensures var r := DrainPrior(t, i);
      r.state == Committing ==>
        && r.drainResults == t.drainResults + results
        && DrainedBackwards(t.priorFibers, i, r.priorFibers, results)
        && r == t.(priorFibers := r.priorFibers, drainResults := r.drainResults)
    decreases i
  {
    hide DrainFiber, DrainReply, Abort;
    results := [];
    if i > 0 {
      var f := t.priorFibers[i - 1];
      var u := t.(priorFibers := t.priorFibers[i - 1 := DrainFiber(f)], drainResults := t.drainResults + [DrainReply(f)]);
      if DrainReply(f).timedOut {
        AbortEnds(u);
      } else {
        var rest := DrainPriorIs(u, i - 1);
        results := [DrainReply(f)] + rest;
      }
    }
  }

  ghost predicate UnwoundBackwards(before: seq<FiberState>, n: nat, after: seq<FiberState>, reports: seq<Unwound>) {
    && n <= |before| == |after| && |reports| == n
    && (forall k :: 0 <= k < n ==> reports[k] == DisposeReply(before[n - 1 - k]) && !reports[k].quarantined)
    && (forall k :: 0 <= k < |before| ==> after[k] == if k < n then DisposeFiber(before[k]) else before[k])
  }

  lemma {:induction false} UnwindPriorIs(t: Txn, i: nat) returns (reports: seq<Unwound>)
    requires t.state == Committing && i <= |t.priorFibers|
    ensures var r := UnwindPrior(t, i);
      r.state == TxnCommitted ==>
        && r.unwindReports == t.unwindReports + reports
        && UnwoundBackwards(t.priorFibers, i, r.priorFibers, reports)
        && r == t.(state := TxnCommitted, priorFibers := r.priorFibers, unwindReports := r.unwindReports)
    decreases i
  {
    hide DisposeFiber, DisposeReply;
    reports := [];
    if i > 0 {
      var f := t.priorFibers[i - 1];
      var u := t.(priorFibers := t.priorFibers[i - 1 := DisposeFiber(f)], unwindReports := t.unwindReports + [DisposeReply(f)]);
      if !DisposeReply(f).quarantined {
        var rest := UnwindPriorIs(u, i - 1);
        reports := [DisposeReply(f)] + rest;
      }
    }
  }

  /**
    A commit that succeeds has created the prior fibers in order, drained every one of them and
    then disposed every one of them, the last first.
   */
  lemma CommittedIs(config: Config, t: Txn) returns (order: seq<Identity>, drained: seq<FiberState>)
    requires t.state == Preparing && t.drainResults == [] && t.unwindReports == []
    requires config.prior.Some? && Commit(config, t).state == TxnCommitted
    ensures InOrder(config.prior.value, order)
    ensures var r := Commit(config, t);
      && r.newFibers == t.newFibers
      && DrainedBackwards(Map(order, config.createPrior), |order|, drained, r.drainResults)
      && UnwoundBackwards(drained, |order|, r.priorFibers, r.unwindReports)
  {
    order := CreatedAre(config.prior.value, config.createPrior);
    hide CreateAll, InOrder, DrainedBackwards, UnwoundBackwards, UnwindPrior, DrainPrior;
    var prior := CreateAll(config.prior.value, config.createPrior);
    assert prior == Map(order, config.createPrior);
    var u := t.(state := Committing, priorFibers := prior);
    var results := DrainPriorIs(u, |prior|);
    var v := DrainPrior(u, |prior|);
    if v.state == Committing {
      DrainedLength(prior, |prior|, v.priorFibers, results);
      var reports := UnwindPriorIs(v, |v.priorFibers|);
      drained := v.priorFibers;
      assert [] + results == results && [] + reports == reports;
    } else {
      DrainPriorEnds(u, |prior|);
      drained := [];
    }
  }

  lemma DrainedLength(before: seq<FiberState>, n: nat, after: seq<FiberState>, results: seq<DrainResult>)
    requires DrainedBackwards(before, n, after, results)
    ensures |after| == |before|
  {
  }
}
