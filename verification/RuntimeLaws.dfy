/** What each event does to a fiber's operations and phase, phase by phase. */
module RuntimeLaws {
  import opened Lifecycle
  import opened Quiescence

  /** The executions recorded under some id. */
  ghost function Recordings(s: Runtime): set<Token> {
    set id | id in s.operations :: s.operations[id]
  }

  /** A call is let in by an active fiber only, under a token of its own. */
  lemma AdmitIs(s: Runtime, id: Id)
    ensures Step(s, Admit(id)) ==
      if s.phase == Active then s.(starting := s.starting + [Start(token := s.next, id := id)], next := s.next + 1) else s
  {
  }

  /** From active, draining or unloading a cancellation signals every recorded execution; otherwise none. */
  lemma CancelIs(s: Runtime)
    ensures Step(s, Cancel) ==
      if s.phase in {Active, Draining, Unloading} then s.(cancelled := s.cancelled + Recordings(s)) else s
  {
    assert s.operations.Values == Recordings(s);
  }

  /** A disposal goes to unloading from active and draining, and signals every recorded execution from unloading on. */
  lemma DisposeIs(s: Runtime, quarantined: bool)
    ensures Step(s, DisposeStart) ==
      if s.phase in {Active, Draining, Unloading} then s.(phase := Unloading, cancelled := s.cancelled + Recordings(s)) else s
    ensures Step(s, DisposeEnd(quarantined)) == s.(phase :=
      if quarantined && s.phase in {Active, Draining, Unloading, Failed} then Quarantined
      else if !quarantined && s.phase == Unloading then Phase.Disposed
      else s.phase)
  {
    assert s.operations.Values == Recordings(s);
  }

  /** A drain moves an active fiber only, and polls then if an operation is recorded. */
  lemma DrainIs(s: Runtime)
    ensures Step(s, DrainStart) ==
      if s.phase != Active then s
      else if |s.operations| == 0 then s.(phase := Draining)
      else s.(phase := Draining, polling := s.polling + 1)
    ensures ReportsDrained(s, DrainStart) <==> |s.operations| == 0
    ensures ReportsDrained(s, Poll) <==> |s.operations| == 0 && s.polling > 0 && s.starting == []
    ensures forall e :: ReportsDrained(s, e) ==> e in {DrainStart, Poll}
    ensures Step(s, Poll) == if ReportsDrained(s, Poll) then s.(polling := s.polling - 1) else s
  {
  }
}
