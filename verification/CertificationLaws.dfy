/** What a certification decision means, against the raw list of evidence. */
module CertificationLaws {
  import opened Text
  import opened Lists
  import opened Certification

  // ---------------------------------------------------------------------------
  // The latest evidence
  // ---------------------------------------------------------------------------

  /** Evidence i of the list counts for the requirement. */
  ghost predicate Bears(input: Input, r: Str, i: int) {
    0 <= i < |input.evidence| && Counts(input.candidateId, input.cut, input.evidence[i]) && r in input.evidence[i].appliesTo
  }

  /** It has the highest sequence of all that count, and is the first with it. */
  ghost predicate IsLatest(input: Input, r: Str, i: int) {
    && Bears(input, r, i) && SequenceOf(input.evidence[i]) >= 0
    && (forall j :: Bears(input, r, j) ==> SequenceOf(input.evidence[j]) <= SequenceOf(input.evidence[i]))
    && (forall j :: Bears(input, r, j) && j < i ==> SequenceOf(input.evidence[j]) < SequenceOf(input.evidence[i]))
  }

  lemma {:induction false} CopiesAre(e: Evidence, appliesTo: seq<Str>, r: Str)
    ensures Copies(e, appliesTo, r) != [] <==> r in appliesTo
    ensures forall c :: c in Copies(e, appliesTo, r) ==> c == e
  {
    if appliesTo != [] {
      CopiesAre(e, appliesTo[..|appliesTo| - 1], r);
    }
  }

  lemma {:induction false} BestConcat(a: seq<Evidence>, b: seq<Evidence>, e: Evidence)
    requires forall c :: c in b ==> c == e
    ensures Best(a + b) == if b != [] && SequenceOf(e) > Best(a).1 then (Some(e), SequenceOf(e)) else Best(a)
  {
    if b == [] {
      assert a + b == a;
    } else {
      var n := |b| - 1;
      assert (a + b)[..|a| + n] == a + b[..n];
      assert b[n] in b && forall c :: c in b[..n] ==> c in b;
      BestConcat(a, b[..n], e);
      assert (a + b)[|a + b| - 1] == b[n] == e;
    }
  }

  ghost function Truncated(input: Input, n: nat): Input
    requires n <= |input.evidence|
  {
    input.(evidence := input.evidence[..n])
  }

  lemma BearsTruncated(input: Input, r: Str, n: nat, i: int)
    requires n < |input.evidence|
    ensures Bears(Truncated(input, n + 1), r, i) <==>
      Bears(Truncated(input, n), r, i)
      || (i == n && Counts(input.candidateId, input.cut, input.evidence[n]) && r in input.evidence[n].appliesTo)
  {
  }

  /** The running best over the first n is the latest among them, or there is none. */
  lemma {:induction false} BestIsLatest(input: Input, r: Str, n: nat) returns (i: int)
    requires n <= |input.evidence|
    ensures
      var best := Best(Relevant(input.candidateId, input.cut, input.evidence[..n], r));
      && (best.0.None? ==> best.1 == -1 && forall j :: Bears(Truncated(input, n), r, j) ==> SequenceOf(input.evidence[j]) <= -1)
      && (best.0.Some? ==> IsLatest(Truncated(input, n), r, i) && input.evidence[i] == best.0.value && best.1 == SequenceOf(input.evidence[i]))
  {
    if n == 0 {
      i := -1;
    } else {
      var e := input.evidence[n - 1];
      i := BestIsLatest(input, r, n - 1);
      assert input.evidence[..n][..n - 1] == input.evidence[..n - 1];
      var before := Relevant(input.candidateId, input.cut, input.evidence[..n - 1], r);
      CopiesAre(e, e.appliesTo, r);
      forall j ensures Bears(Truncated(input, n), r, j) <==>
        Bears(Truncated(input, n - 1), r, j) || (j == n - 1 && Counts(input.candidateId, input.cut, e) && r in e.appliesTo)
      {
        BearsTruncated(input, r, n - 1, j);
      }
      hide Copies, Relevant, Counts, Bears;
      if Counts(input.candidateId, input.cut, e) {
        BestConcat(before, Copies(e, e.appliesTo, r), e);
        RelevantNext(input, r, n);
        if r in e.appliesTo && SequenceOf(e) > Best(before).1 {
          i := n - 1;
        }
      } else {
        RelevantNext(input, r, n);
      }
    }
  }

  lemma RelevantNext(input: Input, r: Str, n: nat)
    requires 0 < n <= |input.evidence|
    ensures
      var e := input.evidence[n - 1];
      Relevant(input.candidateId, input.cut, input.evidence[..n], r) ==
      if Counts(input.candidateId, input.cut, e) then Relevant(input.candidateId, input.cut, input.evidence[..n - 1], r) + Copies(e, e.appliesTo, r)
      else Relevant(input.candidateId, input.cut, input.evidence[..n - 1], r)
  {
    assert input.evidence[..n][..n - 1] == input.evidence[..n - 1];
  }

  lemma {:induction false} RelevantExists(input: Input, r: Str, n: nat)
    requires n <= |input.evidence|
    ensures Relevant(input.candidateId, input.cut, input.evidence[..n], r) != [] <==> exists i :: Bears(Truncated(input, n), r, i)
  {
    if n > 0 {
      var e := input.evidence[n - 1];
      RelevantExists(input, r, n - 1);
      RelevantNext(input, r, n);
      CopiesAre(e, e.appliesTo, r);
      forall j ensures Bears(Truncated(input, n), r, j) <==>
        Bears(Truncated(input, n - 1), r, j) || (j == n - 1 && Counts(input.candidateId, input.cut, e) && r in e.appliesTo)
      {
        BearsTruncated(input, r, n - 1, j);
      }
      hide Copies, Relevant, Counts, Bears;
      if Counts(input.candidateId, input.cut, e) && r in e.appliesTo {
        assert Bears(Truncated(input, n), r, n - 1);
      }
      var before := Truncated(input, n - 1);
      if i :| Bears(before, r, i) {
        assert Bears(Truncated(input, n), r, i);
      }
    }
  }

  /** The status of a requirement is that of its latest evidence. */
  lemma StatusIsLatest(input: Input, req: Requirement, i: int)
    requires IsLatest(input, req.requirementId, i)
    ensures SelectionFor(input, req) ==
      Selection(req.requirementId, StatusOf(input.evidence[i], input.now), Some(input.evidence[i].evidenceId), Some(input.evidence[i].bindingHash))
  {
    var r, n := req.requirementId, |input.evidence|;
    assert input.evidence[..n] == input.evidence && Truncated(input, n) == input;
    var k := BestIsLatest(input, r, n);
    RelevantExists(input, r, n);
    LatestUnique(input, r, i);
    assert Bears(input, r, i);
    hide Relevant, Counts, Best;
    assert Best(Relevant(input.candidateId, input.cut, input.evidence, r)).0.Some?;
  }

  /** Without evidence that counts a requirement is incomplete, or not applicable when optional. */
  lemma StatusWithoutEvidence(input: Input, req: Requirement)
    requires forall i :: !IsLatest(input, req.requirementId, i)
    ensures SelectionFor(input, req) == Selection(
      req.requirementId,
      if !req.mandatory && (forall i :: !Bears(input, req.requirementId, i)) then NotApplicable else Incomplete,
      None, None)
  {
    var r, n := req.requirementId, |input.evidence|;
    assert input.evidence[..n] == input.evidence && Truncated(input, n) == input;
    var k := BestIsLatest(input, r, n);
    RelevantExists(input, r, n);
    hide Relevant, Counts, Best;
  }

  /** The latest evidence has no error and is neither stale nor expired. */
  ghost predicate Satisfied(input: Input, req: Requirement) {
    exists i :: IsLatest(input, req.requirementId, i)
      && !HasFailDiagnostic(input.evidence[i]) && !IsStale(input.evidence[i], input.now) && IsFresh(input.evidence[i], input.now)
  }

  lemma PassIffSatisfied(input: Input, req: Requirement)
    ensures SelectionFor(input, req).status == Pass <==> Satisfied(input, req)
    ensures req.mandatory ==> SelectionFor(input, req).status != NotApplicable
  {
    if i :| IsLatest(input, req.requirementId, i) {
      StatusIsLatest(input, req, i);
      LatestUnique(input, req.requirementId, i);
      hide IsLatest, SelectionFor;
    } else {
      StatusWithoutEvidence(input, req);
    }
  }

  lemma LatestUnique(input: Input, r: Str, i: int)
    requires IsLatest(input, r, i)
    ensures forall j :: IsLatest(input, r, j) ==> j == i
  {
    forall j | IsLatest(input, r, j) ensures j == i {
      assert Bears(input, r, j) && Bears(input, r, i);
    }
  }

  // ---------------------------------------------------------------------------
  // Decisions
  // ---------------------------------------------------------------------------

  ghost predicate WithinLimits(input: Input) {
    |input.requirements| <= MAX_REQUIREMENTS && |input.evidence| <= MAX_EVIDENCE
  }

  function IdOf(r: Requirement): Str {
    r.requirementId
  }

  /** With distinct ids the lookup finds the requirement itself. */
  lemma {:induction false} FoundIsOwn(requirements: seq<Requirement>, i: nat)
    requires DistinctKeys(requirements, IdOf) && i < |requirements|
    ensures FoundMandatory(requirements, requirements[i].requirementId) <==> requirements[i].mandatory
  {
    if i > 0 {
      assert IdOf(requirements[0]) != IdOf(requirements[i]);
      assert requirements[1..][i - 1] == requirements[i];
      FoundIsOwn(requirements[1..], i - 1);
    }
  }

  lemma {:induction false} MandatoryStatusIn(input: Input, requirements: seq<Requirement>, s: Status)
    ensures s in MandatoryStatuses(input, requirements) <==>
      exists i :: 0 <= i < |requirements| && FoundMandatory(input.requirements, requirements[i].requirementId)
        && SelectionFor(input, requirements[i]).status == s
  {
    hide SelectionFor, FoundMandatory;
    if requirements != [] {
      var n := |requirements| - 1;
      var front := requirements[..n];
      MandatoryStatusIn(input, front, s);
      assert forall i :: 0 <= i < n ==> front[i] == requirements[i];
      assert s in MandatoryStatuses(input, requirements) <==>
        s in MandatoryStatuses(input, front)
        || (FoundMandatory(input.requirements, requirements[n].requirementId) && SelectionFor(input, requirements[n]).status == s);
      if i :| 0 <= i < n && FoundMandatory(input.requirements, front[i].requirementId) && SelectionFor(input, front[i]).status == s {
        assert FoundMandatory(input.requirements, requirements[i].requirementId) && SelectionFor(input, requirements[i]).status == s;
      }
    }
  }

  /** With distinct ids the aggregated statuses are those of the mandatory requirements. */
  lemma OwnStatusIn(input: Input, s: Status)
    requires DistinctKeys(input.requirements, IdOf)
    ensures s in MandatoryStatuses(input, input.requirements) <==>
      exists i :: 0 <= i < |input.requirements| && input.requirements[i].mandatory && SelectionFor(input, input.requirements[i]).status == s
  {
    var reqs := input.requirements;
    MandatoryStatusIn(input, reqs, s);
    forall i | 0 <= i < |reqs| ensures FoundMandatory(reqs, reqs[i].requirementId) <==> reqs[i].mandatory {
      FoundIsOwn(reqs, i);
    }
    hide SelectionFor, FoundMandatory, MandatoryStatuses;
    if i :| 0 <= i < |reqs| && reqs[i].mandatory && SelectionFor(input, reqs[i]).status == s {
      assert FoundMandatory(reqs, reqs[i].requirementId);
    }
  }

  /** A decision passes iff there is a mandatory requirement and the latest evidence of each one is in order. */
  lemma PassIff(input: Input, d: Decision)
    requires Decides(input, d) && WithinLimits(input) && DistinctKeys(input.requirements, IdOf)
    ensures d.status == Pass <==>
      HasMandatory(input.requirements) && forall i :: 0 <= i < |input.requirements| && input.requirements[i].mandatory ==> Satisfied(input, input.requirements[i])
  {
    AllPassIff(input);
    if HasMandatory(input.requirements) {
      var k :| 0 <= k < |input.requirements| && input.requirements[k].mandatory;
      OwnStatusIn(input, SelectionFor(input, input.requirements[k]).status);
      hide SelectionFor, Satisfied, MandatoryStatuses, FoundMandatory, Uncovered, Results, SelectedFrom, SortBy, IsWorst;
      WorstIsPassIff(MandatoryStatuses(input, input.requirements), d.status);
    }
  }

  /** The aggregated statuses all pass iff every mandatory requirement is satisfied. */
  lemma AllPassIff(input: Input)
    requires DistinctKeys(input.requirements, IdOf)
    ensures (forall s :: s in MandatoryStatuses(input, input.requirements) ==> s == Pass) <==>
      forall i :: 0 <= i < |input.requirements| && input.requirements[i].mandatory ==> Satisfied(input, input.requirements[i])
    ensures NotApplicable !in MandatoryStatuses(input, input.requirements)
  {
    var reqs, statuses := input.requirements, MandatoryStatuses(input, input.requirements);
    forall s ensures s in statuses <==> exists i :: 0 <= i < |reqs| && reqs[i].mandatory && SelectionFor(input, reqs[i]).status == s {
      OwnStatusIn(input, s);
    }
    forall i | 0 <= i < |reqs|
      ensures SelectionFor(input, reqs[i]).status == Pass <==> Satisfied(input, reqs[i])
      ensures reqs[i].mandatory ==> SelectionFor(input, reqs[i]).status != NotApplicable
    {
      PassIffSatisfied(input, reqs[i]);
    }
    hide SelectionFor, Satisfied, MandatoryStatuses;
    forall i | 0 <= i < |reqs| && reqs[i].mandatory ensures SelectionFor(input, reqs[i]).status in statuses {
    }
  }

  lemma WorstIsPassIff(statuses: seq<Status>, worst: Status)
    requires statuses != [] && NotApplicable !in statuses && IsWorst(statuses, worst)
    ensures worst == Pass <==> forall s :: s in statuses ==> s == Pass
  {
    if forall s :: s in statuses ==> s == Pass {
      assert statuses[0] in statuses;
    } else {
      var s :| s in statuses && s != Pass;
      assert Precedence(s) > Precedence(Pass);
    }
  }

  /** The uncovered requirements are the mandatory ones that do not pass, and the covered ones are the rest. */
  lemma {:induction false} CoverageAddsUp(input: Input, requirements: seq<Requirement>)
    ensures |Uncovered(input, requirements)| + |Covered(input, requirements)| == |requirements|
    ensures forall r :: r in Uncovered(input, requirements) <==>
      exists i :: 0 <= i < |requirements| && requirements[i].requirementId == r && requirements[i].mandatory && !Satisfied(input, requirements[i])
  {
    if requirements != [] {
      var n := |requirements| - 1;
      var front := requirements[..n];
      CoverageAddsUp(input, front);
      PassIffSatisfied(input, requirements[n]);
      hide SelectionFor, Satisfied;
      forall r ensures r in Uncovered(input, requirements) <==>
        exists i :: 0 <= i < |requirements| && requirements[i].requirementId == r && requirements[i].mandatory && !Satisfied(input, requirements[i])
      {
        assert forall i :: 0 <= i < n ==> front[i] == requirements[i];
        if i :| 0 <= i < n && front[i].requirementId == r && front[i].mandatory && !Satisfied(input, front[i]) {
          assert requirements[i].requirementId == r && requirements[i].mandatory && !Satisfied(input, requirements[i]);
        }
      }
    }
  }

  /** The requirements that are optional or satisfied. */
  ghost function Covered(input: Input, requirements: seq<Requirement>): seq<Requirement> {
    if requirements == [] then []
    else
      var n := |requirements| - 1;
      Covered(input, requirements[..n]) + (if requirements[n].mandatory && !Satisfied(input, requirements[n]) then [] else [requirements[n]])
  }

  // ---------------------------------------------------------------------------
  // Evidence that does not matter
  // ---------------------------------------------------------------------------

  lemma {:induction false} RelevantConcat(candidateId: Str, cut: int, a: seq<Evidence>, b: seq<Evidence>, r: Str)
    ensures Relevant(candidateId, cut, a + b, r) == Relevant(candidateId, cut, a, r) + Relevant(candidateId, cut, b, r)
  {
    if b == [] {
      assert a + b == a;
    } else {
      var n := |b| - 1;
      assert (a + b)[..|a| + n] == a + b[..n];
      RelevantConcat(candidateId, cut, a, b[..n], r);
      var e := b[n];
      if Counts(candidateId, cut, e) {
        Regroup(Relevant(candidateId, cut, a, r), Relevant(candidateId, cut, b[..n], r), Copies(e, e.appliesTo, r));
      }
    }
  }

  lemma {:induction false} SameResults(a: Input, b: Input, requirements: seq<Requirement>)
    requires a.now == b.now && a.requirements == b.requirements
    requires forall r :: Relevant(a.candidateId, a.cut, a.evidence, r) == Relevant(b.candidateId, b.cut, b.evidence, r)
    ensures Results(a, requirements) == Results(b, requirements)
    ensures MandatoryStatuses(a, requirements) == MandatoryStatuses(b, requirements)
    ensures Uncovered(a, requirements) == Uncovered(b, requirements)
  {
    hide Select, Relevant;
    if requirements != [] {
      SameResults(a, b, requirements[..|requirements| - 1]);
      assert SelectionFor(a, requirements[|requirements| - 1]) == SelectionFor(b, requirements[|requirements| - 1]);
    }
  }

  lemma WorstUnique(statuses: seq<Status>, s: Status, t: Status)
    requires IsWorst(statuses, s) && IsWorst(statuses, t)
    ensures s == t
  {
  }

  lemma SameRelevant(candidateId: Str, cut: int, a: seq<Evidence>, e: Evidence, b: seq<Evidence>, r: Str)
    requires !Counts(candidateId, cut, e)
    ensures Relevant(candidateId, cut, a + [e] + b, r) == Relevant(candidateId, cut, a + b, r)
  {
    RelevantConcat(candidateId, cut, a, b, r);
    RelevantConcat(candidateId, cut, a + [e], b, r);
    assert (a + [e])[..|a|] == a;
  }

  /** Inputs with the same evidence for every requirement are decided alike. */
  lemma SameDecision(a: Input, b: Input, d: Decision, f: Decision)
    requires b == a.(evidence := b.evidence) && WithinLimits(a) && WithinLimits(b)
    requires forall r :: Relevant(a.candidateId, a.cut, a.evidence, r) == Relevant(b.candidateId, b.cut, b.evidence, r)
    requires Decides(a, d) && Decides(b, f)
    ensures d == f
  {
    SameResults(a, b, a.requirements);
    if HasMandatory(a.requirements) {
      hide MandatoryStatuses, Results, Uncovered, SelectedFrom, SortBy, Relevant, IsWorst;
      WorstUnique(MandatoryStatuses(a, a.requirements), d.status, f.status);
    }
  }

  /** Evidence above the cut, unadmitted or for another candidate changes nothing while within the limit. */
  lemma IrrelevantEvidence(input: Input, more: Input, e: Evidence, k: nat, d: Decision, f: Decision)
    requires k <= |input.evidence| && !Counts(input.candidateId, input.cut, e)
    requires more == input.(evidence := input.evidence[..k] + [e] + input.evidence[k..])
    requires WithinLimits(more) && Decides(input, d) && Decides(more, f)
    ensures d == f
  {
    var a, b := input.evidence[..k], input.evidence[k..];
    assert input.evidence == a + b;
    hide Relevant, Decides;
    forall r ensures Relevant(input.candidateId, input.cut, input.evidence, r) == Relevant(more.candidateId, more.cut, more.evidence, r) {
      SameRelevant(input.candidateId, input.cut, a, e, b, r);
    }
    SameDecision(input, more, d, f);
  }
}
