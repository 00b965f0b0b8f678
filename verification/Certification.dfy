/**
  Certification decisions: the evidence index and selection of
  src/certification/evidence-selection.ts and the aggregation of src/certification/aggregation.ts.
 */
module Certification {
  import opened Text

  datatype Option<T> = None | Some(value: T)

  datatype Severity = Error | Warning | Info

  datatype Evidence = Evidence(
    evidenceId: Str,
    candidateId: Str,
    admittedAt: Option<int>,
    bindingHash: Str,
    appliesTo: seq<Str>,
    diagnostics: seq<Severity>,
    staleAfter: int,
    expiresAt: int)

  datatype Requirement = Requirement(requirementId: Str, mandatory: bool)

  datatype Input = Input(candidateId: Str, requirements: seq<Requirement>, evidence: seq<Evidence>, cut: int, now: int)

  datatype Status = Pass | Fail | Stale | Incomplete | NotApplicable

  datatype Selection = Selection(requirementId: Str, status: Status, evidenceId: Option<Str>, evidenceHash: Option<Str>)

  datatype Selected = Selected(evidenceId: Str, evidenceHash: Str)

  datatype Decision =
    | LimitExceeded(ofRequirements: bool)
    | Decided(status: Status, requirements: seq<Selection>, selectedEvidence: seq<Selected>, covered: int, uncovered: seq<Str>)

  const MAX_REQUIREMENTS := 1000
  const MAX_EVIDENCE := 10000

  // ---------------------------------------------------------------------------
  // The evidence that counts
  // ---------------------------------------------------------------------------

  /** For the candidate, and admitted no later than the cut. */
  predicate Counts(candidateId: Str, cut: int, e: Evidence) {
    e.candidateId == candidateId && e.admittedAt.Some? && e.admittedAt.value <= cut
  }

  /** e once for every time it names the requirement. */
  function Copies(e: Evidence, appliesTo: seq<Str>, requirementId: Str): seq<Evidence> {
    if appliesTo == [] then []
    else
      var n := |appliesTo| - 1;
      Copies(e, appliesTo[..n], requirementId) + (if appliesTo[n] == requirementId then [e] else [])
  }

  /** The evidence for a requirement, in the order of the list. */
  function Relevant(candidateId: Str, cut: int, evidence: seq<Evidence>, requirementId: Str): seq<Evidence> {
    if evidence == [] then []
    else
      var n := |evidence| - 1;
      Relevant(candidateId, cut, evidence[..n], requirementId)
      + (if Counts(candidateId, cut, evidence[n]) then Copies(evidence[n], evidence[n].appliesTo, requirementId) else [])
  }

  type Index = map<Str, seq<Evidence>>

  function Lookup(index: Index, requirementId: Str): seq<Evidence> {
    if requirementId in index then index[requirementId] else []
  }

  /** buildEvidenceIndex, within the limit. */
  method BuildEvidenceIndex(candidateId: Str, cut: int, evidence: seq<Evidence>) returns (index: Index)
    ensures forall r :: Lookup(index, r) == Relevant(candidateId, cut, evidence, r)
  {
    index := map[];
    var i := 0;
    while i < |evidence|
      invariant 0 <= i <= |evidence|
      invariant forall r :: Lookup(index, r) == Relevant(candidateId, cut, evidence[..i], r)
    {
      var env := evidence[i];
      assert evidence[..i + 1][..i] == evidence[..i];
      if Counts(candidateId, cut, env) {
        index := AddEntry(index, env);
      }
      i := i + 1;
    }
    assert evidence[..i] == evidence;
  }

  method AddEntry(index0: Index, env: Evidence) returns (index: Index)
    ensures forall r :: Lookup(index, r) == Lookup(index0, r) + Copies(env, env.appliesTo, r)
  {
    index := index0;
    var j := 0;
    while j < |env.appliesTo|
      invariant 0 <= j <= |env.appliesTo|
      invariant forall r :: Lookup(index, r) == Lookup(index0, r) + Copies(env, env.appliesTo[..j], r)
    {
      var reqId := env.appliesTo[j];
      assert env.appliesTo[..j + 1][..j] == env.appliesTo[..j];
      ghost var before := index;
      index := index[reqId := Lookup(index, reqId) + [env]];
      forall r ensures Lookup(index, r) == Lookup(index0, r) + Copies(env, env.appliesTo[..j + 1], r) {
        assert Lookup(before, r) == Lookup(index0, r) + Copies(env, env.appliesTo[..j], r);
        if r == reqId {
          Regroup(Lookup(index0, r), Copies(env, env.appliesTo[..j], r), [env]);
        }
      }
      j := j + 1;
    }
    assert env.appliesTo[..j] == env.appliesTo;
  }

  // ---------------------------------------------------------------------------
  // The latest evidence wins
  // ---------------------------------------------------------------------------

  function SequenceOf(e: Evidence): int {
    if e.admittedAt.Some? then e.admittedAt.value else -1
  }

  /** The running best and its sequence; a later entry replaces it only with a higher one. */
  function Best(entries: seq<Evidence>): (r: (Option<Evidence>, int))
    ensures r.1 >= -1
  {
    if entries == [] then (None, -1)
    else
      var before := Best(entries[..|entries| - 1]);
      var last := entries[|entries| - 1];
      if SequenceOf(last) > before.1 then (Some(last), SequenceOf(last)) else before
  }

  predicate HasFailDiagnostic(e: Evidence) {
    Error in e.diagnostics
  }

  predicate IsStale(e: Evidence, now: int) {
    e.staleAfter < now
  }

  predicate IsFresh(e: Evidence, now: int) {
    e.expiresAt >= now
  }

  function StatusOf(e: Evidence, now: int): Status {
    if HasFailDiagnostic(e) then Fail
    else if IsStale(e, now) then Stale
    else if !IsFresh(e, now) then Stale
    else Pass
  }

  function Select(req: Requirement, entries: seq<Evidence>, now: int): Selection {
    if entries == [] then Selection(req.requirementId, if req.mandatory then Incomplete else NotApplicable, None, None)
    else
      var best := Best(entries).0;
      if best.None? then Selection(req.requirementId, Incomplete, None, None)
      else Selection(req.requirementId, StatusOf(best.value, now), Some(best.value.evidenceId), Some(best.value.bindingHash))
  }

  method SelectRequirementEvidence(req: Requirement, index: Index, now: int) returns (r: Selection)
    ensures r == Select(req, Lookup(index, req.requirementId), now)
  {
    var entries := Lookup(index, req.requirementId);
    if |entries| == 0 {
      if !req.mandatory {
        return Selection(req.requirementId, NotApplicable, None, None);
      }
      return Selection(req.requirementId, Incomplete, None, None);
    }
    var best: Option<Evidence> := None;
    var bestSeq := -1;
    var i := 0;
    while i < |entries|
      invariant 0 <= i <= |entries|
      invariant (best, bestSeq) == Best(entries[..i])
    {
      assert entries[..i + 1][..i] == entries[..i];
      var s := SequenceOf(entries[i]);
      if s > bestSeq {
        bestSeq := s;
        best := Some(entries[i]);
      }
      i := i + 1;
    }
    assert entries[..i] == entries;
    if best.None? {
      return Selection(req.requirementId, Incomplete, None, None);
    }
    var env := best.value;
    if HasFailDiagnostic(env) {
      return Selection(req.requirementId, Fail, Some(env.evidenceId), Some(env.bindingHash));
    }
    if IsStale(env, now) {
      return Selection(req.requirementId, Stale, Some(env.evidenceId), Some(env.bindingHash));
    }
    if !IsFresh(env, now) {
      return Selection(req.requirementId, Stale, Some(env.evidenceId), Some(env.bindingHash));
    }
    r := Selection(req.requirementId, Pass, Some(env.evidenceId), Some(env.bindingHash));
  }

  // ---------------------------------------------------------------------------
  // Aggregation
  // ---------------------------------------------------------------------------

  function Precedence(s: Status): nat {
    match s
    case Fail => 4
    case Stale => 3
    case Incomplete => 2
    case Pass => 1
    case NotApplicable => 0
  }

  /** The worst of the statuses: nothing is worse than it, and it is pass or one of them. */
  ghost predicate IsWorst(statuses: seq<Status>, worst: Status) {
    if statuses == [] then worst == Incomplete
    else
      && (worst == Pass || worst in statuses) && worst != NotApplicable
      && forall s :: s in statuses ==> Precedence(s) <= Precedence(worst)
  }

  method AggregateStatus(statuses: seq<Status>) returns (worst: Status)
    ensures IsWorst(statuses, worst)
  {
    if |statuses| == 0 {
      return Incomplete;
    }
    worst := Pass;
    var i := 0;
    while i < |statuses|
      invariant 0 <= i <= |statuses|
      invariant worst == Pass || worst in statuses
      invariant forall j :: 0 <= j < i ==> Precedence(statuses[j]) <= Precedence(worst)
      invariant Precedence(worst) >= 1
    {
      if statuses[i] != NotApplicable && Precedence(statuses[i]) > Precedence(worst) {
        worst := statuses[i];
      }
      i := i + 1;
    }
  }

  function SelectionFor(input: Input, req: Requirement): Selection {
    Select(req, Relevant(input.candidateId, input.cut, input.evidence, req.requirementId), input.now)
  }

  function Results(input: Input, requirements: seq<Requirement>): seq<Selection> {
    if requirements == [] then []
    else
      var n := |requirements| - 1;
      Results(input, requirements[..n]) + [SelectionFor(input, requirements[n])]
  }

  /** A mandatory requirement whose status does not count as covered. */
  predicate IsUncovered(input: Input, req: Requirement) {
    req.mandatory && SelectionFor(input, req).status != Pass && SelectionFor(input, req).status != NotApplicable
  }

  function Uncovered(input: Input, requirements: seq<Requirement>): seq<Str> {
    if requirements == [] then []
    else
      var n := |requirements| - 1;
      Uncovered(input, requirements[..n]) + (if IsUncovered(input, requirements[n]) then [requirements[n].requirementId] else [])
  }

  /** find by id, then its mandatory flag: for a repeated id the first requirement decides. */
  predicate FoundMandatory(requirements: seq<Requirement>, id: Str) {
    requirements != [] && (if requirements[0].requirementId == id then requirements[0].mandatory else FoundMandatory(requirements[1..], id))
  }

  /** The statuses of the requirements found mandatory by id. */
  function MandatoryStatuses(input: Input, requirements: seq<Requirement>): seq<Status> {
    if requirements == [] then []
    else
      var n := |requirements| - 1;
      MandatoryStatuses(input, requirements[..n])
      + (if FoundMandatory(input.requirements, requirements[n].requirementId) then [SelectionFor(input, requirements[n]).status] else [])
  }

  predicate HasMandatory(requirements: seq<Requirement>) {
    exists i :: 0 <= i < |requirements| && requirements[i].mandatory
  }

  function SelectedKey(s: Selected): Str {
    s.evidenceId
  }

  /** The evidence selected for the requirements: each id once, with the hash it was first selected with. */
  function SelectedFrom(results: seq<Selection>): seq<Selected> {
    if results == [] then []
    else
      var last := results[|results| - 1];
      var before := results[..|results| - 1];
      SelectedFrom(before)
      + (if last.evidenceId.Some? && last.evidenceId.value != [] && !SelectedBefore(before, last.evidenceId.value)
            && last.evidenceHash.Some? && last.evidenceHash.value != []
         then [Selected(last.evidenceId.value, last.evidenceHash.value)] else [])
  }

  predicate SelectedBefore(results: seq<Selection>, id: Str) {
    exists i :: 0 <= i < |results| && results[i].evidenceId == Some(id)
  }

  /** The loop over the requirements. */
  method EvaluateRequirements(input: Input, index: Index)
    returns (results: seq<Selection>, selectedEvidence: seq<Selected>, uncovered: seq<Str>)
    requires forall r :: Lookup(index, r) == Relevant(input.candidateId, input.cut, input.evidence, r)
    ensures results == Results(input, input.requirements)
    ensures selectedEvidence == SelectedFrom(results)
    ensures uncovered == Uncovered(input, input.requirements)
  {
    hide Select, Relevant;
    results, selectedEvidence, uncovered := [], [], [];
    var seenEvidenceIds: set<Str> := {};
    var i := 0;
    while i < |input.requirements|
      invariant 0 <= i <= |input.requirements|
      invariant results == Results(input, input.requirements[..i])
      invariant selectedEvidence == SelectedFrom(results)
      invariant forall id :: id in seenEvidenceIds <==> id != [] && SelectedBefore(results, id)
      invariant uncovered == Uncovered(input, input.requirements[..i])
    {
      var req := input.requirements[i];
      assert input.requirements[..i + 1][..i] == input.requirements[..i];
      var sel := SelectRequirementEvidence(req, index, input.now);
      assert sel == SelectionFor(input, req);
      selectedEvidence, seenEvidenceIds := NoteSelected(results, selectedEvidence, seenEvidenceIds, sel);
      results := results + [sel];
      if req.mandatory && sel.status != Pass && sel.status != NotApplicable {
        uncovered := uncovered + [req.requirementId];
      }
      i := i + 1;
    }
    assert input.requirements[..i] == input.requirements;
  }

  method NoteSelected(ghost results: seq<Selection>, selected0: seq<Selected>, seen0: set<Str>, sel: Selection)
    returns (selected: seq<Selected>, seen: set<Str>)
    requires selected0 == SelectedFrom(results)
    requires forall id :: id in seen0 <==> id != [] && SelectedBefore(results, id)
    ensures selected == SelectedFrom(results + [sel])
    ensures forall id :: id in seen <==> id != [] && SelectedBefore(results + [sel], id)
  {
    assert (results + [sel])[..|results|] == results;
    forall id ensures SelectedBefore(results + [sel], id) <==> SelectedBefore(results, id) || sel.evidenceId == Some(id) {
      SelectedBeforeSnoc(results, sel, id);
    }
    selected, seen := selected0, seen0;
    if sel.evidenceId.Some? && sel.evidenceId.value != [] && sel.evidenceId.value !in seen {
      seen := seen + {sel.evidenceId.value};
      if sel.evidenceHash.Some? && sel.evidenceHash.value != [] {
        selected := selected + [Selected(sel.evidenceId.value, sel.evidenceHash.value)];
      }
    }
  }

  lemma SelectedBeforeSnoc(results: seq<Selection>, sel: Selection, id: Str)
    ensures SelectedBefore(results + [sel], id) <==> SelectedBefore(results, id) || sel.evidenceId == Some(id)
  {
    var more := results + [sel];
    assert more[|results|] == sel;
    assert forall i :: 0 <= i < |results| ==> more[i] == results[i];
    if SelectedBefore(results, id) {
      var i :| 0 <= i < |results| && results[i].evidenceId == Some(id);
      assert more[i].evidenceId == Some(id);
    }
  }

  /** The statuses of the results whose requirement, looked up by id, is mandatory. */
  method CollectMandatory(input: Input, results: seq<Selection>) returns (statuses: seq<Status>)
    requires results == Results(input, input.requirements)
    ensures statuses == MandatoryStatuses(input, input.requirements)
  {
    hide SelectionFor, FoundMandatory;
    ResultsAre(input, input.requirements);
    statuses := [];
    var i := 0;
    while i < |results|
      invariant 0 <= i <= |results| == |input.requirements|
      invariant statuses == MandatoryStatuses(input, input.requirements[..i])
    {
      assert input.requirements[..i + 1][..i] == input.requirements[..i];
      if FoundMandatory(input.requirements, results[i].requirementId) {
        statuses := statuses + [results[i].status];
      }
      i := i + 1;
    }
    assert input.requirements[..i] == input.requirements;
  }

  lemma {:induction false} ResultsAre(input: Input, requirements: seq<Requirement>)
    ensures |Results(input, requirements)| == |requirements|
    ensures forall i :: 0 <= i < |requirements| ==>
      Results(input, requirements)[i] == SelectionFor(input, requirements[i])
      && Results(input, requirements)[i].requirementId == requirements[i].requirementId
  {
    hide Best, Relevant;
    if requirements != [] {
      ResultsAre(input, requirements[..|requirements| - 1]);
    }
  }

  /** What evaluateCertificationDecision must return. */
  ghost predicate Decides(input: Input, d: Decision) {
    if |input.requirements| > MAX_REQUIREMENTS then d == LimitExceeded(true)
    else if |input.evidence| > MAX_EVIDENCE then d == LimitExceeded(false)
    else
      var results := Results(input, input.requirements);
      var statuses := MandatoryStatuses(input, input.requirements);
      && d.Decided? && d.requirements == results
      && d.selectedEvidence == SortBy(SelectedFrom(results), SelectedKey)
      && d.uncovered == Uncovered(input, input.requirements)
      && d.covered == |input.requirements| - |d.uncovered|
      && (!HasMandatory(input.requirements) ==> d.status == Incomplete)
      && (HasMandatory(input.requirements) ==> IsWorst(statuses, d.status))
  }

  method EvaluateCertificationDecision(input: Input) returns (d: Decision)
    ensures Decides(input, d)
  {
    hide Relevant, Results, SelectedFrom, Uncovered, MandatoryStatuses, SortBy, IsWorst;
    if |input.requirements| > MAX_REQUIREMENTS {
      return LimitExceeded(true);
    }
    if |input.evidence| > MAX_EVIDENCE {
      return LimitExceeded(false);
    }
    var index := BuildEvidenceIndex(input.candidateId, input.cut, input.evidence);
    var results, selectedEvidence, uncovered := EvaluateRequirements(input, index);
    selectedEvidence := SortBy(selectedEvidence, SelectedKey);
    var mandatoryStatuses := CollectMandatory(input, results);
    if !HasMandatory(input.requirements) {
      return Decided(Incomplete, results, selectedEvidence, |input.requirements| - |uncovered|, uncovered);
    }
    var status := AggregateStatus(mandatoryStatuses);
    d := Decided(status, results, selectedEvidence, |input.requirements| - |uncovered|, uncovered);
  }
}
