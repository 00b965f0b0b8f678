/** What a certification decision says, in terms of the requirements and the evidence alone. */
module CertificationRules {
  import opened Text
  import opened Certification
  import CertificationLaws
  import opened Listing
  import Manifests

  // ---------------------------------------------------------------------------
  // One requirement
  // ---------------------------------------------------------------------------

  /** Evidence for the candidate and the requirement, admitted no later than the cut. */
  ghost predicate BearsOn(input: Input, r: Str, i: int) {
    && 0 <= i < |input.evidence|
    && var e := input.evidence[i];
       e.candidateId == input.candidateId && r in e.appliesTo && exists v :: e.admittedAt == Some(v) && v <= input.cut
  }

  ghost predicate NotLater(a: Evidence, b: Evidence) {
    exists v, w :: a.admittedAt == Some(v) && b.admittedAt == Some(w) && v <= w
  }

  /** The first of those with the highest sequence, which is not negative. */
  ghost predicate Latest(input: Input, r: Str, i: int) {
    && BearsOn(input, r, i)
    && (exists v: nat :: input.evidence[i].admittedAt == Some(v))
    && (forall j :: BearsOn(input, r, j) ==> NotLater(input.evidence[j], input.evidence[i]))
    && (forall j :: BearsOn(input, r, j) && j < i ==> !NotLater(input.evidence[i], input.evidence[j]))
  }

  /** An error fails, whatever the dates; otherwise a date that has passed makes it stale. */
  ghost predicate Shows(e: Evidence, now: int, s: Status) {
    && s in {Pass, Fail, Stale}
    && (s == Fail <==> Error in e.diagnostics)
    && (s == Pass ==> now <= e.staleAfter && now <= e.expiresAt)
    && (s == Stale ==> e.staleAfter < now || e.expiresAt < now)
  }

  /** The selection made for a requirement. */
  ghost predicate Answers(input: Input, req: Requirement, s: Selection) {
    && s.requirementId == req.requirementId
    && (forall i :: Latest(input, req.requirementId, i) ==>
          && s.evidenceId == Some(input.evidence[i].evidenceId) && s.evidenceHash == Some(input.evidence[i].bindingHash)
          && Shows(input.evidence[i], input.now, s.status))
    && ((forall i :: !Latest(input, req.requirementId, i)) ==>
          && s.evidenceId == None && s.evidenceHash == None
          && s.status == if !req.mandatory && (forall i :: !BearsOn(input, req.requirementId, i)) then NotApplicable else Incomplete)
  }

  lemma LatestIff(input: Input, r: Str, i: int)
    ensures BearsOn(input, r, i) <==> CertificationLaws.Bears(input, r, i)
    ensures Latest(input, r, i) <==> CertificationLaws.IsLatest(input, r, i)
  {
    forall j ensures BearsOn(input, r, j) <==> CertificationLaws.Bears(input, r, j) {
    }
  }

  lemma StatusShows(e: Evidence, now: int)
    ensures Shows(e, now, StatusOf(e, now))
  {
  }

  lemma SelectionAnswers(input: Input, req: Requirement)
    ensures Answers(input, req, SelectionFor(input, req))
  {
    hide *;
    forall i
      ensures BearsOn(input, req.requirementId, i) <==> CertificationLaws.Bears(input, req.requirementId, i)
      ensures Latest(input, req.requirementId, i) <==> CertificationLaws.IsLatest(input, req.requirementId, i)
    {
      LatestIff(input, req.requirementId, i);
    }
    LatestWithin(input, req.requirementId);
    if i :| Latest(input, req.requirementId, i) {
      AnswersFound(input, req, i);
    } else {
      CertificationLaws.StatusWithoutEvidence(input, req);
      AnswersNone(input, req, SelectionFor(input, req));
    }
  }

  lemma LatestWithin(input: Input, r: Str)
    ensures forall i :: Latest(input, r, i) ==> 0 <= i < |input.evidence|
  {
  }

  lemma AnswersFound(input: Input, req: Requirement, i: int)
    requires Latest(input, req.requirementId, i)
    ensures Answers(input, req, SelectionFor(input, req))
  {
    forall j ensures Latest(input, req.requirementId, j) <==> CertificationLaws.IsLatest(input, req.requirementId, j) {
      LatestIff(input, req.requirementId, j);
    }
    hide Latest, Shows, CertificationLaws.IsLatest, SelectionFor, StatusOf, BearsOn;
    LatestWithin(input, req.requirementId);
    forall j | Latest(input, req.requirementId, j)
      ensures 0 <= j < |input.evidence| && SelectionFor(input, req) ==
        Selection(req.requirementId, StatusOf(input.evidence[j], input.now), Some(input.evidence[j].evidenceId), Some(input.evidence[j].bindingHash))
      ensures Shows(input.evidence[j], input.now, StatusOf(input.evidence[j], input.now))
    {
      CertificationLaws.StatusIsLatest(input, req, j);
      StatusShows(input.evidence[j], input.now);
    }
  }

  lemma AnswersNone(input: Input, req: Requirement, s: Selection)
    requires forall i :: !Latest(input, req.requirementId, i)
    requires s == Selection(
      req.requirementId,
      if !req.mandatory && (forall i :: !BearsOn(input, req.requirementId, i)) then NotApplicable else Incomplete,
      None, None)
    ensures Answers(input, req, s)
  {
    hide Latest, BearsOn;
  }

  // ---------------------------------------------------------------------------
  // The decision
  // ---------------------------------------------------------------------------

  /** What the coverage lists for requirement i: its id, if it is mandatory and fails, is stale or incomplete. */
  ghost function Lacking(input: Input): (seq<Selection>, nat) -> Manifests.Option<Str> {
    (results: seq<Selection>, i: nat) =>
      if i < |results| && i < |input.requirements| && input.requirements[i].mandatory && results[i].status in {Fail, Stale, Incomplete}
      then Manifests.Some(input.requirements[i].requirementId) else Manifests.None
  }

  /** What is listed as selected for result i: its evidence, unless an earlier result has selected it. */
  ghost function Newly(): (seq<Selection>, nat) -> Manifests.Option<Selected> {
    (results: seq<Selection>, i: nat) =>
      if i < |results| && results[i].evidenceId !in {None, Some([])} && results[i].evidenceHash !in {None, Some([])}
         && (forall j :: 0 <= j < i ==> results[j].evidenceId != results[i].evidenceId)
      then Manifests.Some(Selected(results[i].evidenceId.value, results[i].evidenceHash.value)) else Manifests.None
  }

  lemma {:induction false} UncoveredPicked(input: Input, results: seq<Selection>, n: nat) returns (places: seq<nat>)
    requires results == Results(input, input.requirements) && n <= |input.requirements|
    ensures Picks(Uncovered(input, input.requirements[..n]), n, results, Lacking(input), places)
  {
    hide SelectionFor, Results;
    ResultsAre(input, input.requirements);
    if n == 0 {
      places := [];
    } else {
      places := UncoveredPicked(input, results, n - 1);
      assert input.requirements[..n][..n - 1] == input.requirements[..n - 1];
      places := PickNext(Uncovered(input, input.requirements[..n - 1]), n - 1, results, Lacking(input), places);
    }
  }

  lemma SelectedBeforeIff(results: seq<Selection>, n: nat)
    requires n < |results| && results[n].evidenceId.Some?
    ensures SelectedBefore(results[..n], results[n].evidenceId.value) <==>
            exists j :: 0 <= j < n && results[j].evidenceId == results[n].evidenceId
  {
    assert forall j :: 0 <= j < n ==> results[..n][j] == results[j];
  }

  lemma SelectedNext(results: seq<Selection>, n: nat)
    requires n < |results|
    ensures SelectedFrom(results[..n + 1]) ==
      SelectedFrom(results[..n]) + (if Newly()(results, n).Some? then [Newly()(results, n).value] else [])
  {
    assert results[..n + 1][..n] == results[..n];
    if results[n].evidenceId.Some? {
      SelectedBeforeIff(results, n);
    }
    hide SelectedBefore;
  }

  lemma {:induction false} SelectedPicked(results: seq<Selection>, n: nat) returns (places: seq<nat>)
    requires n <= |results|
    ensures Picks(SelectedFrom(results[..n]), n, results, Newly(), places)
  {
    if n == 0 {
      places := [];
    } else {
      hide SelectedFrom, Picks;
      places := SelectedPicked(results, n - 1);
      SelectedNext(results, n - 1);
      places := PickNext(SelectedFrom(results[..n - 1]), n - 1, results, Newly(), places);
    }
  }

  /** The requirement found under its id, which is the first one with it, is mandatory. */
  ghost predicate MandatoryAt(requirements: seq<Requirement>, i: int) {
    && 0 <= i < |requirements|
    && exists j :: FirstWith(requirements, requirements[i].requirementId, j) && requirements[j].mandatory
  }

  ghost predicate FirstWith(requirements: seq<Requirement>, id: Str, j: int) {
    && 0 <= j < |requirements| && requirements[j].requirementId == id
    && forall k :: 0 <= k < j ==> requirements[k].requirementId != id
  }

  lemma FirstWithLater(requirements: seq<Requirement>, id: Str, j: int)
    requires requirements != [] && requirements[0].requirementId != id
    ensures FirstWith(requirements, id, j + 1) <==> FirstWith(requirements[1..], id, j)
  {
    assert forall k :: 0 < k < |requirements| ==> requirements[1..][k - 1] == requirements[k];
    if FirstWith(requirements[1..], id, j) {
      forall k | 0 <= k < j + 1 ensures requirements[k].requirementId != id {
        assert k > 0 ==> requirements[1..][k - 1] == requirements[k];
      }
    }
    if FirstWith(requirements, id, j + 1) {
      assert requirements[1..][j] == requirements[j + 1];
    }
  }

  lemma {:induction false} FoundIff(requirements: seq<Requirement>, id: Str)
    ensures FoundMandatory(requirements, id) <==> exists j :: FirstWith(requirements, id, j) && requirements[j].mandatory
  {
    if requirements != [] {
      if requirements[0].requirementId == id {
        assert FirstWith(requirements, id, 0);
        assert forall j :: FirstWith(requirements, id, j) ==> j == 0;
      } else {
        var rest := requirements[1..];
        FoundIff(rest, id);
        if j :| FirstWith(rest, id, j) && rest[j].mandatory {
          FirstWithLater(requirements, id, j);
        }
        if j :| FirstWith(requirements, id, j) && requirements[j].mandatory {
          FirstWithLater(requirements, id, j - 1);
          assert j > 0;
        }
      }
    }
  }

  ghost predicate MandatoryHas(input: Input, results: seq<Selection>, s: Status) {
    exists i :: MandatoryAt(input.requirements, i) && i < |results| && results[i].status == s
  }

  /** Fail before stale before incomplete; without a mandatory requirement nothing passes. */
  ghost predicate Verdict(input: Input, results: seq<Selection>, s: Status) {
    if forall i :: !MandatoryAt(input.requirements, i) then s == Incomplete
    else if MandatoryHas(input, results, Fail) then s == Fail
    else if MandatoryHas(input, results, Stale) then s == Stale
    else if MandatoryHas(input, results, Incomplete) then s == Incomplete
    else s == Pass
  }

  lemma WorstIs(statuses: seq<Status>, worst: Status)
    requires IsWorst(statuses, worst)
    ensures worst ==
      if statuses == [] then Incomplete else if Fail in statuses then Fail else if Stale in statuses then Stale
      else if Incomplete in statuses then Incomplete else Pass
  {
    if statuses != [] {
      assert Fail in statuses ==> Precedence(Fail) <= Precedence(worst);
      assert Stale in statuses ==> Precedence(Stale) <= Precedence(worst);
      assert Incomplete in statuses ==> Precedence(Incomplete) <= Precedence(worst);
    }
  }

  lemma StatusesAre(input: Input, s: Status)
    ensures s in MandatoryStatuses(input, input.requirements) <==> MandatoryHas(input, Results(input, input.requirements), s)
  {
    hide SelectionFor, FoundMandatory, MandatoryStatuses;
    CertificationLaws.MandatoryStatusIn(input, input.requirements, s);
    ResultsAre(input, input.requirements);
    hide Results;
    forall i | 0 <= i < |input.requirements|
      ensures FoundMandatory(input.requirements, input.requirements[i].requirementId) <==> MandatoryAt(input.requirements, i)
    {
      FoundIff(input.requirements, input.requirements[i].requirementId);
    }
  }

  lemma VerdictIs(input: Input, s: Status)
    requires if HasMandatory(input.requirements) then IsWorst(MandatoryStatuses(input, input.requirements), s) else s == Incomplete
    ensures Verdict(input, Results(input, input.requirements), s)
  {
    var statuses, results := MandatoryStatuses(input, input.requirements), Results(input, input.requirements);
    forall t ensures t in statuses <==> MandatoryHas(input, results, t) {
      StatusesAre(input, t);
    }
    ResultsAre(input, input.requirements);
    hide MandatoryStatuses, Results;
    assert statuses != [] ==> statuses[0] in statuses;
    if i :| MandatoryAt(input.requirements, i) {
      assert HasMandatory(input.requirements);
      assert MandatoryHas(input, results, results[i].status);
      assert statuses != [];
    }
    if HasMandatory(input.requirements) {
      hide MandatoryHas;
      WorstIs(statuses, s);
    }
  }

  ghost predicate InIdOrder(selected: seq<Selected>) {
    forall i, j :: 0 <= i < j < |selected| ==> AtMost(selected[i].evidenceId, selected[j].evidenceId)
  }

  /** An answer to each requirement, what is not covered, each selected piece once in the order of the ids, and the verdict. */
  ghost predicate Announces(input: Input, d: Decision, uncovered: seq<nat>, selected: seq<Selected>, from: seq<nat>) {
    && d.Decided?
    && |d.requirements| == |input.requirements|
    && (forall i :: 0 <= i < |input.requirements| ==> Answers(input, input.requirements[i], d.requirements[i]))
    && Picks(d.uncovered, |input.requirements|, d.requirements, Lacking(input), uncovered)
    && d.covered + |d.uncovered| == |input.requirements|
    && Picks(selected, |input.requirements|, d.requirements, Newly(), from)
    && multiset(d.selectedEvidence) == multiset(selected) && InIdOrder(d.selectedEvidence)
    && Verdict(input, d.requirements, d.status)
  }

  lemma AllAnswered(input: Input)
    ensures |Results(input, input.requirements)| == |input.requirements|
    ensures forall i :: 0 <= i < |input.requirements| ==> Answers(input, input.requirements[i], Results(input, input.requirements)[i])
  {
    ResultsAre(input, input.requirements);
    hide Results, Answers, SelectionFor;
    forall i | 0 <= i < |input.requirements|
      ensures Answers(input, input.requirements[i], Results(input, input.requirements)[i])
    {
      SelectionAnswers(input, input.requirements[i]);
    }
  }

  /** At most 1000 requirements and 10000 pieces of evidence are decided on, and how. */
  lemma DecisionIs(input: Input, d: Decision) returns (uncovered: seq<nat>, selected: seq<Selected>, from: seq<nat>)
    requires Decides(input, d)
    ensures |input.requirements| > 1000 ==> d == LimitExceeded(true)
    ensures |input.requirements| <= 1000 && |input.evidence| > 10000 ==> d == LimitExceeded(false)
    ensures |input.requirements| <= 1000 && |input.evidence| <= 10000 ==> Announces(input, d, uncovered, selected, from)
  {
    hide Results, Picks, SelectedFrom, SortBy, Uncovered, MandatoryStatuses, IsWorst, Verdict, HasMandatory, Answers, InIdOrder;
    var n := |input.requirements|;
    var results := Results(input, input.requirements);
    AllAnswered(input);
    selected := SelectedFrom(results);
    uncovered := UncoveredPicked(input, results, n);
    from := SelectedPicked(results, n);
    assert input.requirements[..n] == input.requirements && results[..n] == results;
    SelectedInOrder(selected);
    if n <= 1000 && |input.evidence| <= 10000 {
      VerdictIs(input, d.status);
    }
  }

  lemma SelectedInOrder(selected: seq<Selected>)
    ensures InIdOrder(SortBy(selected, SelectedKey))
  {
    SortBySorts(selected, SelectedKey);
    var s := SortBy(selected, SelectedKey);
    forall i, j | 0 <= i < j < |s| ensures AtMost(s[i].evidenceId, s[j].evidenceId) {
      assert AtMost(SelectedKey(s[i]), SelectedKey(s[j]));
    }
  }
}
