/** buildCertificationActionPack of src/certification/action-pack.ts. */
module ActionPack {
  import opened Text
  import opened Lists
  import opened Graphs
  import opened TaskSort

  datatype Status = Pass | Fail | Stale | Incomplete | NotApplicable

  datatype Evaluation = Evaluation(requirementId: Str, status: Status)

  datatype Remediation = Remediation(
    remediationClass: Str,
    description: Str,
    verificationCommand: Str,
    anchors: seq<Anchor>,
    dependencies: seq<Dependency>)

  datatype Input = Input(
    actionPackId: Str,
    candidateId: Str,
    decisionId: Str,
    requirements: seq<Evaluation>,
    remediation: map<Str, Remediation>,
    createdAt: int)

  datatype Code = CertAction01 | CertLimit03

  datatype PackResult =
    | Refused(code: Code)
    | Pack(actionPackId: Str, candidateId: Str, decisionId: Str, tasks: seq<Task>, createdAt: int)

  const MAX_TASKS := 1000

  // ---------------------------------------------------------------------------
  // Task ids
  // ---------------------------------------------------------------------------

  predicate Kept(u: Unit) {
    0x61 <= u <= 0x7A || 0x30 <= u <= 0x39 || u == 0x2D
  }

  /**
    toLowerCase and then `-` for every unit outside [a-z0-9-]. Besides the ASCII capitals two
    characters have a lower-case form with an ASCII letter: the Kelvin sign gives k and the
    dotted capital I gives i and a combining dot.
   */
  function Slug(u: Unit): Str {
    if 0x41 <= u <= 0x5A then [u + 32]
    else if u == 0x212A then [0x6B]
    else if u == 0x130 then [0x69, 0x2D]
    else if Kept(u) then [u]
    else [0x2D]
  }

  function Slugs(s: Str): Str {
    if s == [] then [] else Slug(s[0]) + Slugs(s[1..])
  }

  function TaskId(requirementId: Str): Str {
    Slugs([0x61, 0x63, 0x74, 0x2D] + requirementId)
  }

  // ---------------------------------------------------------------------------
  // Tasks
  // ---------------------------------------------------------------------------

  predicate Actionable(r: Evaluation) {
    !r.status.Pass? && !r.status.NotApplicable?
  }

  predicate Usable(meta: Remediation) {
    meta.anchors != [] && meta.description != [] && meta.verificationCommand != []
  }

  predicate Faulty(remediation: map<Str, Remediation>, r: Evaluation) {
    Actionable(r) && (r.requirementId !in remediation || !Usable(remediation[r.requirementId]))
  }

  function AnchorKey(a: Anchor): Str {
    a.anchorId
  }

  function TaskOf(requirementId: Str, meta: Remediation): Task {
    Task(TaskId(requirementId), meta.remediationClass, meta.description, meta.verificationCommand,
         SortBy(meta.anchors, AnchorKey), SortBy(meta.dependencies, DependsOn))
  }

  function TaskFor(remediation: map<Str, Remediation>): Evaluation -> seq<Task> {
    (r: Evaluation) =>
      if Actionable(r) && r.requirementId in remediation then [TaskOf(r.requirementId, remediation[r.requirementId])] else []
  }

  function Tasks(input: Input): seq<Task> {
    FlatMap(input.requirements, TaskFor(input.remediation))
  }

  ghost predicate AnyFaulty(input: Input) {
    exists r :: r in input.requirements && Faulty(input.remediation, r)
  }

  function Packed(input: Input, tasks: seq<Task>): PackResult {
    Pack(input.actionPackId, input.candidateId, input.decisionId, tasks, input.createdAt)
  }

  /** What the builder must return: missing remediation comes first, then the limit, then cycles. */
  ghost predicate Builds(input: Input, r: PackResult) {
    var tasks := MapOf(Tasks(input));
    if AnyFaulty(input) then r == Refused(CertAction01)
    else if |Tasks(input)| > MAX_TASKS then r == Refused(CertLimit03)
    else
      && (r == Refused(CertAction01) <==> !Acyclic(PackArrows(tasks), tasks.Keys))
      && (r.Refused? ==> r.code == CertAction01 && ResultOf(tasks, Cyclic))
      && (r.Pack? ==> r == Packed(input, r.tasks) && ResultOf(tasks, Listing(r.tasks))
                      && ListsEach(tasks, r.tasks) && DependenciesFirst(tasks, r.tasks))
  }

  lemma NothingMapped(f: Evaluation -> seq<Task>)
    ensures FlatMap([], f) == []
  {
  }

  method BuildActionPack(input: Input) returns (r: PackResult)
    ensures Builds(input, r)
  {
    hide ResultOf, ListsEach, DependenciesFirst, Acyclic, PackArrows, MapOf, SortBy, Usable, TaskOf, FlatMap;
    NothingMapped(TaskFor(input.remediation));
    var reqs := input.requirements;
    var tasks: seq<Task> := [];
    var i := 0;
    while i < |reqs|
      invariant 0 <= i <= |reqs|
      invariant tasks == FlatMap(reqs[..i], TaskFor(input.remediation))
      invariant forall j :: 0 <= j < i ==> !Faulty(input.remediation, reqs[j])
    {
      var req := reqs[i];
      if Actionable(req) {
        if req.requirementId !in input.remediation {
          assert Faulty(input.remediation, req);
          return Refused(CertAction01);
        }
        var meta := input.remediation[req.requirementId];
        if !Usable(meta) {
          assert Faulty(input.remediation, req);
          return Refused(CertAction01);
        }
        tasks := tasks + [TaskOf(req.requirementId, meta)];
      }
      assert reqs[..i + 1] == reqs[..i] + [req];
      FlatMapSnoc(reqs[..i], req, TaskFor(input.remediation));
      i := i + 1;
    }
    assert reqs[..i] == reqs;
    if |tasks| > MAX_TASKS {
      return Refused(CertLimit03);
    }
    var sorted := TopologicalSort(tasks);
    if sorted.Cyclic? {
      return Refused(CertAction01);
    }
    r := Packed(input, sorted.tasks);
  }

  // ---------------------------------------------------------------------------
  // Distinct task ids
  // ---------------------------------------------------------------------------

  lemma {:induction false} MapOfLooksUp(tasks: seq<Task>, t: Task)
    requires DistinctKeys(tasks, TaskIdOf)
    ensures t in tasks <==> t.taskId in MapOf(tasks) && MapOf(tasks)[t.taskId] == t
  {
    if tasks != [] {
      var n := |tasks| - 1;
      var front, last := tasks[..n], tasks[n];
      assert tasks == front + [last];
      MapOfLooksUp(front, t);
      assert t in front ==> TaskIdOf(t) != TaskIdOf(last);
    }
  }

  lemma {:induction false} MapOfKeys(tasks: seq<Task>)
    ensures MapOf(tasks).Keys == set t | t in tasks :: t.taskId
  {
    if tasks != [] {
      var n := |tasks| - 1;
      MapOfKeys(tasks[..n]);
      assert tasks == tasks[..n] + [tasks[n]];
    }
  }

  lemma {:induction false} SameTasks(a: seq<Task>, b: seq<Task>)
    requires NoDuplicates(a) && NoDuplicates(b) && forall t :: t in a <==> t in b
    ensures multiset(a) == multiset(b)
  {
    forall t ensures multiset(a)[t] == multiset(b)[t] {
      CountOne(a, t);
      CountOne(b, t);
    }
  }

  lemma {:induction false} CountOne(a: seq<Task>, t: Task)
    requires NoDuplicates(a)
    ensures multiset(a)[t] == if t in a then 1 else 0
  {
    if a != [] {
      var n := |a| - 1;
      assert a == a[..n] + [a[n]];
      CountOne(a[..n], t);
    }
  }

  /** For distinct task ids the pack lists exactly the tasks of the failing requirements. */
  lemma PackIsPermutation(input: Input, r: PackResult)
    requires Builds(input, r) && r.Pack? && DistinctKeys(Tasks(input), TaskIdOf)
    ensures multiset(r.tasks) == multiset(Tasks(input))
  {
    var tasks := Tasks(input);
    forall t ensures t in r.tasks <==> t in tasks {
      MapOfLooksUp(tasks, t);
    }
    forall i, j | 0 <= i < j < |tasks| ensures tasks[i] != tasks[j] {
      assert TaskIdOf(tasks[i]) != TaskIdOf(tasks[j]);
    }
    SameTasks(r.tasks, tasks);
  }

  lemma KeysOfTasks(tasks: TaskMap, r: seq<Task>)
    requires Keyed(tasks) && ListsEach(tasks, r)
    ensures |r| == |tasks.Keys|
  {
    forall i, j | 0 <= i < j < |r| ensures TaskIdOf(r[i]) != TaskIdOf(r[j]) {
      assert r[i] in r && r[j] in r;
    }
    assert DistinctKeys(r, TaskIdOf);
    var ids := Map(r, TaskIdOf);
    DistinctLength(ids);
    forall id | id in tasks ensures id in ids {
      assert tasks[id] in r;
      var i :| 0 <= i < |r| && r[i] == tasks[id];
      assert ids[i] == id;
    }
    forall id | id in ids ensures id in tasks {
      var i :| 0 <= i < |ids| && ids[i] == id;
      assert r[i] in r;
    }
    assert Elements(ids) == tasks.Keys;
  }

  lemma {:induction false} DistinctCount(tasks: seq<Task>)
    ensures |MapOf(tasks).Keys| <= |tasks|
    ensures |MapOf(tasks).Keys| == |tasks| <==> DistinctKeys(tasks, TaskIdOf)
  {
    if tasks != [] {
      var n := |tasks| - 1;
      var front, last := tasks[..n], tasks[n];
      DistinctCount(front);
      MapOfKeys(front);
      assert tasks == front + [last];
      assert MapOf(tasks).Keys == MapOf(front).Keys + {last.taskId};
      DistinctSnoc(front, last, TaskIdOf);
      assert last.taskId in MapOf(front) <==> exists t :: t in front && TaskIdOf(t) == TaskIdOf(last);
    }
  }

  /** The pack has a task for every failing requirement iff no two of them share a task id. */
  lemma NoTaskLostIff(input: Input, r: PackResult)
    requires Builds(input, r) && r.Pack?
    ensures |r.tasks| == |Tasks(input)| <==> DistinctKeys(Tasks(input), TaskIdOf)
  {
    MapOfKeyed(Tasks(input));
    KeysOfTasks(MapOf(Tasks(input)), r.tasks);
    DistinctCount(Tasks(input));
  }

  const A_DOT_B: Str := [0x61, 0x2E, 0x62]

  const A_DASH_B: Str := [0x61, 0x2D, 0x62]

  /** Task ids do not separate requirements: `a.b` and `a-b` get the same one. */
  lemma TaskIdsCollide()
    ensures TaskId(A_DOT_B) == TaskId(A_DASH_B)
  {
    SlugsConcat([0x61, 0x63, 0x74, 0x2D], A_DOT_B);
    SlugsConcat([0x61, 0x63, 0x74, 0x2D], A_DASH_B);
    assert Slugs(A_DOT_B) == [0x61] + Slugs([0x2E, 0x62]) == [0x61] + ([0x2D] + Slugs([0x62]));
    assert Slugs(A_DASH_B) == [0x61] + Slugs([0x2D, 0x62]) == [0x61] + ([0x2D] + Slugs([0x62]));
  }

  /** Remediation that can be used and waits for nothing. */
  predicate Remedied(remediation: map<Str, Remediation>, id: Str) {
    id in remediation && Usable(remediation[id]) && remediation[id].dependencies == []
  }

  lemma {:induction false} MapOfTakes(tasks: seq<Task>)
    ensures forall id :: id in MapOf(tasks) ==> MapOf(tasks)[id] in tasks
  {
    if tasks != [] {
      MapOfTakes(tasks[..|tasks| - 1]);
    }
  }

  lemma NothingNeededAcyclic(tasks: seq<Task>)
    requires forall t :: t in tasks ==> t.dependencies == []
    ensures Acyclic(PackArrows(MapOf(tasks)), MapOf(tasks).Keys)
  {
    MapOfTakes(tasks);
    hide MapOf;
    var m := MapOf(tasks);
    assert PackArrows(m) == {} by {
      assert forall id :: id in m ==> Needs(m, id) == [];
    }
    forall w ensures !IsClosedWalk(PackArrows(m), m.Keys, w) {
      if |w| >= 2 {
        assert Edge(w[0], w[1]) !in PackArrows(m);
      }
    }
  }

  /** Both requirements fail and can be remedied. */
  predicate BothFail(input: Input) {
    && input.requirements == [Evaluation(A_DOT_B, Fail), Evaluation(A_DASH_B, Fail)]
    && Remedied(input.remediation, A_DOT_B) && Remedied(input.remediation, A_DASH_B)
  }

  lemma BothTasks(input: Input)
    requires BothFail(input)
    ensures !AnyFaulty(input)
    ensures Tasks(input) == [TaskOf(A_DOT_B, input.remediation[A_DOT_B]), TaskOf(A_DASH_B, input.remediation[A_DASH_B])]
  {
    hide TaskOf, Usable;
    var x, y, f := Evaluation(A_DOT_B, Fail), Evaluation(A_DASH_B, Fail), TaskFor(input.remediation);
    FlatMapSnoc([], x, f);
    FlatMapSnoc([x], y, f);
    assert [] + [x] == [x] && [x] + [y] == input.requirements;
    assert FlatMap([], f) == [];
    assert f(x) == [TaskOf(A_DOT_B, input.remediation[A_DOT_B])] && f(y) == [TaskOf(A_DASH_B, input.remediation[A_DASH_B])];
  }

  /** Where both fail, the pack is built and one of their two tasks is missing. */
  lemma CollidingTaskIsLost(input: Input, r: PackResult)
    requires BothFail(input) && Builds(input, r)
    ensures r.Pack? && |Tasks(input)| == 2 && |r.tasks| == 1
  {
    BothTasks(input);
    TaskIdsCollide();
    hide BothFail, TaskId, ListsEach, DependenciesFirst, ResultOf, Acyclic, PackArrows, MapOf, Tasks, SortBy, AnyFaulty, Keyed;
    var tasks := Tasks(input);
    MapOfKeys(tasks);
    MapOfKeyed(tasks);
    assert MapOf(tasks).Keys == {TaskId(A_DOT_B)} by {
      assert tasks[0].taskId == tasks[1].taskId == TaskId(A_DOT_B);
      assert forall t :: t in tasks ==> t == tasks[0] || t == tasks[1];
    }
    NothingNeededAcyclic(tasks);
    KeysOfTasks(MapOf(tasks), r.tasks);
  }

  lemma {:induction false} SlugsConcat(a: Str, b: Str)
    ensures Slugs(a + b) == Slugs(a) + Slugs(b)
  {
    if a == [] {
      assert a + b == b;
    } else {
      assert (a + b)[0] == a[0] && (a + b)[1..] == a[1..] + b;
      SlugsConcat(a[1..], b);
      Regroup(Slug(a[0]), Slugs(a[1..]), Slugs(b));
    }
  }

  // ---------------------------------------------------------------------------
  // Order independence
  // ---------------------------------------------------------------------------

  lemma MapOfPermute(a: seq<Task>, b: seq<Task>)
    requires multiset(a) == multiset(b) && DistinctKeys(a, TaskIdOf)
    ensures MapOf(a) == MapOf(b)
  {
    PermuteKeepsDistinct(a, b, TaskIdOf);
    SameElements(a, b);
    MapOfKeys(a);
    MapOfKeys(b);
    MapOfKeyed(a);
    assert MapOf(a).Keys == MapOf(b).Keys;
    forall id | id in MapOf(a) ensures MapOf(b)[id] == MapOf(a)[id] {
      MapOfLooksUp(a, MapOf(a)[id]);
      MapOfLooksUp(b, MapOf(a)[id]);
    }
  }

  /** The pack does not depend on the order of the requirements. */
  lemma OrderIrrelevant(a: Input, b: Input, r: PackResult, s: PackResult)
    requires b == a.(requirements := b.requirements) && multiset(a.requirements) == multiset(b.requirements)
    requires DistinctKeys(Tasks(a), TaskIdOf)
    requires Builds(a, r) && Builds(b, s)
    ensures r == s
  {
    SameElements(a.requirements, b.requirements);
    FlatMapPermute(a.requirements, b.requirements, TaskFor(a.remediation));
    SameElements(Tasks(a), Tasks(b));
    MapOfPermute(Tasks(a), Tasks(b));
    hide Tasks, MapOf, ListsEach, DependenciesFirst, ResultOf, Acyclic, PackArrows, DistinctKeys;
    assert AnyFaulty(a) == AnyFaulty(b);
    if r.Pack? && s.Pack? {
      ResultUnique(MapOf(Tasks(a)), Listing(r.tasks), Listing(s.tasks));
    }
  }
}
