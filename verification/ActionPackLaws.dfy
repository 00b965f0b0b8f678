/**
  What the builder of action packs does, in terms of its input alone: which requirements get a
  task, what the task carries, what is refused, and which tasks stand before which.
 */
module ActionPackLaws {
  import opened Text
  import opened Lists
  import opened Graphs
  import opened TaskSort
  import opened ActionPack

  // ---------------------------------------------------------------------------
  // Task ids
  // ---------------------------------------------------------------------------

  /** What the lower-cased and cleaned text has in the place of one unit. */
  ghost predicate Cleans(u: Unit, piece: Str) {
    && (65 <= u <= 90 ==> piece == [u + 32])
    && (97 <= u <= 122 || 48 <= u <= 57 || u == 45 ==> piece == [u])
    && (u == 8490 ==> piece == [107])
    && (u == 304 ==> piece == [105, 45])
    && (!(65 <= u <= 90) && !(97 <= u <= 122) && !(48 <= u <= 57) && u !in {304, 8490} ==> piece == [45])
  }

  /** The id is `act-` and the cleaned requirement id, unit by unit. */
  lemma TaskIdIs(s: Str, u: Unit)
    ensures TaskId([]) == [97, 99, 116, 45]
    ensures exists piece :: Cleans(u, piece) && TaskId(s + [u]) == TaskId(s) + piece
  {
    var act: Str := [97, 99, 116, 45];
    SlugsConcat(act + s, [u]);
    assert (act + s) + [u] == act + (s + [u]) && act + [] == act;
    hide Slugs;
    SlugCleans(u);
    ActKept();
  }

  lemma SlugCleans(u: Unit)
    ensures Cleans(u, Slugs([u]))
  {
    assert Slugs([u]) == Slug(u) + Slugs([]) == Slug(u);
  }

  lemma ActKept()
    ensures Slugs([97, 99, 116, 45]) == [97, 99, 116, 45]
  {
    assert Slugs([45]) == [45] && Slugs([116, 45]) == [116, 45] && Slugs([99, 116, 45]) == [99, 116, 45];
  }

  // ---------------------------------------------------------------------------
  // Requirements and their tasks
  // ---------------------------------------------------------------------------

  ghost predicate Fails(input: Input, i: nat) {
    i < |input.requirements| && input.requirements[i].status in {Fail, Stale, Incomplete}
  }

  /** Nothing to work with: metadata, an anchor, a description or a command is missing. */
  ghost predicate Unremedied(input: Input, i: nat) {
    && Fails(input, i)
    && var id := input.requirements[i].requirementId;
       id in input.remediation ==>
         var meta := input.remediation[id];
         meta.anchors == [] || meta.description == [] || meta.verificationCommand == []
  }

  ghost function IdAt(input: Input, i: nat): Str
    requires i < |input.requirements|
  {
    TaskId(input.requirements[i].requirementId)
  }

  /** The last failing requirement among the first n with its task id. */
  ghost predicate LastOf(input: Input, n: nat, i: nat) {
    i < n <= |input.requirements| && Fails(input, i)
    && forall j :: i < j < n && Fails(input, j) ==> IdAt(input, j) != IdAt(input, i)
  }

  /** The requirement whose task is in the pack. */
  ghost predicate Tasked(input: Input, i: nat) {
    LastOf(input, |input.requirements|, i)
  }

  ghost predicate Carries(t: Task, requirementId: Str, meta: Remediation) {
    && t.taskId == TaskId(requirementId)
    && t.remediationClass == meta.remediationClass
    && t.description == meta.description
    && t.verificationCommand == meta.verificationCommand
    && multiset(t.anchors) == multiset(meta.anchors)
    && multiset(t.dependencies) == multiset(meta.dependencies)
    && (forall k, l :: 0 <= k < l < |t.anchors| ==> AtMost(t.anchors[k].anchorId, t.anchors[l].anchorId))
    && (forall k, l :: 0 <= k < l < |t.dependencies| ==> AtMost(t.dependencies[k].dependsOn, t.dependencies[l].dependsOn))
  }

  ghost predicate TaskAt(input: Input, i: nat, t: Task) {
    && i < |input.requirements|
    && input.requirements[i].requirementId in input.remediation
    && Carries(t, input.requirements[i].requirementId, input.remediation[input.requirements[i].requirementId])
  }

  lemma TaskOfCarries(requirementId: Str, meta: Remediation)
    ensures Carries(TaskOf(requirementId, meta), requirementId, meta)
  {
    hide SortBy, TaskId;
    SortBySorts(meta.anchors, AnchorKey);
    SortBySorts(meta.dependencies, DependsOn);
    var t := TaskOf(requirementId, meta);
    forall k, l | 0 <= k < l < |t.anchors| ensures AtMost(t.anchors[k].anchorId, t.anchors[l].anchorId) {
      assert AtMost(AnchorKey(t.anchors[k]), AnchorKey(t.anchors[l]));
    }
    forall k, l | 0 <= k < l < |t.dependencies| ensures AtMost(t.dependencies[k].dependsOn, t.dependencies[l].dependsOn) {
      assert AtMost(DependsOn(t.dependencies[k]), DependsOn(t.dependencies[l]));
    }
  }

  lemma FaultyIff(input: Input)
    ensures AnyFaulty(input) <==> exists i: nat :: Unremedied(input, i)
  {
    forall i: nat | i < |input.requirements|
      ensures Faulty(input.remediation, input.requirements[i]) <==> Unremedied(input, i)
    {
    }
    if AnyFaulty(input) {
      var r :| r in input.requirements && Faulty(input.remediation, r);
      var i :| 0 <= i < |input.requirements| && input.requirements[i] == r;
      assert Unremedied(input, i);
    }
  }

  // ---------------------------------------------------------------------------
  // The map of tasks
  // ---------------------------------------------------------------------------

  ghost function Failing(input: Input, n: nat): set<nat> {
    set i: nat | i < n && Fails(input, i)
  }

  ghost function Prefix(input: Input, n: nat): seq<Task>
    requires n <= |input.requirements|
  {
    FlatMap(input.requirements[..n], TaskFor(input.remediation))
  }

  lemma PrefixNext(input: Input, n: nat)
    requires n < |input.requirements| && !Unremedied(input, n)
    ensures if Fails(input, n) then
              exists t :: TaskAt(input, n, t) && Prefix(input, n + 1) == Prefix(input, n) + [t]
            else Prefix(input, n + 1) == Prefix(input, n)
  {
    hide Carries, TaskOf, Usable, FlatMap;
    var r := input.requirements[n];
    assert input.requirements[..n + 1] == input.requirements[..n] + [r];
    FlatMapSnoc(input.requirements[..n], r, TaskFor(input.remediation));
    if Fails(input, n) {
      var t := TaskOf(r.requirementId, input.remediation[r.requirementId]);
      TaskOfCarries(r.requirementId, input.remediation[r.requirementId]);
      assert TaskAt(input, n, t);
    } else {
      assert Prefix(input, n) + [] == Prefix(input, n);
    }
  }

  lemma MapOfSnoc(tasks: seq<Task>, t: Task)
    ensures MapOf(tasks + [t]) == MapOf(tasks)[t.taskId := t]
  {
    assert (tasks + [t])[..|tasks|] == tasks;
  }

  /** The tasks of a prefix: one for each failing requirement, of which the last with an id is kept. */
  ghost predicate MapsPrefix(input: Input, n: nat, tasks: TaskMap) {
    && (forall i: nat :: i < n <= |input.requirements| && Fails(input, i) ==> IdAt(input, i) in tasks)
    && (forall id :: id in tasks ==> exists i: nat :: LastOf(input, n, i) && IdAt(input, i) == id)
    && (forall i: nat :: LastOf(input, n, i) ==> IdAt(input, i) in tasks && TaskAt(input, i, tasks[IdAt(input, i)]))
  }

  lemma FailingNext(input: Input, n: nat)
    ensures |Failing(input, n + 1)| == |Failing(input, n)| + (if Fails(input, n) then 1 else 0)
  {
    assert Failing(input, n + 1) == Failing(input, n) + (if Fails(input, n) then {n} else {});
  }

  lemma {:induction false} PrefixCounts(input: Input, n: nat)
    requires n <= |input.requirements| && forall i: nat :: !Unremedied(input, i)
    ensures |Prefix(input, n)| == |Failing(input, n)|
  {
    if n == 0 {
      assert Failing(input, 0) == {};
    } else {
      PrefixCounts(input, n - 1);
      PrefixNext(input, n - 1);
      FailingNext(input, n - 1);
      hide Prefix, Failing, TaskAt;
    }
  }

  lemma {:induction false} PrefixMaps(input: Input, n: nat)
    requires n <= |input.requirements| && forall i: nat :: !Unremedied(input, i)
    ensures MapsPrefix(input, n, MapOf(Prefix(input, n)))
  {
    if n > 0 {
      PrefixMaps(input, n - 1);
      PrefixNext(input, n - 1);
      hide MapOf, Prefix, TaskAt, MapsPrefix;
      if Fails(input, n - 1) {
        var t :| TaskAt(input, n - 1, t) && Prefix(input, n) == Prefix(input, n - 1) + [t];
        MapOfSnoc(Prefix(input, n - 1), t);
        MapsNext(input, n - 1, MapOf(Prefix(input, n - 1)), t);
      } else {
        MapsSame(input, n - 1, MapOf(Prefix(input, n - 1)));
      }
    }
  }

  lemma LastNext(input: Input, n: nat, i: nat)
    requires n < |input.requirements| && Fails(input, n)
    ensures LastOf(input, n + 1, i) <==> i == n || (LastOf(input, n, i) && IdAt(input, i) != IdAt(input, n))
  {
  }

  lemma TaskAtHasId(input: Input, i: nat, t: Task)
    requires TaskAt(input, i, t)
    ensures t.taskId == IdAt(input, i)
  {
  }

  lemma MapsNext(input: Input, n: nat, tasks: TaskMap, t: Task)
    requires n < |input.requirements| && Fails(input, n) && TaskAt(input, n, t) && MapsPrefix(input, n, tasks)
    ensures MapsPrefix(input, n + 1, tasks[t.taskId := t])
  {
    TaskAtHasId(input, n, t);
    hide IdAt, TaskAt, LastOf, Fails;
    forall i: nat
      ensures LastOf(input, n + 1, i) <==> i == n || (LastOf(input, n, i) && IdAt(input, i) != IdAt(input, n))
    {
      LastNext(input, n, i);
    }
  }

  lemma MapsSame(input: Input, n: nat, tasks: TaskMap)
    requires n < |input.requirements| && !Fails(input, n) && MapsPrefix(input, n, tasks)
    ensures MapsPrefix(input, n + 1, tasks)
  {
    hide TaskId, Carries;
    assert forall i: nat :: LastOf(input, n + 1, i) <==> LastOf(input, n, i);
  }

  // ---------------------------------------------------------------------------
  // The graph of dependencies
  // ---------------------------------------------------------------------------

  /** An edge from the id of a failing requirement to each id its remediation depends on. */
  ghost function Waits(input: Input): set<Edge> {
    set i: nat, d | i < |input.requirements| && Tasked(input, i) && d in DependenciesAt(input, i) :: Edge(IdAt(input, i), d.dependsOn)
  }

  ghost function DependenciesAt(input: Input, i: nat): seq<Dependency>
    requires i < |input.requirements|
  {
    var id := input.requirements[i].requirementId;
    if id in input.remediation then input.remediation[id].dependencies else []
  }

  ghost function TaskIds(input: Input): set<Str> {
    set i: nat | i < |input.requirements| && Tasked(input, i) :: IdAt(input, i)
  }

  lemma SameCycles(edges: set<Edge>, others: set<Edge>, vertices: set<Str>)
    requires forall e :: e in edges && e.from in vertices && e.to in vertices ==> e in others
    ensures Acyclic(others, vertices) ==> Acyclic(edges, vertices)
  {
    forall w | IsClosedWalk(edges, vertices, w) ensures IsClosedWalk(others, vertices, w) {
    }
  }

  lemma NeedsIff(input: Input, tasks: TaskMap, i: nat, to: Str)
    requires MapsPrefix(input, |input.requirements|, tasks) && Tasked(input, i)
    ensures to in Needs(tasks, IdAt(input, i)) <==> exists d :: d in DependenciesAt(input, i) && d.dependsOn == to
  {
    hide TaskId;
    var t := tasks[IdAt(input, i)];
    assert TaskAt(input, i, t);
    SameElements(t.dependencies, DependenciesAt(input, i));
    var needs := Map(t.dependencies, DependsOn);
    if to in needs {
      var k :| 0 <= k < |needs| && needs[k] == to;
      assert t.dependencies[k] in t.dependencies;
    }
    if d :| d in t.dependencies && d.dependsOn == to {
      var k :| 0 <= k < |t.dependencies| && t.dependencies[k] == d;
      assert needs[k] == to;
    }
  }

  lemma GraphIs(input: Input, tasks: TaskMap)
    requires MapsPrefix(input, |input.requirements|, tasks)
    ensures tasks.Keys == TaskIds(input)
    ensures Acyclic(PackArrows(tasks), tasks.Keys) <==> Acyclic(Waits(input), TaskIds(input))
  {
    hide Acyclic, Needs, DependenciesAt, TaskId, Carries;
    forall id | id in tasks ensures id in TaskIds(input) {
      var i: nat :| Tasked(input, i) && IdAt(input, i) == id;
    }
    forall a, b | a in tasks && b in tasks ensures Edge(a, b) in PackArrows(tasks) <==> Edge(a, b) in Waits(input) {
      var i: nat :| Tasked(input, i) && IdAt(input, i) == a;
      NeedsIff(input, tasks, i, b);
      assert forall j: nat :: Tasked(input, j) && IdAt(input, j) == a ==> i == j;
    }
    SameCycles(PackArrows(tasks), Waits(input), tasks.Keys);
    SameCycles(Waits(input), PackArrows(tasks), tasks.Keys);
  }

  // ---------------------------------------------------------------------------
  // The pack
  // ---------------------------------------------------------------------------

  /** A task for each last failing requirement with its id, once, and nothing else. */
  ghost predicate HoldsTasks(input: Input, tasks: seq<Task>) {
    && (forall k, l :: 0 <= k < l < |tasks| ==> tasks[k].taskId != tasks[l].taskId)
    && (forall i: nat :: Tasked(input, i) ==> exists t :: t in tasks && TaskAt(input, i, t))
    && (forall t :: t in tasks ==> exists i: nat :: Tasked(input, i) && TaskAt(input, i, t))
  }

  ghost predicate StandsBefore(tasks: seq<Task>, first: Str, second: Str) {
    forall k, l :: 0 <= k < |tasks| && 0 <= l < |tasks| && tasks[k].taskId == first && tasks[l].taskId == second ==> k < l
  }

  /** Whatever a failing requirement's remediation depends on stands before its task. */
  ghost predicate WaitsFirst(input: Input, tasks: seq<Task>) {
    forall i: nat, d :: Tasked(input, i) && d in DependenciesAt(input, i) ==> StandsBefore(tasks, d.dependsOn, IdAt(input, i))
  }

  lemma HoldsTasksOf(input: Input, tasks: TaskMap, r: seq<Task>)
    requires MapsPrefix(input, |input.requirements|, tasks) && Keyed(tasks) && ListsEach(tasks, r)
    ensures HoldsTasks(input, r)
  {
    hide TaskAt, IdAt;
    forall k, l | 0 <= k < l < |r| ensures r[k].taskId != r[l].taskId {
      assert r[k] in r && r[l] in r;
    }
    forall i: nat | Tasked(input, i) ensures exists t :: t in r && TaskAt(input, i, t) {
      assert tasks[IdAt(input, i)] in r;
    }
  }

  lemma NeededFirst(tasks: TaskMap, r: seq<Task>, needed: Str, id: Str)
    requires Keyed(tasks) && ListsEach(tasks, r) && DependenciesFirst(tasks, r)
    requires id in tasks && needed in Needs(tasks, id)
    ensures StandsBefore(r, needed, id)
  {
    hide Needs;
    forall k, l | 0 <= k < |r| && 0 <= l < |r| && r[k].taskId == needed && r[l].taskId == id ensures k < l {
      assert r[k] in r && tasks[needed] == r[k];
      assert tasks[needed] in r[..l];
      var j :| 0 <= j < l && r[..l][j] == r[k];
      assert r[j] == r[k];
    }
  }

  lemma WaitsFirstOf(input: Input, tasks: TaskMap, r: seq<Task>)
    requires MapsPrefix(input, |input.requirements|, tasks) && Keyed(tasks) && ListsEach(tasks, r) && DependenciesFirst(tasks, r)
    ensures WaitsFirst(input, r)
  {
    hide TaskAt, IdAt, DependenciesAt, Needs, ListsEach, DependenciesFirst, StandsBefore;
    forall i: nat, d | Tasked(input, i) && d in DependenciesAt(input, i)
      ensures StandsBefore(r, d.dependsOn, IdAt(input, i))
    {
      NeedsIff(input, tasks, i, d.dependsOn);
      NeededFirst(tasks, r, d.dependsOn, IdAt(input, i));
    }
  }

  /**
    The answer, from the input: refused with CERT-ACTION-01 when a failing requirement lacks its
    remediation, with CERT-LIMIT-03 when more than 1000 fail, and otherwise with CERT-ACTION-01
    exactly when the dependencies have a cycle; a pack holds the tasks in an order that respects them.
   */
  lemma BuildsIs(input: Input, r: PackResult)
    requires Builds(input, r)
    ensures if exists i: nat :: Unremedied(input, i) then r == Refused(CertAction01)
            else if |Failing(input, |input.requirements|)| > 1000 then r == Refused(CertLimit03)
            else if !Acyclic(Waits(input), TaskIds(input)) then r == Refused(CertAction01)
            else
              && r.Pack? && HoldsTasks(input, r.tasks) && WaitsFirst(input, r.tasks)
              && r == Pack(input.actionPackId, input.candidateId, input.decisionId, r.tasks, input.createdAt)
  {
    FaultyIff(input);
    if !AnyFaulty(input) {
      var n := |input.requirements|;
      assert input.requirements[..n] == input.requirements;
      PrefixCounts(input, n);
      PrefixMaps(input, n);
      var tasks := MapOf(Tasks(input));
      MapOfKeyed(Tasks(input));
      GraphIs(input, tasks);
      if r.Pack? {
        HoldsTasksOf(input, tasks, r.tasks);
        WaitsFirstOf(input, tasks, r.tasks);
      }
    }
  }
}
