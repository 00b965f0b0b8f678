/**
  The recursive topologicalSort of src/certification/action-pack.ts: a depth-first search that
  lists a task once the tasks it depends on are listed.
 */
module TaskSort {
  import opened Text
  import opened Graphs
  import opened CycleFinder

  datatype Anchor = Anchor(anchorId: Str, location: Str)

  datatype Dependency = Dependency(dependsOn: Str, hard: bool)

  datatype Task = Task(
    taskId: Str,
    remediationClass: Str,
    description: Str,
    verificationCommand: Str,
    anchors: seq<Anchor>,
    dependencies: seq<Dependency>)

  type TaskMap = map<Str, Task>

  function DependsOn(d: Dependency): Str {
    d.dependsOn
  }

  /** The ids visit is called with for id; none when the id names no task. */
  function Needs(tasks: TaskMap, id: Str): seq<Str> {
    if id in tasks then Map(tasks[id].dependencies, DependsOn) else []
  }

  ghost function Universe(tasks: TaskMap): set<Str> {
    tasks.Keys + set id, d | id in tasks && d in Needs(tasks, id) :: d
  }

  ghost function Arrows(tasks: TaskMap): set<Edge> {
    set id, d | id in tasks && d in Needs(tasks, id) :: Edge(id, d)
  }

  lemma NeedsInUniverse(tasks: TaskMap, id: Str)
    ensures forall d :: d in Needs(tasks, id) <==> Edge(id, d) in Arrows(tasks)
    ensures forall d :: d in Needs(tasks, id) ==> d in Universe(tasks)
  {
  }

  datatype Mark = Visiting | Done

  datatype State = State(visited: map<Str, Mark>, result: seq<Task>)

  ghost function Unvisited(tasks: TaskMap, s: State): set<Str> {
    Universe(tasks) - s.visited.Keys
  }

  function Listed(tasks: TaskMap, id: Str): seq<Task> {
    if id in tasks then [tasks[id]] else []
  }

  datatype Outcome = Outcome(ok: bool, state: State)

  /** visit(id): false once an id is met that is being visited. */
  function Visit(tasks: TaskMap, s: State, id: Str): (o: Outcome)
    requires id in Universe(tasks)
    ensures s.visited.Keys <= o.state.visited.Keys
    decreases Unvisited(tasks, s), 0
  {
    if id in s.visited then Outcome(s.visited[id].Done?, s)
    else
      NeedsInUniverse(tasks, id);
      var s1 := State(s.visited[id := Visiting], s.result);
      assert id in Unvisited(tasks, s) && id !in Unvisited(tasks, s1);
      var o := VisitEach(tasks, s1, Needs(tasks, id));
      if !o.ok then o
      else Outcome(true, State(o.state.visited[id := Done], o.state.result + Listed(tasks, id)))
  }

  function VisitEach(tasks: TaskMap, s: State, ids: seq<Str>): (o: Outcome)
    requires forall i :: 0 <= i < |ids| ==> ids[i] in Universe(tasks)
    ensures s.visited.Keys <= o.state.visited.Keys
    decreases Unvisited(tasks, s), |ids|
  {
    if ids == [] then Outcome(true, s)
    else
      var o := Visit(tasks, s, ids[0]);
      if o.ok then VisitEach(tasks, o.state, ids[1..]) else o
  }

  const START := State(map[], [])

  function SortTasks(tasks: TaskMap, ids: seq<Str>): Outcome
    requires Elements(ids) == tasks.Keys
  {
    assert forall i :: 0 <= i < |ids| ==> ids[i] in Elements(ids);
    VisitEach(tasks, START, ids)
  }

  // ---------------------------------------------------------------------------
  // What a visit keeps
  // ---------------------------------------------------------------------------

  ghost function Colors(tasks: TaskMap, visited: map<Str, Mark>): Coloring {
    map id | id in Universe(tasks) :: if id !in visited then White else if visited[id].Visiting? then Gray else Black
  }

  /** The tasks among finished ids. */
  function TasksOf(tasks: TaskMap, finished: seq<Str>): seq<Task> {
    if finished == [] then []
    else TasksOf(tasks, finished[..|finished| - 1]) + Listed(tasks, finished[|finished| - 1])
  }

  ghost predicate Marked(tasks: TaskMap, s: State, stack: seq<Str>, finished: seq<Str>) {
    && s.visited.Keys <= Universe(tasks)
    && Consistent(Arrows(tasks), Colors(tasks, s.visited), stack, finished)
    && s.result == TasksOf(tasks, finished)
  }

  lemma ColorsKeys(tasks: TaskMap, visited: map<Str, Mark>)
    ensures Colors(tasks, visited).Keys == Universe(tasks)
  {
  }

  lemma MarkColors(tasks: TaskMap, visited: map<Str, Mark>, id: Str)
    requires id in Universe(tasks)
    ensures Colors(tasks, visited[id := Visiting]) == Colors(tasks, visited)[id := Gray]
    ensures Colors(tasks, visited[id := Done]) == Colors(tasks, visited)[id := Black]
  {
  }

  /** Reading the mark of an id tells whether it is on the stack or finished. */
  lemma ReadMark(tasks: TaskMap, s: State, stack: seq<Str>, finished: seq<Str>, id: Str)
    requires Marked(tasks, s, stack, finished) && id in Universe(tasks)
    ensures id in stack <==> id in s.visited && s.visited[id].Visiting?
    ensures id in finished <==> id in s.visited && s.visited[id].Done?
    ensures stack == [] || IsWalk(Arrows(tasks), Universe(tasks), stack)
  {
    ColorsKeys(tasks, s.visited);
    ColorsRead(Arrows(tasks), Colors(tasks, s.visited), stack, finished, id);
  }

  lemma OnStackIsCycle(tasks: TaskMap, s: State, stack: seq<Str>, finished: seq<Str>, id: Str)
    requires Marked(tasks, s, stack, finished) && id in Universe(tasks) && id in stack
    requires Edge(stack[|stack| - 1], id) in Arrows(tasks)
    ensures !Acyclic(Arrows(tasks), Universe(tasks))
  {
    ReadMark(tasks, s, stack, finished, id);
    hide Marked, Consistent;
    var i :| 0 <= i < |stack| && stack[i] == id;
    CloseWalk(Arrows(tasks), Universe(tasks), stack, i);
  }

  lemma Enter(tasks: TaskMap, s: State, stack: seq<Str>, finished: seq<Str>, id: Str)
    requires Marked(tasks, s, stack, finished) && id in Universe(tasks) && id !in s.visited
    requires stack == [] || Edge(stack[|stack| - 1], id) in Arrows(tasks)
    ensures Marked(tasks, State(s.visited[id := Visiting], s.result), stack + [id], finished)
  {
    hide Consistent;
    MarkColors(tasks, s.visited, id);
    StartVertex(Arrows(tasks), Colors(tasks, s.visited), stack, finished, id);
  }

  lemma Leave(tasks: TaskMap, s: State, stack: seq<Str>, finished: seq<Str>, id: Str)
    requires Marked(tasks, s, stack + [id], finished) && id in Universe(tasks)
    requires forall d :: d in Needs(tasks, id) ==> d in finished
    ensures Marked(tasks, State(s.visited[id := Done], s.result + Listed(tasks, id)), stack, finished + [id])
  {
    hide Consistent;
    NeedsInUniverse(tasks, id);
    MarkColors(tasks, s.visited, id);
    FinishVertex(Arrows(tasks), Colors(tasks, s.visited), stack, finished, id);
    assert (finished + [id])[..|finished|] == finished;
  }

  /** A visit finishes its id and leaves the stack alone, or it has met a cycle. */
  lemma {:induction false} VisitKeeps(tasks: TaskMap, s: State, id: Str, stack: seq<Str>, finished: seq<Str>)
    returns (more: seq<Str>)
    requires Marked(tasks, s, stack, finished) && id in Universe(tasks)
    requires stack == [] || Edge(stack[|stack| - 1], id) in Arrows(tasks)
    ensures !Visit(tasks, s, id).ok ==> !Acyclic(Arrows(tasks), Universe(tasks))
    ensures Visit(tasks, s, id).ok ==> Marked(tasks, Visit(tasks, s, id).state, stack, more)
    ensures Visit(tasks, s, id).ok ==> finished <= more && id in more
    decreases Unvisited(tasks, s), 0
  {
    more := finished;
    ReadMark(tasks, s, stack, finished, id);
    hide Marked;
    if id in s.visited {
      if s.visited[id].Visiting? {
        OnStackIsCycle(tasks, s, stack, finished, id);
      }
    } else {
      var s1 := State(s.visited[id := Visiting], s.result);
      assert id in Unvisited(tasks, s) && id !in Unvisited(tasks, s1);
      Enter(tasks, s, stack, finished, id);
      NeedsInUniverse(tasks, id);
      var finished1 := VisitEachKeeps(tasks, s1, Needs(tasks, id), stack + [id], finished);
      var o := VisitEach(tasks, s1, Needs(tasks, id));
      if o.ok {
        Leave(tasks, o.state, stack, finished1, id);
        more := finished1 + [id];
      }
    }
  }

  lemma InExtension(a: seq<Str>, b: seq<Str>, x: Str)
    requires a <= b && x in a
    ensures x in b
  {
  }

  lemma InTail(ids: seq<Str>, more: seq<Str>)
    requires ids != [] && ids[0] in more
    requires forall i :: 0 <= i < |ids[1..]| ==> ids[1..][i] in more
    ensures forall i :: 0 <= i < |ids| ==> ids[i] in more
  {
    forall i | 0 <= i < |ids| ensures ids[i] in more {
      assert i > 0 ==> ids[i] == ids[1..][i - 1];
    }
  }

  lemma {:induction false} VisitEachKeeps(tasks: TaskMap, s: State, ids: seq<Str>, stack: seq<Str>, finished: seq<Str>)
    returns (more: seq<Str>)
    requires Marked(tasks, s, stack, finished) && forall i :: 0 <= i < |ids| ==> ids[i] in Universe(tasks)
    requires stack != [] ==> forall i :: 0 <= i < |ids| ==> Edge(stack[|stack| - 1], ids[i]) in Arrows(tasks)
    ensures !VisitEach(tasks, s, ids).ok ==> !Acyclic(Arrows(tasks), Universe(tasks))
    ensures VisitEach(tasks, s, ids).ok ==> Marked(tasks, VisitEach(tasks, s, ids).state, stack, more)
    ensures VisitEach(tasks, s, ids).ok ==> finished <= more && forall i :: 0 <= i < |ids| ==> ids[i] in more
    decreases Unvisited(tasks, s), |ids|
  {
    more := finished;
    if ids != [] {
      hide Marked, Acyclic, Arrows, Universe, Needs, Visit;
      var finished1 := VisitKeeps(tasks, s, ids[0], stack, finished);
      var o := Visit(tasks, s, ids[0]);
      if o.ok {
        more := VisitEachKeeps(tasks, o.state, ids[1..], stack, finished1);
        if VisitEach(tasks, o.state, ids[1..]).ok {
          InExtension(finished1, more, ids[0]);
          InTail(ids, more);
        }
      }
    }
  }

  // ---------------------------------------------------------------------------
  // What the sorter promises
  // ---------------------------------------------------------------------------

  ghost predicate Keyed(tasks: TaskMap) {
    forall id :: id in tasks ==> tasks[id].taskId == id
  }

  /** The dependencies between tasks of the pack. */
  ghost function PackArrows(tasks: TaskMap): set<Edge> {
    set id, d | id in tasks && d in Needs(tasks, id) && d in tasks :: Edge(id, d)
  }

  ghost predicate ListsEach(tasks: TaskMap, r: seq<Task>) {
    NoDuplicates(r) && forall t :: t in r <==> t.taskId in tasks && tasks[t.taskId] == t
  }

  /** Whatever a task depends on inside the pack is listed before it. */
  ghost predicate DependenciesFirst(tasks: TaskMap, r: seq<Task>) {
    forall i, d :: 0 <= i < |r| && d in Needs(tasks, r[i].taskId) && d in tasks ==> tasks[d] in r[..i]
  }

  /** Absent ids need nothing, so no cycle runs through them. */
  lemma PackCycles(tasks: TaskMap)
    ensures Acyclic(Arrows(tasks), Universe(tasks)) <==> Acyclic(PackArrows(tasks), tasks.Keys)
  {
    forall w | IsClosedWalk(Arrows(tasks), Universe(tasks), w)
      ensures IsClosedWalk(PackArrows(tasks), tasks.Keys, w)
    {
      forall i | 0 <= i < |w| - 1 ensures w[i] in tasks {
        assert Edge(w[i], w[i + 1]) in Arrows(tasks);
      }
      assert w[|w| - 1] == w[0];
    }
    forall w | IsClosedWalk(PackArrows(tasks), tasks.Keys, w)
      ensures IsClosedWalk(Arrows(tasks), Universe(tasks), w)
    {
    }
  }

  lemma {:induction false} TasksOfIn(tasks: TaskMap, finished: seq<Str>, t: Task)
    requires Keyed(tasks)
    ensures t in TasksOf(tasks, finished) <==> t.taskId in finished && t.taskId in tasks && tasks[t.taskId] == t
  {
    if finished != [] {
      var n := |finished| - 1;
      assert finished == finished[..n] + [finished[n]];
      TasksOfIn(tasks, finished[..n], t);
    }
  }

  lemma {:induction false} TasksOfOrdered(tasks: TaskMap, finished: seq<Str>)
    requires Keyed(tasks) && NoDuplicates(finished)
    requires FinishedClosed(Arrows(tasks), Universe(tasks), finished)
    ensures NoDuplicates(TasksOf(tasks, finished))
    ensures DependenciesFirst(tasks, TasksOf(tasks, finished))
  {
    if finished != [] {
      var n := |finished| - 1;
      FrontClosed(tasks, finished);
      TasksOfOrdered(tasks, finished[..n]);
      LastTask(tasks, finished);
      var r := TasksOf(tasks, finished[..n]);
      hide Universe, Arrows, FinishedClosed, Needs, DependenciesFirst, Keyed;
      if finished[n] in tasks {
        SnocDependencies(tasks, r, tasks[finished[n]]);
      } else {
        assert TasksOf(tasks, finished) == r;
      }
    }
  }

  lemma FrontClosed(tasks: TaskMap, finished: seq<Str>)
    requires finished != [] && NoDuplicates(finished) && FinishedClosed(Arrows(tasks), Universe(tasks), finished)
    ensures NoDuplicates(finished[..|finished| - 1])
    ensures FinishedClosed(Arrows(tasks), Universe(tasks), finished[..|finished| - 1])
  {
    hide Arrows, Universe;
    var front := finished[..|finished| - 1];
    assert forall i :: 0 <= i < |front| ==> front[..i] == finished[..i];
  }

  /** The last id to finish names a new task, and what it needs is listed already. */
  lemma LastTask(tasks: TaskMap, finished: seq<Str>)
    requires finished != [] && Keyed(tasks) && NoDuplicates(finished)
    requires FinishedClosed(Arrows(tasks), Universe(tasks), finished)
    ensures
      var n := |finished| - 1;
      var id := finished[n];
      var r := TasksOf(tasks, finished[..n]);
      id in tasks ==>
        && tasks[id].taskId == id && tasks[id] !in r
        && forall d :: d in Needs(tasks, id) && d in tasks ==> tasks[d] in r
  {
    var n := |finished| - 1;
    var id := finished[n];
    NeedsInUniverse(tasks, id);
    hide Universe, Arrows, TasksOf, Needs;
    if id in tasks {
      TasksOfIn(tasks, finished[..n], tasks[id]);
      forall d | d in Needs(tasks, id) && d in tasks ensures tasks[d] in TasksOf(tasks, finished[..n]) {
        TasksOfIn(tasks, finished[..n], tasks[d]);
      }
    }
  }

  lemma SnocDependencies(tasks: TaskMap, r: seq<Task>, t: Task)
    requires DependenciesFirst(tasks, r)
    requires forall d :: d in Needs(tasks, t.taskId) && d in tasks ==> tasks[d] in r
    ensures DependenciesFirst(tasks, r + [t])
  {
    var s := r + [t];
    assert forall i :: 0 <= i < |r| ==> s[i] == r[i] && s[..i] == r[..i];
    assert s[..|r|] == r;
  }

  lemma StartMarked(tasks: TaskMap)
    ensures Marked(tasks, START, [], [])
  {
  }

  /**
    Sorting fails exactly when the tasks' dependency graph has a cycle; otherwise it lists every
    task once, each after those it depends on.
   */
  lemma SortTasksCorrect(tasks: TaskMap, ids: seq<Str>)
    requires Keyed(tasks) && Elements(ids) == tasks.Keys
    ensures SortTasks(tasks, ids).ok <==> Acyclic(PackArrows(tasks), tasks.Keys)
    ensures SortTasks(tasks, ids).ok ==> ListsEach(tasks, SortTasks(tasks, ids).state.result)
    ensures SortTasks(tasks, ids).ok ==> DependenciesFirst(tasks, SortTasks(tasks, ids).state.result)
  {
    PackCycles(tasks);
    StartMarked(tasks);
    assert forall i :: 0 <= i < |ids| ==> ids[i] in Elements(ids);
    hide Acyclic, PackArrows, VisitEach;
    var finished := VisitEachKeeps(tasks, START, ids, [], []);
    var o := VisitEach(tasks, START, ids);
    if o.ok {
      FinishedAll(tasks, o.state, ids, finished);
    }
  }

  lemma FinishedAll(tasks: TaskMap, s: State, ids: seq<Str>, finished: seq<Str>)
    requires Keyed(tasks) && Elements(ids) == tasks.Keys
    requires Marked(tasks, s, [], finished)
    requires forall i :: 0 <= i < |ids| ==> ids[i] in finished
    ensures Acyclic(Arrows(tasks), Universe(tasks))
    ensures ListsEach(tasks, s.result) && DependenciesFirst(tasks, s.result)
  {
    ColorsKeys(tasks, s.visited);
    forall id | id in tasks ensures id in finished && forall d :: d in Needs(tasks, id) ==> d in finished {
      assert id in Elements(ids);
      NeedsInUniverse(tasks, id);
      var i :| 0 <= i < |finished| && finished[i] == id;
      forall d | d in Needs(tasks, id) ensures d in finished {
        assert d in finished[..i];
      }
    }
    AllFinished(Arrows(tasks), Colors(tasks, s.visited), [], finished);
    TasksOfOrdered(tasks, finished);
    forall t ensures t in s.result <==> t.taskId in tasks && tasks[t.taskId] == t {
      TasksOfIn(tasks, finished, t);
    }
  }

  // ---------------------------------------------------------------------------
  // The recursion as the source runs it
  // ---------------------------------------------------------------------------

  class Sorter {
    const taskMap: TaskMap
    var visited: map<Str, Mark>
    var result: seq<Task>

    ghost function Now(): State
      reads this
    {
      State(visited, result)
    }

    constructor (taskMap: TaskMap)
      ensures this.taskMap == taskMap && Now() == START
    {
      this.taskMap := taskMap;
      visited := map[];
      result := [];
    }

    method VisitId(id: Str) returns (ok: bool)
      requires id in Universe(taskMap)
      modifies this
      ensures Outcome(ok, Now()) == Visit(taskMap, old(Now()), id)
      decreases Unvisited(taskMap, Now())
    {
      if id in visited {
        return visited[id].Done?;
      }
      ghost var before := Now();
      NeedsInUniverse(taskMap, id);
      assert id in Unvisited(taskMap, before);
      visited := visited[id := Visiting];
      assert id !in Unvisited(taskMap, Now());
      ghost var s1 := Now();
      var needs := Needs(taskMap, id);
      if id in taskMap {
        var i := 0;
        assert needs[0..] == needs;
        while i < |needs|
          invariant 0 <= i <= |needs|
          invariant s1.visited.Keys <= visited.Keys
          invariant VisitEach(taskMap, s1, needs) == VisitEach(taskMap, Now(), needs[i..])
        {
          assert needs[i..][1..] == needs[i + 1..];
          ok := VisitId(needs[i]);
          if !ok {
            return;
          }
          i := i + 1;
        }
      }
      visited := visited[id := Done];
      if id in taskMap {
        result := result + [taskMap[id]];
      }
      ok := true;
    }
  }

  /** Map.set for one task after another; a later task with the same id replaces an earlier one. */
  function MapOf(tasks: seq<Task>): TaskMap {
    if tasks == [] then map[] else MapOf(tasks[..|tasks| - 1])[tasks[|tasks| - 1].taskId := tasks[|tasks| - 1]]
  }

  function TaskIdOf(t: Task): Str {
    t.taskId
  }

  function Self(s: Str): Str {
    s
  }

  datatype Result = Cyclic | Listing(tasks: seq<Task>)

  ghost predicate IsSorted(tasks: TaskMap, r: Result) {
    && (r.Cyclic? <==> !Acyclic(PackArrows(tasks), tasks.Keys))
    && (r.Listing? ==> ListsEach(tasks, r.tasks) && DependenciesFirst(tasks, r.tasks))
  }

  /** The list the sorter starts from: every key once, sorted. */
  ghost predicate SortedKeys(tasks: TaskMap, ids: seq<Str>) {
    NoDuplicates(ids) && SortedBy(ids, Self) && Elements(ids) == tasks.Keys
  }

  lemma SortedKeysUnique(tasks: TaskMap, a: seq<Str>, b: seq<Str>)
    requires SortedKeys(tasks, a) && SortedKeys(tasks, b)
    ensures a == b
  {
    forall k ensures WithKey(a, Self, k) == WithKey(b, Self, k) {
      WithKeySelf(a, k);
      WithKeySelf(b, k);
      assert k in Elements(a) <==> k in a;
      assert k in Elements(b) <==> k in b;
    }
    StableSortUnique(a, b, Self);
  }

  lemma WithKeySelf(ids: seq<Str>, k: Str)
    requires NoDuplicates(ids)
    ensures WithKey(ids, Self, k) == if k in ids then [k] else []
  {
    if k in ids {
      var i :| 0 <= i < |ids| && ids[i] == k;
      assert DistinctKeys(ids, Self);
      WithDistinctKey(ids, Self, i);
    } else {
      WithAbsentKey(ids, Self, k);
    }
  }

  method SortedIds(tasks: seq<Task>) returns (taskMap: TaskMap, ids: seq<Str>)
    ensures taskMap == MapOf(tasks)
    ensures SortedKeys(taskMap, ids)
  {
    taskMap := map[];
    var keys: seq<Str> := [];
    var i := 0;
    while i < |tasks|
      invariant 0 <= i <= |tasks|
      invariant taskMap == MapOf(tasks[..i])
      invariant NoDuplicates(keys) && Elements(keys) == taskMap.Keys
    {
      assert tasks[..i + 1][..i] == tasks[..i];
      if tasks[i].taskId !in taskMap {
        assert tasks[i].taskId !in Elements(keys);
        keys := keys + [tasks[i].taskId];
      }
      taskMap := taskMap[tasks[i].taskId := tasks[i]];
      i := i + 1;
    }
    assert tasks[..i] == tasks;
    ids := SortBy(keys, Self);
    SortBySorts(keys, Self);
    assert DistinctKeys(keys, Self);
    SortKeepsDistinct(keys, Self);
    NoDuplicatesFromKeys(ids);
    assert forall k :: k in ids <==> k in multiset(ids);
    assert forall k :: k in keys <==> k in multiset(keys);
  }

  lemma NoDuplicatesFromKeys(ids: seq<Str>)
    requires DistinctKeys(ids, Self)
    ensures NoDuplicates(ids)
  {
    forall i, j | 0 <= i < j < |ids| ensures ids[i] != ids[j] {
      assert Self(ids[i]) != Self(ids[j]);
    }
  }

  lemma {:induction false} MapOfKeyed(tasks: seq<Task>)
    ensures Keyed(MapOf(tasks))
  {
    if tasks != [] {
      MapOfKeyed(tasks[..|tasks| - 1]);
    }
  }

  ghost function ResultFrom(tasks: TaskMap, ids: seq<Str>): Result
    requires Elements(ids) == tasks.Keys
  {
    var o := SortTasks(tasks, ids);
    if o.ok then Listing(o.state.result) else Cyclic
  }

  ghost predicate ResultOf(tasks: TaskMap, r: Result) {
    exists ids :: SortedKeys(tasks, ids) && r == ResultFrom(tasks, ids)
  }

  /** The result is a function of the map of tasks. */
  lemma ResultUnique(tasks: TaskMap, r: Result, s: Result)
    requires ResultOf(tasks, r) && ResultOf(tasks, s)
    ensures r == s
  {
    hide ResultFrom;
    var a :| SortedKeys(tasks, a) && r == ResultFrom(tasks, a);
    var b :| SortedKeys(tasks, b) && s == ResultFrom(tasks, b);
    SortedKeysUnique(tasks, a, b);
  }

  /** The loop over the sorted ids. */
  method VisitAll(taskMap: TaskMap, ids: seq<Str>) returns (r: Result)
    requires Elements(ids) == taskMap.Keys
    ensures r == ResultFrom(taskMap, ids)
  {
    var sorter := new Sorter(taskMap);
    assert forall i :: 0 <= i < |ids| ==> ids[i] in Elements(ids);
    var i := 0;
    assert ids[0..] == ids;
    while i < |ids|
      invariant 0 <= i <= |ids|
      invariant VisitEach(taskMap, START, ids) == VisitEach(taskMap, sorter.Now(), ids[i..])
    {
      assert ids[i..][1..] == ids[i + 1..];
      var ok := sorter.VisitId(ids[i]);
      if !ok {
        return Cyclic;
      }
      i := i + 1;
    }
    r := Listing(sorter.result);
  }

  method TopologicalSort(tasks: seq<Task>) returns (r: Result)
    ensures IsSorted(MapOf(tasks), r)
    ensures ResultOf(MapOf(tasks), r)
  {
    var taskMap, ids := SortedIds(tasks);
    MapOfKeyed(tasks);
    SortTasksCorrect(taskMap, ids);
    hide SortTasks, Acyclic, ListsEach, DependenciesFirst, MapOf;
    r := VisitAll(taskMap, ids);
  }
}
