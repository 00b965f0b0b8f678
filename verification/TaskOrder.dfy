/**
  The order of an action pack: each next task is found from the least id not yet listed by
  following, as long as there is one, the first dependency not yet listed.
 */
module TaskOrder {
  import opened Text
  import opened Graphs
  import opened TaskSort

  ghost function IdsOf(tasks: seq<Task>): set<Str> {
    set t | t in tasks :: t.taskId
  }

  ghost predicate IsOpen(tasks: TaskMap, listed: set<Str>, id: Str) {
    id in tasks && id !in listed
  }

  ghost predicate FirstOpen(tasks: TaskMap, listed: set<Str>, ids: seq<Str>, k: int) {
    0 <= k < |ids| && IsOpen(tasks, listed, ids[k]) && forall j :: 0 <= j < k ==> !IsOpen(tasks, listed, ids[j])
  }

  /** What id depends on, in the order of its dependencies. */
  ghost function TargetsOf(tasks: TaskMap, id: Str): seq<Str> {
    if id in tasks then seq(|tasks[id].dependencies|, k requires 0 <= k < |tasks[id].dependencies| => tasks[id].dependencies[k].dependsOn)
    else []
  }

  ghost predicate GoesOn(tasks: TaskMap, listed: set<Str>, id: Str, next: Str) {
    exists k :: FirstOpen(tasks, listed, TargetsOf(tasks, id), k) && TargetsOf(tasks, id)[k] == next
  }

  /** Each goes on to its first open dependency, and the last has none. */
  ghost predicate Follows(tasks: TaskMap, listed: set<Str>, w: seq<Str>) {
    && w != []
    && (forall i, j :: 0 <= i && j == i + 1 && j < |w| ==> GoesOn(tasks, listed, w[i], w[j]))
    && (forall d :: d in TargetsOf(tasks, w[|w| - 1]) ==> !IsOpen(tasks, listed, d))
  }

  /** id is where the way ends that starts at the first open one of ids. */
  ghost predicate NextFrom(tasks: TaskMap, listed: set<Str>, ids: seq<Str>, id: Str) {
    exists w, k :: Follows(tasks, listed, w) && w[|w| - 1] == id && FirstOpen(tasks, listed, ids, k) && ids[k] == w[0]
  }

  lemma NeedsAre(tasks: TaskMap, id: Str)
    ensures Needs(tasks, id) == TargetsOf(tasks, id)
  {
  }

  lemma Goes(tasks: TaskMap, listed: set<Str>, id: Str, next: Str)
    requires IsOpen(tasks, listed, id) && NextFrom(tasks, listed, TargetsOf(tasks, id), next)
    ensures NextFrom(tasks, listed, [id], next)
  {
    hide TargetsOf;
    var w, k :| Follows(tasks, listed, w) && w[|w| - 1] == next
                && FirstOpen(tasks, listed, TargetsOf(tasks, id), k) && TargetsOf(tasks, id)[k] == w[0];
    var v := [id] + w;
    assert forall i :: 0 < i < |v| ==> v[i] == w[i - 1];
    assert GoesOn(tasks, listed, id, w[0]);
    forall i, j | 0 <= i && j == i + 1 && j < |v| ensures GoesOn(tasks, listed, v[i], v[j]) {
      assert i > 0 ==> v[i] == w[i - 1] && v[j] == w[j - 1];
    }
    assert v[|v| - 1] == w[|w| - 1];
    assert FirstOpen(tasks, listed, [id], 0);
    assert Follows(tasks, listed, v);
  }

  lemma Stops(tasks: TaskMap, listed: set<Str>, id: Str)
    requires IsOpen(tasks, listed, id) && forall d :: d in TargetsOf(tasks, id) ==> !IsOpen(tasks, listed, d)
    ensures NextFrom(tasks, listed, [id], id)
  {
    hide TargetsOf;
    assert FirstOpen(tasks, listed, [id], 0);
    assert Follows(tasks, listed, [id]);
  }

  lemma FromHead(tasks: TaskMap, listed: set<Str>, ids: seq<Str>, next: Str)
    requires ids != [] && NextFrom(tasks, listed, [ids[0]], next)
    ensures NextFrom(tasks, listed, ids, next)
  {
    hide IsOpen, TargetsOf;
    var w, k :| Follows(tasks, listed, w) && w[|w| - 1] == next && FirstOpen(tasks, listed, [ids[0]], k) && [ids[0]][k] == w[0];
    assert FirstOpen(tasks, listed, ids, 0);
  }

  lemma FromTail(tasks: TaskMap, listed: set<Str>, ids: seq<Str>, next: Str)
    requires ids != [] && !IsOpen(tasks, listed, ids[0]) && NextFrom(tasks, listed, ids[1..], next)
    ensures NextFrom(tasks, listed, ids, next)
  {
    hide IsOpen, TargetsOf;
    var w, k :| Follows(tasks, listed, w) && w[|w| - 1] == next && FirstOpen(tasks, listed, ids[1..], k) && ids[1..][k] == w[0];
    assert forall j :: 0 < j < |ids| ==> ids[j] == ids[1..][j - 1];
    assert FirstOpen(tasks, listed, ids, k + 1);
  }

  // ---------------------------------------------------------------------------
  // What a visit lists
  // ---------------------------------------------------------------------------

  /** Exactly the tasks of finished ids are listed. */
  ghost predicate Sane(tasks: TaskMap, s: State) {
    forall id :: id in tasks ==> (id in s.visited && s.visited[id] == Done <==> id in IdsOf(s.result))
  }

  /** Marks are kept, and what is listed is listed after what was. */
  ghost predicate Extends(s: State, t: State) {
    && s.result <= t.result
    && forall id :: id in s.visited ==> id in t.visited && t.visited[id] == s.visited[id]
  }

  ghost predicate ListsNext(tasks: TaskMap, from: nat, result: seq<Task>, ids: seq<Str>) {
    forall k :: from <= k < |result| ==> NextFrom(tasks, IdsOf(result[..k]), ids, result[k].taskId)
  }

  lemma IdsOfSnoc(result: seq<Task>, t: Task)
    ensures IdsOf(result + [t]) == IdsOf(result) + {t.taskId}
  {
    assert forall u :: u in result + [t] <==> u in result || u == t;
  }

  lemma IdsOfPrefix(result: seq<Task>, k: nat)
    requires k <= |result|
    ensures IdsOf(result[..k]) <= IdsOf(result)
  {
  }

  lemma {:induction false} VisitLists(tasks: TaskMap, s: State, id: Str)
    requires Keyed(tasks) && Sane(tasks, s) && id in Universe(tasks) && Visit(tasks, s, id).ok
    ensures var t := Visit(tasks, s, id).state;
      Sane(tasks, t) && Extends(s, t) && ListsNext(tasks, |s.result|, t.result, [id])
      && id in t.visited && t.visited[id] == Done
    decreases Unvisited(tasks, s), 0
  {
    if id !in s.visited {
      NeedsInUniverse(tasks, id);
      var s1 := State(s.visited[id := Visiting], s.result);
      assert id in Unvisited(tasks, s) && id !in Unvisited(tasks, s1);
      VisitEachLists(tasks, s1, Needs(tasks, id));
      var t1 := VisitEach(tasks, s1, Needs(tasks, id)).state;
      NeedsAre(tasks, id);
      VisitKeepsSane(tasks, s, t1, id);
      hide VisitEach, NextFrom, Sane;
      if id in tasks {
        VisitEnds(tasks, |s.result|, t1, id);
      } else {
        NothingNext(tasks, t1.result, |s.result|, id);
      }
    }
  }

  lemma VisitKeepsSane(tasks: TaskMap, s: State, t1: State, id: Str)
    requires Keyed(tasks) && Sane(tasks, s) && id !in s.visited
    requires Sane(tasks, t1) && Extends(State(s.visited[id := Visiting], s.result), t1)
    ensures var t := State(t1.visited[id := Done], t1.result + Listed(tasks, id));
      Sane(tasks, t) && Extends(s, t)
    ensures id in tasks ==> id !in IdsOf(t1.result)
  {
    if id in tasks {
      IdsOfSnoc(t1.result, tasks[id]);
    } else {
      assert t1.result + Listed(tasks, id) == t1.result;
    }
    hide IdsOf;
  }

  /** The id itself is listed once nothing it depends on is open. */
  lemma VisitEnds(tasks: TaskMap, from: nat, t1: State, id: Str)
    requires Keyed(tasks) && Sane(tasks, t1) && ListsNext(tasks, from, t1.result, TargetsOf(tasks, id))
    requires forall d :: d in TargetsOf(tasks, id) ==> d in t1.visited && t1.visited[d] == Done
    requires id in tasks && id !in IdsOf(t1.result)
    ensures ListsNext(tasks, from, t1.result + [tasks[id]], [id])
  {
    hide NextFrom, TargetsOf;
    var r := t1.result + [tasks[id]];
    forall k | from <= k < |r| ensures NextFrom(tasks, IdsOf(r[..k]), [id], r[k].taskId) {
      assert r[..k] == t1.result[..k];
      IdsOfPrefix(t1.result, k);
      if k < |t1.result| {
        assert NextFrom(tasks, IdsOf(t1.result[..k]), TargetsOf(tasks, id), t1.result[k].taskId);
        Goes(tasks, IdsOf(t1.result[..k]), id, t1.result[k].taskId);
      } else {
        assert t1.result[..k] == t1.result;
        Stops(tasks, IdsOf(t1.result), id);
      }
    }
  }

  lemma NothingNext(tasks: TaskMap, result: seq<Task>, from: nat, id: Str)
    requires id !in tasks && ListsNext(tasks, from, result, TargetsOf(tasks, id))
    ensures from >= |result|
  {
    assert from < |result| ==> NextFrom(tasks, IdsOf(result[..from]), TargetsOf(tasks, id), result[from].taskId);
  }

  lemma {:induction false} VisitEachLists(tasks: TaskMap, s: State, ids: seq<Str>)
    requires Keyed(tasks) && Sane(tasks, s) && (forall i :: 0 <= i < |ids| ==> ids[i] in Universe(tasks)) && VisitEach(tasks, s, ids).ok
    ensures var t := VisitEach(tasks, s, ids).state;
      Sane(tasks, t) && Extends(s, t) && ListsNext(tasks, |s.result|, t.result, ids)
      && forall id :: id in ids ==> id in t.visited && t.visited[id] == Done
    decreases Unvisited(tasks, s), |ids|
  {
    if ids != [] {
      var m := Visit(tasks, s, ids[0]).state;
      VisitLists(tasks, s, ids[0]);
      assert Unvisited(tasks, m) <= Unvisited(tasks, s);
      VisitEachLists(tasks, m, ids[1..]);
      var t := VisitEach(tasks, m, ids[1..]).state;
      hide Visit, VisitEach, NextFrom, Sane;
      forall id | id in ids ensures id in t.visited && t.visited[id] == Done {
        assert id == ids[0] || id in ids[1..];
      }
      ListsOn(tasks, s, m, t, ids);
    }
  }

  lemma ListsOn(tasks: TaskMap, s: State, m: State, t: State, ids: seq<Str>)
    requires ids != [] && Sane(tasks, m) && Extends(s, m) && Extends(m, t)
    requires ids[0] in m.visited && m.visited[ids[0]] == Done
    requires ListsNext(tasks, |s.result|, m.result, [ids[0]]) && ListsNext(tasks, |m.result|, t.result, ids[1..])
    ensures ListsNext(tasks, |s.result|, t.result, ids)
  {
    hide NextFrom;
    forall k | |s.result| <= k < |t.result| ensures NextFrom(tasks, IdsOf(t.result[..k]), ids, t.result[k].taskId) {
      if k < |m.result| {
        assert t.result[..k] == m.result[..k] && t.result[k] == m.result[k];
        FromHead(tasks, IdsOf(m.result[..k]), ids, m.result[k].taskId);
      } else {
        assert m.result == t.result[..k][..|m.result|];
        IdsOfPrefix(t.result[..k], |m.result|);
        FromTail(tasks, IdsOf(t.result[..k]), ids, t.result[k].taskId);
      }
    }
  }

  // ---------------------------------------------------------------------------
  // The whole list
  // ---------------------------------------------------------------------------

  /** The way to the k-th task starts at the least open id. */
  ghost predicate InGreedyOrder(tasks: TaskMap, r: seq<Task>) {
    forall k :: 0 <= k < |r| ==> exists w ::
      && Follows(tasks, IdsOf(r[..k]), w) && w[|w| - 1] == r[k].taskId
      && IsOpen(tasks, IdsOf(r[..k]), w[0])
      && forall id :: IsOpen(tasks, IdsOf(r[..k]), id) ==> AtMost(w[0], id)
  }

  lemma LeastOpen(tasks: TaskMap, listed: set<Str>, ids: seq<Str>, next: Str)
    requires SortedKeys(tasks, ids) && NextFrom(tasks, listed, ids, next)
    ensures exists w ::
      && Follows(tasks, listed, w) && w[|w| - 1] == next && IsOpen(tasks, listed, w[0])
      && forall id :: IsOpen(tasks, listed, id) ==> AtMost(w[0], id)
  {
    var w, k :| Follows(tasks, listed, w) && w[|w| - 1] == next && FirstOpen(tasks, listed, ids, k) && ids[k] == w[0];
    forall id | IsOpen(tasks, listed, id) ensures AtMost(w[0], id) {
      assert id in Elements(ids);
      var j :| 0 <= j < |ids| && ids[j] == id;
      assert j >= k;
      assert Self(ids[k]) == w[0] && Self(ids[j]) == id;
    }
  }

  lemma SortLists(tasks: TaskMap, ids: seq<Str>)
    requires Keyed(tasks) && Elements(ids) == tasks.Keys && SortTasks(tasks, ids).ok
    ensures ListsNext(tasks, 0, SortTasks(tasks, ids).state.result, ids)
  {
    hide VisitEach, NextFrom;
    assert forall i :: 0 <= i < |ids| ==> ids[i] in Elements(ids);
    VisitEachLists(tasks, START, ids);
  }

  lemma AllLeast(tasks: TaskMap, r: seq<Task>, ids: seq<Str>)
    requires SortedKeys(tasks, ids) && ListsNext(tasks, 0, r, ids)
    ensures InGreedyOrder(tasks, r)
  {
    hide NextFrom, SortedKeys, IsOpen;
    forall k | 0 <= k < |r|
      ensures exists w ::
        && Follows(tasks, IdsOf(r[..k]), w) && w[|w| - 1] == r[k].taskId && IsOpen(tasks, IdsOf(r[..k]), w[0])
        && forall id :: IsOpen(tasks, IdsOf(r[..k]), id) ==> AtMost(w[0], id)
    {
      LeastOpen(tasks, IdsOf(r[..k]), ids, r[k].taskId);
    }
  }

  /**
    A pack is in the order in which each next task is reached from the least id not yet listed by
    the first dependencies not yet listed.
   */
  lemma PackOrder(tasks: TaskMap, r: seq<Task>)
    requires Keyed(tasks) && ResultOf(tasks, Listing(r))
    ensures InGreedyOrder(tasks, r)
  {
    hide InGreedyOrder, ListsNext, SortTasks;
    var ids :| SortedKeys(tasks, ids) && Listing(r) == ResultFrom(tasks, ids);
    SortLists(tasks, ids);
    AllLeast(tasks, r, ids);
  }
}
