/**
  snapshotCanonicalJsonObjectV1 and canonicalJsonBytesV1: the imperative traversal, the
  detached copy, and the re-encoding, proved against the walk and the canonical text.
 */
module Snapshot {
  import opened Text
  import opened Unicode
  import opened Json
  import opened JsonReader
  import opened JsonWriter
  import opened Walk
  import opened WalkSpec
  import opened WalkReach

  /** pushPath keeps at most MAX_PATH_SEGMENTS segments. */
  function Truncate(path: seq<nat>): seq<nat> {
    if |path| <= MAX_PATH_SEGMENTS then path else path[..MAX_PATH_SEGMENTS]
  }

  function PushPath(path: seq<nat>, segment: nat): (r: seq<nat>)
    requires |path| <= MAX_PATH_SEGMENTS
    ensures |r| <= MAX_PATH_SEGMENTS
  {
    if |path| >= MAX_PATH_SEGMENTS then path else path + [segment]
  }

  lemma PushPathTruncates(path: seq<nat>, segment: nat, rest: seq<nat>)
    requires |path| <= MAX_PATH_SEGMENTS
    ensures Truncate(PushPath(path, segment) + rest) == Truncate(path + ([segment] + rest))
    ensures PushPath(path, segment) == Truncate(path + [segment])
  {
    if |path| < MAX_PATH_SEGMENTS {
      assert (path + [segment]) + rest == path + ([segment] + rest);
    } else {
      assert Truncate(path + rest) == path;
      assert Truncate(path + ([segment] + rest)) == path;
      assert Truncate(path + [segment]) == path;
    }
  }

  // ---------------------------------------------------------------------------
  // Bookkeeping of the two loops
  // ---------------------------------------------------------------------------

  ghost function PrependAll(cs: seq<Json>, r: WalkedAll): WalkedAll {
    match r
    case FailedAll(_) => r
    case DoneAll(tail, n, vis) => DoneAll(cs + tail, n, vis)
  }

  /** One turn of a loop over the children xs. */
  lemma LoopStep(g: Graph, xs: seq<Input>, i: nat, cs: seq<Json>, depth: nat, nodes: nat, visited: set<Id>)
    requires visited <= g.Keys && i < |xs|
    ensures var w := WalkValue(g, xs[i], depth, nodes, visited);
      PrependAll(cs, WalkAll(g, xs[i..], i, depth, nodes, visited)) ==
      match w
      case Failed(f) => FailedAll(At(i, f))
      case Done(c, n, vis) => PrependAll(cs + [c], WalkAll(g, xs[i + 1..], i + 1, depth, n, vis))
  {
    assert xs[i..][0] == xs[i] && xs[i..][1..] == xs[i + 1..];
    var w := WalkValue(g, xs[i], depth, nodes, visited);
    if w.Done? {
      var rest := WalkAll(g, xs[i + 1..], i + 1, depth, w.nodes, w.visited);
      if rest.DoneAll? {
        assert cs + ([w.value] + rest.values) == (cs + [w.value]) + rest.values;
      }
    }
  }

  lemma LoopEnd(g: Graph, xs: seq<Input>, cs: seq<Json>, depth: nat, nodes: nat, visited: set<Id>)
    requires visited <= g.Keys
    ensures PrependAll(cs, WalkAll(g, xs[|xs|..], |xs|, depth, nodes, visited)) == DoneAll(cs, nodes, visited)
  {
    assert cs + [] == cs;
  }

  lemma PrependNothing(r: WalkedAll)
    ensures PrependAll([], r) == r
  {
    if r.DoneAll? {
      assert [] + r.values == r.values;
    }
  }

  lemma KidsSorted(slots: seq<Slot>)
    ensures |Kids(ObjNode(slots))| == |slots|
    ensures forall j :: 0 <= j < |slots| ==> Kids(ObjNode(slots))[j] == SortBy(slots, SlotKey)[j].value
  {
  }

  lemma KeyEscapable(slots: seq<Slot>, i: nat)
    requires CheckKeys(slots).KeysOk? && i < |slots|
    ensures !HasUnpairedHigh(SortBy(slots, SlotKey)[i].key)
  {
    KeysFit(slots);
    SortKeepsElements(slots, SlotKey);
    assert SortBy(slots, SlotKey)[i] in slots;
    WellFormedHasNoUnpairedHigh(SortBy(slots, SlotKey)[i].key);
  }

  ghost function Zip(slots: seq<Slot>, cs: seq<Json>): (fields: seq<Field>)
    requires |slots| == |cs|
    ensures |fields| == |slots|
    ensures forall i :: 0 <= i < |slots| ==> fields[i] == Field(slots[i].key, cs[i])
  {
    seq(|slots|, i requires 0 <= i < |slots| => Field(slots[i].key, cs[i]))
  }

  lemma ContainerText(before: Str, items: seq<Json>, fields: seq<Field>)
    ensures before + [LEFT_BRACKET] + EmitItems(items) + [RIGHT_BRACKET] == before + Emit(Arr(items))
    ensures before + [LEFT_BRACE] + EmitFields(fields) + [RIGHT_BRACE] == before + Emit(Obj(fields))
  {
    Regroup(before + [LEFT_BRACE], EmitFields(fields), [RIGHT_BRACE]);
    Regroup(before + [LEFT_BRACKET], EmitItems(items), [RIGHT_BRACKET]);
  }

  lemma NothingWritten(before: Str, sorted: seq<Slot>)
    ensures before + EmitFields(Zip(sorted[..0], [])) == before
    ensures before + EmitItems([]) == before
  {
  }

  lemma FieldWritten(before: Str, sorted: seq<Slot>, cs: seq<Json>, c: Json, i: nat)
    requires |cs| == i < |sorted|
    ensures before + EmitFields(Zip(sorted[..i], cs)) + Comma(i) + Escape(sorted[i].key) + [COLON] + Emit(c)
         == before + EmitFields(Zip(sorted[..i + 1], cs + [c]))
  {
    var fields, f := Zip(sorted[..i], cs), Field(sorted[i].key, c);
    assert Zip(sorted[..i + 1], cs + [c]) == fields + [f];
    EmitFieldsSnoc(fields, f);
    Assoc5(before, EmitFields(fields), Comma(i), Escape(f.key), [COLON], Emit(f.value));
  }

  lemma ItemWritten(before: Str, items: seq<Json>, c: Json, i: nat)
    requires |items| == i
    ensures before + EmitItems(items) + Comma(i) + Emit(c) == before + EmitItems(items + [c])
  {
    EmitItemsSnoc(items, c);
  }

  // ---------------------------------------------------------------------------
  // The traversal
  // ---------------------------------------------------------------------------

  datatype Outcome = Passed | Rejected(failure: Failure)

  /** A failure of the walk as it is reported from the given path. */
  ghost function Reported(path: seq<nat>, f: Failure): Outcome {
    Rejected(Failure(f.code, Truncate(path + f.path)))
  }

  /** A failure of the container itself is reported at its own path. */
  lemma ReportedHere(path: seq<nat>)
    requires |path| <= MAX_PATH_SEGMENTS
    ensures forall code :: Reported(path, Failure(code, [])) == Rejected(Failure(code, path))
  {
    assert path + [] == path;
  }

  /** The walk of an object node, case by case. */
  lemma ObjectWalk(g: Graph, id: Id, depth: nat, nodes: nat, visited: set<Id>)
    requires visited <= g.Keys && id in g && g[id].ObjNode?
    ensures
      var w, slots := WalkNode(g, id, depth, nodes, visited), g[id].slots;
      if depth > MAX_DEPTH then w == Failed(Failure(LimitCode(Depth, depth, MAX_DEPTH), []))
      else if id in visited then w == Failed(Failure(TraversalCode, []))
      else if |slots| > MAX_OBJECT_KEYS then w == Failed(Failure(LimitCode(ObjectKeys, |slots|, MAX_OBJECT_KEYS), []))
      else
        match CheckKeys(slots)
        case BadKey(code) => w == Failed(Failure(code, []))
        case KeysOk =>
          match WalkAll(g, Kids(g[id]), 0, depth + 1, nodes, visited + {id})
          case FailedAll(f) => w == Failed(f)
          case DoneAll(cs, n, vis) => w == Done(Obj(Zip(SortBy(slots, SlotKey), cs)), n, vis)
  {
    hide WalkAll, CheckKeys, SortBy;
  }

  /** TraversalState and the visited set. */
  class Traversal {
    const graph: Graph
    var nodes: nat
    var visited: set<Id>
    const output: Output

    constructor (graph: Graph)
      ensures this.graph == graph && nodes == 1 && visited == {} && output.Text() == [] && fresh(output)
    {
      this.graph := graph;
      nodes := 1;
      visited := {};
      output := new Output();
    }

    /** The state after the walk reports w, having written text; nothing is promised after a failure. */
    ghost predicate Follows(w: Walked, path: seq<nat>, r: Outcome, before: Str)
      reads this, output
    {
      match w
      case Failed(f) => r == Reported(path, f)
      case Done(c, n, vis) => r == Passed && nodes == n && visited == vis && output.Text() == before + Emit(c)
    }

    method TraverseValue(value: Input, path: seq<nat>, depth: nat) returns (r: Outcome)
      requires visited <= graph.Keys && |path| <= MAX_PATH_SEGMENTS
      modifies this, output
      ensures visited <= graph.Keys
      ensures Follows(WalkValue(graph, value, depth, old(nodes), old(visited)), path, r, old(output.Text()))
      decreases |graph.Keys - visited|, 2, 0
    {
      hide WalkNode, WalkAll, Reported, Escape, WellFormed, Utf8, EmitItems, EmitFields, SortBy;
      ReportedHere(path);
      nodes := nodes + 1;
      if nodes > MAX_NODES {
        return Rejected(Failure(LimitCode(Nodes, nodes, MAX_NODES), path));
      }
      r := Passed;
      match value
      case NullIn => output.Push(NULL_TEXT);
      case Undefined => r := Rejected(Failure(DomainCode, path));
      case Hole => r := Rejected(Failure(DomainCode, path));
      case Exotic => r := Rejected(Failure(DomainCode, path));
      case BoolIn(b) => output.Push(if b then TRUE_TEXT else FALSE_TEXT);
      case NumIn(n) =>
        var w := SerializeNumber(n);
        match w {
          case Threw => r := Rejected(Failure(DomainCode, path));
          case Wrote(t) => output.Push(t);
        }
      case StrIn(s) =>
        var lone := HasLoneSurrogate(s);
        if Utf8Length(s) > MAX_STRING_BYTES {
          r := Rejected(Failure(LimitCode(StringBytes, Utf8Length(s), MAX_STRING_BYTES), path));
        } else if lone {
          r := Rejected(Failure(UnicodeCode, path));
        } else {
          WellFormedHasNoUnpairedHigh(s);
          var w := EscapeString(s);
          output.Push(w.text);
        }
      case Ref(id) =>
        if id !in graph {
          r := Rejected(Failure(DomainCode, path));
        } else if graph[id].ArrNode? {
          r := TraverseArray(id, path, depth);
        } else {
          r := TraverseObject(id, path, depth);
        }
    }

    /** The depth limit and the alias check, with which both container traversals begin. */
    method Enter(id: Id, path: seq<nat>, depth: nat) returns (r: Outcome)
      requires |path| <= MAX_PATH_SEGMENTS
      modifies this
      ensures nodes == old(nodes)
      ensures depth > MAX_DEPTH ==> r == Rejected(Failure(LimitCode(Depth, depth, MAX_DEPTH), path))
      ensures depth <= MAX_DEPTH && id in old(visited) ==> r == Rejected(Failure(TraversalCode, path))
      ensures depth <= MAX_DEPTH && id !in old(visited) ==> r == Passed && visited == old(visited) + {id}
      ensures r.Rejected? ==> visited == old(visited)
    {
      if depth > MAX_DEPTH {
        return Rejected(Failure(LimitCode(Depth, depth, MAX_DEPTH), path));
      }
      if id in visited {
        return Rejected(Failure(TraversalCode, path));
      }
      visited := visited + {id};
      r := Passed;
    }

    method CheckOwnKeys(slots: seq<Slot>, path: seq<nat>) returns (r: Outcome)
      requires |path| <= MAX_PATH_SEGMENTS
      ensures match CheckKeys(slots)
        case KeysOk => r == Passed
        case BadKey(code) => r == Rejected(Failure(code, path))
    {
      var i := 0;
      assert slots[0..] == slots;
      while i < |slots|
        invariant 0 <= i <= |slots|
        invariant CheckKeys(slots[i..]) == CheckKeys(slots)
      {
        var key := slots[i].key;
        assert slots[i..][0] == slots[i] && slots[i..][1..] == slots[i + 1..];
        var keyBytes := Utf8Length(key);
        if keyBytes > MAX_KEY_BYTES {
          return Rejected(Failure(LimitCode(KeyBytes, keyBytes, MAX_KEY_BYTES), path));
        }
        var lone := HasLoneSurrogate(key);
        if lone {
          return Rejected(Failure(UnicodeCode, path));
        }
        i := i + 1;
      }
      r := Passed;
    }

    method TraverseObject(id: Id, path: seq<nat>, depth: nat) returns (r: Outcome)
      requires visited <= graph.Keys && |path| <= MAX_PATH_SEGMENTS && id in graph && graph[id].ObjNode?
      modifies this, output
      ensures visited <= graph.Keys
      ensures Follows(WalkNode(graph, id, depth, old(nodes), old(visited)), path, r, old(output.Text()))
      decreases |graph.Keys - visited|, 1
    {
      hide WalkNode, WalkAll, WalkValue, Kids, CheckKeys, CheckNode, Assemble, Emit, EmitFields, SortBy, Zip, Reported;
      ObjectWalk(graph, id, depth, nodes, visited);
      ReportedHere(path);
      r := Enter(id, path, depth);
      if r.Rejected? {
        return;
      }
      SmallerRest(graph.Keys, old(visited), id);
      var slots := graph[id].slots;
      if |slots| > MAX_OBJECT_KEYS {
        return Rejected(Failure(LimitCode(ObjectKeys, |slots|, MAX_OBJECT_KEYS), path));
      }
      r := CheckOwnKeys(slots, path);
      if r.Rejected? {
        return;
      }
      ghost var w := WalkAll(graph, Kids(graph[id]), 0, depth + 1, nodes, visited);
      output.Push([LEFT_BRACE]);
      r := TraverseFields(slots, Kids(graph[id]), path, depth + 1);
      if r.Rejected? {
        return;
      }
      output.Push([RIGHT_BRACE]);
      ContainerText(old(output.Text()), [], Zip(SortBy(slots, SlotKey), w.values));
    }

    /** The loop over the sorted keys. */
    method TraverseFields(slots: seq<Slot>, ghost xs: seq<Input>, path: seq<nat>, depth: nat) returns (r: Outcome)
      requires visited <= graph.Keys && |path| <= MAX_PATH_SEGMENTS
      requires CheckKeys(slots).KeysOk? && xs == Kids(ObjNode(slots))
      modifies this, output
      ensures visited <= graph.Keys
      ensures match WalkAll(graph, xs, 0, depth, old(nodes), old(visited))
        case FailedAll(f) => r == Reported(path, f)
        case DoneAll(cs, n, vis) =>
          && r == Passed && nodes == n && visited == vis && |cs| == |slots|
          && output.Text() == old(output.Text()) + EmitFields(Zip(SortBy(slots, SlotKey), cs))
      ensures r.Rejected? <==> WalkAll(graph, xs, 0, depth, old(nodes), old(visited)).FailedAll?
      decreases |graph.Keys - visited|, 3
    {
      hide *;
      var sorted := SortBy(slots, SlotKey);
      KidsSorted(slots);
      ghost var whole := WalkAll(graph, xs, 0, depth, nodes, visited);
      ghost var before := output.Text();
      ghost var cs: seq<Json> := [];
      PrependNothing(whole);
      NothingWritten(before, sorted);
      assert xs[0..] == xs;
      var i := 0;
      while i < |sorted|
        invariant 0 <= i <= |sorted| == |xs| && |cs| == i
        invariant visited <= graph.Keys && old(visited) <= visited
        invariant output.Text() == before + EmitFields(Zip(sorted[..i], cs))
        invariant whole == PrependAll(cs, WalkAll(graph, xs[i..], i, depth, nodes, visited))
      {
        RestShrinks(graph.Keys, old(visited), visited);
        KeyEscapable(slots, i);
        ghost var w := WalkValue(graph, xs[i], depth, nodes, visited);
        LoopStep(graph, xs, i, cs, depth, nodes, visited);
        r := TraverseField(sorted[i], path, i, depth);
        if r.Rejected? {
          return;
        }
        FieldWritten(before, sorted, cs, w.value, i);
        cs := cs + [w.value];
        i := i + 1;
      }
      LoopEnd(graph, xs, cs, depth, nodes, visited);
      assert sorted[..i] == sorted;
      r := Passed;
    }

    /** The body of that loop. */
    method TraverseField(slot: Slot, path: seq<nat>, i: nat, depth: nat) returns (r: Outcome)
      requires visited <= graph.Keys && |path| <= MAX_PATH_SEGMENTS && !HasUnpairedHigh(slot.key)
      modifies this, output
      ensures visited <= graph.Keys
      ensures match WalkValue(graph, slot.value, depth, old(nodes), old(visited))
        case Failed(f) => r == Reported(path, At(i, f))
        case Done(c, n, vis) =>
          && r == Passed && nodes == n && visited == vis
          && output.Text() == old(output.Text()) + Comma(i) + Escape(slot.key) + [COLON] + Emit(c)
      ensures r.Rejected? <==> WalkValue(graph, slot.value, depth, old(nodes), old(visited)).Failed?
      decreases |graph.Keys - visited|, 2, 1
    {
      ghost var w := WalkValue(graph, slot.value, depth, nodes, visited);
      PushComma(i, output);
      var threw := PushKey(slot.key, output);
      r := TraverseValue(slot.value, PushPath(path, i), depth);
      if w.Failed? {
        PushPathTruncates(path, i, w.failure.path);
      }
    }

    /** The dense-array check. */
    method FindHole(items: seq<Input>) returns (i: nat)
      ensures i == FirstHole(items)
    {
      i := 0;
      assert items[0..] == items;
      while i < |items| && !items[i].Hole?
        invariant 0 <= i <= |items|
        invariant i + FirstHole(items[i..]) == FirstHole(items)
      {
        assert items[i..][0] == items[i] && items[i..][1..] == items[i + 1..];
        i := i + 1;
      }
      assert i < |items| ==> items[i..][0] == items[i];
    }

    method TraverseArray(id: Id, path: seq<nat>, depth: nat) returns (r: Outcome)
      requires visited <= graph.Keys && |path| <= MAX_PATH_SEGMENTS && id in graph && graph[id].ArrNode?
      modifies this, output
      ensures visited <= graph.Keys
      ensures Follows(WalkNode(graph, id, depth, old(nodes), old(visited)), path, r, old(output.Text()))
      decreases |graph.Keys - visited|, 1
    {
      assert Kids(graph[id]) == graph[id].items;
      hide WalkAll, WalkValue, Kids, CheckKeys, FirstHole, Emit, SortBy;
      assert path + [] == path;
      r := Enter(id, path, depth);
      if r.Rejected? {
        return;
      }
      SmallerRest(graph.Keys, old(visited), id);
      var items := graph[id].items;
      var hole := FindHole(items);
      if hole < |items| {
        PushPathTruncates(path, hole, []);
        return Rejected(Failure(DomainCode, PushPath(path, hole)));
      }
      if |items| > MAX_ARRAY_ITEMS {
        return Rejected(Failure(LimitCode(ArrayItems, |items|, MAX_ARRAY_ITEMS), path));
      }
      ghost var w := WalkAll(graph, items, 0, depth + 1, nodes, visited);
      output.Push([LEFT_BRACKET]);
      r := TraverseItems(items, path, depth + 1);
      if r.Rejected? {
        return;
      }
      output.Push([RIGHT_BRACKET]);
      ContainerText(old(output.Text()), w.values, []);
    }

    /** The loop over the items. */
    method TraverseItems(items: seq<Input>, path: seq<nat>, depth: nat) returns (r: Outcome)
      requires visited <= graph.Keys && |path| <= MAX_PATH_SEGMENTS
      modifies this, output
      ensures visited <= graph.Keys
      ensures match WalkAll(graph, items, 0, depth, old(nodes), old(visited))
        case FailedAll(f) => r == Reported(path, f)
        case DoneAll(cs, n, vis) =>
          r == Passed && nodes == n && visited == vis && output.Text() == old(output.Text()) + EmitItems(cs)
      decreases |graph.Keys - visited|, 3
    {
      hide WalkAll, WalkValue, EmitItems;
      ghost var whole := WalkAll(graph, items, 0, depth, nodes, visited);
      ghost var before := output.Text();
      ghost var cs: seq<Json> := [];
      PrependNothing(whole);
      NothingWritten(before, []);
      assert items[0..] == items;
      var i := 0;
      while i < |items|
        invariant 0 <= i <= |items| && |cs| == i
        invariant visited <= graph.Keys && old(visited) <= visited
        invariant output.Text() == before + EmitItems(cs)
        invariant whole == PrependAll(cs, WalkAll(graph, items[i..], i, depth, nodes, visited))
      {
        RestShrinks(graph.Keys, old(visited), visited);
        PushComma(i, output);
        ghost var w := WalkValue(graph, items[i], depth, nodes, visited);
        LoopStep(graph, items, i, cs, depth, nodes, visited);
        r := TraverseValue(items[i], PushPath(path, i), depth);
        if r.Rejected? {
          PushPathTruncates(path, i, w.failure.path);
          return;
        }
        ItemWritten(before, cs, w.value, i);
        cs := cs + [w.value];
        i := i + 1;
      }
      LoopEnd(graph, items, cs, depth, nodes, visited);
      r := Passed;
    }
  }
}
