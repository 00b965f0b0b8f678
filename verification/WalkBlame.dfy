/**
  Failures: the code and the path of a failed walk name a value of the caller's graph that
  really breaks the rule.
 */
module WalkBlame {
  import opened Text
  import opened Unicode
  import opened Json
  import opened Walk
  import opened WalkSpec
  import opened WalkReach

  ghost predicate OutOfDomain(g: Graph, x: Input) {
    match x
    case Undefined => true
    case Hole => true
    case Exotic => true
    case NumIn(n) => !Serializable(n)
    case Ref(id) => id !in g
    case _ => false
  }

  ghost predicate HasLoneSurrogateIn(g: Graph, x: Input) {
    match x
    case StrIn(s) => !WellFormed(s)
    case Ref(id) => id in g && g[id].ObjNode? && exists slot :: slot in g[id].slots && !WellFormed(slot.key)
    case _ => false
  }

  /** The size a limit counts, measured on the value x found depth levels below the root. */
  ghost predicate Exceeds(g: Graph, x: Input, depth: nat, kind: LimitKind, actual: nat, maximum: nat) {
    actual > maximum &&
    match kind
    case Depth => maximum == 64 && x.Ref? && actual == depth
    case StringBytes => maximum == 1_048_576 && x.StrIn? && actual == Utf8Length(x.s)
    case ObjectKeys => maximum == 10_000 && x.Ref? && x.id in g && g[x.id].ObjNode? && actual == |g[x.id].slots|
    case ArrayItems => maximum == 100_000 && x.Ref? && x.id in g && g[x.id].ArrNode? && actual == |g[x.id].items|
    case KeyBytes =>
      && maximum == 1024 && x.Ref? && x.id in g && g[x.id].ObjNode?
      && exists slot :: slot in g[x.id].slots && actual == Utf8Length(slot.key)
    case Nodes => maximum == 250_000
    case Bytes => false
  }

  /** The value at the failure's path is to blame for the failure. */
  ghost predicate Blames(g: Graph, x: Input, depth: nat, visited: set<Id>, f: Failure) {
    Follow(g, x, f.path).Reached? &&
    (var y := Follow(g, x, f.path).x;
     match f.code
     case DomainCode => OutOfDomain(g, y)
     case UnicodeCode => HasLoneSurrogateIn(g, y)
     case TraversalCode =>
       y.Ref? && y.id in g && (y.id in visited || exists p :: p != f.path && Follow(g, x, p) == Reached(y))
     case LimitCode(kind, actual, maximum) => Exceeds(g, y, depth + |f.path|, kind, actual, maximum))
  }

  lemma {:induction false} BadKeyBlames(slots: seq<Slot>)
    requires CheckKeys(slots).BadKey?
    ensures match CheckKeys(slots).code
      case UnicodeCode => exists slot :: slot in slots && !WellFormed(slot.key)
      case LimitCode(kind, actual, maximum) =>
        kind == KeyBytes && actual > maximum == 1024 && exists slot :: slot in slots && actual == Utf8Length(slot.key)
      case _ => false
  {
    if KeyFits(slots[0].key) {
      BadKeyBlames(slots[1..]);
      assert slots == [slots[0]] + slots[1..];
    } else {
      assert slots[0] in slots;
    }
  }

  /** Which child a failed loop stopped at, and what it had visited before. */
  lemma {:induction false} FailingChild(g: Graph, xs: seq<Input>, i: nat, depth: nat, nodes: nat, visited: set<Id>)
    returns (k: nat, cs: seq<Json>, n: nat, vis: set<Id>, f: Failure)
    requires visited <= g.Keys && nodes <= MAX_NODES
    requires WalkAll(g, xs, i, depth, nodes, visited).FailedAll?
    ensures k < |xs| && vis <= g.Keys && n <= MAX_NODES
    ensures WalkValue(g, xs[k], depth, n, vis) == Failed(f)
    ensures WalkAll(g, xs, i, depth, nodes, visited) == FailedAll(At(i + k, f))
    ensures |cs| == k && ReadsAll(g, xs[..k], cs)
    ensures forall id :: id in vis ==> id in visited || id in IdsAll(g, xs[..k], cs)
    ensures visited <= vis
    decreases |xs|
  {
    match WalkValue(g, xs[0], depth, nodes, visited)
    case Failed(f0) =>
      k, cs, n, vis, f := 0, [], nodes, visited, f0;
    case Done(c, n1, vis1) =>
      WalkSound(g, xs[0], depth, nodes, visited);
      AfterMembers(visited, Ids(g, xs[0], c));
      k, cs, n, vis, f := FailingChild(g, xs[1..], i + 1, depth, n1, vis1);
      var before := cs;
      k, cs := k + 1, [c] + cs;
      assert xs[..k][0] == xs[0] && xs[..k][1..] == xs[1..][..k - 1] && cs[1..] == before;
      ReadsAllCons(g, xs[..k], cs);
  }

  lemma {:induction false} WalkBlames(g: Graph, x: Input, depth: nat, nodes: nat, visited: set<Id>)
    requires visited <= g.Keys && nodes <= MAX_NODES
    ensures var r := WalkValue(g, x, depth, nodes, visited); r.Failed? ==> Blames(g, x, depth, visited, r.failure)
    decreases |g.Keys - visited|, 2
  {
    if nodes + 1 <= MAX_NODES && x.Ref? && x.id in g {
      WalkNodeBlames(g, x.id, depth, nodes + 1, visited);
    }
  }

  lemma {:induction false} WalkNodeBlames(g: Graph, id: Id, depth: nat, nodes: nat, visited: set<Id>)
    requires visited <= g.Keys && nodes <= MAX_NODES && id in g
    ensures var r := WalkNode(g, id, depth, nodes, visited); r.Failed? ==> Blames(g, Ref(id), depth, visited, r.failure)
    decreases |g.Keys - visited|, 1
  {
    var node := g[id];
    if depth > MAX_DEPTH || id in visited || FailsChecks(node) {
      CheckBlames(g, id, depth, nodes, visited);
    } else if WalkAll(g, Kids(node), 0, depth + 1, nodes, visited + {id}).FailedAll? {
      SmallerRest(g.Keys, visited, id);
      var k, cs, n, vis, f := FailingChild(g, Kids(node), 0, depth + 1, nodes, visited + {id});
      RestShrinks(g.Keys, visited + {id}, vis);
      WalkBlames(g, Kids(node)[k], depth + 1, n, vis);
      hide Blames, WalkValue, WalkAll, Kids;
      ChildBlames(g, id, depth, visited, k, cs, vis, f);
    }
  }

  ghost predicate FailsChecks(node: Node) {
    (node.ArrNode? && FirstHole(node.items) < |node.items|) || CheckNode(node).BadKey?
  }

  /** The checks made on a node itself blame the node, or the hole in it. */
  lemma CheckBlames(g: Graph, id: Id, depth: nat, nodes: nat, visited: set<Id>)
    requires visited <= g.Keys && id in g
    requires depth > MAX_DEPTH || id in visited || FailsChecks(g[id])
    ensures var r := WalkNode(g, id, depth, nodes, visited); r.Failed? && Blames(g, Ref(id), depth, visited, r.failure)
  {
    hide WalkAll;
    var r := WalkNode(g, id, depth, nodes, visited);
    var node := g[id];
    if depth <= MAX_DEPTH && id !in visited {
      if node.ArrNode? && FirstHole(node.items) < |node.items| {
        var h := FirstHole(node.items);
        assert r == Failed(Failure(DomainCode, [h])) && [h][1..] == [];
        assert Follow(g, Ref(id), [h]) == Reached(node.items[h]);
      } else if node.ObjNode? && |node.slots| <= MAX_OBJECT_KEYS {
        BadKeyBlames(node.slots);
      }
    }
  }

  /** What is to blame below child k is to blame below the node. */
  lemma ChildBlames(g: Graph, id: Id, depth: nat, visited: set<Id>, k: nat, cs: seq<Json>, vis: set<Id>, f: Failure)
    requires id in g && k < |Kids(g[id])| && |cs| == k && ReadsAll(g, Kids(g[id])[..k], cs)
    requires forall d :: d in vis ==> d in visited + {id} || d in IdsAll(g, Kids(g[id])[..k], cs)
    requires Blames(g, Kids(g[id])[k], depth + 1, vis, f)
    ensures Blames(g, Ref(id), depth, visited, At(k, f))
  {
    var xs := Kids(g[id]);
    var whole := At(k, f);
    assert whole.path[1..] == f.path;
    var y := Follow(g, xs[k], f.path).x;
    assert Follow(g, Ref(id), whole.path) == Reached(y);
    if f.code.TraversalCode? && y.id !in visited {
      if y.id !in vis {
        var p :| p != f.path && Follow(g, xs[k], p) == Reached(y);
        FollowStep(g, id, k, p);
        assert Down(k, p)[1..] == p;
        assert Down(k, p) != whole.path && Follow(g, Ref(id), Down(k, p)) == Reached(y);
      } else if y.id == id {
        assert Follow(g, Ref(id), []) == Reached(y);
      } else {
        IdsAllMember(g, xs[..k], cs, y.id);
        var j :| 0 <= j < k && y.id in Ids(g, xs[..k][j], cs[j]);
        var p := ListedIsReached(g, xs[j], cs[j], y.id);
        FollowStep(g, id, j, p);
        assert Down(j, p)[0] == j && whole.path[0] == k;
        assert Follow(g, Ref(id), Down(j, p)) == Reached(y);
      }
    }
  }
}
