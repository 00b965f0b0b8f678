/**
  The bounded walk over a caller's object graph, as a function: what traverseValue,
  traverseObject and traverseArray of src/fingerprint/canonical-json.ts compute.
  Objects are graph nodes, so the input may be shared or cyclic.
 */
module Walk {
  import opened Text
  import opened Unicode
  import opened Json

  const MAX_BYTES: nat := 8 * 1024 * 1024
  const MAX_DEPTH: nat := 64
  const MAX_NODES: nat := 250_000
  const MAX_OBJECT_KEYS: nat := 10_000
  const MAX_ARRAY_ITEMS: nat := 100_000
  const MAX_STRING_BYTES: nat := 1024 * 1024
  const MAX_KEY_BYTES: nat := 1024
  const MAX_PATH_SEGMENTS: nat := 64

  // ---------------------------------------------------------------------------
  // The caller's graph
  // ---------------------------------------------------------------------------

  type Id = nat

  /**
    A property or array slot. Exotic stands for bigints, symbols and functions; a reference to
    an id outside the graph is a host object or a class instance.
   */
  datatype Input =
    | Undefined
    | Hole
    | Exotic
    | NullIn
    | BoolIn(b: bool)
    | NumIn(n: Number)
    | StrIn(s: Str)
    | Ref(id: Id)

  datatype Slot = Slot(key: Str, value: Input)

  datatype Node = ObjNode(slots: seq<Slot>) | ArrNode(items: seq<Input>)

  /** The plain objects and arrays. */
  type Graph = map<Id, Node>

  function SlotKey(s: Slot): Str {
    s.key
  }

  /** What JavaScript guarantees of every object: no key twice. */
  ghost predicate WellKeyedGraph(g: Graph) {
    forall id :: id in g && g[id].ObjNode? ==> DistinctKeys(g[id].slots, SlotKey)
  }

  /** The values of a node in the order the walk visits them: keys sorted, items as they stand. */
  function Kids(node: Node): (xs: seq<Input>)
    ensures |xs| == match node { case ObjNode(slots) => |slots| case ArrNode(items) => |items| }
  {
    match node
    case ObjNode(slots) =>
      var s := SortBy(slots, SlotKey);
      seq(|s|, i requires 0 <= i < |s| => s[i].value)
    case ArrNode(items) => items
  }

  // ---------------------------------------------------------------------------
  // Failures
  // ---------------------------------------------------------------------------

  datatype LimitKind = Bytes | Depth | Nodes | ObjectKeys | ArrayItems | StringBytes | KeyBytes

  datatype Code =
    | DomainCode
    | TraversalCode
    | UnicodeCode
    | LimitCode(kind: LimitKind, actual: nat, maximum: nat)

  /** What went wrong and where: at each step the index among the children in walk order. */
  datatype Failure = Failure(code: Code, path: seq<nat>)

  datatype Walked =
    | Done(value: Json, nodes: nat, visited: set<Id>)
    | Failed(failure: Failure)

  datatype WalkedAll =
    | DoneAll(values: seq<Json>, nodes: nat, visited: set<Id>)
    | FailedAll(failure: Failure)

  function At(index: nat, f: Failure): Failure {
    f.(path := [index] + f.path)
  }

  datatype KeyCheck = KeysOk | BadKey(code: Code)

  /** The keys are checked in property order: first their size, then their surrogates. */
  function CheckKeys(slots: seq<Slot>): KeyCheck {
    if slots == [] then KeysOk
    else if Utf8Length(slots[0].key) > MAX_KEY_BYTES then
      BadKey(LimitCode(KeyBytes, Utf8Length(slots[0].key), MAX_KEY_BYTES))
    else if !WellFormed(slots[0].key) then BadKey(UnicodeCode)
    else CheckKeys(slots[1..])
  }

  function FirstHole(items: seq<Input>): (i: nat)
    ensures i <= |items|
    ensures forall j :: 0 <= j < i ==> !items[j].Hole?
    ensures i < |items| ==> items[i].Hole?
  {
    if items == [] || items[0].Hole? then 0 else 1 + FirstHole(items[1..])
  }

  /** The checks made on a node before its children are visited. */
  function CheckNode(node: Node): KeyCheck {
    match node
    case ObjNode(slots) =>
      if |slots| > MAX_OBJECT_KEYS then BadKey(LimitCode(ObjectKeys, |slots|, MAX_OBJECT_KEYS))
      else CheckKeys(slots)
    case ArrNode(items) =>
      if |items| > MAX_ARRAY_ITEMS then BadKey(LimitCode(ArrayItems, |items|, MAX_ARRAY_ITEMS))
      else KeysOk
  }

  /** The detached value of a node, from the values of its children. */
  function Assemble(node: Node, cs: seq<Json>): Json
    requires |cs| == |Kids(node)|
  {
    match node
    case ObjNode(slots) =>
      var s := SortBy(slots, SlotKey);
      Obj(seq(|s|, i requires 0 <= i < |s| => Field(s[i].key, cs[i])))
    case ArrNode(_) => Arr(cs)
  }

  // ---------------------------------------------------------------------------
  // The walk
  // ---------------------------------------------------------------------------

  /** traverseValue */
  ghost function WalkValue(g: Graph, x: Input, depth: nat, nodes: nat, visited: set<Id>): (r: Walked)
    requires visited <= g.Keys
    ensures r.Done? ==> visited <= r.visited <= g.Keys
    decreases |g.Keys - visited|, 2
  {
    if nodes + 1 > MAX_NODES then Failed(Failure(LimitCode(Nodes, nodes + 1, MAX_NODES), []))
    else
      match x
      case Undefined => Failed(Failure(DomainCode, []))
      case Hole => Failed(Failure(DomainCode, []))
      case Exotic => Failed(Failure(DomainCode, []))
      case NullIn => Done(Null, nodes + 1, visited)
      case BoolIn(b) => Done(Bool(b), nodes + 1, visited)
      case NumIn(n) =>
        if Serializable(n) then Done(Num(n), nodes + 1, visited) else Failed(Failure(DomainCode, []))
      case StrIn(s) =>
        if Utf8Length(s) > MAX_STRING_BYTES then
          Failed(Failure(LimitCode(StringBytes, Utf8Length(s), MAX_STRING_BYTES), []))
        else if !WellFormed(s) then Failed(Failure(UnicodeCode, []))
        else Done(Text(s), nodes + 1, visited)
      case Ref(id) =>
        if id in g then WalkNode(g, id, depth, nodes + 1, visited) else Failed(Failure(DomainCode, []))
  }

  /** traverseObject and traverseArray */
  ghost function WalkNode(g: Graph, id: Id, depth: nat, nodes: nat, visited: set<Id>): (r: Walked)
    requires visited <= g.Keys && id in g
    ensures r.Done? ==> visited <= r.visited <= g.Keys
    decreases |g.Keys - visited|, 1
  {
    var node := g[id];
    if depth > MAX_DEPTH then Failed(Failure(LimitCode(Depth, depth, MAX_DEPTH), []))
    else if id in visited then Failed(Failure(TraversalCode, []))
    else if node.ArrNode? && FirstHole(node.items) < |node.items| then
      Failed(Failure(DomainCode, [FirstHole(node.items)]))
    else
      match CheckNode(node)
      case BadKey(code) => Failed(Failure(code, []))
      case KeysOk =>
        SmallerRest(g.Keys, visited, id);
        match WalkAll(g, Kids(node), 0, depth + 1, nodes, visited + {id})
        case FailedAll(f) => Failed(f)
        case DoneAll(cs, n, vis) => Done(Assemble(node, cs), n, vis)
  }

  /** The loops over the children; i is the index of the first of xs. */
  ghost function WalkAll(g: Graph, xs: seq<Input>, i: nat, depth: nat, nodes: nat, visited: set<Id>): (r: WalkedAll)
    requires visited <= g.Keys
    ensures r.DoneAll? ==> |r.values| == |xs| && visited <= r.visited <= g.Keys
    decreases |g.Keys - visited|, 3, |xs|
  {
    if xs == [] then DoneAll([], nodes, visited)
    else
      match WalkValue(g, xs[0], depth, nodes, visited)
      case Failed(f) => FailedAll(At(i, f))
      case Done(c, n, vis) =>
        RestShrinks(g.Keys, visited, vis);
        Prepend(c, WalkAll(g, xs[1..], i + 1, depth, n, vis))
  }

  ghost function Prepend(c: Json, r: WalkedAll): WalkedAll {
    match r
    case FailedAll(f) => r
    case DoneAll(cs, n, vis) => DoneAll([c] + cs, n, vis)
  }

  lemma SmallerRest(all: set<Id>, visited: set<Id>, id: Id)
    requires id in all && id !in visited
    ensures |all - (visited + {id})| < |all - visited|
  {
    assert all - visited == (all - (visited + {id})) + {id};
  }

  lemma RestShrinks(all: set<Id>, a: set<Id>, b: set<Id>)
    requires a <= b
    ensures |all - b| <= |all - a|
  {
    assert all - a == (all - b) + ((b - a) * all);
    SubsetSize(all - b, all - a);
  }

  lemma SubsetSize<T>(a: set<T>, b: set<T>)
    requires a <= b
    ensures |a| <= |b|
  {
    assert b == a + (b - a);
  }
}
