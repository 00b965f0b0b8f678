/**
  What the bounded walk promises, stated without the walk: it succeeds exactly when the input
  unfolds to a finite value within the limits and no object is reached twice.
 */
module WalkSpec {
  import opened Text
  import opened Unicode
  import opened Json
  import opened Walk

  // ---------------------------------------------------------------------------
  // The specification
  // ---------------------------------------------------------------------------

  /** c is the finite unfolding of x, with the keys of every object sorted. */
  ghost predicate Reads(g: Graph, x: Input, c: Json)
    decreases c
  {
    match x
    case NullIn => c == Null
    case BoolIn(b) => c == Bool(b)
    case NumIn(n) => c == Num(n)
    case StrIn(s) => c == Text(s)
    case Ref(id) =>
      id in g &&
      (match g[id]
       case ArrNode(items) =>
         && c.Arr? && |c.items| == |items|
         && (forall i :: 0 <= i < |items| ==> Reads(g, items[i], c.items[i]))
       case ObjNode(slots) =>
         var s := SortBy(slots, SlotKey);
         && c.Obj? && |c.fields| == |slots|
         && (forall i :: 0 <= i < |s| ==> c.fields[i].key == s[i].key && Reads(g, s[i].value, c.fields[i].value)))
    case _ => false
  }

  predicate KeyFits(key: Str) {
    Utf8Length(key) <= MAX_KEY_BYTES && WellFormed(key)
  }

  /** Every part of c, with c itself at the given depth, is in the domain and within its own limit. */
  ghost predicate Fits(c: Json, depth: nat) {
    match c
    case Num(n) => Serializable(n)
    case Text(s) => Utf8Length(s) <= MAX_STRING_BYTES && WellFormed(s)
    case Arr(items) =>
      && depth <= MAX_DEPTH && |items| <= MAX_ARRAY_ITEMS
      && (forall i :: 0 <= i < |items| ==> Fits(items[i], depth + 1))
    case Obj(fields) =>
      && depth <= MAX_DEPTH && |fields| <= MAX_OBJECT_KEYS
      && (forall i :: 0 <= i < |fields| ==> KeyFits(fields[i].key) && Fits(fields[i].value, depth + 1))
    case _ => true
  }

  /** The number of values in c. */
  ghost function Size(c: Json): nat {
    match c
    case Arr(items) => 1 + SizeAll(items)
    case Obj(fields) => 1 + SizeFields(fields)
    case _ => 1
  }

  ghost function SizeAll(items: seq<Json>): nat {
    if items == [] then 0 else Size(items[0]) + SizeAll(items[1..])
  }

  ghost function SizeFields(fields: seq<Field>): nat {
    if fields == [] then 0 else Size(fields[0].value) + SizeFields(fields[1..])
  }

  /** The objects met while x unfolds to c, once per meeting. */
  ghost function Ids(g: Graph, x: Input, c: Json): seq<Id>
    decreases c
  {
    if !x.Ref? || x.id !in g then []
    else
      [x.id] + (match c
                case Arr(items) => IdsAll(g, Kids(g[x.id]), items)
                case Obj(fields) => IdsFields(g, Kids(g[x.id]), fields)
                case _ => [])
  }

  ghost function IdsAll(g: Graph, xs: seq<Input>, cs: seq<Json>): seq<Id>
    decreases cs
  {
    if xs == [] || cs == [] then [] else Ids(g, xs[0], cs[0]) + IdsAll(g, xs[1..], cs[1..])
  }

  ghost function IdsFields(g: Graph, xs: seq<Input>, fields: seq<Field>): seq<Id>
    decreases fields
  {
    if xs == [] || fields == [] then [] else Ids(g, xs[0], fields[0].value) + IdsFields(g, xs[1..], fields[1..])
  }

  /** The visited set once the listed objects have been added to it. */
  ghost function After(visited: set<Id>, ids: seq<Id>): set<Id>
    decreases ids
  {
    if ids == [] then visited else After(visited + {ids[0]}, ids[1..])
  }

  /** No object is met twice, and none was met before. */
  ghost predicate Fresh(ids: seq<Id>, visited: set<Id>)
    decreases ids
  {
    ids == [] || (ids[0] !in visited && Fresh(ids[1..], visited + {ids[0]}))
  }

  /** x unfolds to c within the limits, reaching every object at most once. */
  ghost predicate Admissible(g: Graph, x: Input, c: Json, depth: nat, nodes: nat, visited: set<Id>) {
    && Reads(g, x, c) && Fits(c, depth)
    && nodes + Size(c) <= MAX_NODES
    && Fresh(Ids(g, x, c), visited)
  }

  // ---------------------------------------------------------------------------
  // Lists of children
  // ---------------------------------------------------------------------------

  ghost function Values(fields: seq<Field>): (cs: seq<Json>)
    ensures |cs| == |fields|
    ensures forall i :: 0 <= i < |fields| ==> cs[i] == fields[i].value
  {
    seq(|fields|, i requires 0 <= i < |fields| => fields[i].value)
  }

  ghost function Children(c: Json): seq<Json> {
    match c
    case Arr(items) => items
    case Obj(fields) => Values(fields)
    case _ => []
  }

  lemma {:induction false} FieldsAsValues(g: Graph, xs: seq<Input>, fields: seq<Field>)
    ensures SizeFields(fields) == SizeAll(Values(fields))
    ensures IdsFields(g, xs, fields) == IdsAll(g, xs, Values(fields))
  {
    if fields != [] {
      assert Values(fields)[1..] == Values(fields[1..]);
      FieldsAsValues(g, if xs == [] then [] else xs[1..], fields[1..]);
    }
  }

  /** Size and object list of a container in terms of its children. */
  lemma ContainerSums(g: Graph, id: Id, c: Json)
    requires id in g && Reads(g, Ref(id), c)
    ensures |Children(c)| == |Kids(g[id])|
    ensures Size(c) == 1 + SizeAll(Children(c))
    ensures Ids(g, Ref(id), c) == [id] + IdsAll(g, Kids(g[id]), Children(c))
  {
    if c.Obj? {
      FieldsAsValues(g, Kids(g[id]), c.fields);
    }
  }

  ghost predicate ReadsAll(g: Graph, xs: seq<Input>, cs: seq<Json>) {
    |xs| == |cs| && forall i :: 0 <= i < |xs| ==> Reads(g, xs[i], cs[i])
  }

  ghost predicate FitsAll(cs: seq<Json>, depth: nat) {
    forall i :: 0 <= i < |cs| ==> Fits(cs[i], depth)
  }

  /** The children unfold one after the other to cs, within the limits and reaching no object twice. */
  ghost predicate AdmissibleAll(g: Graph, xs: seq<Input>, cs: seq<Json>, depth: nat, nodes: nat, visited: set<Id>)
    decreases cs
  {
    if xs == [] || cs == [] then xs == [] && cs == [] && nodes <= MAX_NODES
    else
      && Admissible(g, xs[0], cs[0], depth, nodes, visited)
      && AdmissibleAll(g, xs[1..], cs[1..], depth, nodes + Size(cs[0]), After(visited, Ids(g, xs[0], cs[0])))
  }

  lemma {:induction false} FreshConcat(a: seq<Id>, b: seq<Id>, visited: set<Id>)
    ensures Fresh(a + b, visited) <==> Fresh(a, visited) && Fresh(b, After(visited, a))
    ensures After(visited, a + b) == After(After(visited, a), b)
  {
    if a == [] {
      assert a + b == b;
    } else {
      assert (a + b)[0] == a[0] && (a + b)[1..] == a[1..] + b;
      FreshConcat(a[1..], b, visited + {a[0]});
    }
  }

  /** Fresh after nothing: no object occurs twice. */
  lemma {:induction false} FreshMeansDistinct(ids: seq<Id>, visited: set<Id>)
    ensures Fresh(ids, visited) <==> NoDuplicates(ids) && forall id :: id in ids ==> id !in visited
  {
    if ids != [] {
      FreshMeansDistinct(ids[1..], visited + {ids[0]});
      assert forall i :: 1 <= i < |ids| ==> ids[i] == ids[1..][i - 1];
      if NoDuplicates(ids) {
        assert NoDuplicates(ids[1..]) && ids[0] !in ids[1..];
      }
      if NoDuplicates(ids[1..]) && ids[0] !in ids[1..] {
        forall i, j | 0 <= i < j < |ids| ensures ids[i] != ids[j] {
          assert ids[j] == ids[1..][j - 1] && (i > 0 ==> ids[i] == ids[1..][i - 1]);
        }
      }
    }
  }

  lemma AfterCons(g: Graph, xs: seq<Input>, cs: seq<Json>, visited: set<Id>)
    requires xs != [] && cs != []
    ensures After(visited, IdsAll(g, xs, cs))
         == After(After(visited, Ids(g, xs[0], cs[0])), IdsAll(g, xs[1..], cs[1..]))
  {
    FreshConcat(Ids(g, xs[0], cs[0]), IdsAll(g, xs[1..], cs[1..]), visited);
  }

  /** What the children satisfy together. */
  lemma {:induction false} AdmissibleTogether(g: Graph, xs: seq<Input>, cs: seq<Json>, depth: nat, nodes: nat, visited: set<Id>)
    ensures AdmissibleAll(g, xs, cs, depth, nodes, visited) <==>
      && ReadsAll(g, xs, cs) && FitsAll(cs, depth)
      && nodes + SizeAll(cs) <= MAX_NODES
      && Fresh(IdsAll(g, xs, cs), visited)
  {
    if xs != [] && cs != [] {
      AdmissibleTogether(g, xs[1..], cs[1..], depth, nodes + Size(cs[0]), After(visited, Ids(g, xs[0], cs[0])));
      FreshConcat(Ids(g, xs[0], cs[0]), IdsAll(g, xs[1..], cs[1..]), visited);
      ReadsAllCons(g, xs, cs);
      assert FitsAll(cs, depth) <==> Fits(cs[0], depth) && FitsAll(cs[1..], depth) by {
        assert forall i :: 1 <= i < |cs| ==> cs[i] == cs[1..][i - 1];
      }
    }
  }

  lemma ReadsAllCons(g: Graph, xs: seq<Input>, cs: seq<Json>)
    requires xs != [] && cs != []
    ensures ReadsAll(g, xs, cs) <==> Reads(g, xs[0], cs[0]) && ReadsAll(g, xs[1..], cs[1..])
  {
    if |xs| == |cs| {
      assert forall i :: 1 <= i < |xs| ==> xs[i] == xs[1..][i - 1] && cs[i] == cs[1..][i - 1];
      if Reads(g, xs[0], cs[0]) && ReadsAll(g, xs[1..], cs[1..]) {
        forall i | 0 <= i < |xs| ensures Reads(g, xs[i], cs[i]) {
          assert i > 0 ==> Reads(g, xs[1..][i - 1], cs[1..][i - 1]);
        }
      }
    }
  }

  lemma KeysFit(slots: seq<Slot>)
    ensures CheckKeys(slots).KeysOk? <==> forall s :: s in slots ==> KeyFits(s.key)
  {
    if slots != [] {
      KeysFit(slots[1..]);
      assert slots == [slots[0]] + slots[1..];
    }
  }

  lemma SortKeepsElements<T>(xs: seq<T>, key: T -> Str)
    ensures forall x :: x in xs <==> x in SortBy(xs, key)
  {
    assert forall x :: x in xs <==> x in multiset(xs);
    assert forall x :: x in SortBy(xs, key) <==> x in multiset(SortBy(xs, key));
  }

  /** The checks on a node say that its keys and counts fit. */
  lemma NodeFits(g: Graph, id: Id, c: Json, depth: nat)
    requires id in g && Reads(g, Ref(id), c)
    ensures Fits(c, depth) <==>
      depth <= MAX_DEPTH && CheckNode(g[id]).KeysOk? && FitsAll(Children(c), depth + 1)
  {
    if g[id].ObjNode? {
      var slots := g[id].slots;
      var s := SortBy(slots, SlotKey);
      KeysFit(slots);
      SortKeepsElements(slots, SlotKey);
      assert (forall x :: x in slots ==> KeyFits(x.key)) <==> (forall i :: 0 <= i < |s| ==> KeyFits(s[i].key));
      assert forall i :: 0 <= i < |s| ==> c.fields[i].key == s[i].key;
      FieldsFit(c.fields, depth);
    }
  }

  lemma FieldsFit(fields: seq<Field>, depth: nat)
    ensures Fits(Obj(fields), depth) <==>
      && depth <= MAX_DEPTH && |fields| <= MAX_OBJECT_KEYS
      && (forall i :: 0 <= i < |fields| ==> KeyFits(fields[i].key))
      && FitsAll(Values(fields), depth + 1)
  {
    if FitsAll(Values(fields), depth + 1) {
      assert forall i :: 0 <= i < |fields| ==> Fits(Values(fields)[i], depth + 1);
    }
  }

  lemma NoHoles(g: Graph, id: Id, c: Json)
    requires id in g && Reads(g, Ref(id), c) && g[id].ArrNode?
    ensures FirstHole(g[id].items) == |g[id].items|
  {
    var h := FirstHole(g[id].items);
    assert h < |g[id].items| ==> Reads(g, g[id].items[h], c.items[h]);
  }

  /** Reading a node is reading its children. */
  lemma ReadsNode(g: Graph, id: Id, cs: seq<Json>)
    requires id in g && |cs| == |Kids(g[id])|
    ensures ReadsAll(g, Kids(g[id]), cs) <==> Reads(g, Ref(id), Assemble(g[id], cs))
    ensures Children(Assemble(g[id], cs)) == cs
  {
    match g[id]
    case ArrNode(items) => assert Kids(g[id]) == items;
    case ObjNode(slots) =>
      var s := SortBy(slots, SlotKey);
      var c := Assemble(g[id], cs);
      assert forall i :: 0 <= i < |s| ==> Kids(g[id])[i] == s[i].value && c.fields[i] == Field(s[i].key, cs[i]);
  }

  lemma ReadsChildren(g: Graph, id: Id, c: Json)
    requires id in g && Reads(g, Ref(id), c)
    ensures ReadsAll(g, Kids(g[id]), Children(c)) && Assemble(g[id], Children(c)) == c
  {
    match g[id]
    case ArrNode(items) =>
    case ObjNode(slots) =>
      var s := SortBy(slots, SlotKey);
      assert Assemble(g[id], Children(c)).fields == c.fields;
  }

  /** An input unfolds to at most one value. */
  lemma {:induction false} ReadsUnique(g: Graph, x: Input, c: Json, d: Json)
    requires Reads(g, x, c) && Reads(g, x, d)
    ensures c == d
    decreases c
  {
    if x.Ref? {
      match g[x.id]
      case ArrNode(items) =>
        forall i | 0 <= i < |items| ensures c.items[i] == d.items[i] {
          ReadsUnique(g, items[i], c.items[i], d.items[i]);
        }
        assert c.items == d.items;
      case ObjNode(slots) =>
        var s := SortBy(slots, SlotKey);
        forall i | 0 <= i < |s| ensures c.fields[i] == d.fields[i] {
          ReadsUnique(g, s[i].value, c.fields[i].value, d.fields[i].value);
        }
        assert c.fields == d.fields;
    }
  }

  /** A node is admissible when it passes its checks and its children are admissible after it. */
  lemma NodeAdmissible(g: Graph, id: Id, cs: seq<Json>, depth: nat, nodes: nat, visited: set<Id>)
    requires id in g && |cs| == |Kids(g[id])| && 1 <= nodes
    ensures var c := Assemble(g[id], cs);
      && (Admissible(g, Ref(id), c, depth, nodes - 1, visited) <==>
            && depth <= MAX_DEPTH && id !in visited && CheckNode(g[id]).KeysOk?
            && AdmissibleAll(g, Kids(g[id]), cs, depth + 1, nodes, visited + {id}))
      && (ReadsAll(g, Kids(g[id]), cs) ==>
            Size(c) == 1 + SizeAll(cs)
            && After(visited, Ids(g, Ref(id), c)) == After(visited + {id}, IdsAll(g, Kids(g[id]), cs)))
  {
    var c := Assemble(g[id], cs);
    ReadsNode(g, id, cs);
    AdmissibleTogether(g, Kids(g[id]), cs, depth + 1, nodes, visited + {id});
    if Reads(g, Ref(id), c) {
      ContainerSums(g, id, c);
      NodeFits(g, id, c, depth);
      FreshConcat([id], IdsAll(g, Kids(g[id]), cs), visited);
      assert After(visited, [id]) == visited + {id} by {
        assert [id][1..] == [];
      }
    }
  }

  // ---------------------------------------------------------------------------
  // Soundness: what a successful walk has established
  // ---------------------------------------------------------------------------

  lemma {:induction false} WalkSound(g: Graph, x: Input, depth: nat, nodes: nat, visited: set<Id>)
    requires visited <= g.Keys
    requires WalkValue(g, x, depth, nodes, visited).Done?
    ensures var r := WalkValue(g, x, depth, nodes, visited);
      && Admissible(g, x, r.value, depth, nodes, visited)
      && r.nodes == nodes + Size(r.value)
      && r.visited == After(visited, Ids(g, x, r.value))
    decreases |g.Keys - visited|, 2
  {
    if x.Ref? {
      WalkNodeSound(g, x.id, depth, nodes + 1, visited);
    }
  }

  lemma {:induction false} WalkNodeSound(g: Graph, id: Id, depth: nat, nodes: nat, visited: set<Id>)
    requires visited <= g.Keys && id in g && 1 <= nodes <= MAX_NODES
    requires WalkNode(g, id, depth, nodes, visited).Done?
    ensures var r := WalkNode(g, id, depth, nodes, visited);
      && Admissible(g, Ref(id), r.value, depth, nodes - 1, visited)
      && r.nodes == nodes - 1 + Size(r.value)
      && r.visited == After(visited, Ids(g, Ref(id), r.value))
    decreases |g.Keys - visited|, 1
  {
    var xs := Kids(g[id]);
    SmallerRest(g.Keys, visited, id);
    var r := WalkAll(g, xs, 0, depth + 1, nodes, visited + {id});
    WalkAllSound(g, xs, 0, depth + 1, nodes, visited + {id});
    NodeAdmissible(g, id, r.values, depth, nodes, visited);
    AdmissibleTogether(g, xs, r.values, depth + 1, nodes, visited + {id});
  }

  lemma {:induction false} WalkAllSound(g: Graph, xs: seq<Input>, i: nat, depth: nat, nodes: nat, visited: set<Id>)
    requires visited <= g.Keys
    requires nodes <= MAX_NODES
    requires WalkAll(g, xs, i, depth, nodes, visited).DoneAll?
    ensures var r := WalkAll(g, xs, i, depth, nodes, visited);
      && AdmissibleAll(g, xs, r.values, depth, nodes, visited)
      && r.nodes == nodes + SizeAll(r.values)
      && r.visited == After(visited, IdsAll(g, xs, r.values))
    decreases |g.Keys - visited|, 3, |xs|
  {
    if xs != [] {
      var first := WalkValue(g, xs[0], depth, nodes, visited);
      WalkSound(g, xs[0], depth, nodes, visited);
      RestShrinks(g.Keys, visited, first.visited);
      WalkAllSound(g, xs[1..], i + 1, depth, first.nodes, first.visited);
      var rest := WalkAll(g, xs[1..], i + 1, depth, first.nodes, first.visited).values;
      var cs := [first.value] + rest;
      assert cs[1..] == rest;
      AfterCons(g, xs, cs, visited);
    }
  }

  // ---------------------------------------------------------------------------
  // Completeness: everything admissible is walked
  // ---------------------------------------------------------------------------

  lemma {:induction false} WalkComplete(g: Graph, x: Input, c: Json, depth: nat, nodes: nat, visited: set<Id>)
    requires visited <= g.Keys
    ensures Admissible(g, x, c, depth, nodes, visited) ==>
      WalkValue(g, x, depth, nodes, visited) == Done(c, nodes + Size(c), After(visited, Ids(g, x, c)))
    decreases |g.Keys - visited|, 2
  {
    if x.Ref? && x.id in g {
      WalkNodeComplete(g, x.id, c, depth, nodes + 1, visited);
    } else {
    }
  }

  lemma {:induction false} WalkNodeComplete(g: Graph, id: Id, c: Json, depth: nat, nodes: nat, visited: set<Id>)
    requires visited <= g.Keys && id in g && 1 <= nodes
    ensures Admissible(g, Ref(id), c, depth, nodes - 1, visited) ==>
      WalkNode(g, id, depth, nodes, visited) == Done(c, nodes - 1 + Size(c), After(visited, Ids(g, Ref(id), c)))
    decreases |g.Keys - visited|, 1
  {
    hide WalkNode, WalkValue, WalkAll, Admissible, Reads, Fits, Fresh, Assemble, Kids, CheckNode, FirstHole, Ids, IdsAll, Size, SizeAll,
      After, AdmissibleAll;
    NodeParts(g, id, c, depth, nodes, visited);
    if Admissible(g, Ref(id), c, depth, nodes - 1, visited) {
      var cs := Children(c);
      var n2, vis2 := nodes + SizeAll(cs), After(visited + {id}, IdsAll(g, Kids(g[id]), cs));
      SmallerRest(g.Keys, visited, id);
      WalkAllComplete(g, Kids(g[id]), cs, 0, depth + 1, nodes, visited + {id});
      WalkNodeStep(g, id, cs, depth, nodes, visited, n2, vis2);
    }
  }

  lemma NodeParts(g: Graph, id: Id, c: Json, depth: nat, nodes: nat, visited: set<Id>)
    requires id in g && 1 <= nodes
    ensures Admissible(g, Ref(id), c, depth, nodes - 1, visited) ==>
      && |Children(c)| == |Kids(g[id])| && Assemble(g[id], Children(c)) == c
      && depth <= MAX_DEPTH && id !in visited && CheckNode(g[id]).KeysOk?
      && (g[id].ArrNode? ==> FirstHole(g[id].items) == |g[id].items|)
      && AdmissibleAll(g, Kids(g[id]), Children(c), depth + 1, nodes, visited + {id})
      && Size(c) == 1 + SizeAll(Children(c))
      && After(visited, Ids(g, Ref(id), c)) == After(visited + {id}, IdsAll(g, Kids(g[id]), Children(c)))
  {
    if Reads(g, Ref(id), c) {
      ReadsChildren(g, id, c);
      ContainerSums(g, id, c);
      NodeAdmissible(g, id, Children(c), depth, nodes, visited);
      if g[id].ArrNode? {
        NoHoles(g, id, c);
      }
    }
  }

  lemma WalkNodeStep(g: Graph, id: Id, cs: seq<Json>, depth: nat, nodes: nat, visited: set<Id>, n2: nat, vis2: set<Id>)
    requires visited <= g.Keys && id in g && |cs| == |Kids(g[id])|
    requires depth <= MAX_DEPTH && id !in visited && CheckNode(g[id]).KeysOk?
    requires g[id].ArrNode? ==> FirstHole(g[id].items) == |g[id].items|
    requires WalkAll(g, Kids(g[id]), 0, depth + 1, nodes, visited + {id}) == DoneAll(cs, n2, vis2)
    ensures WalkNode(g, id, depth, nodes, visited) == Done(Assemble(g[id], cs), n2, vis2)
  {
  }

  lemma {:induction false} WalkAllComplete(g: Graph, xs: seq<Input>, cs: seq<Json>, i: nat,
                                           depth: nat, nodes: nat, visited: set<Id>)
    requires visited <= g.Keys
    ensures AdmissibleAll(g, xs, cs, depth, nodes, visited) ==>
      WalkAll(g, xs, i, depth, nodes, visited)
      == DoneAll(cs, nodes + SizeAll(cs), After(visited, IdsAll(g, xs, cs)))
    decreases |g.Keys - visited|, 3, |xs|
  {
    hide Admissible, Reads, Fits, Ids, Fresh, WalkValue;
    if xs != [] && cs != [] {
      WalkComplete(g, xs[0], cs[0], depth, nodes, visited);
      var n1, vis1 := nodes + Size(cs[0]), After(visited, Ids(g, xs[0], cs[0]));
      var n2, vis2 := n1 + SizeAll(cs[1..]), After(vis1, IdsAll(g, xs[1..], cs[1..]));
      if WalkValue(g, xs[0], depth, nodes, visited) == Done(cs[0], n1, vis1) {
        RestShrinks(g.Keys, visited, vis1);
        WalkAllComplete(g, xs[1..], cs[1..], i + 1, depth, n1, vis1);
        if WalkAll(g, xs[1..], i + 1, depth, n1, vis1) == DoneAll(cs[1..], n2, vis2) {
          WalkAllStep(g, xs, cs, i, depth, nodes, visited, n1, n2, vis1, vis2);
        }
      }
      AfterCons(g, xs, cs, visited);
    }
  }

  lemma WalkAllStep(g: Graph, xs: seq<Input>, cs: seq<Json>, i: nat, depth: nat, nodes: nat, visited: set<Id>,
                    n1: nat, n2: nat, vis1: set<Id>, vis2: set<Id>)
    requires visited <= g.Keys && vis1 <= g.Keys && xs != [] && cs != []
    requires WalkValue(g, xs[0], depth, nodes, visited) == Done(cs[0], n1, vis1)
    requires WalkAll(g, xs[1..], i + 1, depth, n1, vis1) == DoneAll(cs[1..], n2, vis2)
    ensures WalkAll(g, xs, i, depth, nodes, visited) == DoneAll(cs, n2, vis2)
  {
    assert cs == [cs[0]] + cs[1..];
  }

  /** The walk succeeds exactly when the input has an admissible unfolding, which it then returns. */
  lemma WalkIff(g: Graph, x: Input, depth: nat, nodes: nat, visited: set<Id>)
    requires visited <= g.Keys
    ensures WalkValue(g, x, depth, nodes, visited).Done?
       <==> exists c :: Admissible(g, x, c, depth, nodes, visited)
  {
    if WalkValue(g, x, depth, nodes, visited).Done? {
      WalkSound(g, x, depth, nodes, visited);
    }
    if c :| Admissible(g, x, c, depth, nodes, visited) {
      WalkComplete(g, x, c, depth, nodes, visited);
    }
  }
}
