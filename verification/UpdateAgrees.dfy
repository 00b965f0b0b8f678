/** One update makes the three indexes agree with each other and with the files. */
module UpdateAgrees {
  import opened Text
  import opened Registry

  // ---------------------------------------------------------------------------
  // Agreement
  // ---------------------------------------------------------------------------

  ghost predicate PathsLead(s: Store) {
    forall p :: p in s.paths ==> Live(s, p) && s.entities[s.paths[p]].currentPath == p
  }

  ghost predicate EntitiesBound(s: Store) {
    forall id :: id in s.entities && s.entities[id].status == Active ==>
      s.entities[id].currentPath in s.paths && s.paths[s.entities[id].currentPath] == id
  }

  /** What the manifests must say about p. */
  ghost function Expected(s: Store, p: Path): Option<Record> {
    if p in s.paths && s.paths[p] in s.entities then Some(RecordOf(s.paths[p], s.entities[s.paths[p]])) else None
  }

  ghost predicate RecordsMatch(s: Store) {
    forall p :: RecordAt(s.manifests, p) == Expected(s, p)
  }

  /** Bindings and active entities are in bijection and the manifests record exactly the bound entities. */
  ghost predicate Consistent(s: Store) {
    && (forall id :: id in s.ids <==> id in s.entities)
    && PathsLead(s) && EntitiesBound(s) && RecordsMatch(s)
  }

  ghost predicate HashRight(s: Store, w: World, p: Path) {
    p in s.paths && s.paths[p] in s.entities && p in w.files && s.entities[s.paths[p]].contentHash == w.files[p]
  }

  /** The indexes agree with each other and with the managed files. */
  ghost predicate Agrees(s: Store, w: World) {
    && Consistent(s)
    && (forall p :: p in s.paths <==> p in w.managed)
    && (forall p :: p in s.paths ==> HashRight(s, w, p))
  }

  // ---------------------------------------------------------------------------
  // Preconditions
  // ---------------------------------------------------------------------------

  ghost predicate Readable(w: World) {
    forall p :: p in w.managed ==> p in w.files && w.files[p] != []
  }

  ghost predicate FreshIds(s: Store, w: World) {
    && (forall n: nat :: s.drawn <= n ==> w.freshId(n) !in s.entities)
    && (forall m: nat, n: nat :: m < n ==> w.freshId(m) != w.freshId(n))
  }

  /** No retired entity still names a bound path. */
  ghost predicate NoShadows(s: Store) {
    forall id :: id in s.entities && s.entities[id].status == Deleted ==> s.entities[id].currentPath !in s.paths
  }

  /** The registry was in order and the world is what the update takes for granted. */
  ghost predicate Orderly(s: Store, w: World) {
    Consistent(s) && Readable(w) && FreshIds(s, w)
  }

  ghost predicate Ready(s: Store, w: World) {
    Orderly(s, w) && NoShadows(s)
  }

  /** Every inferred move takes along the entity that is bound where it starts. */
  ghost predicate InferredRight(s: Store, w: World, plan: Plan) {
    forall m :: m in InferredMoves(s, w, plan) ==> m.from in s.paths && m.entityId == s.paths[m.from]
  }

  /** Paths reported as added, and targets of renames, are not bound yet. */
  ghost predicate NewPathsUnbound(s: Store, w: World) {
    && (forall p :: p in w.changes.added && p in w.managed ==> p !in s.paths)
    && (forall r :: r in w.changes.renamed && r.from in s.paths && r.to in w.managed ==> r.to !in s.paths)
  }

  /** Paths reported as deleted, and sources of renames, are no longer managed. */
  ghost predicate OldPathsUnmanaged(s: Store, w: World) {
    && (forall p :: p in w.changes.deleted && p in s.paths ==> p !in w.managed)
    && (forall r :: r in w.changes.renamed && r.from in s.paths && r.to in w.managed ==> r.from !in w.managed)
  }

  // ---------------------------------------------------------------------------
  // What the passes keep
  // ---------------------------------------------------------------------------

  /** p is bound as it was at the start, to an entity that has not been touched. */
  ghost predicate Untouched(s0: Store, s: Store, p: Path) {
    && p in s0.paths && p in s.paths && s.paths[p] == s0.paths[p]
    && s0.paths[p] in s0.entities && s0.paths[p] in s.entities
    && s.entities[s0.paths[p]] == s0.entities[s0.paths[p]]
  }

  /** gone: unbound since; come: newly bound; fixed: brought up to date in place. */
  ghost predicate Passing(s0: Store, w: World, s: Store, gone: set<Path>, come: set<Path>, fixed: set<Path>) {
    && Consistent(s)
    && (forall p :: p in s.paths <==> (p in s0.paths && p !in gone) || p in come)
    && (forall p :: p in come ==> p !in s0.paths && p in w.managed)
    && (forall p :: p in come || (p in fixed && p in s.paths) ==> HashRight(s, w, p))
    && (forall p :: p in s0.paths && p !in gone && p !in fixed ==> Untouched(s0, s, p))
  }

  ghost predicate StillFresh(w: World, s: Store) {
    forall n: nat :: s.drawn <= n ==> w.freshId(n) !in s.entities
  }

  // --- a move

  lemma MoveConsistent(s: Store, w: World, m: Move)
    requires Consistent(s) && m.from in s.paths && m.to !in s.paths && m.entityId == s.paths[m.from]
    ensures Consistent(MoveEntity(s, w, m))
  {
    hide MovedEntity, Upsert, Remove, RecordAt;
    var t := MoveEntity(s, w, m);
    var e := t.entities[m.entityId];
    MovedFields(w, s.entities[m.entityId], m);
    forall p ensures RecordAt(t.manifests, p) == Expected(t, p) {
      UpsertAt(Remove(s.manifests, m.from), m.to, RecordOf(m.entityId, e), p);
      RemoveAt(s.manifests, m.from, p);
      assert RecordAt(s.manifests, p) == Expected(s, p);
    }
  }

  lemma MovedFields(w: World, e: Entity, m: Move)
    ensures MovedEntity(w, e, m).currentPath == m.to && MovedEntity(w, e, m).status == Active
    ensures m.to in w.files ==> MovedEntity(w, e, m).contentHash == w.files[m.to]
  {
  }

  /** A move rebinds its source to its target, with the file's hash. */
  lemma MoveBinds(s: Store, w: World, m: Move)
    requires m.from in s.paths && m.entityId == s.paths[m.from] && m.entityId in s.entities && m.to in w.files
    ensures MoveEntity(s, w, m).paths == (s.paths - {m.from})[m.to := m.entityId]
    ensures HashRight(MoveEntity(s, w, m), w, m.to)
    ensures MoveEntity(s, w, m).drawn == s.drawn && MoveEntity(s, w, m).entities.Keys == s.entities.Keys
  {
    MovedFields(w, s.entities[m.entityId], m);
    hide MovedEntity, Upsert, Remove;
  }

  /** Other bound entities keep their binding and their fields. */
  lemma MoveLeaves(s: Store, w: World, m: Move, p: Path)
    requires Consistent(s) && m.from in s.paths && m.entityId == s.paths[m.from]
    requires p in s.paths && p != m.from && p != m.to
    ensures var t := MoveEntity(s, w, m);
      p in t.paths && t.paths[p] == s.paths[p] && t.paths[p] in t.entities && t.entities[t.paths[p]] == s.entities[s.paths[p]]
  {
    assert Live(s, p) && Live(s, m.from);
    hide MovedEntity, Upsert, Remove;
  }

  lemma MovePasses(s0: Store, w: World, s: Store, gone: set<Path>, come: set<Path>, m: Move)
    requires Readable(w) && Passing(s0, w, s, gone, come, {})
    requires m.from in s0.paths && m.from !in gone && m.entityId == s0.paths[m.from]
    requires m.to in w.managed && m.to !in s0.paths && m.to !in come
    ensures Passing(s0, w, MoveEntity(s, w, m), gone + {m.from}, come + {m.to}, {})
    ensures MoveEntity(s, w, m).drawn == s.drawn && MoveEntity(s, w, m).entities.Keys == s.entities.Keys
  {
    hide MoveEntity, Consistent;
    assert Untouched(s0, s, m.from);
    MoveConsistent(s, w, m);
    MoveBinds(s, w, m);
    var t := MoveEntity(s, w, m);
    forall p | p in come ensures HashRight(t, w, p) {
      assert HashRight(s, w, p);
      MoveLeaves(s, w, m, p);
    }
    forall p | p in s0.paths && p !in gone + {m.from} ensures Untouched(s0, t, p) {
      assert Untouched(s0, s, p);
      MoveLeaves(s, w, m, p);
    }
  }

  // --- a deletion

  lemma DeleteConsistent(s: Store, p: Path)
    requires Consistent(s) && p in s.paths
    ensures Consistent(MarkDeleted(s, p))
  {
    hide Remove, RecordAt;
    var t := MarkDeleted(s, p);
    forall q ensures RecordAt(t.manifests, q) == Expected(t, q) {
      RemoveAt(s.manifests, p, q);
      assert RecordAt(s.manifests, q) == Expected(s, q);
    }
  }

  lemma DeletePasses(s0: Store, w: World, s: Store, gone: set<Path>, come: set<Path>, p: Path)
    requires Passing(s0, w, s, gone, come, {}) && p in s0.paths && p !in gone
    ensures Passing(s0, w, MarkDeleted(s, p), gone + {p}, come, {})
    ensures MarkDeleted(s, p).drawn == s.drawn && MarkDeleted(s, p).entities.Keys == s.entities.Keys
  {
    assert Untouched(s0, s, p);
    DeleteConsistent(s, p);
    hide Remove, RecordsMatch, EntitiesBound;
    var t := MarkDeleted(s, p);
    forall q | q in come ensures HashRight(t, w, q) {
      assert HashRight(s, w, q);
      assert s.paths[q] != s.paths[p];
    }
    forall q | q in s0.paths && q !in gone + {p} ensures Untouched(s0, t, q) {
      assert Untouched(s0, s, q);
      assert s.paths[q] != s.paths[p];
    }
  }

  // --- an addition

  lemma AddConsistent(s: Store, w: World, p: Path)
    requires Consistent(s) && StillFresh(w, s) && p !in s.paths && p in w.files
    ensures Consistent(AddNewEntity(s, w, p))
  {
    hide Upsert, RecordAt, NewEntity;
    var t := AddNewEntity(s, w, p);
    var id := w.freshId(s.drawn);
    NewFields(w, p, w.files[p]);
    assert id !in s.entities;
    forall q ensures RecordAt(t.manifests, q) == Expected(t, q) {
      UpsertAt(s.manifests, p, RecordOf(id, NewEntity(w, p, w.files[p])), q);
      assert RecordAt(s.manifests, q) == Expected(s, q);
    }
  }

  lemma NewFields(w: World, p: Path, hash: Hash)
    ensures NewEntity(w, p, hash).currentPath == p && NewEntity(w, p, hash).status == Active
    ensures NewEntity(w, p, hash).contentHash == hash
  {
  }

  lemma AddPasses(s0: Store, w: World, s: Store, gone: set<Path>, come: set<Path>, p: Path)
    requires Readable(w) && StillFresh(w, s) && Passing(s0, w, s, gone, come, {})
    requires p in w.managed && p !in s0.paths && p !in come
    ensures Passing(s0, w, AddNewEntity(s, w, p), gone, come + {p}, {})
  {
    AddConsistent(s, w, p);
    NewFields(w, p, w.files[p]);
    hide Upsert, NewEntity, RecordsMatch, EntitiesBound;
    var t := AddNewEntity(s, w, p);
    assert w.freshId(s.drawn) !in s.entities;
    forall q | q in come + {p} ensures HashRight(t, w, q) {
      if q != p {
        assert HashRight(s, w, q);
      }
    }
    forall q | q in s0.paths && q !in gone ensures Untouched(s0, t, q) {
      assert Untouched(s0, s, q);
    }
  }

  lemma AddStaysFresh(s: Store, w: World, p: Path)
    requires StillFresh(w, s) && forall m: nat, n: nat :: m < n ==> w.freshId(m) != w.freshId(n)
    ensures StillFresh(w, AddNewEntity(s, w, p))
  {
    var t := AddNewEntity(s, w, p);
    forall n: nat | t.drawn <= n ensures w.freshId(n) !in t.entities {
      assert p in w.files ==> s.drawn < n;
    }
  }

  // --- a modification

  lemma ModifyConsistent(s: Store, w: World, p: Path)
    requires Consistent(s)
    ensures Consistent(UpdateModifiedEntity(s, w, p))
  {
    hide Upsert, RecordAt;
    var t := UpdateModifiedEntity(s, w, p);
    if t != s {
      var id := s.paths[p];
      forall q ensures RecordAt(t.manifests, q) == Expected(t, q) {
        UpsertAt(s.manifests, p, RecordOf(id, t.entities[id]), q);
        assert RecordAt(s.manifests, q) == Expected(s, q);
      }
    }
  }

  lemma ModifyPasses(s0: Store, w: World, s: Store, gone: set<Path>, come: set<Path>, fixed: set<Path>, p: Path)
    requires Readable(w) && Passing(s0, w, s, gone, come, fixed) && p in w.managed && p in s.paths
    ensures Passing(s0, w, UpdateModifiedEntity(s, w, p), gone, come, fixed + {p})
  {
    ModifyConsistent(s, w, p);
    hide Upsert, RecordsMatch, EntitiesBound;
    var t := UpdateModifiedEntity(s, w, p);
    forall q | q in come || (q in fixed + {p} && q in t.paths) ensures HashRight(t, w, q) {
      if q != p {
        assert HashRight(s, w, q);
        assert s.paths[q] != s.paths[p];
      }
    }
    forall q | q in s0.paths && q !in gone && q !in fixed + {p} ensures Untouched(s0, t, q) {
      assert Untouched(s0, s, q);
      assert s.paths[q] != s.paths[p];
    }
  }

  // ---------------------------------------------------------------------------
  // The loops
  // ---------------------------------------------------------------------------

  ghost predicate GoodMove(s0: Store, w: World, m: Move) {
    m.from in s0.paths && m.entityId == s0.paths[m.from] && m.to in w.managed && m.to !in s0.paths
  }

  ghost predicate MovesPass(s0: Store, w: World, g: Progress) {
    && Passing(s0, w, g.store, g.matchedDeleted, g.matchedAdded, {})
    && g.store.drawn == s0.drawn && g.store.entities.Keys == s0.entities.Keys
  }

  lemma {:induction false} RunMovesPasses(s0: Store, w: World, g: Progress, moves: seq<Move>)
    requires Readable(w) && MovesPass(s0, w, g)
    requires forall m :: m in moves ==> GoodMove(s0, w, m)
    ensures MovesPass(s0, w, RunMoves(g, w, moves))
  {
    hide Passing, MoveEntity, Readable;
    if moves != [] {
      var n := |moves| - 1;
      RunMovesPasses(s0, w, g, moves[..n]);
      var h := RunMoves(g, w, moves[..n]);
      var m := moves[n];
      assert GoodMove(s0, w, m);
      if m.from !in h.matchedDeleted && m.to !in h.matchedAdded {
        MovePasses(s0, w, h.store, h.matchedDeleted, h.matchedAdded, m);
      }
    }
  }

  /** The sources that end up matched. */
  lemma {:induction false} RunMovesMatched(g: Progress, w: World, moves: seq<Move>, p: Path)
    ensures g.matchedDeleted <= RunMoves(g, w, moves).matchedDeleted
    ensures p in RunMoves(g, w, moves).matchedDeleted ==> p in g.matchedDeleted || exists m :: m in moves && m.from == p
  {
    if moves != [] {
      RunMovesMatched(g, w, moves[..|moves| - 1], p);
      var m := moves[|moves| - 1];
      assert m in moves;
    }
  }

  /** Moves whose targets tell their sources apart leave no source behind. */
  lemma {:induction false} RunMovesAll(g: Progress, w: World, moves: seq<Move>)
    requires forall a, b :: a in moves && b in moves && a.to == b.to ==> a.from == b.from
    ensures forall m :: m in moves && m.to !in g.matchedAdded ==> m.from in RunMoves(g, w, moves).matchedDeleted
    ensures forall p :: p in RunMoves(g, w, moves).matchedAdded ==>
      p in g.matchedAdded || exists m :: m in moves && m.to == p && m.from in RunMoves(g, w, moves).matchedDeleted
  {
    hide MoveEntity;
    if moves != [] {
      var n := |moves| - 1;
      var front, last := moves[..n], moves[n];
      assert moves == front + [last];
      RunMovesAll(g, w, front);
    }
  }

  lemma {:induction false} RunDeletesPasses(s0: Store, w: World, s: Store, deleted: seq<Path>, gone: set<Path>, come: set<Path>)
    requires Passing(s0, w, s, gone, come, {}) && NoDuplicates(deleted)
    requires forall p :: p in deleted ==> p in s0.paths
    ensures Passing(s0, w, RunDeletes(s, deleted, gone), gone + (set p | p in deleted), come, {})
    ensures RunDeletes(s, deleted, gone).drawn == s.drawn && RunDeletes(s, deleted, gone).entities.Keys == s.entities.Keys
  {
    hide Passing, MarkDeleted;
    var all := set p | p in deleted;
    if deleted == [] {
      assert gone + all == gone;
    } else {
      var n := |deleted| - 1;
      var front, p := deleted[..n], deleted[n];
      assert deleted == front + [p];
      var before := gone + set q | q in front;
      RunDeletesPasses(s0, w, s, front, gone, come);
      assert gone + all == before + {p};
      if p in gone {
        assert before + {p} == before;
      } else {
        assert p in deleted && p !in front;
        DeletePasses(s0, w, RunDeletes(s, front, gone), before, come, p);
      }
    }
  }

  lemma {:induction false} RunAddsPasses(s0: Store, w: World, s: Store, added: seq<Path>, gone: set<Path>, come: set<Path>)
    requires Readable(w) && StillFresh(w, s) && Passing(s0, w, s, gone, come, {}) && NoDuplicates(added)
    requires forall m: nat, n: nat :: m < n ==> w.freshId(m) != w.freshId(n)
    requires forall p :: p in added ==> p in w.managed && p !in s0.paths
    ensures Passing(s0, w, RunAdds(s, w, added, come), gone, come + (set p | p in added), {})
    ensures StillFresh(w, RunAdds(s, w, added, come))
  {
    hide Passing, AddNewEntity, Readable, StillFresh;
    var all := set p | p in added;
    if added == [] {
      assert come + all == come;
    } else {
      var n := |added| - 1;
      var front, p := added[..n], added[n];
      assert added == front + [p];
      var before := come + set q | q in front;
      RunAddsPasses(s0, w, s, front, gone, come);
      assert come + all == before + {p};
      if p in come {
        assert before + {p} == before;
      } else {
        assert p in added && p !in front;
        AddPasses(s0, w, RunAdds(s, w, front, come), gone, before, p);
        AddStaysFresh(RunAdds(s, w, front, come), w, p);
      }
    }
  }

  lemma SkipPasses(s0: Store, w: World, s: Store, gone: set<Path>, come: set<Path>, fixed: set<Path>, p: Path)
    requires Passing(s0, w, s, gone, come, fixed) && p !in s.paths
    ensures Passing(s0, w, s, gone, come, fixed + {p})
  {
  }

  lemma {:induction false} RunUpdatesPasses(s0: Store, w: World, s: Store, modified: seq<Path>, gone: set<Path>, come: set<Path>)
    requires Readable(w) && Passing(s0, w, s, gone, come, {})
    requires forall p :: p in modified ==> p in w.managed
    ensures Passing(s0, w, RunUpdates(s, w, modified), gone, come, set p | p in modified)
  {
    hide Passing, UpdateModifiedEntity, Readable;
    var all := set p | p in modified;
    if modified == [] {
      assert all == {};
    } else {
      var n := |modified| - 1;
      var front, p := modified[..n], modified[n];
      assert modified == front + [p];
      var before := set q | q in front;
      RunUpdatesPasses(s0, w, s, front, gone, come);
      assert all == before + {p};
      var t := RunUpdates(s, w, front);
      if p in t.paths {
        ModifyPasses(s0, w, t, gone, come, before, p);
      } else {
        SkipPasses(s0, w, t, gone, come, before, p);
      }
    }
  }

  // ---------------------------------------------------------------------------
  // The moves are good
  // ---------------------------------------------------------------------------

  lemma {:induction false} ExplicitMovesFrom(s: Store, w: World, renamed: seq<Rename>)
    ensures forall m :: m in ExplicitMoves(s, w, renamed) ==>
      && Rename(m.from, m.to) in renamed && m.from in s.paths && m.entityId == s.paths[m.from] && m.to in w.managed
    ensures forall r :: r in renamed && r.from in s.paths && r.to in w.managed ==>
      Move(s.paths[r.from], r.from, r.to, false) in ExplicitMoves(s, w, renamed)
  {
    if renamed != [] {
      var n := |renamed| - 1;
      assert renamed == renamed[..n] + [renamed[n]];
      ExplicitMovesFrom(s, w, renamed[..n]);
      assert Rename(renamed[n].from, renamed[n].to) == renamed[n];
    }
  }

  /** No two sources are renamed to one target. */
  ghost predicate DistinctTargets(renamed: seq<Rename>) {
    forall q, r :: q in renamed && r in renamed && q.to == r.to ==> q.from == r.from
  }

  /** Without shadows the lookup by path finds the entity bound there. */
  lemma {:induction false} EntityAtFinds(s: Store, ids: seq<Id>, p: Path)
    requires Consistent(s) && NoShadows(s) && p in s.paths && s.paths[p] in ids
    ensures EntityAt(s, ids, p) == Some(s.paths[p])
  {
    if ids[0] in s.entities && s.entities[ids[0]].currentPath == p {
      assert s.entities[ids[0]].status != Deleted;
      assert s.entities[ids[0]].status == Active;
    } else {
      assert Live(s, p);
      EntityAtFinds(s, ids[1..], p);
    }
  }

  /** The lookup by path finds an entity that names the path, bound or not. */
  lemma {:induction false} EntityAtNames(s: Store, ids: seq<Id>, p: Path)
    ensures EntityAt(s, ids, p).Some? ==>
      var id := EntityAt(s, ids, p).value; id in s.entities && s.entities[id].currentPath == p
  {
    if ids != [] {
      EntityAtNames(s, ids[1..], p);
    }
  }

  lemma {:induction false} GoneByHashFrom(s: Store, deleted: seq<Path>)
    ensures forall h :: h in GoneByHash(s, deleted) ==>
      var g := GoneByHash(s, deleted)[h];
      g.from in deleted && EntityAt(s, s.ids, g.from) == Some(g.entityId)
  {
    hide EntityAt;
    if deleted != [] {
      var n := |deleted| - 1;
      assert deleted == deleted[..n] + [deleted[n]];
      GoneByHashFrom(s, deleted[..n]);
    }
  }

  lemma BoundIdListed(s: Store, p: Path)
    requires Consistent(s) && p in s.paths
    ensures s.paths[p] in s.ids
  {
    assert Live(s, p);
  }

  lemma {:induction false} SameHashMovesFrom(w: World, gone: map<Hash, Gone>, added: seq<Path>)
    ensures forall m :: m in SameHashMoves(w, gone, added) ==>
      && m.to in added && m.to in w.files && w.files[m.to] in gone
      && m.entityId == gone[w.files[m.to]].entityId && m.from == gone[w.files[m.to]].from
  {
    if added != [] {
      var n := |added| - 1;
      assert added == added[..n] + [added[n]];
      SameHashMovesFrom(w, gone, added[..n]);
    }
  }

  lemma {:induction false} WithoutIn(list: seq<Path>, out: set<Path>, p: Path)
    ensures p in Without(list, out) <==> p in list && p !in out
  {
    if list != [] {
      var n := |list| - 1;
      assert list == list[..n] + [list[n]];
      WithoutIn(list[..n], out, p);
    }
  }

  /** An inferred move leads from a deleted path, by the first entity that names it, to an added one. */
  lemma InferredFrom(s: Store, w: World, plan: Plan, m: Move)
    requires IsPlan(s, w, plan) && m in InferredMoves(s, w, plan)
    ensures m.from in plan.deleted && m.from in s.paths && m.to in plan.added && m.from !in AfterRenames(s, w).matchedDeleted
    ensures EntityAt(s, s.ids, m.from) == Some(m.entityId)
    ensures m.entityId in s.entities && s.entities[m.entityId].currentPath == m.from
  {
    var g := AfterRenames(s, w);
    var deleted, added := Without(plan.deleted, g.matchedDeleted), Without(plan.added, g.matchedAdded);
    GoneByHashFrom(s, deleted);
    SameHashMovesFrom(w, GoneByHash(s, deleted), added);
    WithoutIn(plan.added, g.matchedAdded, m.to);
    WithoutIn(plan.deleted, g.matchedDeleted, m.from);
    EntityAtNames(s, s.ids, m.from);
  }

  /** Without shadows that is the entity bound there. */
  lemma InferredRightWithoutShadows(s: Store, w: World, plan: Plan)
    requires Consistent(s) && NoShadows(s) && IsPlan(s, w, plan)
    ensures InferredRight(s, w, plan)
  {
    forall m | m in InferredMoves(s, w, plan) ensures m.from in s.paths && m.entityId == s.paths[m.from] {
      InferredFrom(s, w, plan, m);
      BoundIdListed(s, m.from);
      EntityAtFinds(s, s.ids, m.from);
    }
  }

  // ---------------------------------------------------------------------------
  // The whole pass
  // ---------------------------------------------------------------------------

  ghost function GoneAfter(s: Store, w: World, plan: Plan): set<Path> {
    AfterMoves(s, w, plan).matchedDeleted + set p | p in plan.deleted
  }

  ghost function ComeAfter(s: Store, w: World, plan: Plan): set<Path> {
    AfterMoves(s, w, plan).matchedAdded + set p | p in plan.added
  }

  lemma StartPasses(s: Store, w: World)
    requires Consistent(s)
    ensures MovesPass(s, w, Progress(s, {}, {}))
  {
    forall p | p in s.paths ensures Untouched(s, s, p) {
      assert Live(s, p);
    }
  }

  lemma AfterMovesPass(s: Store, w: World, plan: Plan)
    requires Orderly(s, w) && InferredRight(s, w, plan) && NewPathsUnbound(s, w) && IsPlan(s, w, plan)
    ensures MovesPass(s, w, AfterMoves(s, w, plan))
  {
    StartPasses(s, w);
    ExplicitMovesFrom(s, w, w.changes.renamed);
    var moves := ExplicitMoves(s, w, w.changes.renamed);
    forall m | m in moves ensures GoodMove(s, w, m) {
      assert Rename(m.from, m.to) in w.changes.renamed;
    }
    RunMovesPasses(s, w, Progress(s, {}, {}), moves);
    var more := InferredMoves(s, w, plan);
    forall m | m in more ensures GoodMove(s, w, m) {
      InferredFrom(s, w, plan, m);
    }
    RunMovesPasses(s, w, AfterRenames(s, w), more);
  }

  lemma UpdatePasses(s: Store, w: World, plan: Plan)
    requires Orderly(s, w) && InferredRight(s, w, plan) && NewPathsUnbound(s, w) && IsPlan(s, w, plan)
    ensures Passing(s, w, Update(s, w, plan), GoneAfter(s, w, plan), ComeAfter(s, w, plan), set p | p in plan.modified)
  {
    AfterMovesPass(s, w, plan);
    var g := AfterMoves(s, w, plan);
    hide AfterMoves, Passing, Consistent;
    assert forall p :: p in plan.deleted ==> p in s.paths;
    RunDeletesPasses(s, w, g.store, plan.deleted, g.matchedDeleted, g.matchedAdded);
    var deleted := RunDeletes(g.store, plan.deleted, g.matchedDeleted);
    RunAddsPasses(s, w, deleted, plan.added, GoneAfter(s, w, plan), g.matchedAdded);
    var added := RunAdds(deleted, w, plan.added, g.matchedAdded);
    RunUpdatesPasses(s, w, added, plan.modified, GoneAfter(s, w, plan), ComeAfter(s, w, plan));
  }

  /** What is bound in the end: the managed paths, less those that were unbound. */
  lemma BoundAfter(s: Store, w: World, plan: Plan, t: Store, gone: set<Path>, come: set<Path>, fixed: set<Path>, p: Path)
    requires Consistent(s) && IsPlan(s, w, plan) && Passing(s, w, t, gone, come, fixed)
    requires forall q :: q in plan.deleted ==> q in gone
    requires forall q :: q in plan.added ==> q in come
    ensures p in t.paths <==> p in w.managed && !(p in s.paths && p in gone)
  {
    if p in s.paths && p !in gone {
      LiveAtStart(s, p);
    }
  }

  lemma RightAfter(s: Store, w: World, plan: Plan, t: Store, gone: set<Path>, come: set<Path>, fixed: set<Path>, p: Path)
    requires Orderly(s, w) && IsPlan(s, w, plan) && Passing(s, w, t, gone, come, fixed)
    requires forall q :: q in plan.modified ==> q in fixed
    requires p in t.paths && p in w.managed
    ensures HashRight(t, w, p)
  {
    hide Consistent, FreshIds;
    if p !in come && p !in fixed {
      LiveAtStart(s, p);
      assert Untouched(s, t, p);
      assert !OutOfSync(s, w, p);
    }
  }

  /** With new paths unbound, the pass ends in agreement iff it unbinds no managed path. */
  lemma AgreesIffGoneUnmanaged(s: Store, w: World, plan: Plan)
    requires Orderly(s, w) && InferredRight(s, w, plan) && NewPathsUnbound(s, w) && IsPlan(s, w, plan)
    ensures Agrees(Update(s, w, plan), w) <==> forall p :: p in GoneAfter(s, w, plan) && p in s.paths ==> p !in w.managed
  {
    UpdatePasses(s, w, plan);
    assert forall q :: q in plan.deleted ==> q in GoneAfter(s, w, plan);
    assert forall q :: q in plan.added ==> q in ComeAfter(s, w, plan);
    hide Update, GoneAfter, ComeAfter, IsPlan, Orderly, InferredRight, NewPathsUnbound, Agrees, Passing;
    PassingAgrees(s, w, plan, Update(s, w, plan), GoneAfter(s, w, plan), ComeAfter(s, w, plan));
  }

  lemma PassingAgrees(s: Store, w: World, plan: Plan, t: Store, gone: set<Path>, come: set<Path>)
    requires Orderly(s, w) && IsPlan(s, w, plan) && Passing(s, w, t, gone, come, set p | p in plan.modified)
    requires forall q :: q in plan.deleted ==> q in gone
    requires forall q :: q in plan.added ==> q in come
    ensures Agrees(t, w) <==> forall p :: p in gone && p in s.paths ==> p !in w.managed
  {
    var fixed := set p | p in plan.modified;
    assert Consistent(t) && Consistent(s);
    hide IsPlan, Orderly, HashRight, Passing, Consistent;
    forall p ensures p in t.paths <==> p in w.managed && !(p in s.paths && p in gone) {
      BoundAfter(s, w, plan, t, gone, come, fixed, p);
    }
    forall p | p in t.paths ensures HashRight(t, w, p) {
      RightAfter(s, w, plan, t, gone, come, fixed, p);
    }
  }

  lemma LiveAtStart(s: Store, p: Path)
    requires Consistent(s) && p in s.paths
    ensures Live(s, p)
  {
  }

  lemma GoneFrom(s: Store, w: World, plan: Plan, p: Path)
    requires IsPlan(s, w, plan)
    ensures p in GoneAfter(s, w, plan) ==> p in plan.deleted || exists r :: r in w.changes.renamed && r.from == p && r.from in s.paths && r.to in w.managed
    ensures DistinctTargets(w.changes.renamed) ==>
      forall r :: r in w.changes.renamed && r.from in s.paths && r.to in w.managed ==> r.from in GoneAfter(s, w, plan)
  {
    var moves := ExplicitMoves(s, w, w.changes.renamed);
    ExplicitMovesFrom(s, w, w.changes.renamed);
    var start := Progress(s, {}, {});
    var g := AfterRenames(s, w);
    RunMovesMatched(start, w, moves, p);
    var more := InferredMoves(s, w, plan);
    RunMovesMatched(g, w, more, p);
    if p in GoneAfter(s, w, plan) && p !in plan.deleted {
      if p in g.matchedDeleted {
        var m :| m in moves && m.from == p;
        assert Rename(m.from, m.to) in w.changes.renamed;
      } else {
        var m :| m in more && m.from == p;
        InferredFrom(s, w, plan, m);
      }
    }
    if DistinctTargets(w.changes.renamed) {
      forall a, b | a in moves && b in moves && a.to == b.to ensures a.from == b.from {
        assert Rename(a.from, a.to) in w.changes.renamed && Rename(b.from, b.to) in w.changes.renamed;
      }
      RunMovesAll(start, w, moves);
      forall r | r in w.changes.renamed && r.from in s.paths && r.to in w.managed
        ensures r.from in GoneAfter(s, w, plan)
      {
        var m := Move(s.paths[r.from], r.from, r.to, false);
        assert m in moves;
        RunMovesMatched(g, w, more, r.from);
      }
    }
  }

  lemma AgreesWhenInferredRight(s: Store, w: World, plan: Plan)
    requires Orderly(s, w) && InferredRight(s, w, plan) && IsPlan(s, w, plan)
    requires NewPathsUnbound(s, w) && OldPathsUnmanaged(s, w)
    ensures Agrees(Update(s, w, plan), w)
  {
    AgreesIffGoneUnmanaged(s, w, plan);
    forall p | p in GoneAfter(s, w, plan) && p in s.paths ensures p !in w.managed {
      GoneFrom(s, w, plan, p);
    }
  }

  /** One pass makes the indexes agree. */
  lemma UpdateAgrees(s: Store, w: World, plan: Plan)
    requires Ready(s, w) && IsPlan(s, w, plan)
    requires NewPathsUnbound(s, w) && OldPathsUnmanaged(s, w)
    ensures Agrees(Update(s, w, plan), w)
  {
    InferredRightWithoutShadows(s, w, plan);
    AgreesWhenInferredRight(s, w, plan);
  }

  /** A reported deletion or rename source that is still managed always breaks the agreement. */
  lemma AgreesIffOldPathsUnmanaged(s: Store, w: World, plan: Plan)
    requires Orderly(s, w) && InferredRight(s, w, plan) && IsPlan(s, w, plan)
    requires NewPathsUnbound(s, w) && DistinctTargets(w.changes.renamed)
    ensures Agrees(Update(s, w, plan), w) <==> OldPathsUnmanaged(s, w)
  {
    AgreesIffGoneUnmanaged(s, w, plan);
    if OldPathsUnmanaged(s, w) {
      AgreesWhenInferredRight(s, w, plan);
    } else if p :| p in w.changes.deleted && p in s.paths && p in w.managed {
      assert p in plan.deleted;
      assert p in GoneAfter(s, w, plan);
    } else {
      var r :| r in w.changes.renamed && r.from in s.paths && r.to in w.managed && r.from in w.managed;
      GoneFrom(s, w, plan, r.from);
      assert r.from in GoneAfter(s, w, plan);
    }
  }
}
