/** What an update keeps of the past, and the inputs on which its indexes fall apart. */
module UpdateLimits {
  import opened Text
  import opened Registry
  import opened UpdateAgrees

  // ---------------------------------------------------------------------------
  // History is never lost
  // ---------------------------------------------------------------------------

  ghost predicate EntityKept(e: Entity, f: Entity) {
    && f.firstPath == e.firstPath && f.createdAt == e.createdAt
    && e.revision <= f.revision && (f.contentHash != e.contentHash ==> e.revision < f.revision)
    && e.moves <= f.moves
  }

  ghost predicate Kept(s: Store, t: Store) {
    && (forall id :: id in s.entities ==> id in t.entities && EntityKept(s.entities[id], t.entities[id]))
    && s.log <= t.log
    && s.drawn <= t.drawn
  }

  lemma KeptTransitive(s: Store, t: Store, u: Store)
    requires Kept(s, t) && Kept(t, u)
    ensures Kept(s, u)
  {
    forall id | id in s.entities ensures id in u.entities && EntityKept(s.entities[id], u.entities[id]) {
      assert id in t.entities && EntityKept(s.entities[id], t.entities[id]);
      assert EntityKept(t.entities[id], u.entities[id]);
    }
  }

  lemma MoveKeeps(s: Store, w: World, m: Move)
    ensures Kept(s, MoveEntity(s, w, m))
  {
    hide Upsert, Remove;
  }

  lemma DeleteKeeps(s: Store, p: Path)
    ensures Kept(s, MarkDeleted(s, p))
  {
    hide Remove;
  }

  lemma ModifyKeeps(s: Store, w: World, p: Path)
    ensures Kept(s, UpdateModifiedEntity(s, w, p))
  {
    hide Upsert;
  }

  lemma AddKeeps(s: Store, w: World, p: Path)
    requires StillFresh(w, s)
    ensures Kept(s, AddNewEntity(s, w, p))
  {
    hide Upsert;
    assert w.freshId(s.drawn) !in s.entities;
  }

  lemma {:induction false} RunMovesKeep(g: Progress, w: World, moves: seq<Move>)
    ensures Kept(g.store, RunMoves(g, w, moves).store)
  {
    hide MoveEntity, Kept;
    if moves == [] {
      KeptReflexive(g.store);
    } else {
      var n := |moves| - 1;
      RunMovesKeep(g, w, moves[..n]);
      var h := RunMoves(g, w, moves[..n]);
      MoveKeeps(h.store, w, moves[n]);
      if moves[n].from !in h.matchedDeleted && moves[n].to !in h.matchedAdded {
        KeptTransitive(g.store, h.store, MoveEntity(h.store, w, moves[n]));
      }
    }
  }

  lemma KeptReflexive(s: Store)
    ensures Kept(s, s)
  {
  }

  lemma {:induction false} RunDeletesKeep(s: Store, deleted: seq<Path>, matched: set<Path>)
    ensures Kept(s, RunDeletes(s, deleted, matched))
  {
    hide MarkDeleted, Kept;
    if deleted == [] {
      KeptReflexive(s);
    } else {
      var n := |deleted| - 1;
      RunDeletesKeep(s, deleted[..n], matched);
      var t := RunDeletes(s, deleted[..n], matched);
      DeleteKeeps(t, deleted[n]);
      if deleted[n] !in matched {
        KeptTransitive(s, t, MarkDeleted(t, deleted[n]));
      }
    }
  }

  lemma {:induction false} RunAddsKeep(s: Store, w: World, added: seq<Path>, matched: set<Path>)
    requires StillFresh(w, s) && forall m: nat, n: nat :: m < n ==> w.freshId(m) != w.freshId(n)
    ensures Kept(s, RunAdds(s, w, added, matched)) && StillFresh(w, RunAdds(s, w, added, matched))
  {
    hide AddNewEntity, Kept, StillFresh;
    if added == [] {
      KeptReflexive(s);
    } else {
      var n := |added| - 1;
      RunAddsKeep(s, w, added[..n], matched);
      var t := RunAdds(s, w, added[..n], matched);
      AddKeeps(t, w, added[n]);
      if added[n] !in matched {
        AddStaysFresh(t, w, added[n]);
        KeptTransitive(s, t, AddNewEntity(t, w, added[n]));
      }
    }
  }

  lemma {:induction false} RunUpdatesKeep(s: Store, w: World, modified: seq<Path>)
    ensures Kept(s, RunUpdates(s, w, modified))
  {
    hide UpdateModifiedEntity, Kept;
    if modified == [] {
      KeptReflexive(s);
    } else {
      var n := |modified| - 1;
      RunUpdatesKeep(s, w, modified[..n]);
      var t := RunUpdates(s, w, modified[..n]);
      ModifyKeeps(t, w, modified[n]);
      if modified[n] in t.paths {
        KeptTransitive(s, t, UpdateModifiedEntity(t, w, modified[n]));
      }
    }
  }

  lemma {:induction false} RunMovesDraw(g: Progress, w: World, moves: seq<Move>)
    ensures RunMoves(g, w, moves).store.drawn == g.store.drawn
    ensures RunMoves(g, w, moves).store.entities.Keys == g.store.entities.Keys
  {
    hide MovedEntity, Upsert, Remove;
    if moves != [] {
      RunMovesDraw(g, w, moves[..|moves| - 1]);
    }
  }

  lemma {:induction false} RunDeletesDraw(s: Store, deleted: seq<Path>, matched: set<Path>)
    ensures RunDeletes(s, deleted, matched).drawn == s.drawn
    ensures RunDeletes(s, deleted, matched).entities.Keys == s.entities.Keys
  {
    hide Remove;
    if deleted != [] {
      RunDeletesDraw(s, deleted[..|deleted| - 1], matched);
    }
  }

  lemma AfterMovesDraw(s: Store, w: World, plan: Plan)
    ensures AfterMoves(s, w, plan).store.drawn == s.drawn
    ensures AfterMoves(s, w, plan).store.entities.Keys == s.entities.Keys
    ensures Kept(s, AfterMoves(s, w, plan).store)
  {
    var start := Progress(s, {}, {});
    var moves := ExplicitMoves(s, w, w.changes.renamed);
    RunMovesDraw(start, w, moves);
    RunMovesKeep(start, w, moves);
    var g := AfterRenames(s, w);
    var more := InferredMoves(s, w, plan);
    RunMovesDraw(g, w, more);
    RunMovesKeep(g, w, more);
    KeptTransitive(s, g.store, RunMoves(g, w, more).store);
  }

  /** Whatever the world reports, an update forgets no entity, revision, move or log line. */
  lemma UpdateKeepsHistory(s: Store, w: World, plan: Plan)
    requires FreshIds(s, w)
    ensures Kept(s, Update(s, w, plan))
  {
    AfterMovesDraw(s, w, plan);
    var g := AfterMoves(s, w, plan);
    hide AfterMoves, Kept;
    RunDeletesKeep(g.store, plan.deleted, g.matchedDeleted);
    RunDeletesDraw(g.store, plan.deleted, g.matchedDeleted);
    var deleted := RunDeletes(g.store, plan.deleted, g.matchedDeleted);
    RunAddsKeep(deleted, w, plan.added, g.matchedAdded);
    var added := RunAdds(deleted, w, plan.added, g.matchedAdded);
    RunUpdatesKeep(added, w, plan.modified);
    KeptTransitive(s, g.store, deleted);
    KeptTransitive(s, deleted, added);
    KeptTransitive(s, added, Update(s, w, plan));
  }

  // ---------------------------------------------------------------------------
  // Entities that lose their path
  // ---------------------------------------------------------------------------

  /** Entity id still claims p; once p is rebound or unbound, it is bound nowhere. */
  ghost predicate Claims(s: Store, p: Path, id: Id, lost: bool) {
    && id in s.entities && s.entities[id].status == Active && s.entities[id].currentPath == p
    && (forall q :: q in s.paths && s.paths[q] == id ==> q == p && !lost)
  }

  lemma MoveClaims(s: Store, w: World, m: Move, p: Path, id: Id, lost: bool)
    requires Claims(s, p, id, lost) && m.entityId != id && m.entityId in s.entities
    ensures Claims(MoveEntity(s, w, m), p, id, lost || m.to == p || m.from == p)
  {
    hide MovedEntity, Upsert, Remove;
  }

  lemma DeleteClaims(s: Store, q: Path, p: Path, id: Id, lost: bool)
    requires Claims(s, p, id, lost) && (q == p ==> lost)
    ensures Claims(MarkDeleted(s, q), p, id, lost)
  {
    hide Remove;
  }

  lemma AddClaims(s: Store, w: World, q: Path, p: Path, id: Id, lost: bool)
    requires Claims(s, p, id, lost) && q in w.files && w.freshId(s.drawn) != id
    ensures Claims(AddNewEntity(s, w, q), p, id, lost || q == p)
  {
    hide Upsert;
  }

  lemma ModifyClaims(s: Store, w: World, q: Path, p: Path, id: Id, lost: bool)
    requires Claims(s, p, id, lost)
    ensures Claims(UpdateModifiedEntity(s, w, q), p, id, lost)
  {
    hide Upsert;
  }

  ghost predicate Matched(g: Progress, p: Path) {
    p in g.matchedAdded || p in g.matchedDeleted
  }

  /** Moves of other entities away from p or to p cost id its binding. */
  lemma {:induction false} RunMovesClaims(g: Progress, w: World, moves: seq<Move>, p: Path, id: Id)
    requires Claims(g.store, p, id, Matched(g, p))
    requires forall m :: m in moves ==>
      m.entityId in g.store.entities && (m.entityId == id ==> m.from == p && p !in RunMoves(g, w, moves).matchedDeleted)
    ensures Claims(RunMoves(g, w, moves).store, p, id, Matched(RunMoves(g, w, moves), p))
  {
    hide MoveEntity, Claims;
    if moves != [] {
      var n := |moves| - 1;
      assert moves[n] in moves;
      RunMovesClaims(g, w, moves[..n], p, id);
      RunMovesDraw(g, w, moves[..n]);
      var h := RunMoves(g, w, moves[..n]);
      if moves[n].from !in h.matchedDeleted && moves[n].to !in h.matchedAdded {
        MoveClaims(h.store, w, moves[n], p, id, Matched(h, p));
      }
    }
  }

  lemma {:induction false} RunDeletesClaims(s: Store, deleted: seq<Path>, matched: set<Path>, p: Path, id: Id, lost: bool)
    requires Claims(s, p, id, lost) && (p in deleted ==> lost)
    ensures Claims(RunDeletes(s, deleted, matched), p, id, lost)
  {
    hide MarkDeleted, Claims;
    if deleted != [] {
      var n := |deleted| - 1;
      RunDeletesClaims(s, deleted[..n], matched, p, id, lost);
      DeleteClaims(RunDeletes(s, deleted[..n], matched), deleted[n], p, id, lost);
    }
  }

  lemma {:induction false} RunAddsClaims(s: Store, w: World, added: seq<Path>, matched: set<Path>, p: Path, id: Id, lost: bool)
    requires Claims(s, p, id, lost) && forall q :: q in added ==> q in w.files
    requires forall n: nat :: s.drawn <= n ==> w.freshId(n) != id
    ensures Claims(RunAdds(s, w, added, matched), p, id, lost || (p in added && p !in matched))
    ensures s.drawn <= RunAdds(s, w, added, matched).drawn
  {
    hide Upsert, Claims, NewEntity;
    if added != [] {
      var n := |added| - 1;
      assert added == added[..n] + [added[n]];
      RunAddsClaims(s, w, added[..n], matched, p, id, lost);
      var t := RunAdds(s, w, added[..n], matched);
      if added[n] !in matched {
        assert added[n] in added;
        AddClaims(t, w, added[n], p, id, lost || (p in added[..n] && p !in matched));
      }
    }
  }

  lemma {:induction false} RunUpdatesClaims(s: Store, w: World, modified: seq<Path>, p: Path, id: Id, lost: bool)
    requires Claims(s, p, id, lost)
    ensures Claims(RunUpdates(s, w, modified), p, id, lost)
  {
    hide UpdateModifiedEntity, Claims;
    if modified != [] {
      var n := |modified| - 1;
      RunUpdatesClaims(s, w, modified[..n], p, id, lost);
      ModifyClaims(RunUpdates(s, w, modified[..n]), w, modified[n], p, id, lost);
    }
  }

  /** No move takes the entity bound to p away from it. */
  ghost predicate NeverTaken(s: Store, w: World, plan: Plan, p: Path) {
    && p in s.paths && p !in AfterRenames(s, w).matchedDeleted
    && forall m :: m in InferredMoves(s, w, plan) && m.from == p ==> m.entityId != s.paths[p]
  }

  lemma AfterMovesClaims(s: Store, w: World, plan: Plan, p: Path)
    requires Consistent(s) && IsPlan(s, w, plan) && NeverTaken(s, w, plan, p)
    ensures Claims(AfterMoves(s, w, plan).store, p, s.paths[p], Matched(AfterMoves(s, w, plan), p))
  {
    var id := s.paths[p];
    LiveAtStart(s, p);
    assert Claims(s, p, id, false);
    var start, g := Progress(s, {}, {}), AfterRenames(s, w);
    var moves, more := ExplicitMoves(s, w, w.changes.renamed), InferredMoves(s, w, plan);
    ExplicitMovesFrom(s, w, w.changes.renamed);
    forall m | m in moves ensures m.entityId in s.entities && (m.entityId == id ==> m.from == p) {
      LiveAtStart(s, m.from);
    }
    forall m | m in more ensures m.entityId in s.entities && m.entityId != id {
      InferredFrom(s, w, plan, m);
    }
    hide Claims, Consistent, IsPlan;
    RunMovesClaims(start, w, moves, p, id);
    RunMovesDraw(start, w, moves);
    RunMovesClaims(g, w, more, p, id);
  }

  /** An entity that has lost its path by then, or loses it to a new entity, ends up active and unbound. */
  lemma ClaimBreaks(s: Store, w: World, plan: Plan, p: Path)
    requires Orderly(s, w) && IsPlan(s, w, plan) && NeverTaken(s, w, plan, p)
    requires p in plan.added || Matched(AfterMoves(s, w, plan), p)
    requires p in plan.deleted ==> Matched(AfterMoves(s, w, plan), p)
    ensures !EntitiesBound(Update(s, w, plan)) && !Agrees(Update(s, w, plan), w)
  {
    var id := s.paths[p];
    LiveAtStart(s, p);
    AfterMovesClaims(s, w, plan, p);
    AfterMovesDraw(s, w, plan);
    var g := AfterMoves(s, w, plan);
    assert forall q :: q in plan.added ==> q in w.files;
    hide AfterMoves, Claims, Orderly, IsPlan;
    var lost := Matched(g, p);
    RunDeletesClaims(g.store, plan.deleted, g.matchedDeleted, p, id, lost);
    RunDeletesDraw(g.store, plan.deleted, g.matchedDeleted);
    var deleted := RunDeletes(g.store, plan.deleted, g.matchedDeleted);
    NeverDrawn(s, w, id);
    RunAddsClaims(deleted, w, plan.added, g.matchedAdded, p, id, lost);
    var added := RunAdds(deleted, w, plan.added, g.matchedAdded);
    RunUpdatesClaims(added, w, plan.modified, p, id, true);
    LostIsUnbound(Update(s, w, plan), p, id);
  }

  lemma NeverDrawn(s: Store, w: World, id: Id)
    requires Orderly(s, w) && id in s.entities
    ensures forall n: nat :: s.drawn <= n ==> w.freshId(n) != id
  {
  }

  lemma LostIsUnbound(t: Store, p: Path, id: Id)
    requires Claims(t, p, id, true)
    ensures !EntitiesBound(t)
  {
  }

  // ---------------------------------------------------------------------------
  // Bound paths reported as new
  // ---------------------------------------------------------------------------

  /** p is bound and managed, and is reported neither as deleted nor as the source of a rename. */
  ghost predicate StaysPut(s: Store, w: World, p: Path) {
    && p in s.paths && p in w.managed && p !in w.changes.deleted
    && (forall r :: r in w.changes.renamed && r.from in s.paths && r.to in w.managed ==> r.from != p)
  }

  lemma StayingIsNotTaken(s: Store, w: World, plan: Plan, p: Path)
    requires IsPlan(s, w, plan) && StaysPut(s, w, p)
    ensures NeverTaken(s, w, plan, p) && p !in plan.deleted
  {
    ExplicitMovesFrom(s, w, w.changes.renamed);
    RunMovesMatched(Progress(s, {}, {}), w, ExplicitMoves(s, w, w.changes.renamed), p);
    forall m | m in ExplicitMoves(s, w, w.changes.renamed) ensures m.from != p {
      assert Rename(m.from, m.to) in w.changes.renamed;
    }
    forall m | m in InferredMoves(s, w, plan) ensures m.from != p {
      InferredFrom(s, w, plan, m);
    }
  }

  /** A bound path that is reported as added again leaves two active entities claiming it. */
  lemma AddedAgainBreaks(s: Store, w: World, plan: Plan, p: Path)
    requires Orderly(s, w) && IsPlan(s, w, plan) && StaysPut(s, w, p) && p in w.changes.added
    ensures !EntitiesBound(Update(s, w, plan)) && !Agrees(Update(s, w, plan), w)
  {
    StayingIsNotTaken(s, w, plan, p);
    ClaimBreaks(s, w, plan, p);
  }

  /** No source is renamed to two targets. */
  ghost predicate DistinctSources(renamed: seq<Rename>) {
    forall q, r :: q in renamed && r in renamed && q.from == r.from ==> q.to == r.to
  }

  /** Moves whose sources tell their targets apart reach every target. */
  lemma {:induction false} RunMovesReach(g: Progress, w: World, moves: seq<Move>)
    requires forall a, b :: a in moves && b in moves && a.from == b.from ==> a.to == b.to
    ensures forall m :: m in moves && m.from !in g.matchedDeleted ==> m.to in RunMoves(g, w, moves).matchedAdded
    ensures forall p :: p in RunMoves(g, w, moves).matchedDeleted ==>
      p in g.matchedDeleted || exists m :: m in moves && m.from == p && m.to in RunMoves(g, w, moves).matchedAdded
  {
    hide MoveEntity;
    if moves != [] {
      var n := |moves| - 1;
      var front, last := moves[..n], moves[n];
      assert moves == front + [last];
      RunMovesReach(g, w, front);
    }
  }

  lemma {:induction false} RunMovesAddedGrows(g: Progress, w: World, moves: seq<Move>)
    ensures g.matchedAdded <= RunMoves(g, w, moves).matchedAdded
  {
    hide MoveEntity;
    if moves != [] {
      RunMovesAddedGrows(g, w, moves[..|moves| - 1]);
    }
  }

  /** A file renamed onto a bound path takes the path from the entity bound there. */
  lemma RenamedOntoBreaks(s: Store, w: World, plan: Plan, r: Rename)
    requires Orderly(s, w) && IsPlan(s, w, plan) && DistinctSources(w.changes.renamed)
    requires r in w.changes.renamed && r.from in s.paths && StaysPut(s, w, r.to)
    ensures !EntitiesBound(Update(s, w, plan)) && !Agrees(Update(s, w, plan), w)
  {
    StayingIsNotTaken(s, w, plan, r.to);
    var moves := ExplicitMoves(s, w, w.changes.renamed);
    ExplicitMovesFrom(s, w, w.changes.renamed);
    forall a, b | a in moves && b in moves && a.from == b.from ensures a.to == b.to {
      assert Rename(a.from, a.to) in w.changes.renamed && Rename(b.from, b.to) in w.changes.renamed;
    }
    RunMovesReach(Progress(s, {}, {}), w, moves);
    assert Move(s.paths[r.from], r.from, r.to, false) in moves;
    RunMovesAddedGrows(AfterRenames(s, w), w, InferredMoves(s, w, plan));
    ClaimBreaks(s, w, plan, r.to);
  }

  /** An inferred move that takes along another entity leaves the one that was bound active and unbound. */
  lemma WrongMoveBreaks(s: Store, w: World, plan: Plan, m: Move)
    requires Orderly(s, w) && IsPlan(s, w, plan)
    requires m in InferredMoves(s, w, plan) && m.from in s.paths && m.entityId != s.paths[m.from]
    ensures !EntitiesBound(Update(s, w, plan)) && !Agrees(Update(s, w, plan), w)
  {
    InferredFrom(s, w, plan, m);
    var g, more := AfterRenames(s, w), InferredMoves(s, w, plan);
    forall n | n in more && n.from == m.from ensures n.entityId != s.paths[m.from] {
      InferredFrom(s, w, plan, n);
    }
    InferredTargets(s, w, plan);
    RunMovesAll(g, w, more);
    ClaimBreaks(s, w, plan, m.from);
  }

  lemma InferredTargets(s: Store, w: World, plan: Plan)
    ensures forall a, b :: a in InferredMoves(s, w, plan) && b in InferredMoves(s, w, plan) && a.to == b.to ==> a.from == b.from
    ensures forall m :: m in InferredMoves(s, w, plan) ==> m.to !in AfterRenames(s, w).matchedAdded
  {
    var g := AfterRenames(s, w);
    var deleted, added := Without(plan.deleted, g.matchedDeleted), Without(plan.added, g.matchedAdded);
    SameHashMovesFrom(w, GoneByHash(s, deleted), added);
    forall p | p in added ensures p !in g.matchedAdded {
      WithoutIn(plan.added, g.matchedAdded, p);
    }
  }

  // ---------------------------------------------------------------------------
  // Exactly when a pass ends in agreement
  // ---------------------------------------------------------------------------

  /**
    Given that reported deletions and rename sources are unmanaged, one pass makes the indexes
    agree iff no managed path reported as added and no rename target is bound already, and every
    inferred move takes along the entity bound where it starts.
   */
  lemma AgreesIff(s: Store, w: World, plan: Plan)
    requires Orderly(s, w) && IsPlan(s, w, plan) && OldPathsUnmanaged(s, w) && DistinctSources(w.changes.renamed)
    ensures Agrees(Update(s, w, plan), w) <==> NewPathsUnbound(s, w) && InferredRight(s, w, plan)
  {
    if p :| p in w.changes.added && p in w.managed && p in s.paths {
      AddedAgainBreaks(s, w, plan, p);
    } else if r :| r in w.changes.renamed && r.from in s.paths && r.to in w.managed && r.to in s.paths {
      RenamedOntoBreaks(s, w, plan, r);
    } else {
      AgreesIffInferredRight(s, w, plan);
    }
  }

  /** With new paths unbound, it is the inferred moves that decide, however the renames are made up. */
  lemma AgreesIffInferredRight(s: Store, w: World, plan: Plan)
    requires Orderly(s, w) && IsPlan(s, w, plan) && OldPathsUnmanaged(s, w) && NewPathsUnbound(s, w)
    ensures Agrees(Update(s, w, plan), w) <==> InferredRight(s, w, plan)
  {
    if InferredRight(s, w, plan) {
      AgreesWhenInferredRight(s, w, plan);
    } else {
      var m :| m in InferredMoves(s, w, plan) && !(m.from in s.paths && m.entityId == s.paths[m.from]);
      InferredFrom(s, w, plan, m);
      WrongMoveBreaks(s, w, plan, m);
    }
  }

  /** Without shadows and with rename targets unbound, it is the paths reported as added. */
  lemma AgreesIffAddedUnbound(s: Store, w: World, plan: Plan)
    requires Ready(s, w) && IsPlan(s, w, plan) && OldPathsUnmanaged(s, w)
    requires forall r :: r in w.changes.renamed && r.from in s.paths && r.to in w.managed ==> r.to !in s.paths
    ensures Agrees(Update(s, w, plan), w) <==> forall p :: p in w.changes.added && p in w.managed ==> p !in s.paths
  {
    if p :| p in w.changes.added && p in w.managed && p in s.paths {
      AddedAgainBreaks(s, w, plan, p);
    } else {
      UpdateAgrees.UpdateAgrees(s, w, plan);
    }
  }

  /** Without shadows and with added paths unbound, it is the targets of renames. */
  lemma AgreesIffTargetsUnbound(s: Store, w: World, plan: Plan)
    requires Ready(s, w) && IsPlan(s, w, plan) && OldPathsUnmanaged(s, w) && DistinctSources(w.changes.renamed)
    requires forall p :: p in w.changes.added && p in w.managed ==> p !in s.paths
    ensures Agrees(Update(s, w, plan), w)
       <==> forall r :: r in w.changes.renamed && r.from in s.paths && r.to in w.managed ==> r.to !in s.paths
  {
    InferredRightWithoutShadows(s, w, plan);
    AgreesIff(s, w, plan);
  }

  // ---------------------------------------------------------------------------
  // Without moves
  // ---------------------------------------------------------------------------

  lemma {:induction false} RunAddsBind(s: Store, w: World, added: seq<Path>, matched: set<Path>, p: Path)
    requires p !in s.paths && p !in added
    ensures p !in RunAdds(s, w, added, matched).paths
  {
    if added != [] {
      RunAddsBind(s, w, added[..|added| - 1], matched, p);
    }
  }

  lemma {:induction false} RunUpdatesBind(s: Store, w: World, modified: seq<Path>)
    ensures RunUpdates(s, w, modified).paths == s.paths
  {
    if modified != [] {
      RunUpdatesBind(s, w, modified[..|modified| - 1]);
    }
  }

  lemma NoMoves(s: Store, w: World, plan: Plan)
    requires w.changes.renamed == [] && InferredMoves(s, w, plan) == []
    ensures AfterMoves(s, w, plan) == Progress(s, {}, {})
  {
    assert ExplicitMoves(s, w, []) == [];
    hide InferredMoves;
  }

  lemma FreshAtStart(s: Store, w: World)
    requires FreshIds(s, w)
    ensures StillFresh(w, s)
    ensures forall t: Store :: t.drawn == s.drawn && t.entities.Keys == s.entities.Keys ==> StillFresh(w, t)
  {
  }

  /** After the deletions, with the paths that are to be added free. */
  lemma AddsAfterDeletes(s: Store, w: World, plan: Plan, d: Store, gone: set<Path>)
    requires Orderly(s, w) && IsPlan(s, w, plan) && Passing(s, w, d, gone, {}, {}) && StillFresh(w, d)
    requires gone == set p | p in plan.deleted
    requires forall p :: p in plan.added ==> p !in d.paths
    ensures Passing(d, w, RunUpdates(RunAdds(d, w, plan.added, {}), w, plan.modified), {}, set p | p in plan.added, set p | p in plan.modified)
  {
    hide Passing, RunAdds, RunUpdates;
    var come := set p | p in plan.added;
    assert Consistent(d) by { PassingConsistent(s, w, d, gone); }
    StartPasses(d, w);
    assert {} + come == come;
    RunAddsPasses(d, w, d, plan.added, {}, {});
    RunUpdatesPasses(d, w, RunAdds(d, w, plan.added, {}), plan.modified, {}, come);
  }

  lemma PassingConsistent(s: Store, w: World, d: Store, gone: set<Path>)
    requires Passing(s, w, d, gone, {}, {})
    ensures Consistent(d) && forall p :: p in d.paths <==> p in s.paths && p !in gone
    ensures forall p :: p in d.paths ==> Untouched(s, d, p)
  {
  }

  /** What is bound in the end has the hash of its file. */
  lemma RightWithoutMoves(s: Store, w: World, plan: Plan, d: Store, t: Store, gone: set<Path>, p: Path)
    requires Orderly(s, w) && IsPlan(s, w, plan) && Passing(s, w, d, gone, {}, {})
    requires Passing(d, w, t, {}, set q | q in plan.added, set q | q in plan.modified)
    requires p in t.paths && p in w.managed
    ensures HashRight(t, w, p)
  {
    PassingConsistent(s, w, d, gone);
    if p !in plan.added && p !in plan.modified {
      LiveAtStart(s, p);
      assert Untouched(d, t, p) && Untouched(s, d, p);
      assert !OutOfSync(s, w, p);
    }
    hide Consistent, FreshIds;
  }

  /** The deletions, then the additions and updates of what they have left. */
  lemma AgreesAfterDeletes(s: Store, w: World, plan: Plan, d: Store, t: Store, gone: set<Path>)
    requires Orderly(s, w) && IsPlan(s, w, plan) && Passing(s, w, d, gone, {}, {})
    requires gone == set p | p in plan.deleted
    requires Passing(d, w, t, {}, set q | q in plan.added, set q | q in plan.modified)
    requires forall p :: p in s.paths && p in w.managed ==> (p in w.changes.added <==> p in w.changes.deleted)
    ensures Agrees(t, w)
  {
    PassingConsistent(s, w, d, gone);
    forall p ensures p in t.paths <==> p in w.managed {
      if p in d.paths {
        LiveAtStart(s, p);
      }
    }
    forall p | p in t.paths ensures HashRight(t, w, p) {
      RightWithoutMoves(s, w, plan, d, t, gone, p);
    }
    assert Consistent(t);
    hide Consistent, Passing;
  }

  /**
    Without renames and inferred moves, whatever is reported: one pass makes the indexes agree iff
    each bound and managed path is reported as added exactly when it is reported as deleted.
   */
  lemma AgreesWithoutMovesIff(s: Store, w: World, plan: Plan)
    requires Orderly(s, w) && IsPlan(s, w, plan)
    requires w.changes.renamed == [] && InferredMoves(s, w, plan) == []
    ensures Agrees(Update(s, w, plan), w)
       <==> forall p :: p in s.paths && p in w.managed ==> (p in w.changes.added <==> p in w.changes.deleted)
  {
    hide Passing, Consistent, RunDeletes, RunAdds, RunUpdates, AfterMoves, FreshIds, Readable;
    NoMoves(s, w, plan);
    StartPasses(s, w);
    FreshAtStart(s, w);
    var gone := set p | p in plan.deleted;
    assert {} + gone == gone;
    RunDeletesPasses(s, w, s, plan.deleted, {}, {});
    var d := RunDeletes(s, plan.deleted, {});
    PassingConsistent(s, w, d, gone);
    var a := RunAdds(d, w, plan.added, {});
    var t := RunUpdates(a, w, plan.modified);
    if p :| p in s.paths && p in w.managed && p in w.changes.added && p !in w.changes.deleted {
      AddedAgainBreaks(s, w, plan, p);
    } else if p :| p in s.paths && p in w.managed && p !in w.changes.added && p in w.changes.deleted {
      RunAddsBind(d, w, plan.added, {}, p);
      RunUpdatesBind(a, w, plan.modified);
      assert p !in t.paths;
    } else {
      AddsAfterDeletes(s, w, plan, d, gone);
      AgreesAfterDeletes(s, w, plan, d, t, gone);
    }
  }

  /** Updating again while a new file is still reported as added undoes the agreement just reached. */
  lemma SecondPassBreaks(s: Store, w: World, plan: Plan, p: Path)
    requires Agrees(s, w) && Readable(w) && FreshIds(s, w) && IsPlan(s, w, plan)
    requires p in w.changes.added && p in w.managed
    requires p !in w.changes.deleted && forall r :: r in w.changes.renamed && r.to in w.managed ==> r.from != p
    ensures !Agrees(Update(s, w, plan), w)
  {
    AddedAgainBreaks(s, w, plan, p);
  }

  // ---------------------------------------------------------------------------
  // Shadows
  // ---------------------------------------------------------------------------

  /** Deleting a path and adding it again leaves a retired entity that still names it. */
  lemma ReaddedPathIsShadowed(s: Store, w: World, p: Path)
    requires Consistent(s) && StillFresh(w, s) && p in s.paths && p in w.files
    ensures !NoShadows(AddNewEntity(MarkDeleted(s, p), w, p))
  {
    hide Upsert, Remove, NewEntity;
    LiveAtStart(s, p);
    var id := s.paths[p];
    assert w.freshId(s.drawn) !in s.entities;
    var t := AddNewEntity(MarkDeleted(s, p), w, p);
    assert id in t.entities && t.entities[id].status == Deleted && t.entities[id].currentPath == p && p in t.paths;
  }

  /**
    The lookup by path then finds the retired entity: moving the file to q revives it there
    and leaves the entity that was bound to p active but unbound.
   */
  lemma ShadowRevived(s: Store, w: World, p: Path, q: Path, retired: Id)
    requires Consistent(s) && p in s.paths && p != q
    requires EntityAt(s, s.ids, p) == Some(retired) && retired in s.entities && s.entities[retired].status == Deleted
    requires w.managed == [q] && w.changes == Changes([], [], [], []) && q in w.files
    requires w.files[q] == s.entities[retired].contentHash != []
    ensures !EntitiesBound(Update(s, w, Plan([p], [q], [])))
  {
    LiveAtStart(s, p);
    ShadowMove(s, w, p, q, retired);
    var m := Registry.Move.Move(retired, p, q, true);
    SingleRun(s, w, p, q, m);
    hide Update, MovedEntity, Upsert, Remove;
    var t := MoveEntity(s, w, m);
    var id := s.paths[p];
    assert id in t.entities && t.entities[id].status == Active && t.entities[id].currentPath == p && p !in t.paths;
  }

  /** The move inferred for the one deleted and the one added path. */
  lemma ShadowMove(s: Store, w: World, p: Path, q: Path, id: Id)
    requires EntityAt(s, s.ids, p) == Some(id) && id in s.entities
    requires q in w.files && w.files[q] == s.entities[id].contentHash != []
    ensures DetectMoves(s, w, [p], [q]) == [Registry.Move.Move(id, p, q, true)]
  {
    hide EntityAt;
    assert [p][..0] == [] && [q][..0] == [];
    assert GoneByHash(s, []) == map[];
    assert GoneByHash(s, [p]) == map[w.files[q] := Gone(id, p)];
    assert SameHashMoves(w, GoneByHash(s, [p]), []) == [];
  }

  /** A pass with one inferred move and nothing else is that move. */
  lemma SingleRun(s: Store, w: World, p: Path, q: Path, m: Move)
    requires w.changes.renamed == [] && m.from == p && m.to == q
    requires DetectMoves(s, w, [p], [q]) == [m]
    ensures Update(s, w, Plan([p], [q], [])) == MoveEntity(s, w, m)
  {
    var start := Progress(s, {}, {});
    WithoutNone(p);
    WithoutNone(q);
    RunMovesOne(start, w, m);
    var t := MoveEntity(s, w, m);
    MatchedSkipped(t, w, p, q);
    assert RunMoves(start, w, []) == start;
    hide MoveEntity, DetectMoves, RunMoves, RunDeletes, RunAdds, Without;
    assert AfterMoves(s, w, Plan([p], [q], [])) == Progress(t, {p}, {q});
  }

  lemma WithoutNone(p: Path)
    ensures Without([p], {}) == [p]
  {
    var one := [p];
    assert Without(one[..0], {}) == [];
  }

  lemma RunMovesOne(start: Progress, w: World, m: Move)
    requires start.matchedDeleted == {} && start.matchedAdded == {}
    ensures RunMoves(start, w, [m]) == Progress(MoveEntity(start.store, w, m), {m.from}, {m.to})
  {
    hide MoveEntity;
    var one := [m];
    assert RunMoves(start, w, one[..0]) == start;
  }

  lemma MatchedSkipped(t: Store, w: World, p: Path, q: Path)
    ensures RunDeletes(t, [p], {p}) == t && RunAdds(t, w, [q], {q}) == t
  {
    hide MarkDeleted, AddNewEntity;
    var one, two := [p], [q];
    assert RunDeletes(t, one[..0], {p}) == t && RunAdds(t, w, two[..0], {q}) == t;
  }
}
