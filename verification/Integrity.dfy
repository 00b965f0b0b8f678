/** runUpdate of src/integrity/run-update.ts over the loaded indexes. */
module Integrity {
  import opened Text
  import opened Registry
  import opened UpdateAgrees

  function PathKey(p: Path): Str {
    p.dir + [0x2F] + p.name
  }

  lemma {:induction false} DistinctSnoc(list: seq<Path>, p: Path)
    requires NoDuplicates(list) && p !in list
    ensures NoDuplicates(list + [p])
  {
  }

  /** uniqueSorted; the locale's collation is replaced by the order of code units. */
  method UniqueSorted(values: seq<Path>) returns (r: seq<Path>)
    ensures NoDuplicates(r) && forall p :: p in r <==> p in values
  {
    var unique: seq<Path> := [];
    var i := 0;
    while i < |values|
      invariant 0 <= i <= |values|
      invariant NoDuplicates(unique) && forall p :: p in unique <==> p in values[..i]
    {
      if values[i] !in unique {
        DistinctSnoc(unique, values[i]);
        unique := unique + [values[i]];
      }
      assert values[..i + 1] == values[..i] + [values[i]];
      i := i + 1;
    }
    assert values[..i] == values;
    r := SortBy(unique, PathKey);
    SameMembers(r, unique);
  }

  lemma SameMembers(a: seq<Path>, b: seq<Path>)
    requires multiset(a) == multiset(b) && NoDuplicates(b)
    ensures NoDuplicates(a) && forall p :: p in a <==> p in b
  {
    assert forall p :: p in a <==> p in multiset(a);
    assert forall p :: p in b <==> p in multiset(b);
    forall i, j | 0 <= i < j < |a| ensures a[i] != a[j] {
      if a[i] == a[j] {
        assert a == a[..j] + [a[j]] + a[j + 1..];
        assert a[i] in a[..j];
        assert multiset(a[..j])[a[i]] >= 1;
        assert multiset(b)[a[i]] >= 2;
        OnlyOnce(b, a[i]);
      }
    }
  }

  lemma {:induction false} OnlyOnce(b: seq<Path>, p: Path)
    requires NoDuplicates(b)
    ensures multiset(b)[p] <= 1
  {
    if b != [] {
      var n := |b| - 1;
      assert b == b[..n] + [b[n]];
      OnlyOnce(b[..n], p);
    }
  }

  /** The paths of a list that are, or are not, in a set, in order. */
  method Keep(list: seq<Path>, within: set<Path>) returns (r: seq<Path>)
    requires NoDuplicates(list)
    ensures NoDuplicates(r) && forall p :: p in r <==> p in list && p in within
  {
    r := [];
    var i := 0;
    while i < |list|
      invariant 0 <= i <= |list|
      invariant NoDuplicates(r) && forall p :: p in r <==> p in list[..i] && p in within
    {
      if list[i] in within {
        assert list[i] !in list[..i];
        DistinctSnoc(r, list[i]);
        r := r + [list[i]];
      }
      assert list[..i + 1] == list[..i] + [list[i]];
      i := i + 1;
    }
    assert list[..i] == list;
  }

  method Drop(list: seq<Path>, out: set<Path>) returns (r: seq<Path>)
    ensures r == Without(list, out)
  {
    r := [];
    var i := 0;
    while i < |list|
      invariant 0 <= i <= |list|
      invariant r == Without(list[..i], out)
    {
      assert list[..i + 1][..i] == list[..i];
      if list[i] !in out {
        r := r + [list[i]];
      }
      i := i + 1;
    }
    assert list[..i] == list;
  }

  /** detectMoves: index the deleted paths by content hash, then look the added files up. */
  method FindMoves(s: Store, w: World, deletedPaths: seq<Path>, addedPaths: seq<Path>) returns (moves: seq<Move>)
    ensures moves == DetectMoves(s, w, deletedPaths, addedPaths)
  {
    hide EntityAt;
    moves := [];
    if |deletedPaths| == 0 || |addedPaths| == 0 {
      return;
    }
    var deletedByHash: map<Hash, Gone> := map[];
    var i := 0;
    while i < |deletedPaths|
      invariant 0 <= i <= |deletedPaths|
      invariant deletedByHash == GoneByHash(s, deletedPaths[..i])
    {
      var from := deletedPaths[i];
      assert deletedPaths[..i + 1][..i] == deletedPaths[..i];
      var entityId := EntityAt(s, s.ids, from);
      if entityId.Some? && entityId.value in s.entities {
        var hash := s.entities[entityId.value].contentHash;
        if hash != [] {
          deletedByHash := deletedByHash[hash := Gone(entityId.value, from)];
        }
      }
      i := i + 1;
    }
    assert deletedPaths[..i] == deletedPaths;
    var j := 0;
    while j < |addedPaths|
      invariant 0 <= j <= |addedPaths|
      invariant moves == SameHashMoves(w, deletedByHash, addedPaths[..j])
    {
      var to := addedPaths[j];
      assert addedPaths[..j + 1][..j] == addedPaths[..j];
      if to in w.files && w.files[to] != [] && w.files[to] in deletedByHash {
        var gone := deletedByHash[w.files[to]];
        moves := moves + [Move(gone.entityId, gone.from, to, true)];
      }
      j := j + 1;
    }
    assert addedPaths[..j] == addedPaths;
  }

  /** The indexes as runUpdate holds them in memory. */
  class Indexes {
    var entities: map<Id, Entity>
    var ids: seq<Id>
    var paths: map<Path, Id>
    var manifests: Manifests
    var log: seq<LogItem>
    var drawn: nat

    function Now(): Store
      reads this
    {
      Store(entities, ids, paths, manifests, log, drawn)
    }

    constructor (s: Store)
      ensures Now() == s
    {
      entities, ids, paths, manifests, log, drawn := s.entities, s.ids, s.paths, s.manifests, s.log, s.drawn;
    }

    method Move(w: World, m: Move)
      modifies this
      ensures Now() == MoveEntity(old(Now()), w, m)
    {
      if m.entityId !in entities {
        return;
      }
      var entity := entities[m.entityId];
      var oldHash := entity.contentHash;
      var nextHash := if m.to in w.files then w.files[m.to] else oldHash;
      var history := w.history(m.to);
      entity := entity.(currentPath := m.to, status := Active, gitSha := OrElse(history.lastCommitSha, entity.gitSha));
      if nextHash != oldHash {
        entity := entity.(contentHash := nextHash, updatedAt := OrElse(history.updatedAt, w.now), revision := entity.revision + 1);
      }
      entity := entity.(moves := entity.moves + [MoveRecord(m.from, m.to, m.sameHash)]);
      entities := entities[m.entityId := entity];
      paths := paths - {m.from};
      paths := paths[m.to := m.entityId];
      manifests := Remove(manifests, m.from);
      manifests := Upsert(manifests, m.to, RecordOf(m.entityId, entity));
    }

    method Delete(p: Path)
      modifies this
      ensures Now() == MarkDeleted(old(Now()), p)
    {
      if p !in paths || paths[p] !in entities {
        return;
      }
      var entityId := paths[p];
      var entity := entities[entityId];
      entities := entities[entityId := entity.(status := Deleted)];
      paths := paths - {p};
      log := log + [LogItem(entityId, p, entity.revision, entity.contentHash)];
      manifests := Remove(manifests, p);
    }

    /** Fails, like the source, when the file cannot be read. */
    method Add(w: World, p: Path) returns (ok: bool)
      modifies this
      ensures ok <==> p in w.files
      ensures Now() == AddNewEntity(old(Now()), w, p)
    {
      if p !in w.files {
        return false;
      }
      var hash := w.files[p];
      var entityId := w.freshId(drawn);
      drawn := drawn + 1;
      var entity := NewEntity(w, p, hash);
      ids := if entityId in entities then ids else ids + [entityId];
      entities := entities[entityId := entity];
      paths := paths[p := entityId];
      manifests := Upsert(manifests, p, RecordOf(entityId, entity));
      ok := true;
    }

    method Modify(w: World, p: Path) returns (ok: bool)
      modifies this
      ensures !ok ==> p !in w.files
      ensures Now() == UpdateModifiedEntity(old(Now()), w, p)
    {
      if p !in paths || paths[p] !in entities || entities[paths[p]].status != Active {
        return true;
      }
      var entityId := paths[p];
      var entity := entities[entityId];
      if p !in w.files {
        return false;
      }
      var nextHash := w.files[p];
      if nextHash == entity.contentHash {
        return true;
      }
      var history := w.history(p);
      entity := entity.(contentHash := nextHash, updatedAt := OrElse(history.updatedAt, w.now),
                        gitSha := OrElse(history.lastCommitSha, entity.gitSha), revision := entity.revision + 1);
      entities := entities[entityId := entity];
      manifests := Upsert(manifests, p, RecordOf(entityId, entity));
      ok := true;
    }

    /** The loop over moves; a source or a target is used once. */
    method MakeMoves(w: World, moves: seq<Move>, matchedDeleted0: set<Path>, matchedAdded0: set<Path>)
      returns (matchedDeleted: set<Path>, matchedAdded: set<Path>)
      modifies this
      ensures Progress(Now(), matchedDeleted, matchedAdded) == RunMoves(Progress(old(Now()), matchedDeleted0, matchedAdded0), w, moves)
    {
      hide MoveEntity;
      matchedDeleted, matchedAdded := matchedDeleted0, matchedAdded0;
      ghost var start := Progress(Now(), matchedDeleted, matchedAdded);
      var i := 0;
      while i < |moves|
        invariant 0 <= i <= |moves|
        invariant Progress(Now(), matchedDeleted, matchedAdded) == RunMoves(start, w, moves[..i])
      {
        var m := moves[i];
        assert moves[..i + 1][..i] == moves[..i];
        if m.from !in matchedDeleted && m.to !in matchedAdded {
          Move(w, m);
          matchedDeleted := matchedDeleted + {m.from};
          matchedAdded := matchedAdded + {m.to};
        }
        i := i + 1;
      }
      assert moves[..i] == moves;
    }

    method MakeDeletes(deleted: seq<Path>, matched: set<Path>)
      modifies this
      ensures Now() == RunDeletes(old(Now()), deleted, matched)
    {
      hide MarkDeleted;
      ghost var start := Now();
      var i := 0;
      while i < |deleted|
        invariant 0 <= i <= |deleted|
        invariant Now() == RunDeletes(start, deleted[..i], matched)
      {
        assert deleted[..i + 1][..i] == deleted[..i];
        if deleted[i] !in matched {
          Delete(deleted[i]);
        }
        i := i + 1;
      }
      assert deleted[..i] == deleted;
    }

    method MakeAdds(w: World, added: seq<Path>, matched: set<Path>) returns (ok: bool)
      modifies this
      ensures ok ==> Now() == RunAdds(old(Now()), w, added, matched)
      ensures !ok ==> exists p :: p in added && p !in w.files
    {
      hide AddNewEntity;
      ghost var start := Now();
      var i := 0;
      while i < |added|
        invariant 0 <= i <= |added|
        invariant Now() == RunAdds(start, w, added[..i], matched)
      {
        assert added[..i + 1][..i] == added[..i];
        if added[i] !in matched {
          ok := Add(w, added[i]);
          if !ok {
            return;
          }
        }
        i := i + 1;
      }
      assert added[..i] == added;
      ok := true;
    }

    method MakeUpdates(w: World, modified: seq<Path>) returns (ok: bool)
      modifies this
      ensures ok ==> Now() == RunUpdates(old(Now()), w, modified)
      ensures !ok ==> exists p :: p in modified && p !in w.files
    {
      hide UpdateModifiedEntity;
      ghost var start := Now();
      var i := 0;
      while i < |modified|
        invariant 0 <= i <= |modified|
        invariant Now() == RunUpdates(start, w, modified[..i])
      {
        assert modified[..i + 1][..i] == modified[..i];
        if modified[i] in paths {
          ok := Modify(w, modified[i]);
          if !ok {
            return;
          }
        }
        i := i + 1;
      }
      assert modified[..i] == modified;
      ok := true;
    }

    /** findOutOfSyncActivePaths */
    method FindOutOfSync(w: World) returns (r: seq<Path>)
      ensures forall p :: p in r <==> OutOfSync(Now(), w, p)
    {
      r := [];
      var i := 0;
      while i < |w.managed|
        invariant 0 <= i <= |w.managed|
        invariant forall p :: p in r <==> p in w.managed[..i] && OutOfSync(Now(), w, p)
      {
        var p := w.managed[i];
        if OutOfSync(Now(), w, p) {
          r := r + [p];
        }
        assert w.managed[..i + 1] == w.managed[..i] + [p];
        i := i + 1;
      }
      assert w.managed[..i] == w.managed;
    }

    /** The active bound paths that are no longer managed. */
    method FindVanished(w: World) returns (r: seq<Path>)
      ensures forall p :: p in r <==> Live(Now(), p) && p !in w.managed
    {
      r := [];
      var rest := paths.Keys;
      while rest != {}
        invariant rest <= paths.Keys
        invariant forall p :: p in r <==> p in paths && p !in rest && Live(Now(), p) && p !in w.managed
        decreases rest
      {
        var p :| p in rest;
        if Live(Now(), p) && p !in w.managed {
          r := r + [p];
        }
        rest := rest - {p};
      }
    }

    method MakePlan(w: World) returns (plan: Plan)
      ensures IsPlan(Now(), w, plan)
    {
      hide OutOfSync, Live;
      var outOfSync := FindOutOfSync(w);
      var vanished := FindVanished(w);
      var deleted := UniqueSorted(w.changes.deleted + vanished);
      deleted := Keep(deleted, paths.Keys);
      var managedSet := set p | p in w.managed;
      var unbound := Drop(w.managed, paths.Keys);
      forall p ensures p in unbound <==> p in w.managed && p !in paths {
        WithoutIn(w.managed, paths.Keys, p);
      }
      var added := UniqueSorted(w.changes.added + unbound);
      added := Keep(added, managedSet);
      var targets := seq(|w.changes.renamed|, i requires 0 <= i < |w.changes.renamed| => w.changes.renamed[i].to);
      forall p ensures p in targets <==> IsRenameTarget(w, p) {
        if p in targets {
          var i :| 0 <= i < |targets| && targets[i] == p;
          assert w.changes.renamed[i] in w.changes.renamed;
        }
        if IsRenameTarget(w, p) {
          var r :| r in w.changes.renamed && r.to == p;
          var i :| 0 <= i < |w.changes.renamed| && w.changes.renamed[i] == r;
          assert targets[i] == p;
        }
      }
      var modified := UniqueSorted(w.changes.modified + targets + outOfSync);
      modified := Keep(modified, managedSet * paths.Keys);
      plan := Plan(deleted, added, modified);
      PlanRight(Now(), w, plan, vanished, unbound, targets, outOfSync);
    }

    /**
      runUpdate. It fails only when a managed file cannot be read. On a registry in order, with
      new paths unbound and old ones unmanaged, it succeeds and the indexes agree with the files.
     */
    method RunUpdate(w: World) returns (ok: bool)
      modifies this
      ensures ok ==> exists plan :: IsPlan(old(Now()), w, plan) && Now() == Update(old(Now()), w, plan)
      ensures !ok ==> exists p :: p in w.managed && p !in w.files
      ensures Ready(old(Now()), w) && NewPathsUnbound(old(Now()), w) && OldPathsUnmanaged(old(Now()), w) ==> ok && Agrees(Now(), w)
    {
      ghost var start := Now();
      var plan := MakePlan(w);
      ReadableOrNot(start, w, plan);
      PlannedAgrees(start, w, plan);
      hide IsPlan, MoveEntity, MarkDeleted, AddNewEntity, UpdateModifiedEntity, DetectMoves, ExplicitMoves, RunMoves, RunDeletes,
        RunAdds, RunUpdates, Agrees, Ready, NewPathsUnbound, OldPathsUnmanaged;
      var before := Now();
      var explicitMoves := ExplicitMoves(before, w, w.changes.renamed);
      var matchedDeleted, matchedAdded := MakeMoves(w, explicitMoves, {}, {});
      var deletedPaths := Drop(plan.deleted, matchedDeleted);
      var addedPaths := Drop(plan.added, matchedAdded);
      var inferredMoves := FindMoves(before, w, deletedPaths, addedPaths);
      matchedDeleted, matchedAdded := MakeMoves(w, inferredMoves, matchedDeleted, matchedAdded);
      assert Progress(Now(), matchedDeleted, matchedAdded) == AfterMoves(start, w, plan);
      MakeDeletes(plan.deleted, matchedDeleted);
      ok := MakeAdds(w, plan.added, matchedAdded);
      if !ok {
        return;
      }
      ok := MakeUpdates(w, plan.modified);
      if !ok {
        return;
      }
      assert Now() == Update(start, w, plan);
    }
  }

  lemma PlanRight(s: Store, w: World, plan: Plan, vanished: seq<Path>, unbound: seq<Path>, targets: seq<Path>, outOfSync: seq<Path>)
    requires NoDuplicates(plan.deleted) && NoDuplicates(plan.added) && NoDuplicates(plan.modified)
    requires forall p :: p in vanished <==> Live(s, p) && p !in w.managed
    requires forall p :: p in unbound <==> p in w.managed && p !in s.paths
    requires forall p :: p in targets <==> IsRenameTarget(w, p)
    requires forall p :: p in outOfSync <==> OutOfSync(s, w, p)
    requires forall p :: p in plan.deleted <==> p in w.changes.deleted + vanished && p in s.paths.Keys
    requires forall p :: p in plan.added <==> p in w.changes.added + unbound && p in w.managed
    requires forall p :: p in plan.modified <==> p in w.changes.modified + targets + outOfSync && p in w.managed && p in s.paths
    ensures IsPlan(s, w, plan)
  {
    hide NoDuplicates, OutOfSync, IsRenameTarget, Live;
  }

  lemma ReadableOrNot(s: Store, w: World, plan: Plan)
    requires IsPlan(s, w, plan)
    ensures forall p :: p in plan.added || p in plan.modified ==> p in w.managed
    ensures Ready(s, w) ==> forall p :: p in w.managed ==> p in w.files
  {
  }

  lemma PlannedAgrees(s: Store, w: World, plan: Plan)
    requires IsPlan(s, w, plan)
    ensures Ready(s, w) && NewPathsUnbound(s, w) && OldPathsUnmanaged(s, w) ==> Agrees(Update(s, w, plan), w)
  {
    if Ready(s, w) && NewPathsUnbound(s, w) && OldPathsUnmanaged(s, w) {
      UpdateAgrees.UpdateAgrees(s, w, plan);
    }
  }
}
