/** What each step of an integrity update writes, field by field, and which moves it makes. */
module UpdateRules {
  import opened Text
  import opened Registry
  import opened Listing
  import M = Manifests

  // ---------------------------------------------------------------------------
  // The steps
  // ---------------------------------------------------------------------------

  /** What the manifest of a directory holds of an entity. */
  ghost predicate Mirrors(r: Record, id: Id, e: Entity) {
    && r.entityId == id && r.createdAt == e.createdAt && r.updatedAt == e.updatedAt && r.revision == e.revision
    && r.contentHash == e.contentHash && r.gitSha == e.gitSha && r.status == e.status
  }

  /** The value given, or else the other. */
  ghost predicate Chosen<T(!new)>(o: Option<T>, fallback: T, x: T) {
    (forall v :: o == Some(v) ==> x == v) && (o == None ==> x == fallback)
  }

  /** Only one entity, and only what is said of paths and records, is touched. */
  ghost predicate OthersKept(s: Store, t: Store, id: Id, touched: set<Path>) {
    && (forall x :: x in s.entities && x != id ==> x in t.entities && t.entities[x] == s.entities[x])
    && (forall x :: x in t.entities && x != id ==> x in s.entities)
    && (forall p :: p !in touched ==> (p in t.paths <==> p in s.paths) && (p in s.paths ==> t.paths[p] == s.paths[p]))
    && (forall p :: p !in touched ==> RecordAt(t.manifests, p) == RecordAt(s.manifests, p))
  }

  ghost predicate BoundWithRecord(t: Store, p: Path, id: Id) {
    && p in t.paths && t.paths[p] == id && id in t.entities
    && p.dir in t.manifests && p.name in t.manifests[p.dir] && Mirrors(t.manifests[p.dir][p.name], id, t.entities[id])
  }

  ghost predicate Unbound(t: Store, p: Path) {
    p !in t.paths && (p.dir in t.manifests ==> p.name !in t.manifests[p.dir])
  }

  /** A file whose content changed gets its hash, a time and one revision more; otherwise nothing of that. */
  ghost predicate ContentFrom(w: World, p: Path, e: Entity, f: Entity) {
    if p in w.files && w.files[p] != e.contentHash then
      f.contentHash == w.files[p] && f.revision == e.revision + 1 && Chosen(w.history(p).updatedAt, w.now, f.updatedAt)
    else f.contentHash == e.contentHash && f.revision == e.revision && f.updatedAt == e.updatedAt
  }

  /** A move takes the entity to the new path and notes where it came from. */
  lemma MoveIs(s: Store, w: World, m: Move)
    ensures var t := MoveEntity(s, w, m);
      if m.entityId !in s.entities then t == s
      else
        var e := s.entities[m.entityId];
        && t.ids == s.ids && t.log == s.log && t.drawn == s.drawn
        && OthersKept(s, t, m.entityId, {m.from, m.to})
        && BoundWithRecord(t, m.to, m.entityId)
        && (m.from != m.to ==> Unbound(t, m.from))
        && var f := t.entities[m.entityId];
           && f.currentPath == m.to && f.status == Active
           && f.firstPath == e.firstPath && f.createdAt == e.createdAt
           && Chosen(w.history(m.to).lastCommitSha, e.gitSha, f.gitSha)
           && f.moves == e.moves + [MoveRecord(from := m.from, to := m.to, sameHash := m.sameHash)]
           && ContentFrom(w, m.to, e, f)
  {
    var t := MoveEntity(s, w, m);
    forall p ensures p !in {m.from, m.to} ==> RecordAt(t.manifests, p) == RecordAt(s.manifests, p) {
      if m.entityId in s.entities {
        RemoveAt(s.manifests, m.from, p);
        UpsertAt(Remove(s.manifests, m.from), m.to, RecordOf(m.entityId, MovedEntity(w, s.entities[m.entityId], m)), p);
      }
    }
  }

  /** A deletion retires the entity, logs its last state and forgets path and record. */
  lemma DeleteIs(s: Store, p: Path)
    ensures var t := MarkDeleted(s, p);
      if p !in s.paths || s.paths[p] !in s.entities then t == s
      else
        var id := s.paths[p];
        var e := s.entities[id];
        && t.ids == s.ids && t.drawn == s.drawn
        && OthersKept(s, t, id, {p}) && Unbound(t, p)
        && t.entities.Keys == s.entities.Keys
        && t.log == s.log + [LogItem(entityId := id, lastPath := p, lastRevision := e.revision, lastHash := e.contentHash)]
        && t.entities[id] == e.(status := Deleted)
  {
    forall q ensures q != p ==> RecordAt(MarkDeleted(s, p).manifests, q) == RecordAt(s.manifests, q) {
      RemoveAt(s.manifests, p, q);
    }
  }

  /** A new file gets an entity of its own under the next id, at revision 1 and without moves. */
  lemma AddIs(s: Store, w: World, p: Path)
    ensures var t := AddNewEntity(s, w, p);
      if p !in w.files then t == s
      else
        var id := w.freshId(s.drawn);
        && t.log == s.log && t.drawn == s.drawn + 1 && t.ids == (if id in s.entities then s.ids else s.ids + [id])
        && OthersKept(s, t, id, {p}) && BoundWithRecord(t, p, id)
        && var f := t.entities[id];
           && f.currentPath == p && f.firstPath == p && f.revision == 1 && f.contentHash == w.files[p]
           && f.status == Active && f.moves == []
           && Chosen(w.history(p).createdAt, w.now, f.createdAt)
           && Chosen(w.history(p).updatedAt, w.now, f.updatedAt)
           && Chosen(w.history(p).lastCommitSha, [117, 110, 107, 110, 111, 119, 110], f.gitSha)
  {
    var t := AddNewEntity(s, w, p);
    forall q ensures p in w.files && q != p ==> RecordAt(t.manifests, q) == RecordAt(s.manifests, q) {
      if p in w.files {
        UpsertAt(s.manifests, p, RecordOf(w.freshId(s.drawn), NewEntity(w, p, w.files[p])), q);
      }
    }
  }

  /** A changed file of an active entity gets its hash, time, commit and one revision more. */
  lemma ModifyIs(s: Store, w: World, p: Path)
    ensures var t := UpdateModifiedEntity(s, w, p);
      if p in s.paths && s.paths[p] in s.entities && s.entities[s.paths[p]].status == Active
         && p in w.files && w.files[p] != s.entities[s.paths[p]].contentHash
      then
        var id := s.paths[p];
        var e := s.entities[id];
        && t.ids == s.ids && t.log == s.log && t.drawn == s.drawn
        && OthersKept(s, t, id, {p}) && BoundWithRecord(t, p, id)
        && var f := t.entities[id];
           && f == e.(contentHash := f.contentHash, updatedAt := f.updatedAt, gitSha := f.gitSha, revision := f.revision)
           && ContentFrom(w, p, e, f) && Chosen(w.history(p).lastCommitSha, e.gitSha, f.gitSha)
      else t == s
  {
    var t := UpdateModifiedEntity(s, w, p);
    forall q ensures q != p ==> RecordAt(t.manifests, q) == RecordAt(s.manifests, q) {
      if p in s.paths && s.paths[p] in t.entities {
        UpsertAt(s.manifests, p, RecordOf(s.paths[p], t.entities[s.paths[p]]), q);
      }
    }
  }

  // ---------------------------------------------------------------------------
  // The candidates
  // ---------------------------------------------------------------------------

  ghost predicate ActiveAt(s: Store, p: Path, e: Entity) {
    p in s.paths && s.paths[p] in s.entities && s.entities[s.paths[p]] == e && e.status == Active
  }

  /** Which paths are looked at as deleted, added and modified. */
  lemma PlanIs(s: Store, w: World, plan: Plan, p: Path)
    requires IsPlan(s, w, plan)
    ensures p in plan.deleted <==> p in s.paths && (p in w.changes.deleted || (p !in w.managed && exists e :: ActiveAt(s, p, e)))
    ensures p in plan.added <==> p in w.managed && (p in w.changes.added || p !in s.paths)
    ensures p in plan.modified <==>
      && p in w.managed && p in s.paths
      && (p in w.changes.modified || (exists r :: r in w.changes.renamed && r.to == p)
          || (p in w.files && w.files[p] != [] && exists e :: ActiveAt(s, p, e) && e.contentHash != w.files[p]))
  {
    assert Live(s, p) ==> ActiveAt(s, p, s.entities[s.paths[p]]);
  }

  // ---------------------------------------------------------------------------
  // The moves
  // ---------------------------------------------------------------------------

  /** A rename is followed when its source is bound and its target managed. */
  ghost function Followed(s: Store, w: World): (seq<Rename>, nat) -> M.Option<Move> {
    (renamed: seq<Rename>, i: nat) =>
      if i < |renamed| && renamed[i].from in s.paths && renamed[i].to in w.managed
      then M.Some(Move(entityId := s.paths[renamed[i].from], from := renamed[i].from, to := renamed[i].to, sameHash := false))
      else M.None
  }

  lemma {:induction false} ExplicitPicked(s: Store, w: World, renamed: seq<Rename>, n: nat) returns (places: seq<nat>)
    requires n <= |renamed|
    ensures Picks(ExplicitMoves(s, w, renamed[..n]), n, renamed, Followed(s, w), places)
  {
    if n == 0 {
      places := [];
    } else {
      places := ExplicitPicked(s, w, renamed, n - 1);
      assert renamed[..n][..n - 1] == renamed[..n - 1];
      places := PickNext(ExplicitMoves(s, w, renamed[..n - 1]), n - 1, renamed, Followed(s, w), places);
    }
  }

  ghost predicate NamesAt(s: Store, ids: seq<Id>, p: Path, k: int) {
    0 <= k < |ids| && ids[k] in s.entities && s.entities[ids[k]].currentPath == p
  }

  /** The k-th entity is the first that names the path as its own. */
  ghost predicate FirstNamedAt(s: Store, ids: seq<Id>, p: Path, k: int) {
    NamesAt(s, ids, p, k) && forall j :: j < k ==> !NamesAt(s, ids, p, j)
  }

  lemma {:induction false} EntityAtIs(s: Store, ids: seq<Id>, p: Path)
    ensures EntityAt(s, ids, p).Some? <==> exists k :: FirstNamedAt(s, ids, p, k)
    ensures forall k :: FirstNamedAt(s, ids, p, k) ==> EntityAt(s, ids, p) == Some(ids[k])
  {
    if ids != [] {
      EntityAtIs(s, ids[1..], p);
      forall k ensures k >= 0 ==> (NamesAt(s, ids[1..], p, k) <==> NamesAt(s, ids, p, k + 1)) {
      }
      if NamesAt(s, ids, p, 0) {
        assert FirstNamedAt(s, ids, p, 0);
        assert forall k :: FirstNamedAt(s, ids, p, k) ==> k == 0;
      } else {
        forall k ensures FirstNamedAt(s, ids, p, k) <==> k > 0 && FirstNamedAt(s, ids[1..], p, k - 1) {
          FirstNamedLater(s, ids, p, k);
        }
        if k :| FirstNamedAt(s, ids[1..], p, k) {
          assert FirstNamedAt(s, ids, p, k + 1);
        }
      }
    }
  }

  lemma FirstNamedLater(s: Store, ids: seq<Id>, p: Path, k: int)
    requires ids != [] && !NamesAt(s, ids, p, 0)
    ensures FirstNamedAt(s, ids, p, k) <==> k > 0 && FirstNamedAt(s, ids[1..], p, k - 1)
  {
    assert forall j :: j > 0 ==> (NamesAt(s, ids[1..], p, j - 1) <==> NamesAt(s, ids, p, j));
    if k > 0 && FirstNamedAt(s, ids[1..], p, k - 1) {
      forall j | j < k ensures !NamesAt(s, ids, p, j) {
        assert j > 0 ==> !NamesAt(s, ids[1..], p, j - 1);
      }
    }
    if FirstNamedAt(s, ids, p, k) {
      forall j | j < k - 1 ensures !NamesAt(s, ids[1..], p, j) {
        assert !NamesAt(s, ids, p, j + 1);
      }
    }
  }

  /** The i-th deleted path is named by an entity, by the k-th first, with that content. */
  ghost predicate GoneAt(s: Store, deleted: seq<Path>, h: Hash, i: int, k: int) {
    && 0 <= i < |deleted| && FirstNamedAt(s, s.ids, deleted[i], k)
    && h != [] && s.entities[s.ids[k]].contentHash == h
  }

  /** The last of them. */
  ghost predicate LastGone(s: Store, deleted: seq<Path>, h: Hash, i: int, k: int) {
    GoneAt(s, deleted, h, i, k) && forall j, l :: i < j ==> !GoneAt(s, deleted, h, j, l)
  }

  ghost predicate Indexed(s: Store, deleted: seq<Path>, h: Hash, gone: map<Hash, Gone>) {
    && (h in gone <==> exists i, k :: LastGone(s, deleted, h, i, k))
    && (forall i, k :: LastGone(s, deleted, h, i, k) ==> gone[h] == Gone(entityId := s.ids[k], from := deleted[i]))
  }

  lemma GoneLater(s: Store, deleted: seq<Path>, h: Hash, n: nat, i: int, k: int)
    requires n < |deleted|
    ensures GoneAt(s, deleted[..n + 1], h, i, k) <==> GoneAt(s, deleted[..n], h, i, k) || (i == n && GoneAt(s, deleted, h, n, k))
  {
  }

  lemma LastGoneNext(s: Store, deleted: seq<Path>, h: Hash, n: nat, i: int, k: int)
    requires n < |deleted|
    ensures LastGone(s, deleted[..n + 1], h, i, k) <==>
      if exists l :: GoneAt(s, deleted, h, n, l) then i == n && GoneAt(s, deleted, h, n, k) else LastGone(s, deleted[..n], h, i, k)
  {
    var more := deleted[..n + 1];
    forall i, k
      ensures GoneAt(s, more, h, i, k) <==> GoneAt(s, deleted[..n], h, i, k) || (i == n && GoneAt(s, deleted, h, n, k))
      ensures GoneAt(s, deleted[..n], h, i, k) ==> i < n
    {
      GoneLater(s, deleted, h, n, i, k);
    }
    hide GoneAt;
    if l :| GoneAt(s, deleted, h, n, l) {
      assert GoneAt(s, more, h, n, l);
    }
  }

  lemma GoneHere(s: Store, deleted: seq<Path>, h: Hash, n: nat)
    requires n < |deleted|
    ensures var id := EntityAt(s, s.ids, deleted[n]);
      && ((exists l :: GoneAt(s, deleted, h, n, l)) <==>
            id.Some? && id.value in s.entities && h != [] && s.entities[id.value].contentHash == h)
      && (forall l :: GoneAt(s, deleted, h, n, l) ==> id == Some(s.ids[l]))
  {
    EntityAtIs(s, s.ids, deleted[n]);
    hide EntityAt;
    if k :| FirstNamedAt(s, s.ids, deleted[n], k) {
      assert GoneAt(s, deleted, h, n, k) <==> h != [] && s.entities[s.ids[k]].contentHash == h;
    }
  }

  /** Each content is indexed under the last deleted path that had it. */
  lemma {:induction false} GoneByHashIs(s: Store, deleted: seq<Path>, n: nat, h: Hash)
    requires n <= |deleted|
    ensures Indexed(s, deleted[..n], h, GoneByHash(s, deleted[..n]))
  {
    if n > 0 {
      var m: nat := n - 1;
      var before, more := deleted[..m], deleted[..n];
      GoneByHashIs(s, deleted, m, h);
      assert more[..m] == before;
      GoneHere(s, deleted, h, m);
      forall i, k
        ensures LastGone(s, more, h, i, k) <==>
          if exists l :: GoneAt(s, deleted, h, m, l) then i == m && GoneAt(s, deleted, h, m, k) else LastGone(s, before, h, i, k)
      {
        LastGoneNext(s, deleted, h, m, i, k);
      }
      hide EntityAt, GoneAt, LastGone;
      if l :| GoneAt(s, deleted, h, m, l) {
        assert LastGone(s, more, h, m, l);
      } else if i, k :| LastGone(s, before, h, i, k) {
        assert LastGone(s, more, h, i, k);
      }
    }
  }

  ghost predicate Returns(s: Store, w: World, deleted: seq<Path>, p: Path, m: Move) {
    && p in w.files
    && exists i, k ::
         LastGone(s, deleted, w.files[p], i, k) && m == Move(entityId := s.ids[k], from := deleted[i], to := p, sameHash := true)
  }

  /** An added file with the content of a deleted path is a move of the entity first named there. */
  ghost function Returned(s: Store, w: World, deleted: seq<Path>): (seq<Path>, nat) -> M.Option<Move> {
    (added: seq<Path>, i: nat) =>
      if i < |added| && exists m :: Returns(s, w, deleted, added[i], m)
      then var m :| Returns(s, w, deleted, added[i], m); M.Some(m)
      else M.None
  }

  lemma ReturnsIff(s: Store, w: World, deleted: seq<Path>, p: Path, m: Move)
    ensures var gone := GoneByHash(s, deleted);
      Returns(s, w, deleted, p, m) <==>
        && p in w.files && w.files[p] != [] && w.files[p] in gone
        && m == Move(gone[w.files[p]].entityId, gone[w.files[p]].from, p, true)
  {
    if p in w.files {
      assert deleted[..|deleted|] == deleted;
      GoneByHashIs(s, deleted, |deleted|, w.files[p]);
      NoEmptyGone(s, deleted);
      hide GoneAt, GoneByHash;
    }
  }

  lemma NoEmptyGone(s: Store, deleted: seq<Path>)
    ensures forall i, k :: !LastGone(s, deleted, [], i, k)
  {
  }

  lemma ReturnedIs(s: Store, w: World, deleted: seq<Path>, added: seq<Path>, i: nat)
    requires i < |added|
    ensures var gone := GoneByHash(s, deleted);
      Returned(s, w, deleted)(added, i) ==
        if added[i] in w.files && w.files[added[i]] != [] && w.files[added[i]] in gone
        then M.Some(Move(gone[w.files[added[i]]].entityId, gone[w.files[added[i]]].from, added[i], true))
        else M.None
  {
    hide GoneByHash;
    forall m {:trigger Returns(s, w, deleted, added[i], m)}
      ensures var gone := GoneByHash(s, deleted);
        Returns(s, w, deleted, added[i], m) <==>
          && added[i] in w.files && w.files[added[i]] != [] && w.files[added[i]] in gone
          && m == Move(gone[w.files[added[i]]].entityId, gone[w.files[added[i]]].from, added[i], true)
    {
      ReturnsIff(s, w, deleted, added[i], m);
    }
    hide Returns;
    var gone := GoneByHash(s, deleted);
    if added[i] in w.files && w.files[added[i]] != [] && w.files[added[i]] in gone {
      assert Returns(s, w, deleted, added[i], Move(gone[w.files[added[i]]].entityId, gone[w.files[added[i]]].from, added[i], true));
    } else {
      assert forall m :: !Returns(s, w, deleted, added[i], m);
    }
  }

  lemma ReturnedNext(s: Store, w: World, deleted: seq<Path>, added: seq<Path>, n: nat)
    requires n < |added|
    ensures SameHashMoves(w, GoneByHash(s, deleted), added[..n + 1]) == SameHashMoves(w, GoneByHash(s, deleted), added[..n])
      + (if Returned(s, w, deleted)(added, n).Some? then [Returned(s, w, deleted)(added, n).value] else [])
  {
    hide Returned, GoneByHash;
    assert added[..n + 1][..n] == added[..n];
    ReturnedIs(s, w, deleted, added, n);
  }

  lemma {:induction false} ReturnedPicked(s: Store, w: World, deleted: seq<Path>, added: seq<Path>, n: nat) returns (places: seq<nat>)
    requires n <= |added|
    ensures Picks(SameHashMoves(w, GoneByHash(s, deleted), added[..n]), n, added, Returned(s, w, deleted), places)
  {
    hide Returns, GoneByHash;
    if n == 0 {
      places := [];
    } else {
      places := ReturnedPicked(s, w, deleted, added, n - 1);
      ReturnedNext(s, w, deleted, added, n - 1);
      places := PickNext(SameHashMoves(w, GoneByHash(s, deleted), added[..n - 1]), n - 1, added, Returned(s, w, deleted), places);
    }
  }

  /** The moves inferred: for each added file in order, from the last deleted path with its content. */
  lemma DetectedAre(s: Store, w: World, deleted: seq<Path>, added: seq<Path>) returns (places: seq<nat>)
    ensures Picks(DetectMoves(s, w, deleted, added), |added|, added, Returned(s, w, deleted), places)
  {
    assert added[..|added|] == added;
    places := ReturnedPicked(s, w, deleted, added, |added|);
    hide Picks;
    if deleted == [] {
      NothingReturns(s, w, added, |added|);
    }
  }

  lemma {:induction false} NothingReturns(s: Store, w: World, added: seq<Path>, n: nat)
    requires n <= |added|
    ensures SameHashMoves(w, GoneByHash(s, []), added[..n]) == []
  {
    if n > 0 {
      assert added[..n][..n - 1] == added[..n - 1];
      NothingReturns(s, w, added, n - 1);
    }
  }

  /** The renames that are followed, in their order. */
  lemma RenamesAre(s: Store, w: World) returns (places: seq<nat>)
    ensures Picks(ExplicitMoves(s, w, w.changes.renamed), |w.changes.renamed|, w.changes.renamed, Followed(s, w), places)
  {
    var renamed := w.changes.renamed;
    assert renamed[..|renamed|] == renamed;
    places := ExplicitPicked(s, w, renamed, |renamed|);
  }
}
