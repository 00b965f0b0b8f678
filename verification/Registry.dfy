/**
  The integrity registry and the steps of an update:
  src/integrity/run-update.ts, manifests.ts and move-detection.ts.
 */
module Registry {
  import opened Text

  type Id = Str
  type Hash = Str

  /** A repository path, split into directory and file name. */
  datatype Path = Path(dir: Str, name: Str)

  datatype Option<T> = None | Some(value: T)

  datatype Status = Active | Deleted

  datatype MoveRecord = MoveRecord(from: Path, to: Path, sameHash: bool)

  datatype Entity = Entity(
    currentPath: Path,
    firstPath: Path,
    createdAt: int,
    updatedAt: int,
    revision: nat,
    contentHash: Hash,
    gitSha: Str,
    status: Status,
    moves: seq<MoveRecord>)

  /** A line of a directory manifest. */
  datatype Record = Record(
    entityId: Id,
    createdAt: int,
    updatedAt: int,
    revision: nat,
    contentHash: Hash,
    gitSha: Str,
    status: Status)

  function RecordOf(id: Id, e: Entity): Record {
    Record(id, e.createdAt, e.updatedAt, e.revision, e.contentHash, e.gitSha, e.status)
  }

  datatype LogItem = LogItem(entityId: Id, lastPath: Path, lastRevision: nat, lastHash: Hash)

  type Manifests = map<Str, map<Str, Record>>

  /** The three indexes and the log. ids lists the entities in the order of their keys; drawn counts the ids drawn. */
  datatype Store = Store(
    entities: map<Id, Entity>,
    ids: seq<Id>,
    paths: map<Path, Id>,
    manifests: Manifests,
    log: seq<LogItem>,
    drawn: nat)

  datatype History = History(createdAt: Option<int>, updatedAt: Option<int>, lastCommitSha: Option<Str>)

  datatype Rename = Rename(from: Path, to: Path)

  datatype Changes = Changes(added: seq<Path>, modified: seq<Path>, deleted: seq<Path>, renamed: seq<Rename>)

  /** What an update reads: readable files with their hashes, managed files, git, clock and id generator. */
  datatype World = World(
    files: map<Path, Hash>,
    managed: seq<Path>,
    changes: Changes,
    history: Path -> History,
    now: int,
    freshId: nat -> Id)

  function OrElse<T>(o: Option<T>, fallback: T): T {
    if o.Some? then o.value else fallback
  }

  // ---------------------------------------------------------------------------
  // Directory manifests
  // ---------------------------------------------------------------------------

  function ManifestOf(ms: Manifests, dir: Str): map<Str, Record> {
    if dir in ms then ms[dir] else map[]
  }

  function Upsert(ms: Manifests, p: Path, r: Record): Manifests {
    ms[p.dir := ManifestOf(ms, p.dir)[p.name := r]]
  }

  function Remove(ms: Manifests, p: Path): Manifests {
    ms[p.dir := ManifestOf(ms, p.dir) - {p.name}]
  }

  function RecordAt(ms: Manifests, p: Path): Option<Record> {
    if p.dir in ms && p.name in ms[p.dir] then Some(ms[p.dir][p.name]) else None
  }

  lemma UpsertAt(ms: Manifests, p: Path, r: Record, q: Path)
    ensures RecordAt(Upsert(ms, p, r), q) == if q == p then Some(r) else RecordAt(ms, q)
  {
  }

  lemma RemoveAt(ms: Manifests, p: Path, q: Path)
    ensures RecordAt(Remove(ms, p), q) == if q == p then None else RecordAt(ms, q)
  {
  }

  // ---------------------------------------------------------------------------
  // The steps
  // ---------------------------------------------------------------------------

  datatype Move = Move(entityId: Id, from: Path, to: Path, sameHash: bool)

  function MovedEntity(w: World, e: Entity, m: Move): Entity {
    var nextHash := if m.to in w.files then w.files[m.to] else e.contentHash;
    var history := w.history(m.to);
    var moved := e.(
      currentPath := m.to,
      status := Active,
      gitSha := OrElse(history.lastCommitSha, e.gitSha),
      moves := e.moves + [MoveRecord(m.from, m.to, m.sameHash)]);
    if nextHash == e.contentHash then moved
    else moved.(contentHash := nextHash, updatedAt := OrElse(history.updatedAt, w.now), revision := e.revision + 1)
  }

  function MoveEntity(s: Store, w: World, m: Move): Store {
    if m.entityId !in s.entities then s
    else
      var e := MovedEntity(w, s.entities[m.entityId], m);
      s.(entities := s.entities[m.entityId := e],
         paths := (s.paths - {m.from})[m.to := m.entityId],
         manifests := Upsert(Remove(s.manifests, m.from), m.to, RecordOf(m.entityId, e)))
  }

  function MarkDeleted(s: Store, p: Path): Store {
    if p !in s.paths || s.paths[p] !in s.entities then s
    else
      var id := s.paths[p];
      var e := s.entities[id];
      s.(entities := s.entities[id := e.(status := Deleted)],
         paths := s.paths - {p},
         log := s.log + [LogItem(id, p, e.revision, e.contentHash)],
         manifests := Remove(s.manifests, p))
  }

  function NewEntity(w: World, p: Path, hash: Hash): Entity {
    var history := w.history(p);
    Entity(p, p, OrElse(history.createdAt, w.now), OrElse(history.updatedAt, w.now), 1, hash,
           OrElse(history.lastCommitSha, UNKNOWN), Active, [])
  }

  /** "unknown" */
  const UNKNOWN: Str := [117, 110, 107, 110, 111, 119, 110]

  /** An unreadable file makes the source throw before anything is saved; here it changes nothing. */
  function AddNewEntity(s: Store, w: World, p: Path): Store {
    if p !in w.files then s
    else
      var id := w.freshId(s.drawn);
      var e := NewEntity(w, p, w.files[p]);
      s.(entities := s.entities[id := e],
         ids := if id in s.entities then s.ids else s.ids + [id],
         paths := s.paths[p := id],
         manifests := Upsert(s.manifests, p, RecordOf(id, e)),
         drawn := s.drawn + 1)
  }

  predicate Live(s: Store, p: Path) {
    p in s.paths && s.paths[p] in s.entities && s.entities[s.paths[p]].status == Active
  }

  function UpdateModifiedEntity(s: Store, w: World, p: Path): Store {
    if !Live(s, p) || p !in w.files || w.files[p] == s.entities[s.paths[p]].contentHash then s
    else
      var id := s.paths[p];
      var e := s.entities[id];
      var history := w.history(p);
      var e1 := e.(contentHash := w.files[p], updatedAt := OrElse(history.updatedAt, w.now),
                   gitSha := OrElse(history.lastCommitSha, e.gitSha), revision := e.revision + 1);
      s.(entities := s.entities[id := e1], manifests := Upsert(s.manifests, p, RecordOf(id, e1)))
  }

  // ---------------------------------------------------------------------------
  // The loops over the steps
  // ---------------------------------------------------------------------------

  /** A store together with the sources and the targets of the moves made so far. */
  datatype Progress = Progress(store: Store, matchedDeleted: set<Path>, matchedAdded: set<Path>)

  function StepMove(g: Progress, w: World, m: Move): Progress {
    if m.from in g.matchedDeleted || m.to in g.matchedAdded then g
    else Progress(MoveEntity(g.store, w, m), g.matchedDeleted + {m.from}, g.matchedAdded + {m.to})
  }

  function RunMoves(g: Progress, w: World, moves: seq<Move>): Progress {
    if moves == [] then g else StepMove(RunMoves(g, w, moves[..|moves| - 1]), w, moves[|moves| - 1])
  }

  function RunDeletes(s: Store, deleted: seq<Path>, matched: set<Path>): Store {
    if deleted == [] then s
    else
      var p := deleted[|deleted| - 1];
      var t := RunDeletes(s, deleted[..|deleted| - 1], matched);
      if p in matched then t else MarkDeleted(t, p)
  }

  function RunAdds(s: Store, w: World, added: seq<Path>, matched: set<Path>): Store {
    if added == [] then s
    else
      var p := added[|added| - 1];
      var t := RunAdds(s, w, added[..|added| - 1], matched);
      if p in matched then t else AddNewEntity(t, w, p)
  }

  function RunUpdates(s: Store, w: World, modified: seq<Path>): Store {
    if modified == [] then s
    else
      var p := modified[|modified| - 1];
      var t := RunUpdates(s, w, modified[..|modified| - 1]);
      if p !in t.paths then t else UpdateModifiedEntity(t, w, p)
  }

  // ---------------------------------------------------------------------------
  // Which paths and moves
  // ---------------------------------------------------------------------------

  function ExplicitMoves(s: Store, w: World, renamed: seq<Rename>): seq<Move> {
    if renamed == [] then []
    else
      var r := renamed[|renamed| - 1];
      ExplicitMoves(s, w, renamed[..|renamed| - 1])
      + (if r.from in s.paths && r.to in w.managed then [Move(s.paths[r.from], r.from, r.to, false)] else [])
  }

  /** Object.keys(entities).find: the first entity whose currentPath is p. */
  function EntityAt(s: Store, ids: seq<Id>, p: Path): Option<Id> {
    if ids == [] then None
    else if ids[0] in s.entities && s.entities[ids[0]].currentPath == p then Some(ids[0])
    else EntityAt(s, ids[1..], p)
  }

  datatype Gone = Gone(entityId: Id, from: Path)

  /** The deleted paths by content hash; a later path with the same hash replaces an earlier one. */
  function GoneByHash(s: Store, deleted: seq<Path>): map<Hash, Gone> {
    if deleted == [] then map[]
    else
      var p := deleted[|deleted| - 1];
      var m := GoneByHash(s, deleted[..|deleted| - 1]);
      var id := EntityAt(s, s.ids, p);
      if id.None? || id.value !in s.entities || s.entities[id.value].contentHash == [] then m
      else m[s.entities[id.value].contentHash := Gone(id.value, p)]
  }

  function SameHashMoves(w: World, gone: map<Hash, Gone>, added: seq<Path>): seq<Move> {
    if added == [] then []
    else
      var p := added[|added| - 1];
      SameHashMoves(w, gone, added[..|added| - 1])
      + (if p in w.files && w.files[p] != [] && w.files[p] in gone
         then [Move(gone[w.files[p]].entityId, gone[w.files[p]].from, p, true)] else [])
  }

  /** detectMoves, which reads the entities as they were before the update. */
  function DetectMoves(s: Store, w: World, deleted: seq<Path>, added: seq<Path>): seq<Move> {
    if deleted == [] || added == [] then [] else SameHashMoves(w, GoneByHash(s, deleted), added)
  }

  predicate OutOfSync(s: Store, w: World, p: Path) {
    Live(s, p) && p in w.managed && p in w.files && w.files[p] != [] && w.files[p] != s.entities[s.paths[p]].contentHash
  }

  datatype Plan = Plan(deleted: seq<Path>, added: seq<Path>, modified: seq<Path>)

  predicate IsRenameTarget(w: World, p: Path) {
    exists r :: r in w.changes.renamed && r.to == p
  }

  /** The candidate lists, in any order. */
  ghost predicate IsPlan(s: Store, w: World, plan: Plan) {
    && NoDuplicates(plan.deleted) && NoDuplicates(plan.added) && NoDuplicates(plan.modified)
    && (forall p :: p in plan.deleted <==> p in s.paths && (p in w.changes.deleted || (Live(s, p) && p !in w.managed)))
    && (forall p :: p in plan.added <==> p in w.managed && (p in w.changes.added || p !in s.paths))
    && (forall p :: p in plan.modified <==>
          p in w.managed && p in s.paths && (p in w.changes.modified || IsRenameTarget(w, p) || OutOfSync(s, w, p)))
  }

  function Without(list: seq<Path>, out: set<Path>): seq<Path> {
    if list == [] then []
    else
      var p := list[|list| - 1];
      Without(list[..|list| - 1], out) + (if p in out then [] else [p])
  }

  function AfterRenames(s: Store, w: World): Progress {
    RunMoves(Progress(s, {}, {}), w, ExplicitMoves(s, w, w.changes.renamed))
  }

  /** The moves inferred from content hashes for what the renames have left. */
  function InferredMoves(s: Store, w: World, plan: Plan): seq<Move> {
    var g := AfterRenames(s, w);
    DetectMoves(s, w, Without(plan.deleted, g.matchedDeleted), Without(plan.added, g.matchedAdded))
  }

  function AfterMoves(s: Store, w: World, plan: Plan): Progress {
    RunMoves(AfterRenames(s, w), w, InferredMoves(s, w, plan))
  }

  /** runUpdate as a function of the candidate lists. */
  function Update(s: Store, w: World, plan: Plan): Store {
    var g := AfterMoves(s, w, plan);
    var deleted := RunDeletes(g.store, plan.deleted, g.matchedDeleted);
    var added := RunAdds(deleted, w, plan.added, g.matchedAdded);
    RunUpdates(added, w, plan.modified)
  }
}
