/** The structural checks of verifyIntegrity in src/integrity/verify.ts, and what their silence means. */
module IntegrityVerify {
  import opened Text
  import opened Registry
  import opened UpdateAgrees

  datatype Code =
    | MissingDirectoryManifest
    | UnexpectedPathBinding
    | DuplicateActiveEntityId
    | MissingPathBinding
    | MissingRegistryEntity
    | MissingManifestRecord
    | EntityIdMismatch
    | RegistryEntityNotActive
    | CurrentPathMismatch
    | ManifestRecordNotActive
    | CreatedAtMismatch
    | UpdatedAtMismatch
    | RevisionMismatch
    | ContentHashMismatchBetweenIndexes
    | GitShaMismatchBetweenIndexes
    | HashMismatchRegistry
    | HashMismatchManifest
    | StaleManifestRecord
    | ManifestEntityMissingInRegistry
    | ActiveEntityOutsideScope
    | RegistryPathNotBound

  datatype Issue = Issue(error: bool, code: Code, path: Option<Path>, entityId: Option<Id>)

  predicate AnyError(issues: seq<Issue>) {
    exists i :: i in issues && i.error
  }

  lemma AnyErrorConcat(a: seq<Issue>, b: seq<Issue>)
    ensures AnyError(a + b) <==> AnyError(a) || AnyError(b)
  {
    assert forall i :: i in a + b <==> i in a || i in b;
  }

  function When(bad: bool, issue: Issue): (r: seq<Issue>)
    ensures AnyError(r) <==> bad && issue.error
  {
    var r := if bad then [issue] else [];
    assert bad ==> issue in r;
    r
  }

  // ---------------------------------------------------------------------------
  // What no error means
  // ---------------------------------------------------------------------------

  predicate RecordClean(p: Path, id: Id, rec: Record, e: Entity, actual: Hash) {
    && rec.entityId == id
    && e.status == Active && e.currentPath == p && rec.status == Active
    && rec.createdAt == e.createdAt && rec.updatedAt == e.updatedAt && rec.revision == e.revision
    && rec.contentHash == e.contentHash == actual
  }

  ghost predicate FileClean(s: Store, w: World, p: Path) {
    && p in s.paths && s.paths[p] in s.entities
    && (p.dir in s.manifests ==>
          && RecordAt(s.manifests, p).Some? && p in w.files
          && RecordClean(p, s.paths[p], RecordAt(s.manifests, p).value, s.entities[s.paths[p]], w.files[p]))
  }

  ghost predicate Managed(w: World, dir: Str) {
    exists p :: p in w.managed && p.dir == dir
  }

  ghost predicate ManifestClean(s: Store, w: World, dir: Str, name: Str)
    requires dir in s.manifests && name in s.manifests[dir]
  {
    && (Path(dir, name) in w.managed || Path(dir, name) in w.files)
    && s.manifests[dir][name].entityId in s.entities
  }

  ghost predicate EntityClean(s: Store, w: World, id: Id)
    requires id in s.entities
  {
    var e := s.entities[id];
    e.status == Active ==>
      && (e.currentPath in w.managed || e.currentPath in w.files)
      && e.currentPath in s.paths && s.paths[e.currentPath] == id
  }

  ghost predicate BindingsClean(s: Store, w: World) {
    && (forall p :: p in s.paths ==> p in w.managed || p in w.files)
    && (forall p, q :: p in s.paths && q in s.paths && s.paths[p] == s.paths[q] ==> p == q)
  }

  /** No structural check reports an error. */
  ghost predicate Clean(s: Store, w: World) {
    && (forall p :: p in w.managed ==> p.dir in s.manifests)
    && BindingsClean(s, w)
    && (forall p :: p in w.managed ==> FileClean(s, w, p))
    && (forall dir, name :: dir in s.manifests && Managed(w, dir) && name in s.manifests[dir] ==> ManifestClean(s, w, dir, name))
    && (forall id :: id in s.entities ==> EntityClean(s, w, id))
  }

  // ---------------------------------------------------------------------------
  // The checks
  // ---------------------------------------------------------------------------

  /** compareManifestAndRegistry, preceded by the check of the entity id and followed by those of the hashes. */
  function CompareRecords(p: Path, id: Id, rec: Record, e: Entity, actual: Hash): seq<Issue> {
    When(rec.entityId != id, Issue(true, EntityIdMismatch, Some(p), Some(id)))
    + (When(e.status != Active, Issue(true, RegistryEntityNotActive, Some(p), Some(rec.entityId)))
    + (When(e.currentPath != p, Issue(true, CurrentPathMismatch, Some(p), Some(rec.entityId)))
    + (When(rec.status != Active, Issue(true, ManifestRecordNotActive, Some(p), Some(rec.entityId)))
    + (When(rec.createdAt != e.createdAt, Issue(true, CreatedAtMismatch, Some(p), Some(rec.entityId)))
    + (When(rec.updatedAt != e.updatedAt, Issue(true, UpdatedAtMismatch, Some(p), Some(rec.entityId)))
    + (When(rec.revision != e.revision, Issue(true, RevisionMismatch, Some(p), Some(rec.entityId)))
    + (When(rec.contentHash != e.contentHash, Issue(true, ContentHashMismatchBetweenIndexes, Some(p), Some(rec.entityId)))
    + (When(rec.gitSha != e.gitSha, Issue(false, GitShaMismatchBetweenIndexes, Some(p), Some(rec.entityId)))
    + (When(actual != e.contentHash, Issue(true, HashMismatchRegistry, Some(p), Some(id)))
    + When(actual != rec.contentHash, Issue(true, HashMismatchManifest, Some(p), Some(id))))))))))))
  }

  lemma CompareRight(p: Path, id: Id, rec: Record, e: Entity, actual: Hash)
    ensures AnyError(CompareRecords(p, id, rec, e, actual)) <==> !RecordClean(p, id, rec, e, actual)
  {
    hide AnyError, When;
    forall a, b ensures AnyError(a + b) <==> AnyError(a) || AnyError(b) {
      AnyErrorConcat(a, b);
    }
  }

  method CheckDirectories(s: Store, w: World) returns (issues: seq<Issue>)
    ensures AnyError(issues) <==> exists p :: p in w.managed && p.dir !in s.manifests
  {
    issues := [];
    var dirs := set p | p in w.managed :: p.dir;
    while dirs != {}
      invariant forall d :: d in dirs ==> exists p :: p in w.managed && p.dir == d
      invariant AnyError(issues) <==> exists p :: p in w.managed && p.dir !in s.manifests && p.dir !in dirs
      decreases dirs
    {
      var d :| d in dirs;
      var found := When(d !in s.manifests, Issue(true, MissingDirectoryManifest, Some(Path(d, [])), None));
      AnyErrorConcat(issues, found);
      issues := issues + found;
      dirs := dirs - {d};
    }
  }

  method CheckBindings(s: Store, w: World) returns (issues: seq<Issue>)
    ensures AnyError(issues) <==> !BindingsClean(s, w)
  {
    hide AnyError;
    issues := [];
    AnyErrorEmpty();
    var seenEntityIds: set<Id> := {};
    var duplicateEntityIds: set<Id> := {};
    var done: set<Path> := {};
    while done != s.paths.Keys
      invariant done <= s.paths.Keys
      invariant forall id :: id in seenEntityIds <==> exists p :: p in done && s.paths[p] == id
      invariant forall id :: id in duplicateEntityIds <==> exists p, q :: p in done && q in done && p != q && s.paths[p] == id && s.paths[q] == id
      invariant AnyError(issues) <==> exists p :: p in done && p !in w.managed && p !in w.files
      decreases s.paths.Keys - done
    {
      var p :| p in s.paths && p !in done;
      var id := s.paths[p];
      var found := When(p !in w.managed, Issue(p !in w.files, UnexpectedPathBinding, Some(p), Some(id)));
      AnyErrorConcat(issues, found);
      issues := issues + found;
      if id in seenEntityIds {
        duplicateEntityIds := duplicateEntityIds + {id};
      }
      seenEntityIds := seenEntityIds + {id};
      done := done + {p};
    }
    ghost var duplicates := duplicateEntityIds;
    ghost var before := issues;
    while duplicateEntityIds != {}
      invariant duplicateEntityIds <= duplicates
      invariant AnyError(issues) <==> AnyError(before) || duplicateEntityIds != duplicates
      decreases duplicateEntityIds
    {
      var id :| id in duplicateEntityIds;
      var found := When(true, Issue(true, DuplicateActiveEntityId, None, Some(id)));
      AnyErrorConcat(issues, found);
      issues := issues + found;
      duplicateEntityIds := duplicateEntityIds - {id};
    }
    if duplicates == {} {
      assert forall p, q :: p in s.paths && q in s.paths && s.paths[p] == s.paths[q] && p != q ==> s.paths[p] in duplicates;
    }
  }

  lemma AnyErrorEmpty()
    ensures !AnyError([])
  {
  }

  /** One managed file; it fails, like the source, when the file has to be hashed and cannot be read. */
  method CheckFile(s: Store, w: World, p: Path) returns (ok: bool, issues: seq<Issue>)
    ensures ok ==> (AnyError(issues) <==> !FileClean(s, w, p))
    ensures !ok ==> p !in w.files
  {
    hide AnyError;
    if p !in s.paths {
      return true, When(true, Issue(true, MissingPathBinding, Some(p), None));
    }
    var entityId := s.paths[p];
    if entityId !in s.entities {
      return true, When(true, Issue(true, MissingRegistryEntity, Some(p), Some(entityId)));
    }
    AnyErrorEmpty();
    if p.dir !in s.manifests {
      return true, [];
    }
    if p.name !in s.manifests[p.dir] {
      return true, When(true, Issue(true, MissingManifestRecord, Some(p), Some(entityId)));
    }
    if p !in w.files {
      return false, [];
    }
    var rec := s.manifests[p.dir][p.name];
    CompareRight(p, entityId, rec, s.entities[entityId], w.files[p]);
    return true, CompareRecords(p, entityId, rec, s.entities[entityId], w.files[p]);
  }

  method CheckFiles(s: Store, w: World) returns (ok: bool, issues: seq<Issue>)
    ensures ok ==> (AnyError(issues) <==> exists p :: p in w.managed && !FileClean(s, w, p))
    ensures !ok ==> exists p :: p in w.managed && p !in w.files
  {
    hide AnyError, FileClean;
    issues := [];
    AnyErrorEmpty();
    var i := 0;
    while i < |w.managed|
      invariant 0 <= i <= |w.managed|
      invariant AnyError(issues) <==> exists p :: p in w.managed[..i] && !FileClean(s, w, p)
    {
      var found;
      ok, found := CheckFile(s, w, w.managed[i]);
      if !ok {
        return;
      }
      AnyErrorConcat(issues, found);
      issues := issues + found;
      assert w.managed[..i + 1] == w.managed[..i] + [w.managed[i]];
      i := i + 1;
    }
    assert w.managed[..i] == w.managed;
    ok := true;
  }

  method CheckManifest(s: Store, w: World, dir: Str) returns (issues: seq<Issue>)
    requires dir in s.manifests
    ensures AnyError(issues) <==> exists name :: name in s.manifests[dir] && !ManifestClean(s, w, dir, name)
  {
    hide AnyError;
    issues := [];
    AnyErrorEmpty();
    var files := s.manifests[dir];
    var rest := files.Keys;
    while rest != {}
      invariant rest <= files.Keys
      invariant AnyError(issues) <==> exists name :: name in files && name !in rest && !ManifestClean(s, w, dir, name)
      decreases rest
    {
      var name :| name in rest;
      var p := Path(dir, name);
      var id := files[name].entityId;
      var stale := When(p !in w.managed, Issue(p !in w.files, StaleManifestRecord, Some(p), Some(id)));
      var missing := When(id !in s.entities, Issue(true, ManifestEntityMissingInRegistry, Some(p), Some(id)));
      AnyErrorConcat(stale, missing);
      AnyErrorConcat(issues, stale + missing);
      issues := issues + (stale + missing);
      rest := rest - {name};
    }
  }

  method CheckManifests(s: Store, w: World) returns (issues: seq<Issue>)
    ensures AnyError(issues) <==>
      exists dir, name :: dir in s.manifests && Managed(w, dir) && name in s.manifests[dir] && !ManifestClean(s, w, dir, name)
  {
    hide AnyError;
    issues := [];
    AnyErrorEmpty();
    var dirs := set p | p in w.managed && p.dir in s.manifests :: p.dir;
    ghost var all := dirs;
    assert forall d :: d in all <==> d in s.manifests && Managed(w, d);
    while dirs != {}
      invariant dirs <= all
      invariant AnyError(issues) <==>
        exists dir, name :: dir in all && dir !in dirs && name in s.manifests[dir] && !ManifestClean(s, w, dir, name)
      decreases dirs
    {
      var d :| d in dirs;
      var found := CheckManifest(s, w, d);
      AnyErrorConcat(issues, found);
      issues := issues + found;
      dirs := dirs - {d};
    }
  }

  method CheckEntities(s: Store, w: World) returns (issues: seq<Issue>)
    ensures AnyError(issues) <==> exists id :: id in s.entities && !EntityClean(s, w, id)
  {
    hide AnyError;
    issues := [];
    AnyErrorEmpty();
    var rest := s.entities.Keys;
    while rest != {}
      invariant rest <= s.entities.Keys
      invariant AnyError(issues) <==> exists id :: id in s.entities && id !in rest && !EntityClean(s, w, id)
      decreases rest
    {
      var id :| id in rest;
      var e := s.entities[id];
      if e.status == Active {
        var p := e.currentPath;
        var outside := When(p !in w.managed, Issue(p !in w.files, ActiveEntityOutsideScope, Some(p), Some(id)));
        var unbound := When(p !in s.paths || s.paths[p] != id, Issue(true, RegistryPathNotBound, Some(p), Some(id)));
        AnyErrorConcat(outside, unbound);
        AnyErrorConcat(issues, outside + unbound);
        issues := issues + (outside + unbound);
      }
      rest := rest - {id};
    }
  }

  /** verifyIntegrity: the report is free of errors exactly when the indexes are clean. */
  method VerifyIntegrity(s: Store, w: World) returns (ok: bool, issues: seq<Issue>)
    ensures ok ==> (!AnyError(issues) <==> Clean(s, w))
    ensures !ok ==> exists p :: p in w.managed && p !in w.files
  {
    hide AnyError, FileClean, EntityClean, ManifestClean, BindingsClean, Managed;
    var directories := CheckDirectories(s, w);
    var bindings := CheckBindings(s, w);
    var files;
    ok, files := CheckFiles(s, w);
    if !ok {
      return false, [];
    }
    var manifests := CheckManifests(s, w);
    var entities := CheckEntities(s, w);
    issues := directories + (bindings + (files + (manifests + entities)));
    AnyErrorConcat(directories, bindings + (files + (manifests + entities)));
    AnyErrorConcat(bindings, files + (manifests + entities));
    AnyErrorConcat(files, manifests + entities);
    AnyErrorConcat(manifests, entities);
  }

  // ---------------------------------------------------------------------------
  // Agreement and silence
  // ---------------------------------------------------------------------------

  /** Indexes that agree pass every structural check. */
  lemma AgreeingIsClean(s: Store, w: World)
    requires Agrees(s, w)
    ensures Clean(s, w)
  {
    forall p | p in w.managed ensures FileClean(s, w, p) && p.dir in s.manifests {
      assert Live(s, p) && RecordAt(s.manifests, p) == Expected(s, p);
      assert HashRight(s, w, p);
    }
    forall dir, name | dir in s.manifests && Managed(w, dir) && name in s.manifests[dir] ensures ManifestClean(s, w, dir, name) {
      var p := Path(dir, name);
      assert RecordAt(s.manifests, p) == Some(s.manifests[dir][name]);
      assert RecordAt(s.manifests, p) == Expected(s, p);
    }
    forall id | id in s.entities ensures EntityClean(s, w, id) {
    }
  }

  /**
    Where nothing but managed files exists, silence means that the bound paths are the managed
    files, bindings and active entities are in bijection, every hash is the file's, and the
    records of managed files equal the registry up to the commit.
   */
  lemma CleanMeans(s: Store, w: World)
    requires Clean(s, w) && forall p :: p in w.files ==> p in w.managed
    ensures forall p :: p in s.paths <==> p in w.managed
    ensures PathsLead(s) && EntitiesBound(s)
    ensures forall p :: p in s.paths ==> HashRight(s, w, p)
    ensures forall p :: p in w.managed && RecordAt(s.manifests, p).Some? && Expected(s, p).Some? ==>
      RecordAt(s.manifests, p).value == Expected(s, p).value.(gitSha := RecordAt(s.manifests, p).value.gitSha)
    ensures forall p :: p in w.managed ==> RecordAt(s.manifests, p).Some? && Expected(s, p).Some?
  {
    forall p | p in w.managed
      ensures p in s.paths && Live(s, p) && s.entities[s.paths[p]].currentPath == p && HashRight(s, w, p)
      ensures RecordAt(s.manifests, p).Some? && Expected(s, p).Some?
    {
      assert FileClean(s, w, p);
    }
    forall id | id in s.entities && s.entities[id].status == Active
      ensures s.entities[id].currentPath in s.paths && s.paths[s.entities[id].currentPath] == id
    {
      assert EntityClean(s, w, id);
    }
    forall p | p in w.managed
      ensures RecordAt(s.manifests, p).value == Expected(s, p).value.(gitSha := RecordAt(s.manifests, p).value.gitSha)
    {
      assert FileClean(s, w, p);
    }
  }

  // ---------------------------------------------------------------------------
  // The conditions, one by one
  // ---------------------------------------------------------------------------

  ghost predicate Exists(w: World, p: Path) {
    p in w.managed || p in w.files
  }

  /** What the record of a managed file must show. */
  ghost predicate Faithful(s: Store, w: World, p: Path, id: Id)
    requires p.dir in s.manifests && id in s.entities
  {
    && p.name in s.manifests[p.dir] && p in w.files
    && var r := s.manifests[p.dir][p.name];
       var e := s.entities[id];
       && r.entityId == id && r.status == Active && e.status == Active && e.currentPath == p
       && r.createdAt == e.createdAt && r.updatedAt == e.updatedAt && r.revision == e.revision
       && r.contentHash == w.files[p] && e.contentHash == w.files[p]
  }

  /** No error: every managed file is bound and recorded, and nothing that does not exist is. */
  lemma CleanIff(s: Store, w: World)
    ensures Clean(s, w) <==>
      && (forall p :: p in w.managed ==>
            p.dir in s.manifests && p in s.paths && s.paths[p] in s.entities && Faithful(s, w, p, s.paths[p]))
      && (forall p :: p in s.paths ==> Exists(w, p))
      && (forall p, q :: p in s.paths && q in s.paths && p != q ==> s.paths[p] != s.paths[q])
      && (forall dir, name :: dir in s.manifests && name in s.manifests[dir] && (exists p :: p in w.managed && p.dir == dir) ==>
            Exists(w, Path(dir, name)) && s.manifests[dir][name].entityId in s.entities)
      && (forall id :: id in s.entities && s.entities[id].status == Active ==>
            var p := s.entities[id].currentPath; Exists(w, p) && p in s.paths && s.paths[p] == id)
  {
    forall p | p in w.managed && p.dir in s.manifests
      ensures FileClean(s, w, p) <==> p in s.paths && s.paths[p] in s.entities && Faithful(s, w, p, s.paths[p])
    {
    }
    forall dir, name | dir in s.manifests && name in s.manifests[dir]
      ensures ManifestClean(s, w, dir, name) <==> Exists(w, Path(dir, name)) && s.manifests[dir][name].entityId in s.entities
      ensures Managed(w, dir) <==> exists p :: p in w.managed && p.dir == dir
    {
    }
    forall id | id in s.entities
      ensures EntityClean(s, w, id) <==> (s.entities[id].status == Active ==>
        var p := s.entities[id].currentPath; Exists(w, p) && p in s.paths && s.paths[p] == id)
    {
    }
    hide FileClean, EntityClean, ManifestClean, Faithful, Managed;
  }
}
