# Verification of werkstatt

werkstatt evolves, certifies and deploys sites from components. Much of what it guarantees rests
on a few pieces of state, graph and encoding logic inside it. This project models those pieces in
Dafny and proves what they promise, for every input, every graph and every run.

- **Canonical JSON** (`Text`, `Unicode`, `Json`, `JsonReader`, `JsonWriter`, `Walk*`, `Snapshot`,
  `Canonical`): the bounded profile of RFC 8785 behind every identity hash. A decoder shows that the
  encoding is injective up to key order; the traversal of a caller's object graph, which may be
  shared or cyclic, always answers and succeeds exactly on trees within the limits; the bytes
  measured at snapshot time are the bytes encoded later.
- **Component resolution** (`Graphs`, `CycleFinder`, `Kahn`, `Lists`, `Listing`, `Manifests`, `Resolver`,
  `ResolverOrder`, `ResolverLaws`) and the **action-pack sorter** (`TaskSort`, `TaskOrder`,
  `ActionPack`, `ActionPackLaws`): cycle search, Kahn's algorithm with a sorted queue and depths, a recursive sort,
  independence of input order, and what is refused, resolved and hashed in terms of the input alone.
- **Integrity update** (`Registry`, `UpdateRules`, `UpdateAgrees`, `UpdateLimits`, `Integrity`,
  `IntegrityVerify`): one pass over three indexes makes them agree with each other and with the
  files; exactly when it does not is proved too.
- **Fibers, effects and activation** (`Lifecycle`, `Effects`, `EffectRegistry`, `DisposalRuns`,
  `Quiescence`, `RuntimeLaws`, `Fiber`, `Activation`, `ActivationLaws`, `ActivatedFibers`):
  handlers under any calls and failures, the run/drain/dispose protocol as a state machine, and the
  activation transaction.
- **Evolution reducer** (`Evolution`, `EvolutionLog`, `EvolutionLaws`) and the **Bordbuch ledger**
  (`Bordbuch`, `BordbuchChain`, `BordbuchRepair`, `BordbuchLaws`): logs whose derived state must match
  them, what evidence each stage takes, the changes a hash chain finds, and the repair that rewrites it.
- **Certification** (`Certification`, `CertificationLaws`, `CertificationRules`), the **telemetry history** (`Telemetry`)
  and the **rate limiter** (`RateLimit`).

Code that changes state is modelled by classes and loops proved against functions; the properties
are lemmas about those functions. Hashes are parameters, and collision-freedom is a hypothesis where
it is needed. Callbacks, drains and unwinds succeed or fail as an arbitrary oracle says.

## Where the code falls short of its promise

The model follows the code. Where that makes a property false, the project proves the exact
condition under which it holds, and mostly names an input on which it does not.

- A tilde range ignores the patch of its base (`Manifests.TildeIsInterval`).
- Two failing requirements whose ids normalise to one task id lose a task
  (`ActionPack.NoTaskLostIff`; for instance `ActionPack.CollidingTaskIsLost`).
- Given that reported deletions and rename sources are no longer managed and no source is renamed
  twice, an integrity update ends in agreement iff no managed path reported as added and no rename
  target is bound already, and every move inferred from content hashes takes along the entity bound
  where it starts (`UpdateLimits.AgreesIff`). The first fails when an update is repeated before a commit
  (`UpdateLimits.SecondPassBreaks`), the last when a retired entity still names a path that was deleted
  and added again (`UpdateLimits.AgreesIffInferredRight`, `UpdateLimits.ShadowRevived`). A deletion or
  rename source that is still managed loses its binding (`UpdateAgrees.AgreesIffOldPathsUnmanaged`);
  without moves it is harmless exactly when the path is reported as added too
  (`UpdateLimits.AgreesWithoutMovesIff`).
- A transactional effect ends up both aborted and committed iff an abort or a disposal succeeds before
  the prepared transaction is committed, and a commit follows (`Effects.BothIff`; for instance
  `Effects.AbortThenCommit`). An emission, or a compensatable effect, that was reported as
  aborted takes place all the same iff an abort comes before any successful commit and such a commit
  follows (`Effects.EffectiveAfterAbortIff`).
- Not every effect a fiber accepts is disposed, although the report may be clean: one is iff its id's
  turn is still to come when it is registered, and nothing else is registered under the id before the
  turn (`DisposalRuns.ForgottenIff`, `DisposalRuns.AllClearedIff`); for instance, one registered under a
  new id while the disposer of another is awaited is lost (`DisposalRuns.RegisteredDuringDisposal`).
  A dispose that is called while another is running leads to no handler being disposed twice, whatever
  happens short of registrations and further calls, iff none that is registered has had its turn or has
  it to come (`DisposalRuns.OverlapHarmlessIff`), and it rejects iff the other ends before its turns do (`EffectRegistry.RejectsIff`).
- A drain that reports drained is right for good iff the fiber was active or later and no operation's
  execute had still to return: one that drains its own fiber before its first await is recorded, and
  runs, afterwards (`Quiescence.DrainedForeverIff`). Two operations under one id hide each other from
  a drain (`Quiescence.FalselyDrainedIffIdTaken`).
- A transaction commits over a prior fiber that was never drained iff nothing obstructs the commit and
  some prior fiber is busy in a phase that cannot move to draining (`Activation.CommitsUndrainedIff`;
  for instance `Activation.CommittedOverBusyFiber`).
- The kill switch logs its own record as a move of a candidate called kill-switch: about that id the
  log is right iff the switch has not been pulled (`EvolutionLog.KillSwitchToldIff`;
  for instance `EvolutionLog.KillSwitchIdIsMistold`).
- Ledger metadata that mentions `erratumOf` gets a hash that fails validation once the entry is read
  back (`BordbuchChain.AppendKeepsLinkedIff`, `BordbuchChain.MetadataBreaksHash`). A repair is written,
  cannot be parsed and is not undone iff it takes the ledger past 999,999 entries or inserts an open
  with an empty, malformed or non-string value from its options (`BordbuchRepair.RepairReadableIff`;
  for instance `BordbuchRepair.BadActorIsUnreadable`).

## Model

| member | source | states |
|---|---|---|
| JsonReader.DecodeEncode | src/fingerprint/canonical-json.ts:692-731 | A decoder recovers every accepted value from its encoding, with the keys of every object sorted |
| JsonReader.EncodeInjective | src/fingerprint/canonical-json.ts:692-731 | Two accepted values have one encoding iff they are equal up to key order at every level |
| JsonReader.DecodesCanonicalOnly | src/fingerprint/canonical-json.ts:692-731 | The decoder, written in literal code units, accepts nothing but canonical text: whatever it decodes is the encoding of what it decodes to |
| JsonReader.LiteralReads | src/fingerprint/canonical-json.ts:157-208 | A string literal reads back as the string, holds no unit below 0x20, and escapes exactly where section 3.2.2.2 of RFC 8785 asks for it, in the shortest form |
| Canonical.BytesIdentify | src/fingerprint/canonical-json.ts:670-731 | The same for the UTF-8 bytes: no two texts the encoder produces share their bytes |
| Canonical.HashIdentifies | src/fingerprint/canonical-json.ts:683-690 | With a collision-free byte hash, equal hashes mean equality up to key order |
| Canonical.BytesRead | src/fingerprint/canonical-json.ts:670-681 | A strict UTF-8 and canonical JSON reader recovers the snapshot from its bytes |
| Canonical.EncodersAgree | src/fingerprint/canonical-json.ts:253-282 | Whatever a successful traversal emitted is the encoding of any detached copy of the input |
| Canonical.SnapshotObject | src/fingerprint/canonical-json.ts:253-282 | Succeeds iff the root is a plain object, no object is reached twice, and every limit holds; then the result is a copy fit for encoding; a refusal names a value that breaks the rule |
| Canonical.CanonicalJsonBytes | src/fingerprint/canonical-json.ts:670-681 | For every snapshot the encoder does not throw, stays within the byte limit checked at snapshot time, and its bytes decode to the snapshot with sorted keys |
| Canonical.BuildDetached | src/fingerprint/canonical-json.ts:586-598 | The loops build a copy of the graph, property by property in their own order |
| WalkSpec.WalkIff | src/fingerprint/canonical-json.ts:284-586 | The walk succeeds iff the input unfolds to a finite value within every limit and meets no object twice |
| WalkReach.DistinctIffTree | src/fingerprint/canonical-json.ts:284-299 | An unfolding meets no object twice iff no object is reached along two paths, cycles included |
| WalkReach.WalkSucceedsIffTree | src/fingerprint/canonical-json.ts:284-299 | The walk from a root succeeds iff the reachable part is a tree within the limits |
| WalkBlame.WalkBlames | src/fingerprint/canonical-json.ts:284-584 | The code and path of a failure lead to a value of the caller's graph that breaks that rule |
| Snapshot.Traversal.TraverseValue | src/fingerprint/canonical-json.ts:473-584 | Follows the specified walk: same node count, same visited set, same text appended, same failure |
| Snapshot.Traversal.TraverseObject | src/fingerprint/canonical-json.ts:284-402 | The same for objects: limits, alias check, key checks, sorted keys |
| Snapshot.Traversal.TraverseArray | src/fingerprint/canonical-json.ts:406-471 | The same for arrays: limits, alias check, holes, items in order |
| Snapshot.PushPathTruncates | src/fingerprint/canonical-json.ts:604-616 | Pushing a segment and going on truncates like cutting the whole path at 64 segments |
| JsonWriter.EncodeValue | src/fingerprint/canonical-json.ts:692-731 | Appends the canonical text of the value, and throws on nothing a snapshot holds |
| JsonWriter.EscapeString | src/fingerprint/canonical-json.ts:157-208 | Throws iff a high surrogate is unpaired; otherwise the body between the quotes reads back as the string, by a reader that refuses raw control units and any escape that is not the due one |
| JsonWriter.SerializeNumber | src/fingerprint/canonical-json.ts:135-155 | Throws on negative zero, non-finite numbers and unsafe integers, otherwise writes a text that reads back as the number |
| Unicode.HasLoneSurrogate | src/fingerprint/canonical-json.ts:98-111 | True iff the string is not a sequence of Unicode scalar values, that is, iff some surrogate has no partner next to it |
| Unicode.WellFormedIff | src/fingerprint/canonical-json.ts:98-111 | A string is well-formed iff every high surrogate stands before a low one and every low one after a high one |
| Unicode.DecodeUtf8Encoded | src/fingerprint/canonical-json.ts:113-119 | The UTF-8 encoding, decoded by the table of RFC 3629, gives the text back with a replacement character for each unpaired surrogate |
| Unicode.SurvivesIff | src/fingerprint/canonical-json.ts:113-119 | It gives back the very text iff the text is well-formed |
| Text.CompareJcsKeys | src/fingerprint/canonical-json.ts:121-129 | The sign of the result is the lexicographic order by code unit: the first unit that differs decides, and a proper prefix comes first |
| Text.LessIff | src/fingerprint/canonical-json.ts:121-129 | One text comes before another iff at the first place where they differ its unit is smaller, or it ends there |
| Text.StableSortUnique | src/component/identity.ts:12-18 | A sort is fixed by key order and the relative order within each key |
| CycleFinder.DetectCycle | src/component-runtime/resolver.ts:95-141 | A reported path is a closed walk along real edges; no report means the graph is acyclic |
| CycleFinder.Search.Dfs | src/component-runtime/resolver.ts:117-133 | A visit finishes its vertex and restores the path, or has found a closed walk |
| CycleFinder.BuildAdjacency | src/component-runtime/resolver.ts:99-105 | Each id maps to the targets of its edges in order |
| Kahn.TopologicalSort | src/component-runtime/resolver.ts:143-193 | For distinct ids: no order iff there is a cycle; otherwise the lexicographically least topological order and the length of the longest path; terminates on repeated ids too |
| Graphs.GreedyIsLeast | src/component-runtime/resolver.ts:171-185 | Taking the least available vertex each time gives the least of all topological orders |
| Graphs.LeastOrderUnique | src/component-runtime/resolver.ts:143-193 | The least order depends on the graph alone |
| Graphs.NoSourceCyclic | src/component-runtime/resolver.ts:187-189 | A set of vertices each with a predecessor in it contains a cycle |
| Manifests.CaretIsInterval | src/component-runtime/resolver.ts:55-65 | A caret range is the interval from its base up to the next major version |
| Manifests.TildeIsInterval | src/component-runtime/resolver.ts:66-73 | A tilde range is the whole minor version of its base, older patches included |
| Manifests.FindProviders | src/component-runtime/resolver.ts:80-93 | All provides of the capability, in the order of the manifests |
| Manifests.LinkIsTheOnlySupplier | src/component-runtime/resolver.ts:294-307 | A link leads to a manifest that meets the requirement, and to the only one |
| Manifests.NoSupplier | src/component-runtime/resolver.ts:263-292 | Skipped or failed with 04 or 05 iff nothing meets the requirement |
| Manifests.MatchPermute | src/component-runtime/resolver.ts:260-309 | The outcome of a match does not depend on the order of the manifests |
| Resolver.Resolve | src/component-runtime/resolver.ts:195-401 | The first failing phase reports exactly its violations; for distinct ids success iff no faults and no cycle, every violation 07 carries a closed walk, and the set holds the least order and the payload hashes |
| Resolver.MatchRequirements | src/component-runtime/resolver.ts:258-309 | The loops collect the specified edges and violations |
| Resolver.CheckGrants | src/component-runtime/resolver.ts:239-253 | One violation per requested grant whose key is not admitted (in terms of scope and resource: ResolverLaws.FirstFaultsAre) |
| Resolver.CheckArtifacts | src/component-runtime/resolver.ts:216-234 | One violation per manifest whose artifact is absent or differs |
| Resolver.ValidateManifests | src/component-runtime/resolver.ts:198-211 | One violation per defect of a manifest |
| ResolverOrder.OrderIrrelevant | src/component-runtime/resolver.ts:195-401 | Permuting the desired manifests changes neither status nor component order, set hash, edge count and depth; violations before the cycle check are the same up to order |
| ResolverOrder.PayloadsPermute | src/component/identity.ts:113-159 | The sorted payloads of the graph, grant, effect and isolation hashes are the same for every order of the manifests |
| ResolverOrder.RequirementsMet | src/component-runtime/resolver.ts:258-309 | In a resolved set a mandatory requirement has one supplier and an optional one at most one |
| ResolverOrder.DependentsFirst | src/component-runtime/resolver.ts:304-307 | In a resolved set every component is listed before those it depends on |
| ResolverLaws.MatchIs | src/component-runtime/resolver.ts:40-309 | From versions, ranges, capabilities and schema hashes: skipped or 04 when nothing offers the capability, 05 when no offer meets the requirement, 06 when two do, else a link to the one that does |
| ResolverLaws.FirstFaultsAre | src/component-runtime/resolver.ts:198-312 | What is reported is one violation per fault of the input, manifest by manifest, in order, of the first phase that finds any |
| ResolverLaws.AdmittedPair | src/component-runtime/resolver.ts:239-243 | For scopes without a colon a grant is admitted iff its scope and resource are among the admitted pairs |
| ResolverLaws.EdgesAre | src/component-runtime/resolver.ts:304-307 | The edges are the dependencies on another component that is the only one to meet a requirement, in order |
| ResolverLaws.ResolvesIff | src/component-runtime/resolver.ts:195-401 | For distinct ids a set resolves iff every manifest is valid, its artifact present with its hash, each of its grants admitted, each of its requirements met once or optional and unmet, and the dependencies have no cycle |
| ResolverLaws.CycleIsReported | src/component-runtime/resolver.ts:311-325 | An admissible set that is blocked draws one violation 07, which carries a cycle of its dependencies and names where it starts |
| ResolverLaws.ComponentsAre | src/component-runtime/resolver.ts:337-353 | The components are those desired, each once, with their own version and artifact hash |
| ResolverLaws.SetHashIdentifies | src/component/identity.ts:54-159 | With collision-free digests, resolved sets with one hash have the same profile, components, versions, artifacts, dependencies, grants, and policies or effects and isolation |
| ResolverLaws.PayloadsSorted | src/component/identity.ts:54-159 | Each list is hashed in the order of its key, and a policy hash that is given is taken as it is |
| TaskSort.SortTasksCorrect | src/certification/action-pack.ts:34-66 | The sort fails iff the tasks' dependency graph has a cycle; otherwise every task is listed once, after its in-pack dependencies |
| TaskSort.Sorter.VisitId | src/certification/action-pack.ts:43-58 | The recursion with its marks computes the specified visit |
| TaskSort.TopologicalSort | src/certification/action-pack.ts:34-66 | Ties the loops to the sort, whose result is a function of the map of tasks |
| TaskSort.ResultUnique | src/certification/action-pack.ts:60-65 | The result depends on the map of tasks alone |
| TaskSort.PackCycles | src/certification/action-pack.ts:48-53 | Absent dependency ids take part in no cycle |
| ActionPack.BuildActionPack | src/certification/action-pack.ts:68-152 | Faulty remediation is refused first, then more than 1000 tasks, then a cycle; otherwise the pack lists every task after its dependencies |
| ActionPack.PackIsPermutation | src/certification/action-pack.ts:144-151 | For distinct task ids the pack is a permutation of the tasks of the failing requirements |
| ActionPack.NoTaskLostIff | src/certification/action-pack.ts:37-38 | No task is lost iff no two failing requirements share a task id |
| ActionPack.CollidingTaskIsLost | src/certification/action-pack.ts:37-38 | Where `a.b` and `a-b` both fail and can be remedied, the pack is built and has one task for the two |
| ActionPack.OrderIrrelevant | src/certification/action-pack.ts:68-152 | For distinct task ids the answer does not depend on the order of the requirements |
| TaskOrder.PackOrder | src/certification/action-pack.ts:43-65 | The pack is in the order in which each next task is reached from the least id not yet listed by the first dependencies not yet listed |
| ActionPackLaws.BuildsIs | src/certification/action-pack.ts:68-152 | From the input: which requirements lack remediation, the limit of 1000, the cycle among the dependencies of the remediation metadata; otherwise a task for the last failing requirement with each id, carrying its metadata, after all it depends on |
| ActionPackLaws.TaskIdIs | src/certification/action-pack.ts:111 | A task id is `act-` and the requirement id, unit by unit lower-cased and cleaned |
| Integrity.Indexes.RunUpdate | src/integrity/run-update.ts:268-366 | The new indexes are the specified pass over candidate lists in some order; it fails only on an unreadable managed file; under the preconditions it succeeds and the indexes agree |
| Integrity.Indexes.Move | src/integrity/run-update.ts:121-173 | Entity, binding, both manifests and the move history after a move |
| Integrity.Indexes.Delete | src/integrity/run-update.ts:175-203 | Entity, binding, manifest and deleted log after a deletion |
| Integrity.Indexes.Add | src/integrity/run-update.ts:205-237 | A fresh entity, its binding and its record; fails iff the file cannot be read |
| Integrity.Indexes.Modify | src/integrity/run-update.ts:239-266 | Hash, times, commit and revision of a changed file, and its record |
| Integrity.Indexes.MakePlan | src/integrity/run-update.ts:285-304 | The three candidate lists hold exactly the paths the filters select |
| Integrity.FindMoves | src/integrity/move-detection.ts:25-61 | Matches added files with deleted paths by content hash, the last deleted path winning |
| UpdateRules.PlanIs | src/integrity/run-update.ts:285-304 | Which paths are candidates for deletion, addition and modification, from bindings, changes, managed files and hashes |
| UpdateRules.MoveIs | src/integrity/run-update.ts:121-173 | What a move writes: path, status, commit, history entry, hash, time and revision of the entity, its binding and its record, and nothing else |
| UpdateRules.DeleteIs | src/integrity/run-update.ts:175-203 | What a deletion writes: the status, the log line with path, revision and hash, no binding and no record any more |
| UpdateRules.AddIs | src/integrity/run-update.ts:205-237 | What an addition writes: a fresh entity at revision 1 with paths, times, commit and hash, its binding and its record |
| UpdateRules.ModifyIs | src/integrity/run-update.ts:239-266 | What a modification writes: hash, time, commit and one revision more, and the record; nothing when the hash is the same |
| UpdateRules.RenamesAre | src/integrity/run-update.ts:309-317 | The renames followed are those from a bound path to a managed one, in order |
| UpdateRules.DetectedAre | src/integrity/move-detection.ts:25-61 | Each added file, in order, moves the entity first named at the last deleted path with its content, if any |
| UpdateAgrees.MovePasses | src/integrity/run-update.ts:121-173 | A move keeps the indexes consistent and touches nothing else |
| UpdateAgrees.DeletePasses | src/integrity/run-update.ts:175-203 | So does a deletion |
| UpdateAgrees.AddPasses | src/integrity/run-update.ts:205-237 | So does an addition |
| UpdateAgrees.ModifyPasses | src/integrity/run-update.ts:239-266 | So does a modification, which brings the hash up to date |
| UpdateAgrees.InferredFrom | src/integrity/move-detection.ts:36-57 | An inferred move leads from a deleted path, by the first entity that names it, to an added one |
| UpdateAgrees.InferredRightWithoutShadows | src/integrity/move-detection.ts:36-41 | Where no retired entity names a bound path, that is the entity bound there |
| UpdateAgrees.UpdateAgrees | src/integrity/run-update.ts:268-366 | One pass ends with bound paths equal to managed files, bindings and active entities in bijection, every hash the file's, every record the registry's |
| UpdateAgrees.AgreesIffOldPathsUnmanaged | src/integrity/run-update.ts:290-293 | With new paths unbound and inferred moves right, it does so iff reported deletions and rename sources are unmanaged |
| UpdateLimits.AgreesIff | src/integrity/run-update.ts:268-366 | With old paths unmanaged and no source renamed twice, it does so iff added paths and rename targets are unbound and every inferred move takes along the entity bound where it starts |
| UpdateLimits.AgreesIffInferredRight | src/integrity/run-update.ts:332-342 | With old paths unmanaged and new ones unbound, it does so iff the inferred moves do that |
| UpdateLimits.AgreesIffAddedUnbound | src/integrity/run-update.ts:295-298 | With old paths unmanaged, rename targets unbound and no shadows, it does so iff no managed path reported as added is bound |
| UpdateLimits.AgreesIffTargetsUnbound | src/integrity/run-update.ts:309-324 | With old paths unmanaged, added paths unbound and no shadows, it does so iff no rename target is bound |
| UpdateLimits.AgreesWithoutMovesIff | src/integrity/run-update.ts:282-352 | Without renames and inferred moves it does so iff each bound and managed path is reported as added exactly when it is reported as deleted |
| UpdateLimits.RenamedOntoBreaks | src/integrity/run-update.ts:319-324 | A file renamed onto a bound path leaves the entity that was bound there active but unbound |
| UpdateLimits.WrongMoveBreaks | src/integrity/run-update.ts:332-337 | An inferred move of another entity leaves the one bound where it starts active but unbound |
| UpdateLimits.AddedAgainBreaks | src/integrity/run-update.ts:344-347 | A bound path reported as added leaves an active entity that is bound nowhere |
| UpdateLimits.SecondPassBreaks | src/integrity/run-update.ts:268-366 | An update repeated while a file is still reported as added undoes the agreement |
| UpdateLimits.ReaddedPathIsShadowed | src/integrity/run-update.ts:188-189 | A path deleted and added again is still named by its retired entity |
| UpdateLimits.UpdateKeepsHistory | src/integrity/run-update.ts:319-352 | Whatever is reported, no entity, revision, move or log line is lost, and every change of content raises the revision |
| IntegrityVerify.VerifyIntegrity | src/integrity/verify.ts:236-419 | No error is reported iff the structural conditions hold |
| IntegrityVerify.CheckBindings | src/integrity/verify.ts:251-278 | An error iff a bound path is neither managed nor present, or two paths share an entity |
| IntegrityVerify.CheckFile | src/integrity/verify.ts:280-359 | An error iff binding, entity, record or hash of a managed file is wrong |
| IntegrityVerify.CheckManifest | src/integrity/verify.ts:361-392 | An error iff a record's file is gone or its entity unknown |
| IntegrityVerify.CheckEntities | src/integrity/verify.ts:394-419 | An error iff an active entity's file is gone or its path is not bound to it |
| IntegrityVerify.AgreeingIsClean | src/integrity/verify.ts:251-419 | Indexes that agree pass every structural check |
| IntegrityVerify.CleanMeans | src/integrity/verify.ts:251-419 | Where only managed files exist, passing means bijection, right hashes and records equal up to the commit |
| IntegrityVerify.CleanIff | src/integrity/verify.ts:251-419 | The structural conditions one by one: managed files are bound and recorded with the right hash, bound and recorded paths exist, no two paths share an entity, active entities are where they say |
| Lifecycle.LifecycleMachine.TransitionTo | src/component-runtime/lifecycle.ts:100-119 | The phase changes iff the table allows it |
| Lifecycle.NeverActiveAgain | src/component-runtime/lifecycle.ts:14-24 | Past active no series of attempts leads back |
| Lifecycle.TerminalIffStuck | src/component-runtime/lifecycle.ts:75-77 | The terminal phases are those nothing leads out of |
| Lifecycle.AllowedIff | src/component-runtime/lifecycle.ts:14-90 | The table as pairs: each phase leads to the next, a live one may fail, and from active to unloading or from failed it may be quarantined |
| Effects.RevertibleEffectHandler.Handle | src/component-runtime/effects.ts:40-84 | Every method of the handler, under either fate of its callback |
| Effects.TransactionalEffectHandler.Handle | src/component-runtime/effects.ts:86-163 | The same for transactional effects |
| Effects.CompensatableEffectHandler.Handle | src/component-runtime/effects.ts:165-232 | The same for compensatable effects |
| Effects.IrreversibleEmissionEffectHandler.Handle | src/component-runtime/effects.ts:234-290 | The same for irreversible emissions |
| Effects.AfterCounts | src/component-runtime/effects.ts:40-290 | After any calls the flags count the successful callbacks, none of which happens twice |
| Effects.CleanDisposeLeavesNothing | src/component-runtime/effects.ts:40-290 | After any calls a dispose is clean iff nothing of the effect is left: reverted once, committed or aborted, net zero, emitted at most once |
| Effects.DisposeIsIdempotent | src/component-runtime/effects.ts:70-83 | A handler disposed cleanly is not changed by further disposals |
| Effects.BothIff | src/component-runtime/effects.ts:86-163 | After any series of calls a transaction is both aborted and committed iff an abort succeeded before any commit of the prepared transaction and such a commit followed |
| Effects.ExclusiveStepIff | src/component-runtime/effects.ts:121-135 | A transaction becomes both aborted and committed iff an aborted, prepared one is committed successfully |
| Effects.ExclusiveWhenOrderly | src/component-runtime/effects.ts:86-163 | Callers that never commit after an abort never see that |
| Effects.EffectiveAfterAbortIff | src/component-runtime/effects.ts:165-290 | An emission or a compensatable effect reported as aborted has taken place after all iff an abort came before any successful commit and such a commit followed |
| Effects.AbortThenCommit | src/component-runtime/effects.ts:121-135 | prepare, abort, commit ends both aborted and committed |
| Effects.ReportIsEither | src/component-runtime/effects.ts:331-339 | A report is a success iff it is not quarantined |
| Fiber.ComponentFiber.Dispose | src/component-runtime/fiber.ts:159-226 | When nothing else runs while it awaits: every registered handler is disposed once, the last registered first, the report lists the outcomes in that order, the phase moves on; after the end of a disposal it does nothing |
| Fiber.ComponentFiber.CallDispose | src/component-runtime/fiber.ts:159-172 | The part up to the first await; it returns at once iff a disposal has ended |
| Fiber.ComponentFiber.SnapshotEffects | src/component-runtime/fiber.ts:178-179 | After the children, the ids to dispose are those registered by then, in reverse |
| Fiber.ComponentFiber.TakeTurn | src/component-runtime/fiber.ts:181-199 | What is registered under the id by then is disposed and its outcome reported; where nothing is, dispose rejects |
| Fiber.ComponentFiber.EndDispose | src/component-runtime/fiber.ts:201-225 | Every effect is dropped, the fiber disposed, and the report is that of the turns taken |
| Fiber.CleanUnwindIff | src/component-runtime/fiber.ts:178-226 | The report of an undisturbed disposal is clean iff it leaves nothing of any registered effect |
| Fiber.ComponentFiber.RegisterEffect | src/component-runtime/fiber.ts:63-70 | Refused iff the fiber is disposed; otherwise the handler is registered as Map.set does |
| EffectRegistry.SetEffectPlaces | src/component-runtime/fiber.ts:69 | A new id is registered last, a known one replaces its handler in place |
| EffectRegistry.RegisteredAre | src/component-runtime/fiber.ts:63-70 | After any series of registrations exactly the last one for each id is kept |
| EffectRegistry.DisposalTakesSnapshot | src/component-runtime/fiber.ts:179-199 | In every run, overlaps and registrations included, a disposal takes one turn for each id of its snapshot, the last registered first |
| EffectRegistry.RejectsIff | src/component-runtime/fiber.ts:181-203 | A disposal rejects at its next turn iff another has ended in the meantime |
| DisposalRuns.ForgottenIff | src/component-runtime/fiber.ts:63-70 | Of different handlers, in every run of one disposal to its end, an accepted one is disposed iff its id has its turn still to come and nothing else is registered under it before |
| DisposalRuns.ForgottenAmongOverlapsIff | src/component-runtime/fiber.ts:63-70 | With overlapping disposals: iff a turn of its id comes before another registration under it and before the end of any |
| DisposalRuns.LateIsLost | src/component-runtime/fiber.ts:179-202 | An effect registered under an id that has no turn to come is accepted and never disposed |
| DisposalRuns.AllClearedIff | src/component-runtime/fiber.ts:159-226 | Nothing is left of any accepted effect iff the report is clean and every one of them comes to its turn |
| DisposalRuns.OncePerDisposal | src/component-runtime/fiber.ts:181-199 | No disposal disposes a handler twice |
| DisposalRuns.OverlapHarmlessIff | src/component-runtime/fiber.ts:159-202 | A second call while a disposal runs leads to no handler being disposed twice iff no registered one has had its turn or has it to come |
| Fiber.ComponentFiber.AdmitRun | src/component-runtime/fiber.ts:81-88 | Accepted iff the fiber is active; then execute is called |
| Fiber.ComponentFiber.RegisterRun | src/component-runtime/fiber.ts:88-91 | Once execute has returned the operation is in flight and recorded, whatever the phase is by then |
| Fiber.ComponentFiber.FinishRun | src/component-runtime/fiber.ts:93-100 | However the operation has ended, its id is deleted |
| Fiber.ComponentFiber.StartDrain | src/component-runtime/fiber.ts:103-115 | The synchronous part of a drain and when it reports drained |
| Fiber.ComponentFiber.PollDrain | src/component-runtime/fiber.ts:116-147 | One turn of the polling loop: drained only with no operation recorded, timed out only at the deadline |
| Quiescence.NothingAddedPastActive | src/component-runtime/fiber.ts:81-91 | Past active, with every execute returned, no operation is ever added |
| Quiescence.NothingAddedIff | src/component-runtime/fiber.ts:81-91 | In every state past active that can be reached: none will be added iff no execute has still to return |
| Quiescence.UndisturbedAddsNothing | src/component-runtime/fiber.ts:81-91 | Where no execute makes its own fiber leave active, leaving active is enough |
| Quiescence.AlwaysTracked | src/component-runtime/fiber.ts:87-101 | With distinct ids every execution in flight is the one recorded under its id |
| Quiescence.DrainedStaysDrained | src/component-runtime/fiber.ts:103-148 | In every interleaving with distinct ids in which no execute makes its own fiber leave active, a drain called in or past active that reports drained is right, then and in every later state |
| Quiescence.DrainedForeverIff | src/component-runtime/fiber.ts:81-148 | In every interleaving with distinct ids, a report of drained is right in every continuation iff the fiber was active or later and no execute had still to return |
| Quiescence.FalselyDrainedIffIdTaken | src/component-runtime/fiber.ts:91-97 | In every active state reached with distinct ids, running an operation can lead to a report of drained while it is in flight iff its id was taken |
| RuntimeLaws.AdmitIs | src/component-runtime/fiber.ts:81-90 | A call is let in by an active fiber only |
| RuntimeLaws.CancelIs | src/component-runtime/fiber.ts:150-157 | A cancellation signals every recorded operation from active, draining and unloading, and none otherwise |
| RuntimeLaws.DisposeIs | src/component-runtime/fiber.ts:159-226 | A disposal unloads an active or draining fiber, cancels its operations, and ends disposed or quarantined as its report says |
| RuntimeLaws.DrainIs | src/component-runtime/fiber.ts:103-148 | A drain moves an active fiber only, polls if an operation is recorded, and reports drained with none recorded |
| Activation.OutcomeTruthful | src/component-runtime/activation.ts:93-191 | After any calls and failures: committed, aborted and quarantined mean what they say about drains, reports and fibers |
| Activation.PrepareTruth | src/component-runtime/activation.ts:93-134 | Prepare activates every new fiber or puts all of them away |
| Activation.CommitTruth | src/component-runtime/activation.ts:136-169 | Commit drains and unwinds every prior fiber or ends aborted or quarantined |
| Activation.AbortTruth | src/component-runtime/activation.ts:171-191 | Abort puts every new fiber away or records the quarantine |
| Activation.ActivationTransaction.PrepareFibers | src/component-runtime/activation.ts:93-134 | The loops compute the specified preparation |
| Activation.ActivationTransaction.CommitFibers | src/component-runtime/activation.ts:136-169 | The loops compute the specified commit |
| Activation.ActivationTransaction.AbortFibers | src/component-runtime/activation.ts:171-191 | The loop computes the specified abort |
| Activation.CommitsIff | src/component-runtime/activation.ts:136-169 | A prepared transaction commits iff no prior fiber times out in draining or fails to unwind |
| Activation.CommittedDrainedIff | src/component-runtime/activation.ts:146-155 | A commit was over drained fibers iff no prior fiber was busy in a phase that cannot move to draining |
| Activation.CommittedRunDrainedIff | src/component-runtime/activation.ts:93-191 | The same for the transaction at the end of any run |
| Activation.CommitsUndrainedIff | src/component-runtime/activation.ts:147-154 | A prepared transaction commits over an undrained fiber iff nothing obstructs and such a fiber is among the prior ones |
| ActivationLaws.PreparesIff | src/component-runtime/activation.ts:93-134 | Prepare succeeds iff every fiber is created as declared; the fibers stand in the order of id and version, and are active then |
| ActivationLaws.CommittedIs | src/component-runtime/activation.ts:136-169 | A commit that succeeds has drained every prior fiber and then disposed every one, each time the last first, and holds their answers in that order |
| ActivationLaws.DrainIs | src/component-runtime/fiber.ts:103-148 | A drain moves an active fiber only, and times out only there |
| ActivationLaws.DisposeIs | src/component-runtime/fiber.ts:159-226 | In which phase a dispose leaves a fiber, and that it reports quarantine iff the unwinding fails |
| ActivationLaws.ObstructsIff | src/component-runtime/activation.ts:146-166 | A fiber obstructs a commit iff its unwinding fails or it is active, busy and times out; it cannot be drained iff it is busy and not active |
| ActivatedFibers.DisposeViews | src/component-runtime/fiber.ts:159-226 | What a transaction takes for the disposal of a fiber is its disposal: the same phase and the same verdict |
| ActivatedFibers.VerdictIsLeftover | src/component-runtime/fiber.ts:178-226 | That verdict is quarantined iff disposal leaves something of a registered effect |
| ActivatedFibers.DrainViews | src/component-runtime/fiber.ts:103-148 | What it takes for a drain is the drain: the same move of the phase and the same answer |
| ActivatedFibers.DrainedInTransaction | src/component-runtime/activation.ts:146-155 | A fiber a transaction has drained, found in or past active with no execute still to return, has nothing in flight from then on |
| Evolution.EvolutionController.ApplyRequest | src/evolution/reducer.ts:42-157 | The rule that decides, and the candidate and the record that follow (in terms of the evidence: EvolutionLaws.JudgeIs, EvolutionLaws.RequestIs) |
| Evolution.EvolutionController.RegisterNew | src/evolution/reducer.ts:159-201 | Only a new id at stage defined is registered |
| Evolution.EvolutionController.PullKillSwitch | src/evolution/controller.ts:160-167 | Both switches go on together and one record is appended |
| Evolution.EvolutionController.Request | src/evolution/controller.ts:130-158 | The answer is that of the unknown candidate, of the first guard that stops it, or of the reducer; and the state that follows |
| Evolution.EvolutionController.DefineCandidate | src/evolution/controller.ts:91-128 | Refused for a forbidden scope, then for an id that exists; otherwise the candidate is defined |
| EvolutionLog.LogAndStateAgree | src/evolution/reducer.ts:42-226 | In every run a candidate's stage is the replay of its admitted records, its sequence numbers have no gaps, its admitted stages have the permitted shape, and request keys never repeat |
| EvolutionLog.MoveKeepsShape | src/evolution/contracts.ts:171-199 | The permitted moves extend forward stages, one roll-back before promotion, then quarantines only |
| EvolutionLog.PromotedPassedAllStages | src/evolution/contracts.ts:171-195 | A promoted candidate passed tested, shadowed and canary in order and was never rolled back |
| EvolutionLog.RunKeeps | src/evolution/reducer.ts:146-154 | Identity hashes never change, the log only grows, and after the kill switch no stage changes |
| EvolutionLog.FrozenLog | src/evolution/reducer.ts:47-53 | With the kill switch on only further kill-switch records are appended |
| EvolutionLog.KillSwitchToldIff | src/evolution/reducer.ts:203-226 | In every run the log and the state agree about the id kill-switch iff the switch has not been pulled |
| EvolutionLog.EveryIdToldIff | src/evolution/reducer.ts:42-226 | So they agree about every id iff it has not |
| EvolutionLaws.JudgeIs | src/evolution/reducer.ts:42-360 | The answer names the first of eight rules the request breaks, each stated over the log, the candidate and the fields of the evidence |
| EvolutionLaws.GuardsAre | src/evolution/guards.ts:39-200 | The guards name the first of ten conditions over the fields of the evidence that stops the request |
| EvolutionLaws.RequestIs | src/evolution/reducer.ts:42-270 | A request let through that breaks no rule moves its candidate and writes the record with its fields and its compensating action; one that lacks evidence is only noted; any other changes nothing |
| EvolutionLaws.StageChangesIff | src/evolution/reducer.ts:42-157 | In one step a candidate changes iff the step is such a request for it |
| EvolutionLaws.StageWasEarned | src/evolution/reducer.ts:272-360 | In every run a candidate beyond defined was brought to its stage by a request that was due, permitted and had earned it |
| EvolutionLaws.PromotionShows | src/evolution/reducer.ts:328-352 | In every run a promoted candidate got there from canary by a request with all five evaluations passed, canary exposure, every metric passed, no incident and no active kill switch |
| EvolutionLaws.DefineIs | src/evolution/controller.ts:91-128 | A candidate is defined for a scope outside the eight forbidden ones under a new id, with the hashes it was given |
| EvolutionLaws.CandidateIdIs | src/evolution/controller.ts:107 | The id is `cand-` and the first twelve digits of the artifact hash |
| EvolutionLaws.KillIs | src/evolution/reducer.ts:203-226 | The kill switch goes on and its record is written |
| Bordbuch.ValidateBordbuch | src/bordbuch/bordbuch-io.ts:240-345 | Reports exactly the faults of the entries in order, then one violation per unmatched open mission |
| Bordbuch.Ledger.Append | src/bordbuch/bordbuch-io.ts:161-232 | Which of the four answers is given, and that a failure leaves the ledger as it was |
| BordbuchChain.LinkedIffNoChainFault | src/bordbuch/bordbuch-io.ts:252-289 | No fault of id, link or hash iff the ledger is a chain |
| BordbuchChain.AppendKeepsLinkedIff | src/bordbuch/bordbuch-io.ts:203-223 | With a collision-free hash, appending keeps the chain valid iff no surviving metadata key is hashed only when appended |
| BordbuchChain.ProjectSameIff | src/bordbuch/bordbuch-io.ts:128-131 | One key more in the replacer changes the hashed text iff it occurs on a surviving level |
| BordbuchChain.AppendFitsIff | src/bordbuch/bordbuch-io.ts:133-139 | The entry fits the schema iff the ledger has fewer than 999,999 entries |
| BordbuchChain.MetadataBreaksHash | src/bordbuch/bordbuch-io.ts:128-131 | Metadata with the key erratumOf makes the entry fail validation |
| BordbuchChain.HeadHashFixesLedger | src/bordbuch/bordbuch-io.ts:264-289 | With a collision-free hash, chains that share their last hash are equal in everything hashed |
| BordbuchChain.DeprecatedKindAccepted | src/bordbuch/bordbuch-io.ts:276-281 | An entry hashed under the deprecated kind passes after migration |
| BordbuchLaws.HeadHashFixesFields | src/bordbuch/bordbuch-io.ts:128-289 | With a collision-free hash, migrated chains that share their last hash are equal position by position in every field, metadata up to members whose keys the replacer drops |
| BordbuchLaws.AcceptedInsteadIff | src/bordbuch/bordbuch-io.ts:271-287 | An entry that carries the hash of an accepted one is accepted iff it has the same fields |
| BordbuchLaws.TamperingIsReported | src/bordbuch/bordbuch-io.ts:271-287 | Changing any field of an entry of a chain, its hash left alone, is reported as a hash mismatch |
| BordbuchLaws.AcceptedIff | src/bordbuch/bordbuch-io.ts:128-287 | The hash accepted is that over every field of the entry, or of a release-ready entry as release-published |
| BordbuchLaws.FaultsAre | src/bordbuch/bordbuch-io.ts:252-325 | The faults are those of six rules stated over the entries, entry by entry and rule by rule, each once |
| BordbuchLaws.MissionsAre | src/bordbuch/bordbuch-io.ts:292-316 | A mission is open iff it was opened and neither closed nor aborted since |
| BordbuchLaws.UnmatchedAre | src/bordbuch/bordbuch-io.ts:327-344 | Unmatched are the open missions but for the current one |
| BordbuchLaws.AppendedIs | src/bordbuch/bordbuch-io.ts:203-223 | The appended entry has the next id, the last hash, the fields it was given, and a hash over them with thirteen keys listed |
| BordbuchLaws.AlreadyClosedIff | src/bordbuch/bordbuch-io.ts:187-200 | A close or an abort is a duplicate iff its mission has been closed or aborted before |
| BordbuchLaws.SchemaIff | src/bordbuch/bordbuch-io.ts:225 | An entry fits iff its id has six digits, its time is one, and no text is empty |
| BordbuchLaws.MergedIs | src/bordbuch/bordbuch-repair.ts:138-197 | The merge keeps every entry in order and puts an open right before each orphaned close or abort the filter lets pass |
| BordbuchLaws.OpenForIs | src/bordbuch/bordbuch-repair.ts:144-177 | The inserted open takes time, actor and summary from the operator, or the time of the close, agent and the standard summary |
| BordbuchRepair.Repair | src/bordbuch/bordbuch-repair.ts:100-281 | Which outcome is reached and what the ledger then holds; unreadable exactly when the repair is inadmissible, and, where only orphans are wrong and the repair is admissible, success exactly when the ledger is repairable |
| BordbuchRepair.RepairedValidIff | src/bordbuch/bordbuch-repair.ts:185-227 | The merged and rechained ledger is valid iff no mission is orphan-closed twice and none orphan-closed has an open elsewhere |
| BordbuchRepair.MergedMissions | src/bordbuch/bordbuch-repair.ts:185-197 | Inserted opens leave the open missions unchanged everywhere else |
| BordbuchRepair.RechainedLinked | src/bordbuch/bordbuch-repair.ts:199-211 | Rechaining yields a valid chain and changes only id, previous hash and hash |
| BordbuchRepair.OriginalsSurvive | src/bordbuch/bordbuch-repair.ts:185-211 | The original entries remain a subsequence up to id, previous hash and hash |
| BordbuchRepair.Merge | src/bordbuch/bordbuch-repair.ts:185-197 | The index-driven loops compute the merge |
| BordbuchRepair.Rechain | src/bordbuch/bordbuch-repair.ts:199-211 | The loop computes the rechaining in place |
| BordbuchRepair.CollectInsertions | src/bordbuch/bordbuch-repair.ts:138-177 | The lookups by event id find the orphaned closes in order |
| BordbuchRepair.RepairReadableIff | src/bordbuch/bordbuch-repair.ts:86-220 | The written ledger parses iff it keeps to 999,999 entries and what goes into an inserted open, strings or not, satisfies the entry schema |
| Certification.BuildEvidenceIndex | src/certification/evidence-selection.ts:74-98 | The index holds, per requirement, the admitted evidence in order |
| Certification.SelectRequirementEvidence | src/certification/evidence-selection.ts:120-220 | The running best and the checks compute the specified selection |
| Certification.AggregateStatus | src/certification/aggregation.ts:58-70 | Nothing is worse than the result, which is pass or one of the statuses |
| Certification.EvaluateCertificationDecision | src/certification/aggregation.ts:72-201 | Limits first; then the selections, the evidence listed once, the coverage and the worst mandatory status |
| CertificationLaws.StatusIsLatest | src/certification/evidence-selection.ts:150-219 | A requirement's status is that of the first evidence with the highest sequence |
| CertificationLaws.StatusWithoutEvidence | src/certification/evidence-selection.ts:127-171 | Without it the requirement is incomplete, or not applicable when optional |
| CertificationLaws.PassIff | src/certification/aggregation.ts:153-183 | For distinct ids: pass iff there is a mandatory requirement and the latest evidence of each is without error, not stale and not expired |
| CertificationLaws.CoverageAddsUp | src/certification/aggregation.ts:143-146 | Uncovered are exactly the mandatory requirements not satisfied, and covered the rest |
| CertificationLaws.IrrelevantEvidence | src/certification/evidence-selection.ts:77-98 | Evidence above the cut, unadmitted or for another candidate changes nothing within the limit |
| CertificationRules.SelectionAnswers | src/certification/evidence-selection.ts:74-220 | The answer to a requirement, from the list of evidence: the first of those with the highest sequence, failed on an error, else stale on a passed date, else passed; without any incomplete, or not applicable when optional |
| CertificationRules.DecisionIs | src/certification/aggregation.ts:72-201 | The limits of 1000 and 10000; an answer to each requirement; the uncovered ones in order; each selected piece once, in the order of the ids; fail before stale before incomplete before pass |
| Telemetry.AppendStepTelemetry | src/kernel/pipeline-budgets.ts:86-118 | The loop caps the history after one record |
| Telemetry.BatchAppendStepTelemetry | src/kernel/pipeline-budgets.ts:129-162 | The loop caps the history after a batch; an empty batch changes nothing |
| Telemetry.BatchIsOneByOne | src/kernel/pipeline-budgets.ts:86-162 | On a well-formed history a batch leaves the file that single appends leave |
| Telemetry.LongestSuffix | src/kernel/pipeline-budgets.ts:141-154 | The file is the longest suffix of all lines that fits, or the last line alone |
| Telemetry.FileIs | src/kernel/pipeline-budgets.ts:86-118 | For any file: all of it and what is added up to 5 MiB, and beyond that the last of its non-empty lines |
| Telemetry.NonEmptyAre | src/kernel/pipeline-budgets.ts:103-103 | Only the empty lines are dropped |
| Telemetry.SplitIs | src/kernel/pipeline-budgets.ts:103-105 | The lines of a text hold no line feed, and with line feeds between them give back the text |
| RateLimit.FixedWindowLimiter.Check | src/agent-gate/limits.ts:41-54 | The new bucket and the answer of one call |
| RateLimit.CountedIs | src/agent-gate/limits.ts:41-48 | A bucket still running counts one call more; otherwise a new one of one window starts with this call |
| RateLimit.AnswerIs | src/agent-gate/limits.ts:49-54 | Denied iff the count exceeds the maximum, and then with the least whole number of seconds, at least one, until the bucket expires |
| RateLimit.AtMostMaxPerBucket | src/agent-gate/limits.ts:44-51 | From a bucket's opening to its expiry at most maxPerWindow calls are allowed |
| RateLimit.FewerThanTwiceMaxPerSpan | src/agent-gate/limits.ts:44-51 | In any half-open span of one window at most twice maxPerWindow are, and for a positive maximum at least one less |
| RateLimit.BoundIsReached | src/agent-gate/limits.ts:44-51 | That bound is reached |
| RateLimit.RetryIsAllowed | src/agent-gate/limits.ts:49-51 | The next call for a denied key after the reported wait is allowed |

## Left out

- Canonical.SnapshotObject: a refusal for too many nodes names the place where the count was exceeded but not which nodes were counted; path segments carry the index in walk order instead of a key or item kind, and the count of omitted segments is not modelled.
- Json.Number: a non-integer number is represented by its ECMA-262 text; printing it is not modelled.
- Canonical JSON: accessors, symbols, prototypes, proxies that throw, freezing, the brand registry and the wording of messages.
- Resolver.Resolve: for repeated component ids only the first four phases and the cycle check are specified; the texts of messages and the time of the proof are left out, and so are failures of snapshotting a payload too large for its limits.
- Manifests.CaretIsInterval: version parts are exact integers, where the source rounds parts beyond 2^53.
- Manifest, set and evidence schemas: their verdict enters as a count of defects or as a predicate.
- Integrity.Indexes.RunUpdate: candidate lists may come in any order, where the source uses the locale's collation; the clock is read once; the four files written at the end are one step.
- IntegrityVerify.VerifyIntegrity: checks of record shapes, manifest headers and JSON schemas and the sorting of issues are left out; a file exists iff it can be read; which violation code is reported is not part of the contract.
- Fiber.ComponentFiber.Dispose: what child fibers do and report, which the source discards, and handlers that throw from dispose; one handler object registered under two ids is excluded by the validity of the fiber.
- DisposalRuns.AllClearedIff: calls on one handler follow each other, also where disposals overlap; the state in which a turn finds its handler is arbitrary.
- ActivatedFibers.DisposeViews: the handlers of a fiber are those the turns of its disposal find, as they find them.
- Quiescence.DrainedStaysDrained: the deadline is an event that may happen at any time; for executes that make their own fiber leave active, Quiescence.DrainedForeverIff says when the report is right.
- Activation.OutcomeTruthful: calls on one transaction follow each other, fibers are distinct and move only through it, and a createFiber that throws is left out.
- Evolution.EvolutionController.ApplyRequest: digests of records and the wording of failures; inspect has no state.
- Bordbuch.ValidateBordbuch: unmatched missions are reported in any order; the sensitive-payload patterns, the date format and the digest are parameters.
- BordbuchRepair.Repair: locks, the git commit after a repair, and erratumOf references to renumbered events, which the source does not adjust.
- Certification.EvaluateCertificationDecision: times are integers; reason texts are left out.
- Telemetry.AppendStepTelemetry: reading and writing the file, and percentiles and budgets computed from it.
- RateLimit.FixedWindowLimiter.Check: windows are whole seconds.
- Command registration, deploy, handoff, DNS, evidence stores, isolation conformance, rendering and all other input and output: no part of this model.
