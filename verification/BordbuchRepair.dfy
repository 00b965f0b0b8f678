/** bordbuch.repair of src/bordbuch/bordbuch-repair.ts, and when it can succeed. */
module BordbuchRepair {
  import opened Bordbuch
  import opened BordbuchChain

  // ---------------------------------------------------------------------------
  // The repaired ledger as a function of the entries
  // ---------------------------------------------------------------------------

  /** Operator-supplied values for the inserted entries; null counts as absent, anything else is taken over. */
  datatype Operator = Operator(occurredAt: Option<Field>, summary: Option<Field>, actor: Option<Field>)

  datatype Setting = Setting(systemId: string, operator: Operator, missionFilter: Option<string>)

  function OrElse(o: Option<Field>, fallback: Field): Field {
    if o.Some? then o.value else fallback
  }

  const AUTO_SUMMARY := Text("Mission opened (auto-repaired)")

  /** The mission-open proposed for an orphaned close. */
  function OpenFor(setting: Setting, close: Entry): Entry {
    Entry(0, setting.systemId, OrElse(setting.operator.occurredAt, close.occurredAt), MISSION_OPEN, "done", close.missionId, None,
          OrElse(setting.operator.actor, Text("agent")), OrElse(setting.operator.summary, AUTO_SUMMARY),
          Some(map["autoRepaired" := Scalar("true")]), None, "sha256:placeholder", None)
  }

  predicate Matches(setting: Setting, e: Entry) {
    Named(setting.missionFilter) ==> e.missionId == setting.missionFilter
  }

  /** The orphaned closes to repair. */
  predicate Selected(setting: Setting, before: seq<Entry>, e: Entry) {
    IsOrphan(before, e) && Matches(setting, e)
  }

  /** The entries with an open in front of every selected close. */
  function Merged(setting: Setting, entries: seq<Entry>): seq<Entry> {
    if entries == [] then []
    else
      var n := |entries| - 1;
      Merged(setting, entries[..n])
      + (if Selected(setting, entries[..n], entries[n]) then [OpenFor(setting, entries[n])] else [])
      + [entries[n]]
  }

  /** An entry with its new place in the chain, hashed over its present keys. */
  function Relinked(digest: Digest, e: Entry, id: nat, previousHash: Option<Hash>): Entry {
    var moved := e.(id := id, previousHash := previousHash);
    moved.(hash := ComputeEntryHash(digest, moved, PresentKeys(moved)))
  }

  function Rechained(digest: Digest, entries: seq<Entry>): (r: seq<Entry>)
    ensures |r| == |entries|
  {
    if entries == [] then []
    else
      var n := |entries| - 1;
      var before := Rechained(digest, entries[..n]);
      before + [Relinked(digest, entries[n], n + 1, HeadHash(before))]
  }

  function RepairedEntries(digest: Digest, setting: Setting, entries: seq<Entry>): seq<Entry> {
    Rechained(digest, Merged(setting, entries))
  }

  // ---------------------------------------------------------------------------
  // Violations
  // ---------------------------------------------------------------------------

  ghost predicate ValidLedger(digest: Digest, sensitive: string -> bool, entries: seq<Entry>, currentMission: Option<string>) {
    Faults(digest, sensitive, entries) == [] && Unmatched(entries, currentMission) == {}
  }

  /** Orphaned closes are all that is wrong. */
  ghost predicate OnlyOrphans(digest: Digest, sensitive: string -> bool, entries: seq<Entry>, currentMission: Option<string>) {
    && (forall v :: v in Faults(digest, sensitive, entries) ==> v.rule == OrphanMissionClose)
    && Unmatched(entries, currentMission) == {}
  }

  ghost predicate NoDuplicateOpens(entries: seq<Entry>) {
    forall i :: 0 <= i < |entries| ==> !IsDuplicate(entries[..i], entries[i])
  }

  ghost predicate NoOrphans(entries: seq<Entry>) {
    forall i :: 0 <= i < |entries| ==> !IsOrphan(entries[..i], entries[i])
  }

  ghost predicate Insensitive(sensitive: string -> bool, entries: seq<Entry>) {
    forall i :: 0 <= i < |entries| ==> !IsSensitive(sensitive, entries[i].summary)
  }

  lemma PrefixesSnoc(before: seq<Entry>, e: Entry)
    ensures forall i :: 0 <= i < |before| ==> (before + [e])[..i] == before[..i] && (before + [e])[i] == before[i]
    ensures (before + [e])[..|before|] == before && (before + [e])[|before|] == e
  {
  }

  lemma NoDuplicateOpensSnoc(before: seq<Entry>, e: Entry)
    ensures NoDuplicateOpens(before + [e]) <==> NoDuplicateOpens(before) && !IsDuplicate(before, e)
  {
    hide IsDuplicate;
    PrefixesSnoc(before, e);
    var more := before + [e];
    if NoDuplicateOpens(more) {
      assert !IsDuplicate(more[..|before|], more[|before|]);
      forall i | 0 <= i < |before| ensures !IsDuplicate(before[..i], before[i]) {
        assert !IsDuplicate(more[..i], more[i]);
      }
    }
  }

  lemma NoOrphansSnoc(before: seq<Entry>, e: Entry)
    ensures NoOrphans(before + [e]) <==> NoOrphans(before) && !IsOrphan(before, e)
  {
    hide IsOrphan;
    PrefixesSnoc(before, e);
    var more := before + [e];
    if NoOrphans(more) {
      assert !IsOrphan(more[..|before|], more[|before|]);
      forall i | 0 <= i < |before| ensures !IsOrphan(before[..i], before[i]) {
        assert !IsOrphan(more[..i], more[i]);
      }
    }
  }

  lemma InsensitiveSnoc(sensitive: string -> bool, before: seq<Entry>, e: Entry)
    ensures Insensitive(sensitive, before + [e]) <==> Insensitive(sensitive, before) && !IsSensitive(sensitive, e.summary)
  {
    PrefixesSnoc(before, e);
    var more := before + [e];
    if Insensitive(sensitive, more) {
      assert !IsSensitive(sensitive, more[|before|].summary);
      forall i | 0 <= i < |before| ensures !IsSensitive(sensitive, before[i].summary) {
        assert !IsSensitive(sensitive, more[i].summary);
      }
    }
  }

  /** No violation of its own: the chain, the hashes, the opens, the closes and the summaries are in order. */
  lemma {:induction false} FaultFreeIff(digest: Digest, sensitive: string -> bool, entries: seq<Entry>)
    ensures Faults(digest, sensitive, entries) == []
       <==> Linked(digest, entries) && NoDuplicateOpens(entries) && NoOrphans(entries) && Insensitive(sensitive, entries)
  {
    if entries != [] {
      var n := |entries| - 1;
      var before, e := entries[..n], entries[n];
      assert entries == before + [e];
      FaultFreeIff(digest, sensitive, before);
      LinkedSnoc(digest, before, e);
      NoDuplicateOpensSnoc(before, e);
      NoOrphansSnoc(before, e);
      InsensitiveSnoc(sensitive, before, e);
      hide Linked, NoDuplicateOpens, NoOrphans, Insensitive, HashAccepted, IsDuplicate, IsOrphan, HeadHash;
      assert Faults(digest, sensitive, entries) == [] <==>
        Faults(digest, sensitive, before) == [] && EntryFaults(digest, sensitive, before, e) == [];
    }
  }

  /** The faults of a ledger whose only faults are orphans: one per orphaned close, in order. */
  function OrphanFaults(entries: seq<Entry>): seq<Violation> {
    if entries == [] then []
    else
      var n := |entries| - 1;
      OrphanFaults(entries[..n]) + If(IsOrphan(entries[..n], entries[n]), OrphanMissionClose, entries[n])
  }

  lemma OnlyOrphanEntry(digest: Digest, sensitive: string -> bool, before: seq<Entry>, e: Entry)
    requires forall v :: v in EntryFaults(digest, sensitive, before, e) ==> v.rule == OrphanMissionClose
    ensures EntryFaults(digest, sensitive, before, e) == If(IsOrphan(before, e), OrphanMissionClose, e)
    ensures !IsDuplicate(before, e) && !IsSensitive(sensitive, e.summary)
    ensures e.id == |before| + 1 && e.previousHash == HeadHash(before) && HashAccepted(digest, e)
  {
    hide HashAccepted, IsDuplicate, IsOrphan, HeadHash;
    var f := EntryFaults(digest, sensitive, before, e);
    assert e.id != |before| + 1 ==> Violation(EventIdGap, Some(e.id)) in f;
    assert e.previousHash != HeadHash(before) ==> Violation(HashChainGap, Some(e.id)) in f;
    assert !HashAccepted(digest, e) ==> Violation(HashMismatch, Some(e.id)) in f;
    assert IsDuplicate(before, e) ==> Violation(DuplicateMissionId, Some(e.id)) in f;
    assert IsSensitive(sensitive, e.summary) ==> Violation(SensitivePayload, Some(e.id)) in f;
  }

  lemma {:induction false} OnlyOrphansMeans(digest: Digest, sensitive: string -> bool, entries: seq<Entry>)
    requires forall v :: v in Faults(digest, sensitive, entries) ==> v.rule == OrphanMissionClose
    ensures Faults(digest, sensitive, entries) == OrphanFaults(entries)
    ensures Linked(digest, entries) && NoDuplicateOpens(entries) && Insensitive(sensitive, entries)
  {
    if entries != [] {
      var n := |entries| - 1;
      var before, e := entries[..n], entries[n];
      assert entries == before + [e];
      OnlyOrphansMeans(digest, sensitive, before);
      OnlyOrphanEntry(digest, sensitive, before, e);
      LinkedSnoc(digest, before, e);
      NoDuplicateOpensSnoc(before, e);
      InsensitiveSnoc(sensitive, before, e);
    }
  }

  // ---------------------------------------------------------------------------
  // Missions after merging
  // ---------------------------------------------------------------------------

  ghost predicate Unfiltered(setting: Setting) {
    !Named(setting.missionFilter)
  }

  /** The missions of orphaned closes. */
  ghost function OrphanMissions(entries: seq<Entry>): set<string> {
    if entries == [] then {}
    else
      var n := |entries| - 1;
      OrphanMissions(entries[..n]) + (if IsOrphan(entries[..n], entries[n]) then {entries[n].missionId.value} else {})
  }

  lemma OpenSnoc(before: seq<Entry>, e: Entry)
    ensures OpenMissions(before + [e]) ==
      if !Named(e.missionId) then OpenMissions(before)
      else if e.kind == MISSION_OPEN then OpenMissions(before) + {e.missionId.value}
      else if IsClose(e.kind) then OpenMissions(before) - {e.missionId.value}
      else OpenMissions(before)
    ensures AllMissions(before + [e]) == AllMissions(before) + (if e.kind == MISSION_OPEN && Named(e.missionId) then {e.missionId.value} else {})
  {
    assert (before + [e])[..|before|] == before;
  }

  lemma MergedSnoc(setting: Setting, before: seq<Entry>, e: Entry)
    ensures Merged(setting, before + [e]) ==
      if Selected(setting, before, e) then Merged(setting, before) + [OpenFor(setting, e)] + [e] else Merged(setting, before) + [e]
  {
    assert (before + [e])[..|before|] == before;
  }

  /** Opening a mission just before its orphaned close leaves the open missions as they were everywhere else. */
  lemma {:induction false} MergedMissions(setting: Setting, entries: seq<Entry>)
    requires Unfiltered(setting)
    ensures OpenMissions(Merged(setting, entries)) == OpenMissions(entries)
    ensures AllMissions(Merged(setting, entries)) == AllMissions(entries) + OrphanMissions(entries)
  {
    if entries != [] {
      var n := |entries| - 1;
      var before, e := entries[..n], entries[n];
      assert entries == before + [e];
      MergedMissions(setting, before);
      MergedSnoc(setting, before, e);
      var m := Merged(setting, before);
      OpenSnoc(before, e);
      OpenSnoc(m, e);
      OpenSnoc(m, OpenFor(setting, e));
      OpenSnoc(m + [OpenFor(setting, e)], e);
    }
  }

  /** No duplicate open and no orphaned close. */
  ghost predicate CleanMissions(entries: seq<Entry>) {
    NoDuplicateOpens(entries) && NoOrphans(entries)
  }

  lemma CleanSnoc(before: seq<Entry>, e: Entry)
    ensures CleanMissions(before + [e]) <==> CleanMissions(before) && !IsDuplicate(before, e) && !IsOrphan(before, e)
  {
    hide NoDuplicateOpens, NoOrphans, IsDuplicate, IsOrphan;
    NoDuplicateOpensSnoc(before, e);
    NoOrphansSnoc(before, e);
  }

  /** An open directly before its close: only an earlier open of the mission is in the way. */
  lemma OpenAndCloseClean(m: seq<Entry>, open: Entry, close: Entry)
    requires open.kind == MISSION_OPEN && IsClose(close.kind) && Named(open.missionId) && open.missionId == close.missionId
    ensures CleanMissions(m + [open] + [close]) <==> CleanMissions(m) && open.missionId.value !in AllMissions(m)
  {
    CleanSnoc(m, open);
    CleanSnoc(m + [open], close);
    OpenSnoc(m, open);
    hide CleanMissions;
  }

  /** One step of the criterion: a new orphan or open must not meet an old open or orphan. */
  lemma MergedCleanSnoc(setting: Setting, before: seq<Entry>, e: Entry)
    requires Unfiltered(setting) && !IsDuplicate(before, e)
    ensures CleanMissions(Merged(setting, before + [e])) <==>
      && CleanMissions(Merged(setting, before))
      && (IsOrphan(before, e) ==> e.missionId.value !in AllMissions(before) + OrphanMissions(before))
      && (e.kind == MISSION_OPEN && Named(e.missionId) ==> e.missionId.value !in OrphanMissions(before))
  {
    MergedMissions(setting, before);
    MergedSnoc(setting, before, e);
    hide Merged, CleanMissions, OrphanMissions, OpenMissions, AllMissions;
    var m := Merged(setting, before);
    if IsOrphan(before, e) {
      OpenAndCloseClean(m, OpenFor(setting, e), e);
    } else {
      CleanSnoc(m, e);
    }
  }

  // ---------------------------------------------------------------------------
  // The criterion
  // ---------------------------------------------------------------------------

  ghost predicate Orphaned(entries: seq<Entry>, i: int) {
    0 <= i < |entries| && IsOrphan(entries[..i], entries[i])
  }

  ghost predicate Opens(entries: seq<Entry>, j: int) {
    0 <= j < |entries| && entries[j].kind == MISSION_OPEN && Named(entries[j].missionId)
  }

  /** No mission is orphan-closed twice, and none that is orphan-closed is opened anywhere. */
  ghost predicate Repairable(entries: seq<Entry>) {
    && (forall i, j :: i < j && Orphaned(entries, i) && Orphaned(entries, j) ==> entries[i].missionId != entries[j].missionId)
    && (forall i, j :: Orphaned(entries, i) && Opens(entries, j) ==> entries[i].missionId != entries[j].missionId)
  }

  lemma OrphanedSnoc(before: seq<Entry>, e: Entry, i: int)
    ensures Orphaned(before + [e], i) <==> Orphaned(before, i) || (i == |before| && IsOrphan(before, e))
    ensures Opens(before + [e], i) <==> Opens(before, i) || (i == |before| && e.kind == MISSION_OPEN && Named(e.missionId))
  {
    hide IsOrphan;
    PrefixesSnoc(before, e);
  }

  lemma {:induction false} OrphanMissionsIn(entries: seq<Entry>, m: string)
    ensures m in OrphanMissions(entries) <==> exists i :: Orphaned(entries, i) && entries[i].missionId == Some(m)
    ensures m in AllMissions(entries) <==> exists i :: Opens(entries, i) && entries[i].missionId == Some(m)
  {
    if entries == [] {
      assert forall i :: !Orphaned(entries, i) && !Opens(entries, i);
    } else {
      var n := |entries| - 1;
      var before, e := entries[..n], entries[n];
      assert entries == before + [e];
      OrphanMissionsIn(before, m);
      forall i ensures (Orphaned(entries, i) <==> Orphaned(before, i) || (i == n && IsOrphan(before, e)))
        && (Opens(entries, i) <==> Opens(before, i) || (i == n && e.kind == MISSION_OPEN && Named(e.missionId)))
      {
        OrphanedSnoc(before, e, i);
      }
      hide Orphaned, Opens, OpenMissions;
      OrphanMissionsInSnoc(before, e, m);
    }
  }

  lemma OrphanMissionsInSnoc(before: seq<Entry>, e: Entry, m: string)
    requires m in OrphanMissions(before) <==> exists i :: Orphaned(before, i) && before[i].missionId == Some(m)
    requires m in AllMissions(before) <==> exists i :: Opens(before, i) && before[i].missionId == Some(m)
    ensures m in OrphanMissions(before + [e]) <==> exists i :: Orphaned(before + [e], i) && (before + [e])[i].missionId == Some(m)
    ensures m in AllMissions(before + [e]) <==> exists i :: Opens(before + [e], i) && (before + [e])[i].missionId == Some(m)
  {
    var more, n := before + [e], |before|;
    assert more[..n] == before && more[n] == e;
    forall i ensures (Orphaned(more, i) <==> Orphaned(before, i) || (i == n && IsOrphan(before, e)))
      && (Opens(more, i) <==> Opens(before, i) || (i == n && e.kind == MISSION_OPEN && Named(e.missionId)))
    {
      OrphanedSnoc(before, e, i);
    }
    if i :| Orphaned(before, i) && before[i].missionId == Some(m) {
      assert Orphaned(more, i) && more[i].missionId == Some(m);
    }
    if i :| Opens(before, i) && before[i].missionId == Some(m) {
      assert Opens(more, i) && more[i].missionId == Some(m);
    }
    if IsOrphan(before, e) && e.missionId == Some(m) {
      assert Orphaned(more, n) && more[n].missionId == Some(m);
    }
    if e.kind == MISSION_OPEN && Named(e.missionId) && e.missionId == Some(m) {
      assert Opens(more, n) && more[n].missionId == Some(m);
    }
  }

  lemma RepairableSnoc(before: seq<Entry>, e: Entry)
    ensures Repairable(before + [e]) <==>
      && Repairable(before)
      && (IsOrphan(before, e) ==> e.missionId.value !in AllMissions(before) + OrphanMissions(before))
      && (e.kind == MISSION_OPEN && Named(e.missionId) ==> e.missionId.value !in OrphanMissions(before))
  {
    var more, n := before + [e], |before|;
    forall i ensures (Orphaned(more, i) <==> Orphaned(before, i) || (i == n && IsOrphan(before, e)))
      && (Opens(more, i) <==> Opens(before, i) || (i == n && e.kind == MISSION_OPEN && Named(e.missionId)))
    {
      OrphanedSnoc(before, e, i);
    }
    if Named(e.missionId) {
      OrphanMissionsIn(before, e.missionId.value);
    }
    assert forall i :: 0 <= i < n ==> more[i] == before[i];
    assert more[n] == e;
    hide OrphanMissions, AllMissions, OpenMissions;
    OrphanedBounds(before);
    if Repairable(more) {
      RepairableFront(before, e);
    }
  }

  lemma OrphanedBounds(entries: seq<Entry>)
    ensures forall i :: Orphaned(entries, i) ==> 0 <= i < |entries| && IsClose(entries[i].kind) && Named(entries[i].missionId)
    ensures forall i :: Opens(entries, i) ==> 0 <= i < |entries| && Named(entries[i].missionId)
  {
  }

  lemma RepairableFront(before: seq<Entry>, e: Entry)
    requires Repairable(before + [e])
    ensures Repairable(before)
  {
    var more := before + [e];
    hide IsOrphan;
    forall i ensures (Orphaned(before, i) ==> Orphaned(more, i) && more[i] == before[i]) && (Opens(before, i) ==> Opens(more, i) && more[i] == before[i]) {
      OrphanedSnoc(before, e, i);
    }
  }

  /** The merged missions are in order iff the entries are repairable. */
  lemma {:induction false} MergedCleanIff(setting: Setting, entries: seq<Entry>)
    requires Unfiltered(setting) && NoDuplicateOpens(entries)
    ensures CleanMissions(Merged(setting, entries)) <==> Repairable(entries)
  {
    if entries == [] {
      OrphanedBounds(entries);
    } else {
      var n := |entries| - 1;
      var before, e := entries[..n], entries[n];
      assert entries == before + [e];
      NoDuplicateOpensSnoc(before, e);
      hide NoDuplicateOpens, CleanMissions, Repairable, IsOrphan, IsDuplicate, OpenMissions, AllMissions, OrphanMissions;
      MergedCleanIff(setting, before);
      MergedCleanSnoc(setting, before, e);
      RepairableSnoc(before, e);
    }
  }

  // ---------------------------------------------------------------------------
  // Rechaining
  // ---------------------------------------------------------------------------

  /** Equal but for the place in the chain. */
  ghost predicate Same(e: Entry, f: Entry) {
    f == e.(id := f.id, previousHash := f.previousHash, hash := f.hash)
  }

  lemma RelinkedSame(digest: Digest, e: Entry, id: nat, previousHash: Option<Hash>)
    ensures Same(e, Relinked(digest, e, id, previousHash))
    ensures Relinked(digest, e, id, previousHash).id == id && Relinked(digest, e, id, previousHash).previousHash == previousHash
    ensures HashAccepted(digest, Relinked(digest, e, id, previousHash))
  {
    var f := Relinked(digest, e, id, previousHash);
    assert PresentKeys(f) == PresentKeys(e);
  }

  lemma {:induction false} RechainedLinked(digest: Digest, entries: seq<Entry>)
    ensures Linked(digest, Rechained(digest, entries))
    ensures forall i :: 0 <= i < |entries| ==> Same(entries[i], Rechained(digest, entries)[i])
  {
    if entries != [] {
      var n := |entries| - 1;
      var before := Rechained(digest, entries[..n]);
      RechainedLinked(digest, entries[..n]);
      RelinkedSame(digest, entries[n], n + 1, HeadHash(before));
      hide Linked, Relinked, HashAccepted, Same;
      LinkedSnoc(digest, before, Relinked(digest, entries[n], n + 1, HeadHash(before)));
      assert forall i :: 0 <= i < n ==> entries[..n][i] == entries[i];
    }
  }

  ghost predicate AllSame(a: seq<Entry>, b: seq<Entry>) {
    |a| == |b| && forall i :: 0 <= i < |a| ==> Same(a[i], b[i])
  }

  /** Both ledgers have the same missions, in order or not. */
  ghost predicate SameView(a: seq<Entry>, b: seq<Entry>) {
    && OpenMissions(a) == OpenMissions(b) && AllMissions(a) == AllMissions(b)
    && (NoDuplicateOpens(a) <==> NoDuplicateOpens(b))
    && (NoOrphans(a) <==> NoOrphans(b))
  }

  /** Missions do not look at the place in the chain. */
  lemma {:induction false} SameMissions(a: seq<Entry>, b: seq<Entry>)
    requires AllSame(a, b)
    ensures SameView(a, b)
  {
    if a != [] {
      var n := |a| - 1;
      assert Same(a[n], b[n]) && AllSame(a[..n], b[..n]);
      hide Same, AllSame, SameView;
      SameMissions(a[..n], b[..n]);
      SameViewSnoc(a[..n], b[..n], a[n], b[n]);
      assert a == a[..n] + [a[n]] && b == b[..n] + [b[n]];
    }
  }

  lemma SameViewSnoc(a: seq<Entry>, b: seq<Entry>, e: Entry, f: Entry)
    requires SameView(a, b) && Same(e, f)
    ensures SameView(a + [e], b + [f])
  {
    hide NoDuplicateOpens, NoOrphans, OpenMissions, AllMissions, IsDuplicate, IsOrphan, Same;
    SameStep(a, b, e, f);
    NoDuplicateOpensSnoc(a, e);
    NoDuplicateOpensSnoc(b, f);
    NoOrphansSnoc(a, e);
    NoOrphansSnoc(b, f);
  }

  lemma SameStep(a: seq<Entry>, b: seq<Entry>, e: Entry, f: Entry)
    requires OpenMissions(a) == OpenMissions(b) && AllMissions(a) == AllMissions(b) && Same(e, f)
    ensures OpenMissions(a + [e]) == OpenMissions(b + [f]) && AllMissions(a + [e]) == AllMissions(b + [f])
    ensures IsDuplicate(a, e) <==> IsDuplicate(b, f)
    ensures IsOrphan(a, e) <==> IsOrphan(b, f)
  {
    OpenSnoc(a, e);
    OpenSnoc(b, f);
  }

  lemma {:induction false} MergedInsensitive(setting: Setting, sensitive: string -> bool, entries: seq<Entry>)
    requires Insensitive(sensitive, entries) && !IsSensitive(sensitive, OrElse(setting.operator.summary, AUTO_SUMMARY))
    ensures Insensitive(sensitive, Merged(setting, entries))
  {
    if entries != [] {
      var n := |entries| - 1;
      var before, e := entries[..n], entries[n];
      assert entries == before + [e];
      InsensitiveSnoc(sensitive, before, e);
      MergedInsensitive(setting, sensitive, before);
      MergedSnoc(setting, before, e);
      hide Insensitive, Merged, IsOrphan;
      var m, open := Merged(setting, before), OpenFor(setting, e);
      InsensitiveSnoc(sensitive, m, open);
      InsensitiveSnoc(sensitive, m + [open], e);
      InsensitiveSnoc(sensitive, m, e);
    }
  }

  lemma SameSummaries(sensitive: string -> bool, a: seq<Entry>, b: seq<Entry>)
    requires |a| == |b| && Insensitive(sensitive, a) && forall i :: 0 <= i < |a| ==> Same(a[i], b[i])
    ensures Insensitive(sensitive, b)
  {
    forall i | 0 <= i < |b| ensures !IsSensitive(sensitive, b[i].summary) {
      assert Same(a[i], b[i]);
    }
  }

  /**
    Where orphaned closes are all that is wrong, the merged and rechained ledger is valid iff no
    mission is orphan-closed twice and none that is orphan-closed has an open elsewhere.
   */
  lemma RepairedValidIff(digest: Digest, sensitive: string -> bool, setting: Setting, entries: seq<Entry>, currentMission: Option<string>)
    requires Unfiltered(setting) && !IsSensitive(sensitive, OrElse(setting.operator.summary, AUTO_SUMMARY))
    requires OnlyOrphans(digest, sensitive, entries, currentMission)
    ensures ValidLedger(digest, sensitive, RepairedEntries(digest, setting, entries), currentMission) <==> Repairable(entries)
  {
    var merged := Merged(setting, entries);
    var repaired := Rechained(digest, merged);
    OnlyOrphansMeans(digest, sensitive, entries);
    MergedMissions(setting, entries);
    MergedCleanIff(setting, entries);
    MergedInsensitive(setting, sensitive, entries);
    RechainedLinked(digest, merged);
    SameMissions(merged, repaired);
    SameSummaries(sensitive, merged, repaired);
    FaultFreeIff(digest, sensitive, repaired);
    assert Unmatched(repaired, currentMission) == Unmatched(entries, currentMission);
  }

  // ---------------------------------------------------------------------------
  // The original entries survive
  // ---------------------------------------------------------------------------

  /** Where the i-th original entry ends up. */
  function Position(setting: Setting, entries: seq<Entry>, i: nat): int
    requires i < |entries|
  {
    |Merged(setting, entries[..i + 1])| - 1
  }

  lemma {:induction false} MergedExtends(setting: Setting, entries: seq<Entry>, i: nat)
    requires i <= |entries|
    ensures Merged(setting, entries[..i]) <= Merged(setting, entries)
    ensures |Merged(setting, entries[..i])| >= i
    decreases |entries|
  {
    hide Selected;
    if i == |entries| {
      assert entries[..i] == entries;
      if i > 0 {
        MergedExtends(setting, entries[..i - 1], i - 1);
        assert entries[..i - 1][..i - 1] == entries[..i - 1];
      }
    } else {
      var n := |entries| - 1;
      assert entries[..n][..i] == entries[..i];
      MergedExtends(setting, entries[..n], i);
    }
  }

  lemma MergedLast(setting: Setting, entries: seq<Entry>, i: nat)
    requires i < |entries|
    ensures Merged(setting, entries[..i + 1]) != [] && |Merged(setting, entries[..i])| < |Merged(setting, entries[..i + 1])|
    ensures Merged(setting, entries[..i + 1])[|Merged(setting, entries[..i + 1])| - 1] == entries[i]
  {
    assert entries[..i + 1] == entries[..i] + [entries[i]];
    MergedSnoc(setting, entries[..i], entries[i]);
  }

  /** The original entries remain a subsequence, up to id, previous hash and hash. */
  lemma OriginalsSurvive(digest: Digest, setting: Setting, entries: seq<Entry>)
    ensures forall i :: 0 <= i < |entries| ==>
      && 0 <= Position(setting, entries, i) < |RepairedEntries(digest, setting, entries)|
      && Same(entries[i], RepairedEntries(digest, setting, entries)[Position(setting, entries, i)])
    ensures forall i, j :: 0 <= i < j < |entries| ==> Position(setting, entries, i) < Position(setting, entries, j)
  {
    var merged := Merged(setting, entries);
    RechainedLinked(digest, merged);
    hide Merged, Rechained, Linked, Same;
    forall i | 0 <= i < |entries|
      ensures 0 <= Position(setting, entries, i) < |merged| && merged[Position(setting, entries, i)] == entries[i]
    {
      MergedLast(setting, entries, i);
      MergedExtends(setting, entries, i + 1);
    }
    forall i, j | 0 <= i < j < |entries| ensures Position(setting, entries, i) < Position(setting, entries, j) {
      MergedLast(setting, entries, j);
      MergedExtends(setting, entries[..j], i + 1);
      assert entries[..j][..i + 1] == entries[..i + 1];
    }
  }

  // ---------------------------------------------------------------------------
  // The command
  // ---------------------------------------------------------------------------

  datatype Insertion = Insertion(index: nat, entry: Entry)

  /** The insertions for the selected orphans, by index. */
  function Insertions(setting: Setting, entries: seq<Entry>): seq<Insertion> {
    if entries == [] then []
    else
      var n := |entries| - 1;
      Insertions(setting, entries[..n])
      + (if Selected(setting, entries[..n], entries[n]) then [Insertion(n, OpenFor(setting, entries[n]))] else [])
  }

  /** The insertions found by looking up each violation's event. */
  function InsertionsOf(setting: Setting, entries: seq<Entry>, violations: seq<Violation>): seq<Insertion> {
    if violations == [] then []
    else
      var v := violations[|violations| - 1];
      InsertionsOf(setting, entries, violations[..|violations| - 1])
      + (if v.eventId.Some? && 1 <= v.eventId.value <= |entries| && Matches(setting, entries[v.eventId.value - 1])
         then [Insertion(v.eventId.value - 1, OpenFor(setting, entries[v.eventId.value - 1]))] else [])
  }

  lemma {:induction false} InsertionsFound(setting: Setting, digest: Digest, entries: seq<Entry>, n: nat)
    requires n <= |entries| && Linked(digest, entries)
    ensures InsertionsOf(setting, entries, OrphanFaults(entries[..n])) == Insertions(setting, entries[..n])
  {
    hide IsOrphan, Matches;
    if n > 0 {
      InsertionsFound(setting, digest, entries, n - 1);
      var e := entries[n - 1];
      assert entries[..n][..n - 1] == entries[..n - 1] && entries[..n][n - 1] == e && e.id == n;
      var front := OrphanFaults(entries[..n - 1]);
      if IsOrphan(entries[..n - 1], e) {
        var v := Violation(OrphanMissionClose, Some(e.id));
        assert OrphanFaults(entries[..n]) == front + [v];
        assert (front + [v])[..|front|] == front;
      } else {
        assert OrphanFaults(entries[..n]) == front;
      }
    }
  }

  lemma {:induction false} InsertionsExtend(setting: Setting, entries: seq<Entry>, i: nat)
    requires i <= |entries|
    ensures Insertions(setting, entries[..i]) <= Insertions(setting, entries)
    ensures forall k :: |Insertions(setting, entries[..i])| <= k < |Insertions(setting, entries)| ==> Insertions(setting, entries)[k].index >= i
    decreases |entries|
  {
    hide Selected;
    if i == |entries| {
      assert entries[..i] == entries;
    } else {
      var n := |entries| - 1;
      assert entries[..n][..i] == entries[..i];
      InsertionsExtend(setting, entries[..n], i);
    }
  }

  /** The merge loop, driven by the index of the next insertion. */
  method Merge(setting: Setting, entries: seq<Entry>, insertions: seq<Insertion>) returns (repaired: seq<Entry>)
    requires insertions == Insertions(setting, entries)
    ensures repaired == Merged(setting, entries)
  {
    hide Selected, Merged, Insertions;
    repaired := [];
    MergedNothing(setting);
    var insertIdx := 0;
    var i := 0;
    while i < |entries|
      invariant 0 <= i <= |entries|
      invariant insertIdx == |Insertions(setting, entries[..i])| <= |insertions|
      invariant repaired == Merged(setting, entries[..i])
    {
      MergeTurn(setting, entries, i);
      ghost var before := repaired;
      ghost var first := insertIdx;
      ghost var taken := |Insertions(setting, entries[..i + 1])|;
      while insertIdx < |insertions| && insertions[insertIdx].index == i
        invariant first <= insertIdx <= taken <= |insertions|
        invariant repaired == before + if insertIdx == first then [] else [OpenFor(setting, entries[i])]
        decreases taken - insertIdx
      {
        repaired := repaired + [insertions[insertIdx].entry];
        insertIdx := insertIdx + 1;
      }
      repaired := repaired + [entries[i]];
      i := i + 1;
    }
    // The source goes on to add what is left over; every index lies within the entries, so nothing is.
    assert entries[..i] == entries && insertIdx == |insertions|;
  }

  lemma MergedNothing(setting: Setting)
    ensures Merged(setting, []) == [] && Insertions(setting, []) == []
  {
  }

  /** The insertions due at index i: one if the entry there is selected, none otherwise. */
  lemma MergeTurn(setting: Setting, entries: seq<Entry>, i: nat)
    requires i < |entries|
    ensures
      var all, first, taken := Insertions(setting, entries), |Insertions(setting, entries[..i])|, |Insertions(setting, entries[..i + 1])|;
      && first <= taken <= |all|
      && (taken == first <==> Merged(setting, entries[..i + 1]) == Merged(setting, entries[..i]) + [entries[i]])
      && (taken == first || (taken == first + 1 && all[first] == Insertion(i, OpenFor(setting, entries[i]))
          && Merged(setting, entries[..i + 1]) == Merged(setting, entries[..i]) + [OpenFor(setting, entries[i])] + [entries[i]]))
      && (taken < |all| ==> all[taken].index != i)
  {
    var e := entries[i];
    assert entries[..i + 1] == entries[..i] + [e] && entries[..i + 1][..i] == entries[..i];
    MergedSnoc(setting, entries[..i], e);
    InsertionsExtend(setting, entries, i);
    InsertionsExtend(setting, entries, i + 1);
  }

  /** The rechaining loop, in place. */
  method Rechain(digest: Digest, entries: seq<Entry>) returns (r: seq<Entry>)
    ensures r == Rechained(digest, entries)
  {
    hide Relinked;
    r := entries;
    var prevHash: Option<Hash> := None;
    var i := 0;
    while i < |r|
      invariant 0 <= i <= |r| == |entries|
      invariant r[..i] == Rechained(digest, entries[..i]) && r[i..] == entries[i..]
      invariant prevHash == HeadHash(r[..i])
    {
      assert entries[..i + 1][..i] == entries[..i];
      var e := Relinked(digest, r[i], i + 1, prevHash);
      r := r[i := e];
      assert r[..i + 1] == r[..i] + [e];
      prevHash := Some(e.hash);
      i := i + 1;
    }
    assert r[..i] == r && entries[..i] == entries;
  }

  /** The index of the entry with the event's id; in a linked ledger ids count from one. */
  method FindEvent(entries: seq<Entry>, eventId: Option<nat>, ghost digest: Digest) returns (index: nat)
    requires Linked(digest, entries)
    ensures index == if eventId.Some? && 1 <= eventId.value <= |entries| then eventId.value - 1 else |entries|
  {
    hide HashAccepted, HeadHash;
    index := 0;
    while index < |entries| && Some(entries[index].id) != eventId
      invariant index <= |entries|
      invariant eventId.Some? && 1 <= eventId.value <= |entries| ==> index < eventId.value
    {
      index := index + 1;
    }
  }

  /** The lookup of each orphan violation's event. */
  method CollectInsertions(setting: Setting, entries: seq<Entry>, violations: seq<Violation>, ghost digest: Digest) returns (insertions: seq<Insertion>)
    requires Linked(digest, entries) && violations == OrphanFaults(entries)
    ensures insertions == Insertions(setting, entries)
  {
    hide IsOrphan, Matches, Linked;
    insertions := [];
    var k := 0;
    while k < |violations|
      invariant 0 <= k <= |violations|
      invariant insertions == InsertionsOf(setting, entries, violations[..k])
    {
      var v := violations[k];
      assert violations[..k + 1][..k] == violations[..k];
      var index := FindEvent(entries, v.eventId, digest);
      if index < |entries| && Matches(setting, entries[index]) {
        insertions := insertions + [Insertion(index, OpenFor(setting, entries[index]))];
      }
      k := k + 1;
    }
    assert violations[..k] == violations && entries[..|entries|] == entries;
    InsertionsFound(setting, digest, entries, |entries|);
  }

  datatype RepairResult =
    | NothingToRepair
    | Unrepairable
    | NoOrphanForFilter
    | Unreadable      // written, but the file no longer parses; it is not restored
    | StillInvalid    // restored
    | Planned         // a dry run; restored
    | Repaired

  predicate Readable(entries: seq<Entry>, isDatetime: string -> bool) {
    forall i :: 0 <= i < |entries| ==> SchemaOk(entries[i], isDatetime)
  }

  // ---------------------------------------------------------------------------
  // When the written ledger parses
  // ---------------------------------------------------------------------------

  ghost predicate NeverEmpty(digest: Digest) {
    forall preimage :: digest(preimage) != ""
  }

  ghost predicate AllTextsOk(entries: seq<Entry>, isDatetime: string -> bool) {
    forall i :: 0 <= i < |entries| ==> TextsOk(entries[i], isDatetime)
  }

  /** The command is given a system and no text the entry schema refuses. */
  predicate SettingOk(setting: Setting, isDatetime: string -> bool) {
    var operator := setting.operator;
    && setting.systemId != ""
    && (operator.occurredAt.Some? ==> operator.occurredAt.value.Text? && isDatetime(operator.occurredAt.value.text))
    && (operator.actor.Some? ==> operator.actor.value.Text? && operator.actor.value.text != "")
    && (operator.summary.Some? ==> operator.summary.value.Text? && operator.summary.value.text != "")
  }

  /** What can be seen to before the repair: the ids keep to six digits, and the inserted opens satisfy the entry schema. */
  predicate Admissible(setting: Setting, entries: seq<Entry>, isDatetime: string -> bool) {
    && |entries| + |Insertions(setting, entries)| <= MAX_ID
    && (Insertions(setting, entries) != [] ==> SettingOk(setting, isDatetime))
  }

  lemma AllTextsOkSnoc(before: seq<Entry>, e: Entry, isDatetime: string -> bool)
    ensures AllTextsOk(before + [e], isDatetime) <==> AllTextsOk(before, isDatetime) && TextsOk(e, isDatetime)
  {
    hide TextsOk;
    PrefixesSnoc(before, e);
    var more := before + [e];
    if AllTextsOk(more, isDatetime) {
      assert TextsOk(more[|before|], isDatetime);
      forall i | 0 <= i < |before| ensures TextsOk(before[i], isDatetime) {
        assert TextsOk(more[i], isDatetime);
      }
    }
  }

  lemma OpenTexts(setting: Setting, close: Entry, isDatetime: string -> bool)
    requires TextsOk(close, isDatetime)
    ensures TextsOk(OpenFor(setting, close), isDatetime) <==> SettingOk(setting, isDatetime)
  {
  }

  /** Merging adds one entry per insertion, with the operator's texts or those of the close and the defaults. */
  lemma {:induction false} MergedTexts(setting: Setting, entries: seq<Entry>, isDatetime: string -> bool)
    requires AllTextsOk(entries, isDatetime)
    ensures |Merged(setting, entries)| == |entries| + |Insertions(setting, entries)|
    ensures AllTextsOk(Merged(setting, entries), isDatetime) <==> (Insertions(setting, entries) != [] ==> SettingOk(setting, isDatetime))
  {
    if entries != [] {
      var n := |entries| - 1;
      var before, e := entries[..n], entries[n];
      assert entries == before + [e];
      AllTextsOkSnoc(before, e, isDatetime);
      MergedTexts(setting, before, isDatetime);
      MergedSnoc(setting, before, e);
      OpenTexts(setting, e, isDatetime);
      var m, open := Merged(setting, before), OpenFor(setting, e);
      AllTextsOkSnoc(m, open, isDatetime);
      AllTextsOkSnoc(m + [open], e, isDatetime);
      AllTextsOkSnoc(m, e, isDatetime);
      hide AllTextsOk, SettingOk, TextsOk, Selected, OpenFor;
    }
  }

  /** Rechaining renumbers and rehashes, and leaves the texts alone. */
  lemma RechainedReadable(digest: Digest, entries: seq<Entry>, isDatetime: string -> bool)
    requires NeverEmpty(digest)
    ensures Readable(Rechained(digest, entries), isDatetime) <==> |entries| <= MAX_ID && AllTextsOk(entries, isDatetime)
  {
    var r := Rechained(digest, entries);
    RechainedLinked(digest, entries);
    hide Rechained;
    forall i | 0 <= i < |entries|
      ensures SchemaOk(r[i], isDatetime) <==> i < MAX_ID && TextsOk(entries[i], isDatetime)
    {
      assert Same(entries[i], r[i]) && HashAccepted(digest, r[i]);
    }
    if |entries| > MAX_ID {
      assert !SchemaOk(r[MAX_ID], isDatetime);
    }
  }

  /**
    A ledger that could be read can be read again once it is repaired and written iff the
    repair was admissible. Where it is not, the repair has been written and is not undone.
   */
  lemma RepairReadableIff(digest: Digest, setting: Setting, entries: seq<Entry>, isDatetime: string -> bool)
    requires Readable(entries, isDatetime) && NeverEmpty(digest)
    ensures Readable(RepairedEntries(digest, setting, entries), isDatetime) <==> Admissible(setting, entries, isDatetime)
  {
    MergedTexts(setting, entries, isDatetime);
    RechainedReadable(digest, Merged(setting, entries), isDatetime);
  }

  // ---------------------------------------------------------------------------
  // The command
  // ---------------------------------------------------------------------------

  /** Orphaned closes are all there is to repair, no mission is singled out, and the repair is admissible. */
  ghost predicate OrphansOnlyToRepair(digest: Digest, sensitive: string -> bool, isDatetime: string -> bool, setting: Setting,
                                      entries: seq<Entry>, currentMission: Option<string>)
  {
    && OnlyOrphans(digest, sensitive, entries, currentMission) && !ValidLedger(digest, sensitive, entries, currentMission)
    && Unfiltered(setting) && !IsSensitive(sensitive, OrElse(setting.operator.summary, AUTO_SUMMARY))
    && Admissible(setting, entries, isDatetime)
  }

  lemma RepairedWhenRepairable(digest: Digest, sensitive: string -> bool, isDatetime: string -> bool, setting: Setting,
                               entries: seq<Entry>, currentMission: Option<string>)
    ensures OrphansOnlyToRepair(digest, sensitive, isDatetime, setting, entries, currentMission) ==>
      (ValidLedger(digest, sensitive, RepairedEntries(digest, setting, entries), currentMission) <==> Repairable(entries))
  {
    if OrphansOnlyToRepair(digest, sensitive, isDatetime, setting, entries, currentMission) {
      RepairedValidIff(digest, sensitive, setting, entries, currentMission);
    }
  }

  /** The repair gets as far as writing the repaired ledger. */
  ghost predicate Written(digest: Digest, sensitive: string -> bool, setting: Setting, entries: seq<Entry>, currentMission: Option<string>) {
    && OnlyOrphans(digest, sensitive, entries, currentMission) && !ValidLedger(digest, sensitive, entries, currentMission)
    && !(Named(setting.missionFilter) && Insertions(setting, entries) == [])
  }

  /** Operator metadata whose actor is empty or no string spoils the repair of any ledger with an orphan to repair. */
  lemma BadActorIsUnreadable(digest: Digest, setting: Setting, entries: seq<Entry>, isDatetime: string -> bool)
    requires Readable(entries, isDatetime) && NeverEmpty(digest)
    requires Insertions(setting, entries) != [] && setting.operator.actor.Some?
    requires setting.operator.actor.value.NoText? || setting.operator.actor.value.text == ""
    ensures !Readable(RepairedEntries(digest, setting, entries), isDatetime)
  {
    RepairReadableIff(digest, setting, entries, isDatetime);
  }

  lemma ReadableWhenAdmissible(digest: Digest, isDatetime: string -> bool, setting: Setting, entries: seq<Entry>)
    ensures Readable(entries, isDatetime) && NeverEmpty(digest) ==>
      (Readable(RepairedEntries(digest, setting, entries), isDatetime) <==> Admissible(setting, entries, isDatetime))
  {
    if Readable(entries, isDatetime) && NeverEmpty(digest) {
      RepairReadableIff(digest, setting, entries, isDatetime);
    }
  }

  /**
    With a digest that is never empty and a ledger that could be read, Unreadable is exactly an
    inadmissible repair; with orphans only, success is exactly a repairable ledger.
   */
  method Repair(ledger: Ledger, digest: Digest, sensitive: string -> bool, isDatetime: string -> bool, setting: Setting,
                currentMission: Option<string>, dryRun: bool)
    returns (result: RepairResult)
    modifies ledger
    ensures
      var before := old(ledger.entries);
      var repaired := RepairedEntries(digest, setting, before);
      && (result.NothingToRepair? <==> ValidLedger(digest, sensitive, before, currentMission))
      && (result.Unrepairable? <==> !OnlyOrphans(digest, sensitive, before, currentMission))
      && (result.NoOrphanForFilter? <==>
            OnlyOrphans(digest, sensitive, before, currentMission) && !ValidLedger(digest, sensitive, before, currentMission)
            && Named(setting.missionFilter) && Insertions(setting, before) == [])
      && (result.Unreadable? <==> Written(digest, sensitive, setting, before, currentMission) && !Readable(repaired, isDatetime))
      && (Readable(before, isDatetime) && NeverEmpty(digest) ==>
            (result.Unreadable? <==>
              Written(digest, sensitive, setting, before, currentMission) && !Admissible(setting, before, isDatetime)))
      && (result.StillInvalid? <==>
            && Written(digest, sensitive, setting, before, currentMission) && Readable(repaired, isDatetime)
            && !ValidLedger(digest, sensitive, repaired, currentMission))
      && (result.Planned? ==> dryRun) && (result.Repaired? ==> !dryRun)
      && (result.Unreadable? || result.Repaired? ==> ledger.entries == repaired)
      && (!result.Unreadable? && !result.Repaired? ==> ledger.entries == before)
      && (Readable(before, isDatetime) && NeverEmpty(digest)
          && OrphansOnlyToRepair(digest, sensitive, isDatetime, setting, before, currentMission) ==>
            (result.Planned? || result.Repaired? <==> Repairable(before)))
  {
    RepairedWhenRepairable(digest, sensitive, isDatetime, setting, ledger.entries, currentMission);
    ReadableWhenAdmissible(digest, isDatetime, setting, ledger.entries);
    hide Faults, OpenMissions, SchemaOk, Insertions, Linked, RepairedEntries, Repairable, Readable, Admissible, NeverEmpty;
    var entries := ledger.entries;
    var violations := ValidateBordbuch(digest, sensitive, entries, currentMission);
    ReportedValid(digest, sensitive, entries, currentMission, violations);
    if |violations| == 0 {
      return NothingToRepair;
    }
    var unrepairable := exists i :: 0 <= i < |violations| && violations[i].rule != OrphanMissionClose;
    ReportedOrphans(digest, sensitive, entries, currentMission, violations);
    if unrepairable {
      return Unrepairable;
    }
    OnlyOrphansMeans(digest, sensitive, entries);
    var insertions := CollectInsertions(setting, entries, violations, digest);
    if Named(setting.missionFilter) && |insertions| == 0 {
      return NoOrphanForFilter;
    }
    var merged := Merge(setting, entries, insertions);
    var repaired := Rechain(digest, merged);
    RepairedIs(digest, setting, entries);
    var originalContent := ledger.entries;
    ledger.entries := repaired;
    if !Readable(repaired, isDatetime) {
      return Unreadable;
    }
    var postViolations := ValidateBordbuch(digest, sensitive, repaired, currentMission);
    ReportedValid(digest, sensitive, repaired, currentMission, postViolations);
    if |postViolations| > 0 {
      ledger.entries := originalContent;
      return StillInvalid;
    }
    if dryRun {
      ledger.entries := originalContent;
      return Planned;
    }
    result := Repaired;
  }

  lemma RepairedIs(digest: Digest, setting: Setting, entries: seq<Entry>)
    ensures RepairedEntries(digest, setting, entries) == Rechained(digest, Merged(setting, entries))
  {
  }

  lemma ReportedValid(digest: Digest, sensitive: string -> bool, entries: seq<Entry>, currentMission: Option<string>, violations: seq<Violation>)
    requires Reports(digest, sensitive, entries, currentMission, violations)
    ensures |violations| == 0 <==> ValidLedger(digest, sensitive, entries, currentMission)
  {
    if |violations| == 0 {
      assert |Unmatched(entries, currentMission)| == 0;
    }
  }

  lemma ReportedOrphans(digest: Digest, sensitive: string -> bool, entries: seq<Entry>, currentMission: Option<string>, violations: seq<Violation>)
    requires Reports(digest, sensitive, entries, currentMission, violations)
    ensures (exists i :: 0 <= i < |violations| && violations[i].rule != OrphanMissionClose) <==> !OnlyOrphans(digest, sensitive, entries, currentMission)
    ensures OnlyOrphans(digest, sensitive, entries, currentMission) ==> violations == Faults(digest, sensitive, entries)
  {
    hide Faults, OpenMissions;
    var faults, unmatched := Faults(digest, sensitive, entries), Unmatched(entries, currentMission);
    if unmatched != {} {
      assert |unmatched| > 0;
      assert violations[|faults|] in violations[|faults|..];
      assert violations[|faults|].rule != OrphanMissionClose;
    } else {
      assert violations == faults;
    }
  }
}
