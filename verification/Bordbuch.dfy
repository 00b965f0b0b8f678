/**
  The Bordbuch hash chain of src/bordbuch/bordbuch-io.ts. Hashing is a parameter; ids are
  numbers, the six digits of the ids the schema admits.
 */
module Bordbuch {
  datatype Option<T> = None | Some(value: T)

  type Hash = string

  // ---------------------------------------------------------------------------
  // Entries and what is hashed of them
  // ---------------------------------------------------------------------------

  /** A JSON value inside metadata. */
  datatype Value = Scalar(text: string) | List(items: seq<Value>) | Object(members: map<string, Value>)

  /** JSON.stringify with an array replacer: at every level only the listed keys are written. */
  function Project(v: Value, keys: set<string>): Value {
    match v
    case Scalar(_) => v
    case List(items) => List(seq(|items|, i requires 0 <= i < |items| => Project(items[i], keys)))
    case Object(m) => Object(map k | k in m && k in keys :: Project(m[k], keys))
  }

  /** A field that should be a string; an operator's JSON may put something else there. */
  datatype Field = Text(text: string) | NoText(value: Value)

  datatype Entry = Entry(
    id: nat,
    systemId: string,
    occurredAt: Field,
    kind: string,
    status: string,
    missionId: Option<string>,
    releaseId: Option<string>,
    actor: Field,
    summary: Field,
    metadata: Option<map<string, Value>>,
    previousHash: Option<Hash>,
    hash: Hash,
    erratumOf: Option<string>)

  /** What JSON.stringify writes of an entry without its hash. */
  datatype Preimage = Preimage(
    id: nat,
    systemId: string,
    occurredAt: Field,
    kind: string,
    status: string,
    missionId: Option<string>,
    releaseId: Option<string>,
    actor: Field,
    summary: Field,
    metadata: Option<Value>,
    previousHash: Option<Hash>,
    erratumOf: Option<string>)

  const REQUIRED_KEYS: set<string> :=
    {"schemaVersion", "id", "systemId", "occurredAt", "kind", "status", "missionId", "releaseId", "actor", "summary", "previousHash"}

  const METADATA := "metadata"
  const ERRATUM_OF := "erratumOf"

  /** Object.keys of an entry read back from the file: absent fields have no key. */
  function PresentKeys(e: Entry): set<string> {
    REQUIRED_KEYS + (if e.metadata.Some? then {METADATA} else {}) + (if e.erratumOf.Some? then {ERRATUM_OF} else {})
  }

  /** Object.keys of the entry append builds: metadata and erratumOf are keys even when undefined. */
  const ALL_KEYS: set<string> := REQUIRED_KEYS + {METADATA, ERRATUM_OF}

  function ProjectField(f: Field, keys: set<string>): Field {
    if f.Text? then f else NoText(Project(f.value, keys))
  }

  function Serialised(e: Entry, keys: set<string>): Preimage {
    Preimage(e.id, e.systemId, ProjectField(e.occurredAt, keys), e.kind, e.status, e.missionId, e.releaseId,
             ProjectField(e.actor, keys), ProjectField(e.summary, keys),
             if e.metadata.Some? then Some(Project(Object(e.metadata.value), keys)) else None,
             e.previousHash, e.erratumOf)
  }

  type Digest = Preimage -> Hash

  /** computeEntryHash of an entry with the given keys. */
  function ComputeEntryHash(digest: Digest, e: Entry, keys: set<string>): Hash {
    digest(Serialised(e, keys))
  }

  // ---------------------------------------------------------------------------
  // Kinds
  // ---------------------------------------------------------------------------

  const MISSION_OPEN := "mission-open"
  const MISSION_CLOSE := "mission-close"
  const MISSION_ABORT := "mission-abort"
  const RELEASE_READY := "release-ready"
  const RELEASE_PUBLISHED := "release-published"

  function MigrateDeprecatedKind(kind: string): string {
    if kind == RELEASE_PUBLISHED then RELEASE_READY else kind
  }

  function DeprecatedAliases(kind: string): seq<string> {
    if kind == RELEASE_READY then [RELEASE_PUBLISHED] else []
  }

  predicate IsClose(kind: string) {
    kind == MISSION_CLOSE || kind == MISSION_ABORT
  }

  /** A mission id the source treats as present: neither null nor empty. */
  predicate Named(missionId: Option<string>) {
    missionId.Some? && missionId.value != ""
  }

  const MAX_ID := 999999

  /** The texts an entry brings along are such as the entry schema demands. */
  predicate TextsOk(e: Entry, isDatetime: string -> bool) {
    && e.systemId != ""
    && e.occurredAt.Text? && isDatetime(e.occurredAt.text)
    && e.actor.Text? && e.actor.text != "" && e.summary.Text? && e.summary.text != ""
  }

  /** The patterns are matched against text only; other summaries do not get past the schema. */
  predicate IsSensitive(sensitive: string -> bool, f: Field) {
    f.Text? && sensitive(f.text)
  }

  /** What the entry schema demands beyond the types: six digits, and non-empty texts. */
  predicate SchemaOk(e: Entry, isDatetime: string -> bool) {
    e.id <= MAX_ID && TextsOk(e, isDatetime) && e.hash != ""
  }

  // ---------------------------------------------------------------------------
  // Validation
  // ---------------------------------------------------------------------------

  datatype Rule =
    | EventIdGap | HashChainGap | HashMismatch | DuplicateMissionId | OrphanMissionClose | SensitivePayload | UnmatchedMissionOpen

  datatype Violation = Violation(rule: Rule, eventId: Option<nat>)

  function HeadHash(entries: seq<Entry>): Option<Hash> {
    if entries == [] then None else Some(entries[|entries| - 1].hash)
  }

  /** The missions opened and not closed since. */
  function OpenMissions(entries: seq<Entry>): set<string> {
    if entries == [] then {}
    else
      var e := entries[|entries| - 1];
      var before := OpenMissions(entries[..|entries| - 1]);
      if !Named(e.missionId) then before
      else if e.kind == MISSION_OPEN then before + {e.missionId.value}
      else if IsClose(e.kind) then before - {e.missionId.value}
      else before
  }

  /** The missions ever opened. */
  function AllMissions(entries: seq<Entry>): set<string> {
    if entries == [] then {}
    else
      var e := entries[|entries| - 1];
      AllMissions(entries[..|entries| - 1]) + (if e.kind == MISSION_OPEN && Named(e.missionId) then {e.missionId.value} else {})
  }

  predicate HashAccepted(digest: Digest, e: Entry) {
    || e.hash == ComputeEntryHash(digest, e, PresentKeys(e))
    || exists i :: 0 <= i < |DeprecatedAliases(e.kind)| &&
         e.hash == ComputeEntryHash(digest, e.(kind := DeprecatedAliases(e.kind)[i]), PresentKeys(e))
  }

  predicate IsOrphan(before: seq<Entry>, e: Entry) {
    IsClose(e.kind) && Named(e.missionId) && e.missionId.value !in OpenMissions(before)
  }

  predicate IsDuplicate(before: seq<Entry>, e: Entry) {
    e.kind == MISSION_OPEN && Named(e.missionId) && e.missionId.value in AllMissions(before)
  }

  function If(bad: bool, rule: Rule, e: Entry): seq<Violation> {
    if bad then [Violation(rule, Some(e.id))] else []
  }

  /** The violations of one entry after those before it. */
  function EntryFaults(digest: Digest, sensitive: string -> bool, before: seq<Entry>, e: Entry): seq<Violation> {
    If(e.id != |before| + 1, EventIdGap, e)
    + (If(e.previousHash != HeadHash(before), HashChainGap, e)
    + (If(!HashAccepted(digest, e), HashMismatch, e)
    + (If(IsDuplicate(before, e), DuplicateMissionId, e)
    + (If(IsOrphan(before, e), OrphanMissionClose, e)
    + If(IsSensitive(sensitive, e.summary), SensitivePayload, e)))))
  }

  function Faults(digest: Digest, sensitive: string -> bool, entries: seq<Entry>): seq<Violation> {
    if entries == [] then []
    else
      var n := |entries| - 1;
      Faults(digest, sensitive, entries[..n]) + EntryFaults(digest, sensitive, entries[..n], entries[n])
  }

  /** The open missions validation complains about: all but the current one. */
  function Unmatched(entries: seq<Entry>, currentMission: Option<string>): set<string> {
    set m | m in OpenMissions(entries) && Some(m) != currentMission
  }

  /** One turn of the loop over the entries. */
  method CheckEntry(digest: Digest, sensitive: string -> bool, ghost before: seq<Entry>, expectedId: nat, prevHash: Option<Hash>,
                    openMissions0: set<string>, allMissionIds0: set<string>, entry: Entry)
    returns (found: seq<Violation>, openMissions: set<string>, allMissionIds: set<string>)
    requires expectedId == |before| + 1 && prevHash == HeadHash(before)
    requires openMissions0 == OpenMissions(before) && allMissionIds0 == AllMissions(before)
    ensures found == EntryFaults(digest, sensitive, before, entry)
    ensures openMissions == OpenMissions(before + [entry]) && allMissionIds == AllMissions(before + [entry])
  {
    hide HashAccepted;
    assert (before + [entry])[..|before|] == before;
    openMissions, allMissionIds := openMissions0, allMissionIds0;
    found := If(entry.id != expectedId, EventIdGap, entry);
    found := found + If(entry.previousHash != prevHash, HashChainGap, entry);
    found := found + If(!HashAccepted(digest, entry), HashMismatch, entry);
    var mission: seq<Violation> := [];
    if entry.kind == MISSION_OPEN {
      mission := If(Named(entry.missionId) && entry.missionId.value in allMissionIds, DuplicateMissionId, entry);
      if Named(entry.missionId) {
        openMissions := openMissions + {entry.missionId.value};
        allMissionIds := allMissionIds + {entry.missionId.value};
      }
    } else if IsClose(entry.kind) {
      mission := If(Named(entry.missionId) && entry.missionId.value !in openMissions, OrphanMissionClose, entry);
      if Named(entry.missionId) {
        openMissions := openMissions - {entry.missionId.value};
      }
    }
    found := found + mission;
    found := found + If(IsSensitive(sensitive, entry.summary), SensitivePayload, entry);
    FoundAre(digest, sensitive, before, entry, mission, found);
  }

  method CheckEntries(digest: Digest, sensitive: string -> bool, entries: seq<Entry>)
    returns (violations: seq<Violation>, openMissions: set<string>)
    ensures violations == Faults(digest, sensitive, entries)
    ensures openMissions == OpenMissions(entries)
  {
    hide EntryFaults;
    violations, openMissions := [], {};
    var prevHash: Option<Hash> := None;
    var expectedId := 1;
    var allMissionIds: set<string> := {};
    var i := 0;
    while i < |entries|
      invariant 0 <= i <= |entries| && expectedId == i + 1
      invariant prevHash == HeadHash(entries[..i])
      invariant openMissions == OpenMissions(entries[..i]) && allMissionIds == AllMissions(entries[..i])
      invariant violations == Faults(digest, sensitive, entries[..i])
    {
      assert entries[..i + 1] == entries[..i] + [entries[i]] && entries[..i + 1][..i] == entries[..i];
      var found;
      found, openMissions, allMissionIds :=
        CheckEntry(digest, sensitive, entries[..i], expectedId, prevHash, openMissions, allMissionIds, entries[i]);
      violations := violations + found;
      prevHash := Some(entries[i].hash);
      expectedId := expectedId + 1;
      i := i + 1;
    }
    assert entries[..i] == entries;
  }

  /** One violation for every open mission but the current one. */
  method ReportUnmatched(openMissions: set<string>, currentMission: Option<string>) returns (violations: seq<Violation>)
    ensures |violations| == |set m | m in openMissions && Some(m) != currentMission|
    ensures forall v :: v in violations ==> v == Violation(UnmatchedMissionOpen, None)
  {
    violations := [];
    var rest := openMissions;
    ghost var seen: set<string> := {};
    while rest != {}
      invariant rest <= openMissions && rest !! seen
      invariant seen == set m | m in openMissions && m !in rest && Some(m) != currentMission
      invariant |violations| == |seen|
      invariant forall v :: v in violations ==> v == Violation(UnmatchedMissionOpen, None)
      decreases rest
    {
      var openId :| openId in rest;
      rest := rest - {openId};
      if Some(openId) != currentMission {
        violations := violations + [Violation(UnmatchedMissionOpen, None)];
        seen := seen + {openId};
      }
    }
    assert seen == set m | m in openMissions && Some(m) != currentMission;
  }

  /** violations are those of the entries, and then one for every unmatched open mission. */
  ghost predicate Reports(digest: Digest, sensitive: string -> bool, entries: seq<Entry>, currentMission: Option<string>,
                          violations: seq<Violation>)
  {
    var faults := Faults(digest, sensitive, entries);
    && |violations| == |faults| + |Unmatched(entries, currentMission)|
    && violations[..|faults|] == faults
    && forall v :: v in violations[|faults|..] ==> v == Violation(UnmatchedMissionOpen, None)
  }

  /** validateBordbuch, over the entries as read. */
  method ValidateBordbuch(digest: Digest, sensitive: string -> bool, entries: seq<Entry>, currentMission: Option<string>)
    returns (violations: seq<Violation>)
    ensures Reports(digest, sensitive, entries, currentMission, violations)
  {
    hide Faults, OpenMissions;
    var faults, openMissions := CheckEntries(digest, sensitive, entries);
    var unmatched := ReportUnmatched(openMissions, currentMission);
    violations := faults + unmatched;
  }

  lemma FoundAre(digest: Digest, sensitive: string -> bool, before: seq<Entry>, e: Entry, mission: seq<Violation>, found: seq<Violation>)
    requires mission == If(IsDuplicate(before, e), DuplicateMissionId, e) + If(IsOrphan(before, e), OrphanMissionClose, e)
    requires found ==
      If(e.id != |before| + 1, EventIdGap, e) + If(e.previousHash != HeadHash(before), HashChainGap, e)
      + If(!HashAccepted(digest, e), HashMismatch, e) + mission + If(IsSensitive(sensitive, e.summary), SensitivePayload, e)
    ensures found == EntryFaults(digest, sensitive, before, e)
  {
    hide HashAccepted, IsDuplicate, IsOrphan, If;
  }

  // ---------------------------------------------------------------------------
  // Append
  // ---------------------------------------------------------------------------

  datatype Draft = Draft(
    systemId: string,
    occurredAt: string,
    kind: string,
    status: string,
    missionId: Option<string>,
    releaseId: Option<string>,
    actor: string,
    summary: string,
    metadata: Option<map<string, Value>>,
    erratumOf: Option<string>)

  function MaxId(entries: seq<Entry>): nat {
    if entries == [] then 0
    else
      var m := MaxId(entries[..|entries| - 1]);
      if entries[|entries| - 1].id > m then entries[|entries| - 1].id else m
  }

  function Unhashed(d: Draft, id: nat, previousHash: Option<Hash>): Entry {
    Entry(id, d.systemId, Text(d.occurredAt), d.kind, d.status, d.missionId, d.releaseId, Text(d.actor), Text(d.summary),
          d.metadata, previousHash, "", d.erratumOf)
  }

  /** The entry append builds: the next id, the last hash, and a hash over all keys. */
  function Appended(digest: Digest, entries: seq<Entry>, d: Draft): Entry {
    var e := Unhashed(d, MaxId(entries) + 1, HeadHash(entries));
    e.(hash := ComputeEntryHash(digest, e, ALL_KEYS))
  }

  predicate AlreadyClosed(entries: seq<Entry>, d: Draft) {
    IsClose(d.kind) && Named(d.missionId) && exists i :: 0 <= i < |entries| && entries[i].missionId == d.missionId && IsClose(entries[i].kind)
  }

  datatype AppendResult = Written(entry: Entry) | SensitiveSummary | DuplicateClose | SchemaError

  /** The ledger file, as the entries read from it. */
  class Ledger {
    var entries: seq<Entry>

    constructor (entries: seq<Entry>)
      ensures this.entries == entries
    {
      this.entries := entries;
    }

    /** appendBordbuchEntry: on success one line is added, otherwise the file stays as it was. */
    method Append(digest: Digest, sensitive: string -> bool, isDatetime: string -> bool, d: Draft) returns (r: AppendResult)
      modifies this
      ensures r.SensitiveSummary? <==> sensitive(d.summary)
      ensures r.DuplicateClose? <==> !sensitive(d.summary) && AlreadyClosed(old(entries), d)
      ensures r.Written? <==> !sensitive(d.summary) && !AlreadyClosed(old(entries), d) && SchemaOk(Appended(digest, old(entries), d), isDatetime)
      ensures r.Written? ==> r.entry == Appended(digest, old(entries), d) && entries == old(entries) + [r.entry]
      ensures !r.Written? ==> entries == old(entries)
    {
      if sensitive(d.summary) {
        return SensitiveSummary;
      }
      if IsClose(d.kind) && Named(d.missionId) {
        var i := 0;
        while i < |entries|
          invariant 0 <= i <= |entries|
          invariant forall j :: 0 <= j < i ==> !(entries[j].missionId == d.missionId && IsClose(entries[j].kind))
        {
          if entries[i].missionId == d.missionId && IsClose(entries[i].kind) {
            return DuplicateClose;
          }
          i := i + 1;
        }
      }
      var entry := Unhashed(d, MaxId(entries) + 1, HeadHash(entries));
      entry := entry.(hash := ComputeEntryHash(digest, entry, ALL_KEYS));
      assert entry == Appended(digest, entries, d);
      if !SchemaOk(entry, isDatetime) {
        return SchemaError;
      }
      entries := entries + [entry];
      r := Written(entry);
    }
  }
}
