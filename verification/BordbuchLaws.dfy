/**
  What the ledger hashes, reports and appends, field by field; every change of an entry that
  keeps its hash is found.
 */
module BordbuchLaws {
  import opened Bordbuch
  import opened BordbuchChain
  import opened BordbuchRepair
  import opened Listing
  import Manifests

  // ---------------------------------------------------------------------------
  // What is written of a value
  // ---------------------------------------------------------------------------

  /** p is v with every member dropped whose key is not listed, at every level. */
  ghost predicate Cut(v: Value, p: Value, keys: set<string>) {
    match v
    case Scalar(text) => p == Scalar(text)
    case List(items) =>
      p.List? && |p.items| == |items| && forall i :: 0 <= i < |items| ==> Cut(items[i], p.items[i], keys)
    case Object(m) =>
      && p.Object?
      && (forall k :: k in p.members <==> k in m && k in keys)
      && (forall k :: k in m && k in keys ==> Cut(m[k], p.members[k], keys))
  }

  /** v and w are equal but for members whose keys are not listed. */
  ghost predicate Alike(v: Value, w: Value, keys: set<string>) {
    match v
    case Scalar(text) => w == Scalar(text)
    case List(items) =>
      w.List? && |w.items| == |items| && forall i :: 0 <= i < |items| ==> Alike(items[i], w.items[i], keys)
    case Object(m) =>
      && w.Object?
      && (forall k :: k in keys ==> (k in m <==> k in w.members))
      && (forall k :: k in keys && k in m ==> Alike(m[k], w.members[k], keys))
  }

  lemma {:induction false} ProjectCuts(v: Value, keys: set<string>)
    ensures Cut(v, Project(v, keys), keys)
  {
    match v {
      case Scalar(_) =>
      case List(items) =>
        forall i | 0 <= i < |items| ensures Cut(items[i], Project(items[i], keys), keys) {
          ProjectCuts(items[i], keys);
        }
      case Object(m) =>
        forall k | k in m && k in keys ensures Cut(m[k], Project(m[k], keys), keys) {
          ProjectCuts(m[k], keys);
        }
    }
  }

  /** Two values are written alike iff they are equal but for dropped members. */
  lemma {:induction false} AlikeIff(v: Value, w: Value, p: Value, q: Value, keys: set<string>)
    requires Cut(v, p, keys) && Cut(w, q, keys)
    ensures p == q <==> Alike(v, w, keys)
  {
    match v {
      case Scalar(_) =>
      case List(items) =>
        if w.List? && |w.items| == |items| {
          forall i | 0 <= i < |items| ensures p.items[i] == q.items[i] <==> Alike(items[i], w.items[i], keys) {
            AlikeIff(items[i], w.items[i], p.items[i], q.items[i], keys);
          }
        }
      case Object(m) =>
        if w.Object? {
          forall k | k in keys && k in m && k in w.members
            ensures p.members[k] == q.members[k] <==> Alike(m[k], w.members[k], keys)
          {
            AlikeIff(m[k], w.members[k], p.members[k], q.members[k], keys);
          }
          AlikeMembers(m, w.members, p.members, q.members, keys);
        }
    }
  }

  lemma AlikeMembers(m: map<string, Value>, n: map<string, Value>, p: map<string, Value>, q: map<string, Value>, keys: set<string>)
    requires forall k :: k in p <==> k in m && k in keys
    requires forall k :: k in q <==> k in n && k in keys
    requires forall k :: k in keys && k in m && k in n ==> (p[k] == q[k] <==> Alike(m[k], n[k], keys))
    ensures p == q <==> Alike(Object(m), Object(n), keys)
  {
    if p == q {
      forall k | k in keys ensures k in m <==> k in n {
        assert k in p <==> k in q;
      }
    }
    if Alike(Object(m), Object(n), keys) {
      assert p.Keys == q.Keys;
      assert forall k :: k in p ==> p[k] == q[k];
    }
  }

  // ---------------------------------------------------------------------------
  // What is hashed of an entry
  // ---------------------------------------------------------------------------

  /** The keys of an entry read from the file. */
  ghost function KeysOf(e: Entry): set<string> {
    {"schemaVersion", "id", "systemId", "occurredAt", "kind", "status", "missionId", "releaseId", "actor", "summary", "previousHash"}
    + (if e.metadata.Some? then {"metadata"} else {})
    + (if e.erratumOf.Some? then {"erratumOf"} else {})
  }

  ghost predicate FieldCut(f: Field, p: Field, keys: set<string>) {
    if f.Text? then p == f else p.NoText? && Cut(f.value, p.value, keys)
  }

  /** p holds every field of e but its hash, the JSON values among them cut to the keys. */
  ghost predicate HashedAs(e: Entry, keys: set<string>, p: Preimage) {
    && p.id == e.id && p.systemId == e.systemId && p.kind == e.kind && p.status == e.status
    && p.missionId == e.missionId && p.releaseId == e.releaseId
    && p.previousHash == e.previousHash && p.erratumOf == e.erratumOf
    && FieldCut(e.occurredAt, p.occurredAt, keys)
    && FieldCut(e.actor, p.actor, keys)
    && FieldCut(e.summary, p.summary, keys)
    && (p.metadata.Some? <==> e.metadata.Some?)
    && (p.metadata.Some? ==> Cut(Object(e.metadata.value), p.metadata.value, keys))
  }

  ghost predicate FieldAlike(f: Field, g: Field, keys: set<string>) {
    if f.Text? then f == g else g.NoText? && Alike(f.value, g.value, keys)
  }

  /** Equal field by field, but for members of JSON values that no key of the entry lets through. */
  ghost predicate SameFields(e: Entry, f: Entry) {
    && e.id == f.id && e.systemId == f.systemId && e.kind == f.kind && e.status == f.status
    && e.missionId == f.missionId && e.releaseId == f.releaseId
    && e.previousHash == f.previousHash && e.erratumOf == f.erratumOf
    && FieldAlike(e.occurredAt, f.occurredAt, KeysOf(e))
    && FieldAlike(e.actor, f.actor, KeysOf(e))
    && FieldAlike(e.summary, f.summary, KeysOf(e))
    && (e.metadata.Some? <==> f.metadata.Some?)
    && (e.metadata.Some? ==> Alike(Object(e.metadata.value), Object(f.metadata.value), KeysOf(e)))
  }

  lemma PresentKeysAre(e: Entry)
    ensures PresentKeys(e) == KeysOf(e)
  {
  }

  lemma ProjectFieldCuts(f: Field, keys: set<string>)
    ensures FieldCut(f, ProjectField(f, keys), keys)
  {
    if f.NoText? {
      ProjectCuts(f.value, keys);
    }
  }

  /** An entry read from the file is hashed with all its fields. */
  lemma SerialisedIs(e: Entry, keys: set<string>)
    ensures HashedAs(e, keys, Serialised(e, keys))
  {
    hide Cut, Project;
    ProjectFieldCuts(e.occurredAt, keys);
    ProjectFieldCuts(e.actor, keys);
    ProjectFieldCuts(e.summary, keys);
    if e.metadata.Some? {
      ProjectCuts(Object(e.metadata.value), keys);
    }
  }

  lemma FieldAlikeIff(f: Field, g: Field, p: Field, q: Field, keys: set<string>)
    requires FieldCut(f, p, keys) && FieldCut(g, q, keys)
    ensures p == q <==> FieldAlike(f, g, keys)
  {
    if f.NoText? && g.NoText? {
      AlikeIff(f.value, g.value, p.value, q.value, keys);
    }
  }

  lemma HashedAlikeIff(e: Entry, f: Entry, p: Preimage, q: Preimage)
    requires HashedAs(e, KeysOf(e), p) && HashedAs(f, KeysOf(f), q)
    ensures p == q <==> SameFields(e, f)
  {
    hide Cut, Alike, FieldCut, FieldAlike;
    if (e.metadata.Some? <==> f.metadata.Some?) && (e.erratumOf.Some? <==> f.erratumOf.Some?) {
      SameKeys(e, f);
      FieldAlikeIff(e.occurredAt, f.occurredAt, p.occurredAt, q.occurredAt, KeysOf(e));
      FieldAlikeIff(e.actor, f.actor, p.actor, q.actor, KeysOf(e));
      FieldAlikeIff(e.summary, f.summary, p.summary, q.summary, KeysOf(e));
      if e.metadata.Some? && f.metadata.Some? {
        AlikeIff(Object(e.metadata.value), Object(f.metadata.value), p.metadata.value, q.metadata.value, KeysOf(e));
      }
    }
  }

  lemma SameKeys(e: Entry, f: Entry)
    requires (e.metadata.Some? <==> f.metadata.Some?) && (e.erratumOf.Some? <==> f.erratumOf.Some?)
    ensures KeysOf(e) == KeysOf(f)
  {
  }

  // ---------------------------------------------------------------------------
  // Tampering
  // ---------------------------------------------------------------------------

  lemma SerialisedAlikeIff(e: Entry, f: Entry)
    ensures Serialised(e, PresentKeys(e)) == Serialised(f, PresentKeys(f)) <==> SameFields(e, f)
  {
    hide HashedAs, SameFields, KeysOf, PresentKeys;
    PresentKeysAre(e);
    PresentKeysAre(f);
    SerialisedIs(e, KeysOf(e));
    SerialisedIs(f, KeysOf(f));
    HashedAlikeIff(e, f, Serialised(e, KeysOf(e)), Serialised(f, KeysOf(f)));
  }

  /** A hash is accepted iff it is that of the entry, or of a release-ready entry as release-published. */
  lemma AcceptedIff(digest: Digest, e: Entry)
    ensures HashAccepted(digest, e) <==> exists p ::
      && e.hash == digest(p)
      && (HashedAs(e, KeysOf(e), p) || (e.kind == "release-ready" && HashedAs(e.(kind := "release-published"), KeysOf(e), p)))
  {
    hide HashedAs, Serialised, KeysOf, PresentKeys;
    PresentKeysAre(e);
    var former := e.(kind := "release-published");
    SameKeys(e, former);
    SerialisedIs(e, KeysOf(e));
    SerialisedIs(former, KeysOf(e));
    forall p ensures HashedAs(e, KeysOf(e), p) <==> p == Serialised(e, KeysOf(e)) {
      OnlyHashed(e, p);
    }
    forall p ensures HashedAs(former, KeysOf(e), p) <==> p == Serialised(former, KeysOf(e)) {
      OnlyHashed(former, p);
    }
    assert e.kind == "release-ready" ==> DeprecatedAliases(e.kind)[0] == "release-published";
  }

  lemma OnlyHashed(e: Entry, p: Preimage)
    ensures HashedAs(e, KeysOf(e), p) <==> p == Serialised(e, KeysOf(e))
  {
    hide HashedAs, Serialised, KeysOf, SameFields;
    SerialisedIs(e, KeysOf(e));
    HashedAlikeIff(e, e, Serialised(e, KeysOf(e)), Serialised(e, KeysOf(e)));
    if HashedAs(e, KeysOf(e), p) {
      HashedAlikeIff(e, e, p, Serialised(e, KeysOf(e)));
    }
  }

  /** An entry with the hash of another is accepted iff the two have the same fields. */
  lemma AcceptedInsteadIff(digest: Digest, e: Entry, f: Entry)
    requires CollisionFree(digest) && HashAccepted(digest, e) && f.hash == e.hash
    requires e.kind != "release-published" && f.kind != "release-published"
    ensures HashAccepted(digest, f) <==> SameFields(e, f)
  {
    hide Serialised, PresentKeys;
    SerialisedAlikeIff(e, f);
    if HashAccepted(digest, f) {
      SameHashSameEntry(digest, e, f);
    }
    if SameFields(e, f) {
      SerialisedAlikeIff(e.(kind := "release-published"), f.(kind := "release-published"));
      KindKeepsKeys(e, "release-published");
      KindKeepsKeys(f, "release-published");
      assert e.kind == f.kind;
    }
  }

  lemma KindKeepsKeys(e: Entry, kind: string)
    ensures PresentKeys(e.(kind := kind)) == PresentKeys(e)
  {
  }

  ghost predicate SameLedgers(a: seq<Entry>, b: seq<Entry>) {
    |a| == |b| && forall i :: 0 <= i < |a| ==> SameFields(a[i], b[i]) && a[i].hash == b[i].hash
  }

  /** Linked ledgers with one head hash have the same fields, entry by entry. */
  lemma HeadHashFixesFields(digest: Digest, a: seq<Entry>, b: seq<Entry>)
    requires CollisionFree(digest) && Linked(digest, a) && Linked(digest, b) && Migrated(a) && Migrated(b)
    requires HeadHash(a) == HeadHash(b)
    ensures SameLedgers(a, b)
  {
    hide Linked, Migrated, Serialised, SameFields, PresentKeys;
    HeadHashFixesLedger(digest, a, b);
    forall i | 0 <= i < |a| ensures SameFields(a[i], b[i]) {
      assert SameEntry(a[i], b[i]);
      SerialisedAlikeIff(a[i], b[i]);
    }
  }

  // ---------------------------------------------------------------------------
  // Missions
  // ---------------------------------------------------------------------------

  ghost predicate OpensAt(entries: seq<Entry>, i: int, mission: string) {
    0 <= i < |entries| && entries[i].kind == "mission-open" && entries[i].missionId == Some(mission) && mission != ""
  }

  ghost predicate EndsAt(entries: seq<Entry>, i: int, mission: string) {
    0 <= i < |entries| && entries[i].kind in {"mission-close", "mission-abort"} && entries[i].missionId == Some(mission)
  }

  /** Opened, and neither closed nor aborted since. */
  ghost predicate IsOpen(entries: seq<Entry>, mission: string) {
    exists i :: OpensAt(entries, i, mission) && forall j :: i < j ==> !EndsAt(entries, j, mission)
  }

  ghost predicate WasOpened(entries: seq<Entry>, mission: string) {
    exists i :: OpensAt(entries, i, mission)
  }

  lemma AtEarlier(entries: seq<Entry>, n: nat, mission: string)
    requires n <= |entries|
    ensures forall i :: OpensAt(entries[..n], i, mission) <==> i < n && OpensAt(entries, i, mission)
    ensures forall i :: EndsAt(entries[..n], i, mission) <==> i < n && EndsAt(entries, i, mission)
  {
  }

  lemma OpenNext(entries: seq<Entry>, n: nat, mission: string)
    requires |entries| == n + 1
    ensures IsOpen(entries, mission) <==>
      OpensAt(entries, n, mission) || (IsOpen(entries[..n], mission) && !EndsAt(entries, n, mission))
    ensures WasOpened(entries, mission) <==> OpensAt(entries, n, mission) || WasOpened(entries[..n], mission)
  {
    AtEarlier(entries, n, mission);
    if i :| OpensAt(entries, i, mission) && forall j :: i < j ==> !EndsAt(entries, j, mission) {
      if i < n {
        assert OpensAt(entries[..n], i, mission);
      }
    }
    if i :| OpensAt(entries, i, mission) && i < n {
      assert OpensAt(entries[..n], i, mission);
    }
    if IsOpen(entries[..n], mission) && !EndsAt(entries, n, mission) {
      var i :| OpensAt(entries[..n], i, mission) && forall j :: i < j ==> !EndsAt(entries[..n], j, mission);
      assert OpensAt(entries, i, mission);
    }
  }

  /** The missions open at the end, and those ever opened. */
  lemma {:induction false} MissionsAre(entries: seq<Entry>, mission: string)
    ensures mission in OpenMissions(entries) <==> IsOpen(entries, mission)
    ensures mission in AllMissions(entries) <==> WasOpened(entries, mission)
  {
    if entries != [] {
      var n := |entries| - 1;
      MissionsAre(entries[..n], mission);
      OpenNext(entries, n, mission);
      hide IsOpen, WasOpened;
    }
  }

  // ---------------------------------------------------------------------------
  // What validation reports
  // ---------------------------------------------------------------------------

  ghost predicate ClosesOrphan(entries: seq<Entry>, i: nat)
    requires i < |entries|
  {
    exists m :: EndsAt(entries, i, m) && m != "" && !IsOpen(entries[..i], m)
  }

  /** Entry i breaks the k-th of the six rules an entry is checked against. */
  ghost predicate Breaks(digest: Digest, sensitive: string -> bool, entries: seq<Entry>, i: nat, k: nat)
    requires i < |entries|
  {
    var e := entries[i];
    match k
    case 0 => e.id != i + 1
    case 1 => e.previousHash != if i == 0 then None else Some(entries[i - 1].hash)
    case 2 => !HashAccepted(digest, e)
    case 3 => exists m :: OpensAt(entries, i, m) && WasOpened(entries[..i], m)
    case 4 => ClosesOrphan(entries, i)
    case 5 => e.summary.Text? && sensitive(e.summary.text)
    case _ => false
  }

  ghost function RuleAt(k: nat): Rule {
    match k
    case 0 => EventIdGap
    case 1 => HashChainGap
    case 2 => HashMismatch
    case 3 => DuplicateMissionId
    case 4 => OrphanMissionClose
    case _ => SensitivePayload
  }

  ghost function Fault(digest: Digest, sensitive: string -> bool, entries: seq<Entry>): (nat, nat) -> Manifests.Option<Violation> {
    (i: nat, k: nat) =>
      if i < |entries| && Breaks(digest, sensitive, entries, i, k) then Manifests.Some(Violation(RuleAt(k), Some(entries[i].id)))
      else Manifests.None
  }

  lemma EntryBreaks(digest: Digest, sensitive: string -> bool, entries: seq<Entry>, i: nat)
    requires i < |entries|
    ensures var e, before := entries[i], entries[..i];
      && (e.id != |before| + 1 <==> Breaks(digest, sensitive, entries, i, 0))
      && (!HashAccepted(digest, e) <==> Breaks(digest, sensitive, entries, i, 2))
      && (e.previousHash != HeadHash(before) <==> Breaks(digest, sensitive, entries, i, 1))
      && (IsDuplicate(before, e) <==> Breaks(digest, sensitive, entries, i, 3))
      && (IsOrphan(before, e) <==> Breaks(digest, sensitive, entries, i, 4))
      && (IsSensitive(sensitive, e.summary) <==> Breaks(digest, sensitive, entries, i, 5))
  {
    hide OpenMissions, AllMissions, HashAccepted, IsOpen, WasOpened;
    var e := entries[i];
    if e.missionId.Some? {
      MissionsAre(entries[..i], e.missionId.value);
    }
    if IsDuplicate(entries[..i], e) {
      assert OpensAt(entries, i, e.missionId.value);
    }
    if IsOrphan(entries[..i], e) {
      assert EndsAt(entries, i, e.missionId.value);
    }
  }

  /** The violations of entry i of the first k rules. */
  ghost function FaultsUpTo(digest: Digest, sensitive: string -> bool, entries: seq<Entry>, i: nat, k: nat): seq<Violation>
    requires i < |entries|
  {
    if k == 0 then []
    else
      FaultsUpTo(digest, sensitive, entries, i, k - 1)
      + If(Breaks(digest, sensitive, entries, i, k - 1), RuleAt(k - 1), entries[i])
  }

  lemma {:induction false} UpToPicked(digest: Digest, sensitive: string -> bool, entries: seq<Entry>, i: nat, k: nat) returns (places: seq<nat>)
    requires i < |entries|
    ensures Picks(FaultsUpTo(digest, sensitive, entries, i, k), k, i, Fault(digest, sensitive, entries), places)
  {
    hide Breaks, RuleAt;
    if k == 0 {
      places := [];
    } else {
      places := UpToPicked(digest, sensitive, entries, i, k - 1);
      places := PickNext(FaultsUpTo(digest, sensitive, entries, i, k - 1), k - 1, i, Fault(digest, sensitive, entries), places);
    }
  }

  lemma RegroupSix<T>(a: seq<T>, b: seq<T>, c: seq<T>, d: seq<T>, e: seq<T>, f: seq<T>)
    ensures a + (b + (c + (d + (e + f)))) == [] + a + b + c + d + e + f
  {
  }

  lemma NextUpTo(digest: Digest, sensitive: string -> bool, entries: seq<Entry>, i: nat, k: nat, rule: Rule)
    requires i < |entries| && rule == RuleAt(k)
    ensures FaultsUpTo(digest, sensitive, entries, i, k + 1) ==
      FaultsUpTo(digest, sensitive, entries, i, k) + If(Breaks(digest, sensitive, entries, i, k), rule, entries[i])
  {
    hide Breaks, If;
  }

  lemma UpToSix(digest: Digest, sensitive: string -> bool, entries: seq<Entry>, i: nat)
    requires i < |entries|
    ensures FaultsUpTo(digest, sensitive, entries, i, 6) == []
      + If(Breaks(digest, sensitive, entries, i, 0), EventIdGap, entries[i])
      + If(Breaks(digest, sensitive, entries, i, 1), HashChainGap, entries[i])
      + If(Breaks(digest, sensitive, entries, i, 2), HashMismatch, entries[i])
      + If(Breaks(digest, sensitive, entries, i, 3), DuplicateMissionId, entries[i])
      + If(Breaks(digest, sensitive, entries, i, 4), OrphanMissionClose, entries[i])
      + If(Breaks(digest, sensitive, entries, i, 5), SensitivePayload, entries[i])
  {
    hide Breaks, If;
    NextUpTo(digest, sensitive, entries, i, 0, EventIdGap);
    NextUpTo(digest, sensitive, entries, i, 1, HashChainGap);
    NextUpTo(digest, sensitive, entries, i, 2, HashMismatch);
    NextUpTo(digest, sensitive, entries, i, 3, DuplicateMissionId);
    NextUpTo(digest, sensitive, entries, i, 4, OrphanMissionClose);
    NextUpTo(digest, sensitive, entries, i, 5, SensitivePayload);
    assert FaultsUpTo(digest, sensitive, entries, i, 0) == [];
  }

  lemma SixRules(digest: Digest, sensitive: string -> bool, entries: seq<Entry>, i: nat)
    requires i < |entries|
    ensures EntryFaults(digest, sensitive, entries[..i], entries[i]) == FaultsUpTo(digest, sensitive, entries, i, 6)
  {
    hide Breaks, If, FaultsUpTo, HashAccepted, IsDuplicate, IsOrphan, HeadHash, IsSensitive;
    EntryBreaks(digest, sensitive, entries, i);
    UpToSix(digest, sensitive, entries, i);
    RegroupSix(
      If(Breaks(digest, sensitive, entries, i, 0), EventIdGap, entries[i]),
      If(Breaks(digest, sensitive, entries, i, 1), HashChainGap, entries[i]),
      If(Breaks(digest, sensitive, entries, i, 2), HashMismatch, entries[i]),
      If(Breaks(digest, sensitive, entries, i, 3), DuplicateMissionId, entries[i]),
      If(Breaks(digest, sensitive, entries, i, 4), OrphanMissionClose, entries[i]),
      If(Breaks(digest, sensitive, entries, i, 5), SensitivePayload, entries[i]));
  }

  lemma EntryFaultsPicked(digest: Digest, sensitive: string -> bool, entries: seq<Entry>, i: nat)
    requires i < |entries|
    ensures PickedFrom(EntryFaults(digest, sensitive, entries[..i], entries[i]), i, Fault(digest, sensitive, entries))
  {
    SixRules(digest, sensitive, entries, i);
    var places := UpToPicked(digest, sensitive, entries, i, 6);
    hide FaultsUpTo, Picks;
    assert forall j: nat :: 6 <= j ==> Fault(digest, sensitive, entries)(i, j).None?;
  }

  ghost function Positions(n: nat): seq<nat> {
    seq(n, i => i)
  }

  /** The faults are those of the six rules, entry by entry, rule by rule, each once. */
  lemma {:induction false} FaultsAre(digest: Digest, sensitive: string -> bool, entries: seq<Entry>, n: nat) returns (places: seq<Place>)
    requires n <= |entries|
    ensures Itemises(Faults(digest, sensitive, entries[..n]), Positions(n), Fault(digest, sensitive, entries), places)
  {
    hide EntryFaults, Breaks, RuleAt;
    if n == 0 {
      places := [];
    } else {
      places := FaultsAre(digest, sensitive, entries, n - 1);
      EntryFaultsPicked(digest, sensitive, entries, n - 1);
      hide Itemises, PickedFrom;
      assert entries[..n][..n - 1] == entries[..n - 1] && entries[..n][n - 1] == entries[n - 1];
      assert Positions(n) == Positions(n - 1) + [n - 1];
      var m: nat := n - 1;
      places := ItemiseNext(Faults(digest, sensitive, entries[..m]), Positions(m),
                            EntryFaults(digest, sensitive, entries[..m], entries[m]), m, Fault(digest, sensitive, entries), places);
    }
  }

  lemma FaultIn(digest: Digest, sensitive: string -> bool, entries: seq<Entry>, i: nat, k: nat)
    requires i < |entries| && k < 6 && Breaks(digest, sensitive, entries, i, k)
    ensures Violation(RuleAt(k), Some(entries[i].id)) in Faults(digest, sensitive, entries)
  {
    hide Faults, Breaks, RuleAt;
    assert entries[..|entries|] == entries;
    var places := FaultsAre(digest, sensitive, entries, |entries|);
    var positions := Positions(|entries|);
    assert Occupied(positions, Fault(digest, sensitive, entries), Place(i, k));
    var j :| 0 <= j < |places| && places[j] == Place(i, k);
    assert Faults(digest, sensitive, entries)[j] in Faults(digest, sensitive, entries);
  }

  /** An entry of a linked ledger that is changed and keeps its hash is reported. */
  lemma TamperingIsReported(digest: Digest, sensitive: string -> bool, entries: seq<Entry>, i: nat, f: Entry)
    requires CollisionFree(digest) && Linked(digest, entries) && i < |entries|
    requires entries[i].kind != "release-published" && f.kind != "release-published"
    requires f.hash == entries[i].hash && !SameFields(entries[i], f)
    ensures Violation(HashMismatch, Some(f.id)) in Faults(digest, sensitive, entries[i := f])
  {
    hide Faults, SameFields, CollisionFree;
    AcceptedInsteadIff(digest, entries[i], f);
    FaultIn(digest, sensitive, entries[i := f], i, 2);
  }

  /** The unmatched missions are those that are open, but for the current one. */
  lemma UnmatchedAre(entries: seq<Entry>, currentMission: Option<string>, mission: string)
    ensures mission in Unmatched(entries, currentMission) <==> IsOpen(entries, mission) && currentMission != Some(mission)
  {
    MissionsAre(entries, mission);
    hide OpenMissions, IsOpen;
  }

  // ---------------------------------------------------------------------------
  // Append
  // ---------------------------------------------------------------------------

  lemma {:induction false} MaxIdIs(entries: seq<Entry>)
    ensures forall x :: x in entries ==> x.id <= MaxId(entries)
    ensures if entries == [] then MaxId(entries) == 0 else exists x :: x in entries && x.id == MaxId(entries)
  {
    if entries != [] {
      var n := |entries| - 1;
      MaxIdIs(entries[..n]);
      assert entries == entries[..n] + [entries[n]];
      if n == 0 {
        assert entries[0] in entries;
      }
    }
  }

  /** The entry append builds: the next id, what it was given, the last hash, and a hash over thirteen keys. */
  lemma AppendedIs(digest: Digest, entries: seq<Entry>, d: Draft) returns (p: Preimage)
    ensures var e := Appended(digest, entries, d);
      && (forall x :: x in entries ==> x.id < e.id)
      && (if entries == [] then e.id == 1 else exists x :: x in entries && x.id + 1 == e.id)
      && e.previousHash == (if entries == [] then None else Some(entries[|entries| - 1].hash))
      && e.systemId == d.systemId && e.kind == d.kind && e.status == d.status
      && e.missionId == d.missionId && e.releaseId == d.releaseId && e.metadata == d.metadata && e.erratumOf == d.erratumOf
      && e.occurredAt == Text(d.occurredAt) && e.actor == Text(d.actor) && e.summary == Text(d.summary)
      && e.hash == digest(p)
      && HashedAs(e, {"schemaVersion", "id", "systemId", "occurredAt", "kind", "status", "missionId", "releaseId", "actor",
                      "summary", "previousHash", "metadata", "erratumOf"}, p)
  {
    hide Cut;
    MaxIdIs(entries);
    p := Serialised(Unhashed(d, MaxId(entries) + 1, HeadHash(entries)), ALL_KEYS);
    SerialisedIs(Unhashed(d, MaxId(entries) + 1, HeadHash(entries)), ALL_KEYS);
    assert ALL_KEYS == {"schemaVersion", "id", "systemId", "occurredAt", "kind", "status", "missionId", "releaseId", "actor",
                        "summary", "previousHash", "metadata", "erratumOf"};
  }

  /** A close or an abort is refused iff its mission has been closed or aborted before. */
  lemma AlreadyClosedIff(entries: seq<Entry>, d: Draft)
    ensures AlreadyClosed(entries, d) <==>
      d.kind in {"mission-close", "mission-abort"} && exists m, i :: d.missionId == Some(m) && m != "" && EndsAt(entries, i, m)
  {
    if AlreadyClosed(entries, d) {
      var i :| 0 <= i < |entries| && entries[i].missionId == d.missionId && IsClose(entries[i].kind);
      assert EndsAt(entries, i, d.missionId.value);
    }
  }

  /** An entry fits the schema iff its id has six digits at most, its time is one, and no text is empty. */
  lemma SchemaIff(e: Entry, isDatetime: string -> bool)
    ensures SchemaOk(e, isDatetime) <==>
      && e.id < 1000000 && |e.systemId| > 0 && |e.hash| > 0
      && (exists t :: e.occurredAt == Text(t) && isDatetime(t))
      && (exists t :: e.actor == Text(t) && |t| > 0)
      && (exists t :: e.summary == Text(t) && |t| > 0)
  {
  }

  // ---------------------------------------------------------------------------
  // What a repair writes
  // ---------------------------------------------------------------------------

  /** The open inserted before the close or abort of an unopened mission. */
  ghost predicate OpensFor(setting: Setting, close: Entry, e: Entry) {
    && e.systemId == setting.systemId && e.kind == "mission-open" && e.status == "done"
    && e.missionId == close.missionId && e.releaseId == None && e.erratumOf == None
    && e.occurredAt == (match setting.operator.occurredAt case Some(t) => t case None => close.occurredAt)
    && e.actor == (match setting.operator.actor case Some(t) => t case None => Text("agent"))
    && e.summary == (match setting.operator.summary case Some(t) => t case None => Text("Mission opened (auto-repaired)"))
    && e.metadata == Some(map["autoRepaired" := Scalar("true")])
    && e.id == 0 && e.previousHash == None && e.hash == "sha256:placeholder"
  }

  lemma OpenForIs(setting: Setting, close: Entry)
    ensures OpensFor(setting, close, OpenFor(setting, close))
  {
  }

  /** The filter names no mission, or that of the entry. */
  ghost predicate PassesFilter(setting: Setting, e: Entry) {
    forall m :: setting.missionFilter == Some(m) && m != "" ==> e.missionId == Some(m)
  }

  /** The places of a merged ledger: before each entry one for an open, and one for itself. */
  ghost function MergedItem(setting: Setting, entries: seq<Entry>): (nat, nat) -> Manifests.Option<Entry> {
    (i: nat, k: nat) =>
      if i >= |entries| || k >= 2 then Manifests.None
      else if k == 1 then Manifests.Some(entries[i])
      else if ClosesOrphan(entries, i) && PassesFilter(setting, entries[i]) then Manifests.Some(OpenFor(setting, entries[i]))
      else Manifests.None
  }

  lemma MergedPicked(setting: Setting, entries: seq<Entry>, i: nat)
    requires i < |entries|
    ensures PickedFrom((if Selected(setting, entries[..i], entries[i]) then [OpenFor(setting, entries[i])] else []) + [entries[i]],
                       i, MergedItem(setting, entries))
  {
    hide OpenFor, ClosesOrphan, IsOrphan;
    OrphanIff(entries, i);
    var open := if Selected(setting, entries[..i], entries[i]) then [OpenFor(setting, entries[i])] else [];
    assert Matches(setting, entries[i]) <==> PassesFilter(setting, entries[i]);
    assert Picks([], 0, i, MergedItem(setting, entries), []);
    var places := PickNext([], 0, i, MergedItem(setting, entries), []);
    assert [] + open == open;
    places := PickNext(open, 1, i, MergedItem(setting, entries), places);
    assert forall k: nat :: 2 <= k ==> MergedItem(setting, entries)(i, k).None?;
  }

  lemma OrphanIff(entries: seq<Entry>, i: nat)
    requires i < |entries|
    ensures IsOrphan(entries[..i], entries[i]) <==> ClosesOrphan(entries, i)
  {
    hide OpenMissions, AllMissions, IsOpen, WasOpened;
    if entries[i].missionId.Some? {
      MissionsAre(entries[..i], entries[i].missionId.value);
    }
    if IsOrphan(entries[..i], entries[i]) {
      assert EndsAt(entries, i, entries[i].missionId.value);
    }
  }

  /** The merge keeps every entry in its order and puts an open right before each orphaned close the filter lets pass. */
  lemma {:induction false} MergedIs(setting: Setting, entries: seq<Entry>, n: nat) returns (places: seq<Place>)
    requires n <= |entries|
    ensures Itemises(Merged(setting, entries[..n]), Positions(n), MergedItem(setting, entries), places)
  {
    hide OpenFor, ClosesOrphan, Selected;
    if n == 0 {
      places := [];
    } else {
      var m: nat := n - 1;
      places := MergedIs(setting, entries, m);
      MergedPicked(setting, entries, m);
      hide Itemises, PickedFrom;
      assert entries[..n][..m] == entries[..m] && entries[..n][m] == entries[m];
      assert Positions(n) == Positions(m) + [m];
      var open := if Selected(setting, entries[..m], entries[m]) then [OpenFor(setting, entries[m])] else [];
      places := ItemiseNext(Merged(setting, entries[..m]), Positions(m), open + [entries[m]], m, MergedItem(setting, entries), places);
      assert Merged(setting, entries[..m]) + (open + [entries[m]]) == Merged(setting, entries[..m]) + open + [entries[m]];
    }
  }
}
