/** What the hash chain of the Bordbuch guarantees, and the metadata that breaks it. */
module BordbuchChain {
  import opened Bordbuch

  ghost predicate CollisionFree(digest: Digest) {
    forall p, q :: digest(p) == digest(q) ==> p == q
  }

  /** Ids 1, 2, 3 and so on, each entry linked to the one before, every hash accepted. */
  ghost predicate Linked(digest: Digest, entries: seq<Entry>) {
    forall i :: 0 <= i < |entries| ==>
      entries[i].id == i + 1 && entries[i].previousHash == HeadHash(entries[..i]) && HashAccepted(digest, entries[i])
  }

  ghost predicate ChainFault(v: Violation) {
    v.rule == EventIdGap || v.rule == HashChainGap || v.rule == HashMismatch
  }

  ghost predicate AnyChainFault(violations: seq<Violation>) {
    exists v :: v in violations && ChainFault(v)
  }

  lemma AnyChainFaultConcat(a: seq<Violation>, b: seq<Violation>)
    ensures AnyChainFault(a + b) <==> AnyChainFault(a) || AnyChainFault(b)
  {
    assert forall v :: v in a + b <==> v in a || v in b;
  }

  lemma AnyChainFaultIf(bad: bool, rule: Rule, e: Entry)
    ensures AnyChainFault(If(bad, rule, e)) <==> bad && ChainFault(Violation(rule, Some(e.id)))
  {
    assert bad ==> Violation(rule, Some(e.id)) in If(bad, rule, e);
  }

  lemma LinkedSnoc(digest: Digest, before: seq<Entry>, e: Entry)
    ensures Linked(digest, before + [e])
       <==> Linked(digest, before) && e.id == |before| + 1 && e.previousHash == HeadHash(before) && HashAccepted(digest, e)
  {
    hide HashAccepted, HeadHash;
    var more := before + [e];
    assert forall i :: 0 <= i < |before| ==> more[i] == before[i] && more[..i] == before[..i];
    assert more[|before|] == e && more[..|before|] == before;
  }

  /** Validation reports a fault of the chain iff the ledger is not linked. */
  lemma {:induction false} LinkedIffNoChainFault(digest: Digest, sensitive: string -> bool, entries: seq<Entry>)
    ensures Linked(digest, entries) <==> !AnyChainFault(Faults(digest, sensitive, entries))
  {
    if entries != [] {
      var n := |entries| - 1;
      var before, e := entries[..n], entries[n];
      assert entries == before + [e];
      LinkedIffNoChainFault(digest, sensitive, before);
      LinkedSnoc(digest, before, e);
      hide Linked, AnyChainFault, HashAccepted, IsDuplicate, IsOrphan, If, HeadHash;
      AnyChainFaultConcat(Faults(digest, sensitive, before), EntryFaults(digest, sensitive, before, e));
      AnyChainFaultIf(e.id != |before| + 1, EventIdGap, e);
      AnyChainFaultIf(e.previousHash != HeadHash(before), HashChainGap, e);
      AnyChainFaultIf(!HashAccepted(digest, e), HashMismatch, e);
      AnyChainFaultIf(IsDuplicate(before, e), DuplicateMissionId, e);
      AnyChainFaultIf(IsOrphan(before, e), OrphanMissionClose, e);
      AnyChainFaultIf(IsSensitive(sensitive, e.summary), SensitivePayload, e);
      forall a, b ensures AnyChainFault(a + b) <==> AnyChainFault(a) || AnyChainFault(b) {
        AnyChainFaultConcat(a, b);
      }
    }
  }

  // ---------------------------------------------------------------------------
  // Append
  // ---------------------------------------------------------------------------

  /** Key x is written somewhere below v once x is added to the keys. */
  ghost predicate Reaches(v: Value, keys: set<string>, x: string) {
    match v
    case Scalar(_) => false
    case List(items) => exists i :: 0 <= i < |items| && Reaches(items[i], keys, x)
    case Object(m) => x in m || exists k :: k in m && k in keys && Reaches(m[k], keys, x)
  }

  /** One key more on the list changes what is written iff it is reached. */
  lemma {:induction false} ProjectSameIff(v: Value, keys: set<string>, x: string)
    requires x !in keys
    ensures Project(v, keys + {x}) == Project(v, keys) <==> !Reaches(v, keys, x)
  {
    match v {
      case Scalar(_) =>
      case List(items) =>
        forall i | 0 <= i < |items| ensures Project(items[i], keys + {x}) == Project(items[i], keys) <==> !Reaches(items[i], keys, x) {
          ProjectSameIff(items[i], keys, x);
        }
        var a, b := Project(v, keys + {x}).items, Project(v, keys).items;
        if i :| 0 <= i < |items| && Reaches(items[i], keys, x) {
          assert a[i] != b[i];
        } else {
          assert forall i :: 0 <= i < |items| ==> a[i] == b[i];
          assert a == b;
        }
      case Object(m) =>
        forall k | k in m && k in keys ensures Project(m[k], keys + {x}) == Project(m[k], keys) <==> !Reaches(m[k], keys, x) {
          ProjectSameIff(m[k], keys, x);
        }
        var a, b := Project(v, keys + {x}).members, Project(v, keys).members;
        if x in m {
          assert x in a && x !in b;
        } else if k :| k in m && k in keys && Reaches(m[k], keys, x) {
          assert a[k] != b[k];
        } else {
          assert a.Keys == b.Keys;
          assert forall k :: k in a ==> a[k] == b[k];
          assert a == b;
        }
    }
  }

  lemma {:induction false} MaxIdOfLinked(digest: Digest, entries: seq<Entry>)
    requires Linked(digest, entries)
    ensures MaxId(entries) == |entries|
  {
    if entries != [] {
      var n := |entries| - 1;
      assert entries == entries[..n] + [entries[n]];
      LinkedSnoc(digest, entries[..n], entries[n]);
      MaxIdOfLinked(digest, entries[..n]);
    }
  }

  /** The metadata hides no key that is hashed when appended and dropped when read back. */
  ghost predicate HashSurvives(d: Draft) {
    d.metadata.Some? && d.erratumOf.None? ==> !Reaches(Object(d.metadata.value), REQUIRED_KEYS + {METADATA}, ERRATUM_OF)
  }

  lemma SameWritten(d: Draft, e: Entry)
    requires e.metadata == d.metadata && e.erratumOf == d.erratumOf
    requires e.occurredAt.Text? && e.actor.Text? && e.summary.Text?
    ensures Serialised(e, ALL_KEYS) == Serialised(e, PresentKeys(e)) <==> HashSurvives(d)
  {
    if d.metadata.Some? && d.erratumOf.None? {
      var keys := REQUIRED_KEYS + {METADATA};
      assert PresentKeys(e) == keys && ALL_KEYS == keys + {ERRATUM_OF};
      ProjectSameIff(Object(d.metadata.value), keys, ERRATUM_OF);
    } else if d.metadata.Some? {
      assert PresentKeys(e) == ALL_KEYS;
    }
  }

  lemma SerialisedIgnoresHash(e: Entry, hash: Hash, keys: set<string>)
    ensures Serialised(e.(hash := hash), keys) == Serialised(e, keys)
    ensures PresentKeys(e.(hash := hash)) == PresentKeys(e)
  {
  }

  /**
    Appending to a linked ledger keeps it linked exactly when the metadata mentions erratumOf
    nowhere on the surviving levels, or the entry is itself an erratum.
   */
  lemma AppendKeepsLinkedIff(digest: Digest, entries: seq<Entry>, d: Draft)
    requires CollisionFree(digest) && Linked(digest, entries)
    ensures Linked(digest, entries + [Appended(digest, entries, d)]) <==> HashSurvives(d)
  {
    var e := Appended(digest, entries, d);
    MaxIdOfLinked(digest, entries);
    LinkedSnoc(digest, entries, e);
    SameWritten(d, e);
    var e0 := Unhashed(d, MaxId(entries) + 1, HeadHash(entries));
    SerialisedIgnoresHash(e0, e.hash, ALL_KEYS);
    hide Linked, Project, PresentKeys, Reaches, HashSurvives;
    assert e.hash == digest(Serialised(e, ALL_KEYS));
    forall i | 0 <= i < |DeprecatedAliases(e.kind)|
      ensures e.hash != ComputeEntryHash(digest, e.(kind := DeprecatedAliases(e.kind)[i]), PresentKeys(e))
    {
      assert Serialised(e.(kind := DeprecatedAliases(e.kind)[i]), PresentKeys(e)).kind != Serialised(e, ALL_KEYS).kind;
    }
  }

  /** The entries fit the schema as long as there are fewer than a million. */
  lemma AppendFitsIff(digest: Digest, entries: seq<Entry>, d: Draft, isDatetime: string -> bool)
    requires Linked(digest, entries)
    requires d.systemId != "" && isDatetime(d.occurredAt) && d.actor != "" && d.summary != ""
    requires Appended(digest, entries, d).hash != ""
    ensures SchemaOk(Appended(digest, entries, d), isDatetime) <==> |entries| < MAX_ID
  {
    MaxIdOfLinked(digest, entries);
  }

  /** A note in the metadata under the key erratumOf makes the entry fail validation from then on. */
  lemma MetadataBreaksHash(digest: Digest, entries: seq<Entry>, d: Draft, note: Value)
    requires CollisionFree(digest) && Linked(digest, entries)
    requires d.metadata == Some(map[ERRATUM_OF := note]) && d.erratumOf == None
    ensures !Linked(digest, entries + [Appended(digest, entries, d)])
  {
    AppendKeepsLinkedIff(digest, entries, d);
    assert ERRATUM_OF in d.metadata.value;
    assert Reaches(Object(d.metadata.value), REQUIRED_KEYS + {METADATA}, ERRATUM_OF);
  }

  // ---------------------------------------------------------------------------
  // The head hash fixes the ledger
  // ---------------------------------------------------------------------------

  /** As readBordbuch leaves it: no deprecated kind. */
  ghost predicate Migrated(entries: seq<Entry>) {
    forall e :: e in entries ==> e.kind != RELEASE_PUBLISHED
  }

  /** Equal in everything computeEntryHash writes, and in the hash. */
  ghost predicate SameEntry(e: Entry, f: Entry) {
    Serialised(e, PresentKeys(e)) == Serialised(f, PresentKeys(f)) && e.hash == f.hash
  }

  lemma SameHashSameEntry(digest: Digest, e: Entry, f: Entry)
    requires CollisionFree(digest) && HashAccepted(digest, e) && HashAccepted(digest, f) && e.hash == f.hash
    requires e.kind != RELEASE_PUBLISHED && f.kind != RELEASE_PUBLISHED
    ensures SameEntry(e, f)
  {
    var e1 := if e.hash == ComputeEntryHash(digest, e, PresentKeys(e)) then e else e.(kind := RELEASE_PUBLISHED);
    var f1 := if f.hash == ComputeEntryHash(digest, f, PresentKeys(f)) then f else f.(kind := RELEASE_PUBLISHED);
    assert e.hash == digest(Serialised(e1, PresentKeys(e))) && f.hash == digest(Serialised(f1, PresentKeys(f)));
    assert Serialised(e1, PresentKeys(e)) == Serialised(f1, PresentKeys(f));
  }

  /** The last entries agree, and so do the heads of what precedes them. */
  lemma SameHeads(digest: Digest, a: seq<Entry>, b: seq<Entry>)
    requires CollisionFree(digest) && Linked(digest, a) && Linked(digest, b) && Migrated(a) && Migrated(b)
    requires a != [] && b != [] && HeadHash(a) == HeadHash(b)
    ensures |a| == |b| && SameEntry(a[|a| - 1], b[|b| - 1])
    ensures HeadHash(a[..|a| - 1]) == HeadHash(b[..|b| - 1])
  {
    var e, f := a[|a| - 1], b[|b| - 1];
    assert e in a && f in b;
    SameHashSameEntry(digest, e, f);
    assert Serialised(e, PresentKeys(e)).id == Serialised(f, PresentKeys(f)).id;
    assert Serialised(e, PresentKeys(e)).previousHash == Serialised(f, PresentKeys(f)).previousHash;
  }

  lemma LinkedFront(digest: Digest, a: seq<Entry>)
    requires a != [] && Linked(digest, a) && Migrated(a)
    ensures Linked(digest, a[..|a| - 1]) && Migrated(a[..|a| - 1])
  {
    hide HashAccepted, HeadHash;
    assert a == a[..|a| - 1] + [a[|a| - 1]];
    LinkedSnoc(digest, a[..|a| - 1], a[|a| - 1]);
  }

  ghost predicate SameEntries(a: seq<Entry>, b: seq<Entry>) {
    |a| == |b| && forall i :: 0 <= i < |a| ==> SameEntry(a[i], b[i])
  }

  /** Two linked ledgers that share their last hash are equal in all that is hashed. */
  lemma {:induction false} HeadHashFixesLedger(digest: Digest, a: seq<Entry>, b: seq<Entry>)
    requires CollisionFree(digest) && Linked(digest, a) && Linked(digest, b) && Migrated(a) && Migrated(b)
    requires HeadHash(a) == HeadHash(b)
    ensures SameEntries(a, b)
  {
    hide *;
    HeadsExist(a, b);
    if a == [] {
      NothingSame();
    } else {
      SameHeads(digest, a, b);
      LinkedFront(digest, a);
      LinkedFront(digest, b);
      HeadHashFixesLedger(digest, a[..|a| - 1], b[..|b| - 1]);
      SameEntriesLast(a, b);
    }
  }

  lemma HeadsExist(a: seq<Entry>, b: seq<Entry>)
    requires HeadHash(a) == HeadHash(b)
    ensures a == [] <==> b == []
  {
  }

  lemma NothingSame()
    ensures SameEntries([], [])
  {
  }

  lemma SameEntriesLast(a: seq<Entry>, b: seq<Entry>)
    requires a != [] && |a| == |b| && SameEntry(a[|a| - 1], b[|b| - 1])
    requires SameEntries(a[..|a| - 1], b[..|b| - 1])
    ensures SameEntries(a, b)
  {
    hide SameEntry;
    var m := |a| - 1;
    forall i | 0 <= i < |a| ensures SameEntry(a[i], b[i]) {
      assert i < m ==> a[..m][i] == a[i] && b[..m][i] == b[i];
    }
  }

  /** An entry written under the deprecated kind still passes after its kind is migrated. */
  lemma DeprecatedKindAccepted(digest: Digest, raw: Entry)
    requires raw.hash == ComputeEntryHash(digest, raw, PresentKeys(raw))
    ensures HashAccepted(digest, raw.(kind := MigrateDeprecatedKind(raw.kind)))
  {
    var e := raw.(kind := MigrateDeprecatedKind(raw.kind));
    assert PresentKeys(e) == PresentKeys(raw);
    if raw.kind == RELEASE_PUBLISHED {
      assert DeprecatedAliases(e.kind)[0] == RELEASE_PUBLISHED;
      assert e.(kind := DeprecatedAliases(e.kind)[0]) == raw;
    }
  }
}
