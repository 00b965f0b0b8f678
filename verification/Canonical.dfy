/**
  The public operations on canonical JSON: the snapshot of a caller's object, the bytes of a
  snapshot, and what the bytes identify.
 */
module Canonical {
  import opened Text
  import opened Unicode
  import opened Json
  import opened JsonReader
  import opened JsonWriter
  import opened Walk
  import opened WalkSpec
  import opened WalkReach
  import opened WalkBlame
  import opened Snapshot

  // ---------------------------------------------------------------------------
  // The detached copy
  // ---------------------------------------------------------------------------

  /** v is the copy of x, properties in their own order. */
  ghost predicate Copies(g: Graph, x: Input, v: Json)
    decreases v
  {
    match x
    case NullIn => v == Null
    case BoolIn(b) => v == Bool(b)
    case NumIn(n) => v == Num(n)
    case StrIn(s) => v == Text(s)
    case Ref(id) =>
      id in g &&
      (match g[id]
       case ArrNode(items) =>
         && v.Arr? && |v.items| == |items|
         && (forall i :: 0 <= i < |items| ==> Copies(g, items[i], v.items[i]))
       case ObjNode(slots) =>
         && v.Obj? && |v.fields| == |slots|
         && (forall i :: 0 <= i < |slots| ==>
               v.fields[i].key == slots[i].key && Copies(g, slots[i].value, v.fields[i].value)))
    case _ => false
  }

  datatype Pair = Pair(slot: Slot, field: Field)

  function PairKey(p: Pair): Str {
    p.slot.key
  }

  function SlotOf(p: Pair): Slot {
    p.slot
  }

  /** The field as the canonical object holds it; a pair's slot and field carry one key. */
  function CanonOf(p: Pair): Field {
    Field(p.slot.key, Canon(p.field.value))
  }

  /** Sorting slots and canonical fields puts corresponding ones at the same position. */
  lemma SortsTogether(slots: seq<Slot>, fields: seq<Field>, i: nat) returns (j: nat)
    requires |slots| == |fields| && i < |slots|
    requires forall k :: 0 <= k < |slots| ==> fields[k].key == slots[k].key
    ensures j < |slots|
    ensures |SortBy(CanonFields(fields), KeyOf)| == |SortBy(slots, SlotKey)| == |slots|
    ensures SortBy(slots, SlotKey)[i] == slots[j]
    ensures SortBy(CanonFields(fields), KeyOf)[i] == CanonField(fields[j])
  {
    var pairs := seq(|slots|, k requires 0 <= k < |slots| => Pair(slots[k], fields[k]));
    var s := SortBy(pairs, PairKey);
    SortMap(pairs, SlotOf, PairKey, SlotKey);
    SortMap(pairs, CanonOf, PairKey, KeyOf);
    assert Map(pairs, SlotOf) == slots;
    assert Map(pairs, CanonOf) == CanonFields(fields);
    assert s[i] in s;
    j := InMultiset(s[i], s, pairs);
  }

  /** The canonical form of the copy is the unfolding the traversal emits. */
  lemma {:induction false} CopyCanon(g: Graph, x: Input, v: Json)
    requires Copies(g, x, v)
    ensures Reads(g, x, Canon(v))
    decreases v
  {
    if x.Ref? {
      match g[x.id]
      case ArrNode(items) =>
        forall i | 0 <= i < |items| ensures Reads(g, items[i], Canon(v).items[i]) {
          CopyCanon(g, items[i], v.items[i]);
        }
      case ObjNode(slots) =>
        var s, c := SortBy(slots, SlotKey), SortBy(CanonFields(v.fields), KeyOf);
        assert Canon(v) == Obj(c);
        forall i | 0 <= i < |s| ensures c[i].key == s[i].key && Reads(g, s[i].value, c[i].value) {
          var j := SortsTogether(slots, v.fields, i);
          CopyCanon(g, slots[j].value, v.fields[j].value);
        }
    }
  }

  /** A copy within the limits is accepted by the encoder. */
  lemma {:induction false} CopyAccepted(g: Graph, x: Input, v: Json, depth: nat)
    requires WellKeyedGraph(g) && Copies(g, x, v) && Fits(Canon(v), depth)
    ensures Accepted(v)
    decreases v
  {
    if x.Ref? {
      match g[x.id]
      case ArrNode(items) =>
        forall i | 0 <= i < |items| ensures Accepted(v.items[i]) {
          assert Canon(v).items[i] == Canon(v.items[i]);
          CopyAccepted(g, items[i], v.items[i], depth + 1);
        }
      case ObjNode(slots) =>
        var a := CanonFields(v.fields);
        var c := SortBy(a, KeyOf);
        assert Canon(v) == Obj(c);
        forall j | 0 <= j < |slots| ensures WellFormed(v.fields[j].key) && Accepted(v.fields[j].value) {
          assert a[j] in a;
          var i := InMultiset(a[j], a, c);
          assert KeyFits(c[i].key) && Fits(c[i].value, depth + 1);
          CopyAccepted(g, slots[j].value, v.fields[j].value, depth + 1);
        }
        assert DistinctKeys(v.fields, KeyOf) by {
          assert DistinctKeys(slots, SlotKey);
          assert forall j :: 0 <= j < |slots| ==> KeyOf(v.fields[j]) == SlotKey(slots[j]);
        }
    }
  }

  /** Which child of the unfolding c belongs to slot j. */
  lemma SlotChild(g: Graph, id: Id, c: Json, j: nat) returns (i: nat)
    requires id in g && g[id].ObjNode? && Reads(g, Ref(id), c) && j < |g[id].slots|
    ensures i < |c.fields| && Reads(g, g[id].slots[j].value, c.fields[i].value)
  {
    var slots := g[id].slots;
    assert slots[j] in slots;
    i := InMultiset(slots[j], slots, SortBy(slots, SlotKey));
  }

  /** buildDetached; c is the unfolding that makes the recursion finite. */
  method BuildDetached(g: Graph, x: Input, ghost c: Json) returns (v: Json)
    requires Reads(g, x, c)
    ensures Copies(g, x, v)
    decreases c
  {
    match x
    case NullIn => v := Null;
    case BoolIn(b) => v := Bool(b);
    case NumIn(n) => v := Num(n);
    case StrIn(s) => v := Text(s);
    case Ref(id) =>
      if g[id].ArrNode? {
        var items := g[id].items;
        var arr: seq<Json> := [];
        while |arr| < |items|
          invariant |arr| <= |items|
          invariant forall i :: 0 <= i < |arr| ==> Copies(g, items[i], arr[i])
        {
          var item := BuildDetached(g, items[|arr|], c.items[|arr|]);
          arr := arr + [item];
        }
        v := Arr(arr);
      } else {
        var slots := g[id].slots;
        var obj: seq<Field> := [];
        while |obj| < |slots|
          invariant |obj| <= |slots|
          invariant forall i :: 0 <= i < |obj| ==>
            obj[i].key == slots[i].key && Copies(g, slots[i].value, obj[i].value)
        {
          ghost var i := SlotChild(g, id, c, |obj|);
          var value := BuildDetached(g, slots[|obj|].value, c.fields[i].value);
          obj := obj + [Field(slots[|obj|].key, value)];
        }
        v := Obj(obj);
      }
  }

  // ---------------------------------------------------------------------------
  // The snapshot
  // ---------------------------------------------------------------------------

  /** What a runtime-branded value is known to satisfy. */
  ghost predicate Branded(v: Json) {
    v.Obj? && Accepted(v) && Utf8Length(Encode(v)) <= MAX_BYTES
  }

  datatype SnapshotResult = Snapshotted(value: Json) | Refused(failure: Failure)

  predicate IsObjectRoot(g: Graph, x: Input) {
    x.Ref? && x.id in g && g[x.id].ObjNode?
  }

  /** The input may be snapshotted: a plain object at the root of a tree, within every limit. */
  ghost predicate Snapshottable(g: Graph, x: Input) {
    && IsObjectRoot(g, x) && TreeLike(g, x)
    && exists c :: Reads(g, x, c) && Fits(c, 0) && Size(c) <= MAX_NODES && Utf8Length(Emit(c)) <= MAX_BYTES
  }

  /** The root is walked like any value met with no node counted before it. */
  lemma RootWalk(g: Graph, x: Input)
    requires IsObjectRoot(g, x)
    ensures WalkNode(g, x.id, 0, 1, {}) == WalkValue(g, x, 0, 0, {})
  {
  }

  lemma RootDone(g: Graph, x: Input)
    requires IsObjectRoot(g, x) && WalkNode(g, x.id, 0, 1, {}).Done?
    ensures var c := WalkNode(g, x.id, 0, 1, {}).value;
      && Reads(g, x, c) && Fits(c, 0) && Size(c) <= MAX_NODES && TreeLike(g, x)
      && (forall d :: Reads(g, x, d) ==> d == c)
  {
    RootWalk(g, x);
    WalkSound(g, x, 0, 0, {});
    var c := WalkNode(g, x.id, 0, 1, {}).value;
    FreshMeansDistinct(Ids(g, x, c), {});
    DistinctIffTree(g, x, c);
    forall d | Reads(g, x, d) ensures d == c {
      ReadsUnique(g, x, c, d);
    }
  }

  lemma SnapshottableWalks(g: Graph, x: Input)
    requires IsObjectRoot(g, x)
    ensures Snapshottable(g, x) ==> WalkNode(g, x.id, 0, 1, {}).Done?
  {
    RootWalk(g, x);
    hide TreeLike, Reads, Fits, Size, WalkNode, WalkValue;
    WalkSucceedsIffTree(g, x, 0, 0);
    if Snapshottable(g, x) {
      var c :| Reads(g, x, c) && Fits(c, 0) && Size(c) <= MAX_NODES && Utf8Length(Emit(c)) <= MAX_BYTES;
      assert Reads(g, x, c) && Fits(c, 0) && 0 + Size(c) <= MAX_NODES;
      assert WalkValue(g, x, 0, 0, {}).Done?;
    }
  }

  lemma RootFailed(g: Graph, x: Input)
    requires IsObjectRoot(g, x) && WalkNode(g, x.id, 0, 1, {}).Failed?
    ensures Blames(g, x, 0, {}, WalkNode(g, x.id, 0, 1, {}).failure)
  {
    hide Blames, WalkNode, WalkValue;
    RootWalk(g, x);
    WalkBlames(g, x, 0, 0, {});
  }

  /**
    snapshotCanonicalJsonObjectV1. It always answers, also for cyclic and shared inputs; it
    succeeds exactly on the snapshottable ones; a refusal points at the value to blame.
   */
  method SnapshotObject(g: Graph, x: Input) returns (r: SnapshotResult)
    requires WellKeyedGraph(g)
    ensures r.Snapshotted? <==> Snapshottable(g, x)
    ensures r.Snapshotted? ==> Copies(g, x, r.value) && Branded(r.value)
    ensures r.Refused? && !IsObjectRoot(g, x) ==> r.failure == Failure(DomainCode, [])
    ensures r.Refused? && IsObjectRoot(g, x) ==>
      || (r.failure.code.LimitCode? && r.failure.code.kind == Bytes && r.failure.path == []
          && r.failure.code.actual > r.failure.code.maximum == 8_388_608)
      || (exists path :: r.failure.path == (if |path| > 64 then path[..64] else path) && Blames(g, x, 0, {}, Failure(r.failure.code, path)))
  {
    if !IsObjectRoot(g, x) {
      return Refused(Failure(DomainCode, []));
    }
    var state := new Traversal(g);
    ghost var w := WalkNode(g, x.id, 0, 1, {});
    SnapshottableWalks(g, x);
    hide WalkNode, Reads, Fits, TreeLike, Blames, Copies, Emit, Canon;
    var outcome := state.TraverseObject(x.id, [], 0);
    if outcome.Rejected? {
      RootFailed(g, x);
      assert [] + w.failure.path == w.failure.path;
      return Refused(outcome.failure);
    }
    RootDone(g, x);
    assert [] + Emit(w.value) == Emit(w.value);
    var outputBytes := Utf8Length(state.output.Text());
    if outputBytes > MAX_BYTES {
      return Refused(Failure(LimitCode(Bytes, outputBytes, MAX_BYTES), []));
    }
    var detached := BuildDetached(g, x, w.value);
    CopyCanon(g, x, detached);
    CopyAccepted(g, x, detached, 0);
    CopyIsObject(g, x, detached);
    r := Snapshotted(detached);
  }

  lemma CopyIsObject(g: Graph, x: Input, v: Json)
    requires IsObjectRoot(g, x) && Copies(g, x, v)
    ensures v.Obj?
  {
  }

  /** The bytes are valid UTF-8, and the text they stand for is read as the value. */
  lemma BytesRead(v: Json)
    requires Accepted(v)
    ensures DecodeUtf8(Utf8(Encode(v))) == Decoded(Encode(v)) && Decode(Encode(v)) == Got(Canon(v), [])
  {
    AcceptedProper(v);
    DecodeEncode(v);
    CanonAccepted(v);
    EmitWellFormed(Canon(v));
    DecodeUtf8Encoded(Encode(v));
    SurvivesIff(Encode(v));
  }

  /**
    canonicalJsonBytesV1: the re-encoding of a snapshot never throws, is the text the snapshot
    was measured on, and so stays within the byte limit.
   */
  method CanonicalJsonBytes(v: Json) returns (bytes: seq<Byte>)
    requires Branded(v)
    ensures bytes == Utf8(Encode(v)) && |bytes| <= MAX_BYTES
    ensures DecodeUtf8(bytes).Decoded? && Decode(DecodeUtf8(bytes).text) == Got(Canon(v), [])
  {
    AcceptedWellKeyed(v);
    BytesRead(v);
    hide Decode, DecodeUtf8;
    var output := new Output();
    var threw := EncodeValue(v, output);
    assert [] + Encode(v) == Encode(v);
    bytes := Utf8(output.Text());
  }

  /** The two encoders agree: what the traversal emitted is what the re-encoding of the copy gives. */
  lemma EncodersAgree(g: Graph, x: Input, v: Json, depth: nat, nodes: nat)
    requires WalkValue(g, x, depth, nodes, {}).Done? && Copies(g, x, v)
    ensures Emit(WalkValue(g, x, depth, nodes, {}).value) == Encode(v)
  {
    WalkSound(g, x, depth, nodes, {});
    CopyCanon(g, x, v);
    ReadsUnique(g, x, Canon(v), WalkValue(g, x, depth, nodes, {}).value);
  }

  // ---------------------------------------------------------------------------
  // Identity
  // ---------------------------------------------------------------------------

  lemma {:induction false} PlainWellFormed(s: Str)
    requires forall i :: 0 <= i < |s| ==> !IsHigh(s[i]) && !IsLow(s[i])
    ensures WellFormed(s)
  {
    if s != [] {
      PlainWellFormed(s[1..]);
    }
  }

  lemma EscapePair(s: Str)
    requires StartsWithPair(s)
    ensures EscapeBody(s) == [s[0], s[1]] + EscapeBody(s[2..])
    ensures WellFormed([s[0], s[1]])
  {
    assert s == [s[0]] + ([s[1]] + s[2..]);
    assert EscapeUnit(s[0]) == [s[0]] && EscapeUnit(s[1]) == [s[1]];
    assert s[1..] == [s[1]] + s[2..] && s[1..][1..] == s[2..];
    assert EscapeBody(s[1..]) == [s[1]] + EscapeBody(s[2..]);
    assert [s[0], s[1]][2..] == [];
  }

  lemma {:induction false} EscapeWellFormed(s: Str)
    requires WellFormed(s)
    ensures WellFormed(EscapeBody(s))
  {
    if s != [] {
      if StartsWithPair(s) {
        EscapeWellFormed(s[2..]);
        EscapePair(s);
        hide EscapeBody, EscapeUnit;
        WellFormedConcat([s[0], s[1]], EscapeBody(s[2..]));
      } else {
        EscapeWellFormed(s[1..]);
        PlainWellFormed(EscapeUnit(s[0]));
        WellFormedConcat(EscapeUnit(s[0]), EscapeBody(s[1..]));
      }
    }
  }

  lemma QuotedWellFormed(s: Str)
    requires WellFormed(s)
    ensures WellFormed(Escape(s))
  {
    EscapeWellFormed(s);
    PlainWellFormed([QUOTE]);
    WellFormedConcat([QUOTE], EscapeBody(s));
    WellFormedConcat([QUOTE] + EscapeBody(s), [QUOTE]);
  }

  lemma BracketsWellFormed(open: Unit, body: Str, close: Unit)
    requires WellFormed(body) && open < 0x80 && close < 0x80
    ensures WellFormed([open] + body + [close])
  {
    PlainWellFormed([open]);
    PlainWellFormed([close]);
    WellFormedConcat([open], body);
    WellFormedConcat([open] + body, [close]);
  }

  lemma {:induction false} EmitWellFormed(v: Json)
    requires Accepted(v)
    ensures WellFormed(Emit(v))
    decreases v, 0
  {
    match v
    case Null => PlainWellFormed(NULL_TEXT);
    case Bool(_) => PlainWellFormed(Emit(v));
    case Num(n) =>
      NumberRead(n, []);
      PlainWellFormed(NumberText(n));
    case Text(s) => QuotedWellFormed(s);
    case Arr(items) =>
      EmitItemsWellFormed(items);
      BracketsWellFormed(LEFT_BRACKET, EmitItems(items), RIGHT_BRACKET);
    case Obj(fields) =>
      EmitFieldsWellFormed(fields);
      BracketsWellFormed(LEFT_BRACE, EmitFields(fields), RIGHT_BRACE);
  }

  lemma {:induction false} EmitItemsWellFormed(items: seq<Json>)
    requires forall i :: 0 <= i < |items| ==> Accepted(items[i])
    ensures WellFormed(EmitItems(items))
    decreases items, 1
  {
    if items != [] {
      EmitWellFormed(items[0]);
      if |items| > 1 {
        EmitItemsWellFormed(items[1..]);
        PlainWellFormed([COMMA]);
        WellFormedConcat([COMMA], EmitItems(items[1..]));
        WellFormedConcat(Emit(items[0]), [COMMA] + EmitItems(items[1..]));
      } else {
        assert EmitItems(items) == Emit(items[0]);
      }
    }
  }

  lemma {:induction false} EmitFieldsWellFormed(fields: seq<Field>)
    requires forall i :: 0 <= i < |fields| ==> WellFormed(fields[i].key) && Accepted(fields[i].value)
    ensures WellFormed(EmitFields(fields))
    decreases fields, 1
  {
    if fields != [] {
      var f := fields[0];
      QuotedWellFormed(f.key);
      EmitWellFormed(f.value);
      PlainWellFormed([COLON]);
      WellFormedConcat(Escape(f.key), [COLON]);
      WellFormedConcat(Escape(f.key) + [COLON], Emit(f.value));
      if |fields| > 1 {
        EmitFieldsWellFormed(fields[1..]);
        PlainWellFormed([COMMA]);
        WellFormedConcat([COMMA], EmitFields(fields[1..]));
        WellFormedConcat(EmitField(f), [COMMA] + EmitFields(fields[1..]));
      } else {
        assert EmitFields(fields) == EmitField(f);
      }
    }
  }

  lemma {:induction false} CanonAccepted(v: Json)
    requires Accepted(v)
    ensures Accepted(Canon(v))
  {
    match v
    case Arr(items) =>
      forall i | 0 <= i < |items| ensures Accepted(Canon(items[i])) {
        CanonAccepted(items[i]);
      }
    case Obj(fields) =>
      var a := CanonFields(fields);
      var s := SortBy(a, KeyOf);
      assert Canon(v) == Obj(s);
      SortKeepsDistinct(a, KeyOf);
      forall i | 0 <= i < |s| ensures WellFormed(s[i].key) && Accepted(s[i].value) {
        assert s[i] in s;
        var j := InMultiset(s[i], s, a);
        CanonAccepted(fields[j].value);
      }
    case _ =>
  }

  /** Two accepted values have the same canonical bytes exactly when they are equal up to key order. */
  lemma BytesIdentify(v: Json, w: Json)
    requires Accepted(v) && Accepted(w)
    ensures Utf8(Encode(v)) == Utf8(Encode(w)) <==> SameUpToKeyOrder(v, w)
  {
    AcceptedProper(v);
    AcceptedProper(w);
    EncodeInjective(v, w);
    CanonAccepted(v);
    CanonAccepted(w);
    EmitWellFormed(Canon(v));
    EmitWellFormed(Canon(w));
    if Utf8(Encode(v)) == Utf8(Encode(w)) {
      Utf8Injective(Encode(v), Encode(w));
    }
  }

  /** canonicalJsonHashV1 with a collision-free byte hash: the hash identifies the value up to key order. */
  lemma HashIdentifies<Digest>(hash: seq<Byte> -> Digest, v: Json, w: Json)
    requires forall a, b :: hash(a) == hash(b) ==> a == b
    requires Accepted(v) && Accepted(w)
    ensures hash(Utf8(Encode(v))) == hash(Utf8(Encode(w))) <==> SameUpToKeyOrder(v, w)
  {
    BytesIdentify(v, w);
  }
}
