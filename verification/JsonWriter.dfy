/**
  The encoder that re-encodes a detached copy: escapeString, serializeNumber and encodeValue
  of src/fingerprint/canonical-json.ts, each proved against the text of the value.
 */
module JsonWriter {
  import opened Text
  import opened Unicode
  import opened Json
  import opened JsonReader

  /** Proper, and every string and key is well-formed Unicode. */
  ghost predicate Accepted(v: Json) {
    match v
    case Num(n) => Serializable(n)
    case Text(s) => WellFormed(s)
    case Arr(items) => forall i :: 0 <= i < |items| ==> Accepted(items[i])
    case Obj(fields) =>
      && DistinctKeys(fields, KeyOf)
      && (forall i :: 0 <= i < |fields| ==> WellFormed(fields[i].key) && Accepted(fields[i].value))
    case _ => true
  }

  lemma {:induction false} AcceptedProper(v: Json)
    requires Accepted(v)
    ensures Proper(v)
  {
    match v
    case Arr(items) =>
      forall i | 0 <= i < |items| ensures Proper(items[i]) {
        AcceptedProper(items[i]);
      }
    case Obj(fields) =>
      forall i | 0 <= i < |fields| ensures Proper(fields[i].value) {
        AcceptedProper(fields[i].value);
      }
    case _ =>
  }

  /** No object repeats a key: what every JavaScript object guarantees. */
  ghost predicate WellKeyed(v: Json) {
    match v
    case Arr(items) => forall i :: 0 <= i < |items| ==> WellKeyed(items[i])
    case Obj(fields) =>
      && DistinctKeys(fields, KeyOf)
      && (forall i :: 0 <= i < |fields| ==> WellKeyed(fields[i].value))
    case _ => true
  }

  lemma {:induction false} AcceptedWellKeyed(v: Json)
    requires Accepted(v)
    ensures WellKeyed(v)
  {
    match v
    case Arr(items) =>
      forall i | 0 <= i < |items| ensures WellKeyed(items[i]) {
        AcceptedWellKeyed(items[i]);
      }
    case Obj(fields) =>
      forall i | 0 <= i < |fields| ensures WellKeyed(fields[i].value) {
        AcceptedWellKeyed(fields[i].value);
      }
    case _ =>
  }

  lemma {:induction false} EscapeBodyConcat(s: Str, t: Str)
    ensures EscapeBody(s + t) == EscapeBody(s) + EscapeBody(t)
  {
    if s == [] {
      assert s + t == t;
    } else {
      assert (s + t)[1..] == s[1..] + t;
      EscapeBodyConcat(s[1..], t);
    }
  }

  lemma EscapeBodySnoc(s: Str, i: nat)
    requires i < |s|
    ensures EscapeBody(s[..i + 1]) == EscapeBody(s[..i]) + EscapeUnit(s[i])
  {
    assert s[..i + 1] == s[..i] + [s[i]];
    EscapeBodyConcat(s[..i], [s[i]]);
    assert EscapeBody([s[i]]) == EscapeUnit(s[i]) + EscapeBody([]);
  }

  /** Text, or an invariant error. */
  datatype Written = Wrote(text: Str) | Threw

  /** The scan of escapeString meets a high surrogate that no low surrogate follows. */
  predicate HasUnpairedHigh(s: Str) {
    s != [] && (if StartsWithPair(s) then HasUnpairedHigh(s[2..]) else IsHigh(s[0]) || HasUnpairedHigh(s[1..]))
  }

  lemma {:induction false} WellFormedHasNoUnpairedHigh(s: Str)
    requires WellFormed(s)
    ensures !HasUnpairedHigh(s)
  {
    if s != [] {
      WellFormedHasNoUnpairedHigh(if StartsWithPair(s) then s[2..] else s[1..]);
    }
  }

  /** One step of the scan. */
  lemma ScanStep(s: Str, i: nat)
    requires i < |s|
    ensures HasUnpairedHigh(s[i..]) <==>
      if IsHigh(s[i]) then i + 1 == |s| || !IsLow(s[i + 1]) || HasUnpairedHigh(s[i + 2..])
      else HasUnpairedHigh(s[i + 1..])
  {
    var tail := s[i..];
    assert tail[1..] == s[i + 1..];
    if |tail| >= 2 {
      assert tail[1] == s[i + 1] && tail[2..] == s[i + 2..];
    }
  }

  method EscapeString(str: Str) returns (r: Written)
    ensures r.Threw? <==> HasUnpairedHigh(str)
    ensures r.Wrote? ==> r.text == Escape(str)
    ensures r.Wrote? ==> r.text[0] == 0x22 && ReadBody(r.text[1..]) == Got(str, [])
    ensures r.Wrote? ==> forall i :: 0 <= i < |r.text| ==> r.text[i] >= 0x20
  {
    hide ReadBody;
    LiteralReads(str);
    var out: Str := [];
    var i := 0;
    assert str[0..] == str;
    while i < |str|
      invariant 0 <= i <= |str|
      invariant out == EscapeBody(str[..i])
      invariant HasUnpairedHigh(str) <==> HasUnpairedHigh(str[i..])
    {
      var code := str[i];
      EscapeBodySnoc(str, i);
      ScanStep(str, i);
      var piece: Str;
      if code == 0x22 {
        piece := [BACKSLASH, QUOTE];
      } else if code == 0x5c {
        piece := [BACKSLASH, BACKSLASH];
      } else if code == 0x08 {
        piece := [BACKSLASH, LOWER_B];
      } else if code == 0x09 {
        piece := [BACKSLASH, LOWER_T];
      } else if code == 0x0a {
        piece := [BACKSLASH, LOWER_N];
      } else if code == 0x0c {
        piece := [BACKSLASH, LOWER_F];
      } else if code == 0x0d {
        piece := [BACKSLASH, LOWER_R];
      } else if code < 0x20 {
        piece := [BACKSLASH, LOWER_U, ZERO, ZERO, HexDigit(code / 16), HexDigit(code % 16)];
      } else if IsHigh(code) {
        if i + 1 < |str| && IsLow(str[i + 1]) {
          EscapeBodySnoc(str, i + 1);
          out := out + [code];
          piece := [str[i + 1]];
          i := i + 1;
        } else {
          return Threw;
        }
      } else {
        piece := [code];
      }
      out := out + piece;
      i := i + 1;
    }
    assert str[..i] == str;
    r := Wrote([QUOTE] + out + [QUOTE]);
  }

  method SerializeNumber(n: Number) returns (r: Written)
    ensures r == if Serializable(n) then Wrote(NumberText(n)) else Threw
    ensures r.Wrote? ==> ReadNumber(r.text, []) == Got(Num(n), [])
  {
    if Serializable(n) {
      NumberRead(n, []);
    }
    hide ReadNumber;
    match n
    case NegativeZero => r := Threw;
    case NaN => r := Threw;
    case Infinite(_) => r := Threw;
    case Whole(k) =>
      if k < -MAX_SAFE_INTEGER || k > MAX_SAFE_INTEGER {
        r := Threw;
      } else {
        r := Wrote(WholeText(k));
      }
    case Fraction(t) => r := Wrote(t);
  }

  // ---------------------------------------------------------------------------
  // The output array
  // ---------------------------------------------------------------------------

  function Join(chunks: seq<Str>): Str {
    if chunks == [] then [] else Join(chunks[..|chunks| - 1]) + chunks[|chunks| - 1]
  }

  /** The array of string pieces an encoder pushes to. */
  class Output {
    var chunks: seq<Str>

    function Text(): Str
      reads this
    {
      Join(chunks)
    }

    constructor ()
      ensures Text() == []
    {
      chunks := [];
    }

    method Push(chunk: Str)
      modifies this
      ensures chunks == old(chunks) + [chunk]
      ensures Text() == old(Text()) + chunk
    {
      chunks := chunks + [chunk];
      assert chunks[..|chunks| - 1] == old(chunks);
    }
  }

  // ---------------------------------------------------------------------------
  // encodeValue
  // ---------------------------------------------------------------------------

  function Keys(fields: seq<Field>): seq<Str> {
    Map(fields, KeyOf)
  }

  function Self(s: Str): Str {
    s
  }

  /** Position i of the canonical object: its key, and where its value comes from. */
  lemma CanonPosition(fields: seq<Field>, i: nat) returns (j: nat)
    requires i < |fields|
    ensures |SortBy(CanonFields(fields), KeyOf)| == |SortBy(Keys(fields), Self)| == |fields|
    ensures j < |fields|
    ensures fields[j].key == SortBy(Keys(fields), Self)[i]
    ensures SortBy(CanonFields(fields), KeyOf)[i] == CanonField(fields[j])
  {
    var cs := CanonFields(fields);
    var s := SortBy(cs, KeyOf);
    SortMap(cs, KeyOf, KeyOf, Self);
    assert Keys(cs) == Keys(fields);
    assert s[i] in s;
    j := InMultiset(s[i], s, cs);
    assert Keys(s)[i] == s[i].key;
  }

  method Lookup(fields: seq<Field>, key: Str, ghost j: nat) returns (f: Field)
    requires DistinctKeys(fields, KeyOf)
    requires j < |fields| && fields[j].key == key
    ensures f == fields[j]
  {
    var i := 0;
    while fields[i].key != key
      invariant 0 <= i <= j
      decreases j - i
    {
      i := i + 1;
    }
    assert KeyOf(fields[i]) == KeyOf(fields[j]);
    f := fields[i];
  }

  /** What stands before element i of a container. */
  function Comma(i: nat): Str {
    if i == 0 then [] else [COMMA]
  }

  /** The text written once i items of an array, or i fields of an object, are out. */
  ghost function ItemsSoFar(before: Str, items: seq<Json>, i: nat): Str
    requires i <= |items|
  {
    before + [LEFT_BRACKET] + EmitItems(items[..i])
  }

  ghost function FieldsSoFar(before: Str, fields: seq<Field>, i: nat): Str
    requires i <= |fields|
  {
    before + [LEFT_BRACE] + EmitFields(fields[..i])
  }

  lemma ItemsStep(before: Str, items: seq<Json>, i: nat)
    requires i < |items|
    ensures ItemsSoFar(before, items, i + 1) == ItemsSoFar(before, items, i) + Comma(i) + Emit(items[i])
  {
    assert items[..i + 1] == items[..i] + [items[i]];
    EmitItemsSnoc(items[..i], items[i]);
  }

  lemma FieldsStep(before: Str, fields: seq<Field>, i: nat)
    requires i < |fields|
    ensures FieldsSoFar(before, fields, i + 1)
         == FieldsSoFar(before, fields, i) + Comma(i) + Escape(fields[i].key) + [COLON] + Emit(fields[i].value)
  {
    assert fields[..i + 1] == fields[..i] + [fields[i]];
    EmitFieldsSnoc(fields[..i], fields[i]);
    Assoc5(before + [LEFT_BRACE], EmitFields(fields[..i]), Comma(i), Escape(fields[i].key), [COLON], Emit(fields[i].value));
  }

  lemma Assoc5(a: Str, b: Str, c: Str, d: Str, e: Str, f: Str)
    ensures a + (b + c + (d + e + f)) == a + b + c + d + e + f
  {
  }

  lemma ItemsDone(before: Str, items: seq<Json>)
    ensures ItemsSoFar(before, items, 0) == before + [LEFT_BRACKET]
    ensures ItemsSoFar(before, items, |items|) + [RIGHT_BRACKET] == before + Emit(Arr(items))
  {
    assert items[..|items|] == items;
  }

  lemma FieldsDone(before: Str, fields: seq<Field>)
    ensures FieldsSoFar(before, fields, 0) == before + [LEFT_BRACE]
    ensures FieldsSoFar(before, fields, |fields|) + [RIGHT_BRACE] == before + Emit(Obj(fields))
  {
    assert fields[..|fields|] == fields;
  }

  /**
    Appends the canonical text of v. It throws on nothing that is accepted, so its
    lone-surrogate error cannot be reached from a detached copy.
   */
  method EncodeValue(v: Json, output: Output) returns (threw: bool)
    requires WellKeyed(v)
    modifies output
    ensures !threw ==> output.Text() == old(output.Text()) + Encode(v)
    ensures Accepted(v) ==> !threw
    decreases v, 1
  {
    threw := false;
    match v
    case Null => output.Push(NULL_TEXT);
    case Bool(b) => output.Push(if b then TRUE_TEXT else FALSE_TEXT);
    case Num(n) =>
      var w := SerializeNumber(n);
      match w {
        case Threw => threw := true;
        case Wrote(t) => output.Push(t);
      }
    case Text(s) =>
      var w := EscapeString(s);
      if Accepted(v) {
        WellFormedHasNoUnpairedHigh(s);
      }
      match w {
        case Threw => threw := true;
        case Wrote(t) => output.Push(t);
      }
    case Arr(items) => threw := EncodeItems(items, output);
    case Obj(fields) => threw := EncodeFields(fields, output);
  }

  method EncodeItems(items: seq<Json>, output: Output) returns (threw: bool)
    requires WellKeyed(Arr(items))
    modifies output
    ensures !threw ==> output.Text() == old(output.Text()) + Encode(Arr(items))
    ensures Accepted(Arr(items)) ==> !threw
    decreases Arr(items), 0
  {
    ghost var before := output.Text();
    ghost var c := Canon(Arr(items)).items;
    ItemsDone(before, c);
    output.Push([LEFT_BRACKET]);
    var i := 0;
    while i < |items|
      invariant 0 <= i <= |items|
      invariant output.Text() == ItemsSoFar(before, c, i)
    {
      PushComma(i, output);
      threw := EncodeValue(items[i], output);
      if threw {
        return;
      }
      ItemsStep(before, c, i);
      i := i + 1;
    }
    output.Push([RIGHT_BRACKET]);
    threw := false;
  }

  method EncodeFields(fields: seq<Field>, output: Output) returns (threw: bool)
    requires WellKeyed(Obj(fields))
    modifies output
    ensures !threw ==> output.Text() == old(output.Text()) + Encode(Obj(fields))
    ensures Accepted(Obj(fields)) ==> !threw
    decreases Obj(fields), 0
  {
    ghost var before := output.Text();
    ghost var c := SortBy(CanonFields(fields), KeyOf);
    assert Canon(Obj(fields)) == Obj(c);
    FieldsDone(before, c);
    var keys := SortBy(Keys(fields), Self);
    output.Push([LEFT_BRACE]);
    var i := 0;
    while i < |keys|
      invariant 0 <= i <= |keys| == |c|
      invariant output.Text() == FieldsSoFar(before, c, i)
    {
      ghost var j := CanonPosition(fields, i);
      PushComma(i, output);
      threw := PushKey(keys[i], output);
      if Accepted(Obj(fields)) {
        WellFormedHasNoUnpairedHigh(keys[i]);
      }
      if threw {
        return;
      }
      var f := Lookup(fields, keys[i], j);
      threw := EncodeValue(f.value, output);
      if threw {
        return;
      }
      FieldsStep(before, c, i);
      i := i + 1;
    }
    output.Push([RIGHT_BRACE]);
    threw := false;
  }

  /** "if (i > 0) output.push(',')". */
  method PushComma(i: nat, output: Output)
    modifies output
    ensures output.Text() == old(output.Text()) + Comma(i)
  {
    if i > 0 {
      output.Push([COMMA]);
    } else {
      assert output.Text() + [] == output.Text();
    }
  }

  /** A key and its colon. */
  method PushKey(key: Str, output: Output) returns (threw: bool)
    modifies output
    ensures threw <==> HasUnpairedHigh(key)
    ensures !threw ==> output.Text() == old(output.Text()) + Escape(key) + [COLON]
  {
    var w := EscapeString(key);
    if w.Threw? {
      return true;
    }
    output.Push(w.text);
    output.Push([COLON]);
    threw := false;
  }
}
