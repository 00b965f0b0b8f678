/**
  JSON values as canonical-json.ts sees them, their canonical form, and the text RFC 8785
  gives them (sections 3.2.2.2 for strings and 3.2.3 for key sorting).
 */
module Json {
  import opened Text

  // The ASCII code units the encoder and the decoder use.
  const QUOTE: Unit := 0x22
  const PLUS: Unit := 0x2b
  const COMMA: Unit := 0x2c
  const MINUS: Unit := 0x2d
  const POINT: Unit := 0x2e
  const ZERO: Unit := 0x30
  const COLON: Unit := 0x3a
  const LEFT_BRACKET: Unit := 0x5b
  const BACKSLASH: Unit := 0x5c
  const RIGHT_BRACKET: Unit := 0x5d
  const LOWER_B: Unit := 0x62
  const LOWER_E: Unit := 0x65
  const LOWER_F: Unit := 0x66
  const LOWER_N: Unit := 0x6e
  const LOWER_R: Unit := 0x72
  const LOWER_T: Unit := 0x74
  const LOWER_U: Unit := 0x75
  const LEFT_BRACE: Unit := 0x7b
  const RIGHT_BRACE: Unit := 0x7d

  const NULL_TEXT: Str := [0x6e, 0x75, 0x6c, 0x6c]
  const TRUE_TEXT: Str := [0x74, 0x72, 0x75, 0x65]
  const FALSE_TEXT: Str := [0x66, 0x61, 0x6c, 0x73, 0x65]

  const MAX_SAFE_INTEGER := 9007199254740991

  // ---------------------------------------------------------------------------
  // Values
  // ---------------------------------------------------------------------------

  predicate IsDigit(u: Unit) {
    0x30 <= u <= 0x39
  }

  predicate IsNumberUnit(u: Unit) {
    IsDigit(u) || u == PLUS || u == MINUS || u == POINT || u == LOWER_E
  }

  /** The shape of ECMA-262's text for a finite number that is not an integer. */
  predicate IsFractionText(t: Str) {
    && (forall i :: 0 <= i < |t| ==> IsNumberUnit(t[i]))
    && (POINT in t || LOWER_E in t)
  }

  /** A non-integer number is represented by its ECMA-262 text, which identifies it. */
  type FractionText = t: Str | IsFractionText(t) witness [0x30, 0x2e, 0x35]

  datatype Number =
    | NaN
    | Infinite(negative: bool)
    | NegativeZero
    | Whole(n: int)
    | Fraction(text: FractionText)

  /** serializeNumber accepts the number. */
  predicate Serializable(n: Number) {
    match n
    case Whole(k) => -MAX_SAFE_INTEGER <= k <= MAX_SAFE_INTEGER
    case Fraction(_) => true
    case _ => false
  }

  datatype Field = Field(key: Str, value: Json)

  /** An object is its list of own properties, in property order. */
  datatype Json =
    | Null
    | Bool(b: bool)
    | Num(n: Number)
    | Text(s: Str)
    | Arr(items: seq<Json>)
    | Obj(fields: seq<Field>)

  function KeyOf(f: Field): Str {
    f.key
  }

  /** Numbers are in the profile and no object repeats a key. */
  ghost predicate Proper(v: Json) {
    match v
    case Num(n) => Serializable(n)
    case Arr(items) => forall i :: 0 <= i < |items| ==> Proper(items[i])
    case Obj(fields) =>
      && DistinctKeys(fields, KeyOf)
      && (forall i :: 0 <= i < |fields| ==> Proper(fields[i].value))
    case _ => true
  }

  /** Equality that ignores the order of keys, at every level. */
  ghost predicate SameUpToKeyOrder(v: Json, w: Json) {
    match v
    case Arr(items) =>
      && w.Arr? && |w.items| == |items|
      && (forall i :: 0 <= i < |items| ==> SameUpToKeyOrder(items[i], w.items[i]))
    case Obj(fields) =>
      && w.Obj? && |w.fields| == |fields|
      && (forall i :: 0 <= i < |fields| ==> HasSameField(fields[i], w.fields))
    case _ => v == w
  }

  ghost predicate HasSameField(f: Field, fields: seq<Field>) {
    exists j :: 0 <= j < |fields| && fields[j].key == f.key && SameUpToKeyOrder(f.value, fields[j].value)
  }

  // ---------------------------------------------------------------------------
  // Canonical form and its text
  // ---------------------------------------------------------------------------

  /** The value with the keys of every object in RFC 8785 order. */
  function Canon(v: Json): Json {
    match v
    case Arr(items) => Arr(seq(|items|, i requires 0 <= i < |items| => Canon(items[i])))
    case Obj(fields) => Obj(SortBy(seq(|fields|, i requires 0 <= i < |fields| => CanonField(fields[i])), KeyOf))
    case _ => v
  }

  function CanonField(f: Field): Field {
    Field(f.key, Canon(f.value))
  }

  function HexDigit(d: int): Unit
    requires 0 <= d < 16
  {
    if d < 10 then 0x30 + d else 0x57 + d
  }

  function EscapeUnit(u: Unit): Str {
    if u == QUOTE then [BACKSLASH, QUOTE]
    else if u == BACKSLASH then [BACKSLASH, BACKSLASH]
    else if u == 0x08 then [BACKSLASH, LOWER_B]
    else if u == 0x09 then [BACKSLASH, LOWER_T]
    else if u == 0x0a then [BACKSLASH, LOWER_N]
    else if u == 0x0c then [BACKSLASH, LOWER_F]
    else if u == 0x0d then [BACKSLASH, LOWER_R]
    else if u < 0x20 then [BACKSLASH, LOWER_U, ZERO, ZERO, HexDigit(u / 16), HexDigit(u % 16)]
    else [u]
  }

  function EscapeBody(s: Str): Str {
    if s == [] then [] else EscapeUnit(s[0]) + EscapeBody(s[1..])
  }

  function Escape(s: Str): Str {
    [QUOTE] + EscapeBody(s) + [QUOTE]
  }

  function Digits(n: nat): Str {
    if n < 10 then [ZERO + n] else Digits(n / 10) + [ZERO + n % 10]
  }

  function WholeText(n: int): Str {
    if n < 0 then [MINUS] + Digits(-n) else Digits(n)
  }

  /** The text of a serializable number; serializeNumber throws on the others. */
  function NumberText(n: Number): Str {
    match n
    case Whole(k) => WholeText(k)
    case Fraction(t) => t
    case _ => []
  }

  /** The text of a value, keys in the order they stand in. */
  function Emit(v: Json): Str {
    match v
    case Null => NULL_TEXT
    case Bool(b) => if b then TRUE_TEXT else FALSE_TEXT
    case Num(n) => NumberText(n)
    case Text(s) => Escape(s)
    case Arr(items) => [LEFT_BRACKET] + EmitItems(items) + [RIGHT_BRACKET]
    case Obj(fields) => [LEFT_BRACE] + EmitFields(fields) + [RIGHT_BRACE]
  }

  function EmitItems(items: seq<Json>): Str {
    if items == [] then []
    else Emit(items[0]) + (if |items| == 1 then [] else [COMMA] + EmitItems(items[1..]))
  }

  function EmitField(f: Field): Str {
    Escape(f.key) + [COLON] + Emit(f.value)
  }

  function EmitFields(fields: seq<Field>): Str {
    if fields == [] then []
    else EmitField(fields[0]) + (if |fields| == 1 then [] else [COMMA] + EmitFields(fields[1..]))
  }

  /** The canonical text of a value. */
  function Encode(v: Json): Str {
    Emit(Canon(v))
  }

  // ---------------------------------------------------------------------------
  // Facts about the canonical form
  // ---------------------------------------------------------------------------

  /** Growing a list at its end, as the encoder's loops do. */
  lemma {:induction false} EmitItemsSnoc(items: seq<Json>, v: Json)
    ensures EmitItems(items + [v]) == EmitItems(items) + (if items == [] then [] else [COMMA]) + Emit(v)
  {
    hide Emit;
    if items == [] {
      assert [] + [v] == [v];
    } else {
      assert (items + [v])[1..] == items[1..] + [v];
      EmitItemsSnoc(items[1..], v);
      if |items| == 1 {
        assert items[1..] == [] && EmitItems(items[1..] + [v]) == Emit(v);
      } else {
        RegroupFive(Emit(items[0]), [COMMA], EmitItems(items[1..]), [COMMA], Emit(v));
      }
    }
  }

  lemma {:induction false} EmitFieldsSnoc(fields: seq<Field>, f: Field)
    ensures EmitFields(fields + [f]) == EmitFields(fields) + (if fields == [] then [] else [COMMA]) + EmitField(f)
  {
    hide EmitField, Emit;
    if fields == [] {
      assert [] + [f] == [f];
    } else {
      assert (fields + [f])[1..] == fields[1..] + [f];
      EmitFieldsSnoc(fields[1..], f);
      if |fields| == 1 {
        assert fields[1..] == [] && EmitFields(fields[1..] + [f]) == EmitField(f);
      } else {
        RegroupFive(EmitField(fields[0]), [COMMA], EmitFields(fields[1..]), [COMMA], EmitField(f));
      }
    }
  }

  function CanonFields(fields: seq<Field>): (r: seq<Field>)
    ensures |r| == |fields|
    ensures forall i :: 0 <= i < |fields| ==> r[i] == CanonField(fields[i])
  {
    seq(|fields|, i requires 0 <= i < |fields| => CanonField(fields[i]))
  }

  /** The step for arrays, given the claim for the items. */
  lemma CanonItemsStep(xs: seq<Json>, ys: seq<Json>)
    requires |xs| == |ys|
    requires forall i :: 0 <= i < |xs| ==> (Canon(xs[i]) == Canon(ys[i]) <==> SameUpToKeyOrder(xs[i], ys[i]))
    ensures Canon(Arr(xs)) == Canon(Arr(ys)) <==> SameUpToKeyOrder(Arr(xs), Arr(ys))
  {
    var a, b := Canon(Arr(xs)).items, Canon(Arr(ys)).items;
    assert forall i :: 0 <= i < |xs| ==> a[i] == Canon(xs[i]) && b[i] == Canon(ys[i]);
    assert SameUpToKeyOrder(Arr(xs), Arr(ys)) ==> a == b;
  }

  lemma CanonFieldIn(f: Field, ys: seq<Field>)
    requires forall j :: 0 <= j < |ys| ==>
      (Canon(f.value) == Canon(ys[j].value) <==> SameUpToKeyOrder(f.value, ys[j].value))
    ensures CanonField(f) in CanonFields(ys) <==> HasSameField(f, ys)
  {
    hide Canon, SameUpToKeyOrder;
    var b := CanonFields(ys);
    if HasSameField(f, ys) {
      var j :| 0 <= j < |ys| && ys[j].key == f.key && SameUpToKeyOrder(f.value, ys[j].value);
      assert b[j] == CanonField(f);
    }
    if CanonField(f) in b {
      var j :| 0 <= j < |b| && b[j] == CanonField(f);
      assert ys[j].key == f.key;
    }
  }

  /** The step for objects, given the claim for the values of the fields. */
  lemma CanonFieldsStep(xs: seq<Field>, ys: seq<Field>)
    requires |xs| == |ys| && DistinctKeys(xs, KeyOf) && DistinctKeys(ys, KeyOf)
    requires forall i, j :: 0 <= i < |xs| && 0 <= j < |ys| ==>
      (Canon(xs[i].value) == Canon(ys[j].value) <==> SameUpToKeyOrder(xs[i].value, ys[j].value))
    ensures Canon(Obj(xs)) == Canon(Obj(ys)) <==> SameUpToKeyOrder(Obj(xs), Obj(ys))
  {
    hide HasSameField, SortBy;
    var a, b := CanonFields(xs), CanonFields(ys);
    assert Canon(Obj(xs)) == Obj(SortBy(a, KeyOf)) && Canon(Obj(ys)) == Obj(SortBy(b, KeyOf));
    SortEqualIff(a, b, KeyOf);
    forall i | 0 <= i < |xs|
      ensures a[i] in b <==> HasSameField(xs[i], ys)
    {
      CanonFieldIn(xs[i], ys);
    }
  }

  /** Canonical forms are equal exactly for values equal up to key order at every level. */
  lemma {:induction false} CanonEqualIffSame(v: Json, w: Json)
    requires Proper(v) && Proper(w)
    ensures Canon(v) == Canon(w) <==> SameUpToKeyOrder(v, w)
    decreases v
  {
    match v
    case Arr(items) =>
      if w.Arr? && |w.items| == |items| {
        forall i | 0 <= i < |items|
          ensures Canon(items[i]) == Canon(w.items[i]) <==> SameUpToKeyOrder(items[i], w.items[i])
        {
          CanonEqualIffSame(items[i], w.items[i]);
        }
        CanonItemsStep(items, w.items);
      } else if w.Arr? {
        assert |Canon(v).items| != |Canon(w).items|;
      }
    case Obj(fields) =>
      if w.Obj? && |w.fields| == |fields| {
        forall i, j | 0 <= i < |fields| && 0 <= j < |fields|
          ensures Canon(fields[i].value) == Canon(w.fields[j].value) <==> SameUpToKeyOrder(fields[i].value, w.fields[j].value)
        {
          CanonEqualIffSame(fields[i].value, w.fields[j].value);
        }
        CanonFieldsStep(fields, w.fields);
      } else if w.Obj? {
        assert |Canon(v).fields| != |Canon(w).fields|;
      }
    case _ =>
  }

  lemma {:induction false} CanonProper(v: Json)
    requires Proper(v)
    ensures Proper(Canon(v))
  {
    match v
    case Arr(items) =>
      forall i | 0 <= i < |items| ensures Proper(Canon(items[i])) {
        CanonProper(items[i]);
      }
    case Obj(fields) =>
      var a := CanonFields(fields);
      var s := SortBy(a, KeyOf);
      assert Canon(v) == Obj(s);
      SortKeepsDistinct(a, KeyOf);
      forall i | 0 <= i < |s| ensures Proper(s[i].value) {
        assert s[i] in s;
        var j := InMultiset(s[i], s, a);
        CanonProper(fields[j].value);
      }
    case _ =>
  }
}
