/**
  A decoder for canonical text, written from section 3.2 of RFC 8785 in literal code units. The
  repository only encodes; the decoder is the independent definition of what it may write. It
  accepts nothing else: no raw control character, no escape where none is due, no other form of a
  number, no keys out of order.
 */
module JsonReader {
  import opened Text
  import opened Json

  /** A value read from the front of a text, and what is left of the text. */
  datatype Reading<T> = Got(value: T, rest: Str) | Malformed

  // ---------------------------------------------------------------------------
  // Strings
  // ---------------------------------------------------------------------------

  predicate IsLowerHex(u: Unit) {
    0x30 <= u <= 0x39 || 0x61 <= u <= 0x66
  }

  function HexValue(u: Unit): (d: int)
    requires IsLowerHex(u)
    ensures 0 <= d < 16
  {
    if u <= 0x39 then u - 0x30 else u - 0x57
  }

  /** A control character that has an escape of two characters. */
  predicate HasShortForm(u: int) {
    u == 8 || u == 9 || u == 10 || u == 12 || u == 13
  }

  /** The value of \u00xy, where that is the form of a control character. */
  function ReadControl(x: Unit, y: Unit, rest: Str): Reading<Unit> {
    if (x == 0x30 || x == 0x31) && IsLowerHex(y) && !HasShortForm((x - 0x30) * 16 + HexValue(y))
    then Got((x - 0x30) * 16 + HexValue(y), rest) else Malformed
  }

  /** One code unit of a string literal, escaped or raw. */
  function ReadUnit(s: Str): (r: Reading<Unit>)
    ensures r.Got? ==> |r.rest| < |s|
  {
    if s == [] || s[0] < 0x20 then Malformed
    else if s[0] != 0x5c then Got(s[0], s[1..])
    else if |s| == 1 then Malformed
    else if s[1] == 0x22 || s[1] == 0x5c then Got(s[1], s[2..])
    else if s[1] == 0x62 then Got(8, s[2..])
    else if s[1] == 0x74 then Got(9, s[2..])
    else if s[1] == 0x6e then Got(10, s[2..])
    else if s[1] == 0x66 then Got(12, s[2..])
    else if s[1] == 0x72 then Got(13, s[2..])
    else if |s| >= 6 && s[1] == 0x75 && s[2] == 0x30 && s[3] == 0x30 then ReadControl(s[4], s[5], s[6..])
    else Malformed
  }

  /** The rest of a string literal, up to its closing quote. */
  function ReadBody(s: Str): (r: Reading<Str>)
    ensures r.Got? ==> |r.rest| < |s|
    decreases |s|
  {
    if s == [] then Malformed
    else if s[0] == 0x22 then Got([], s[1..])
    else
      match ReadUnit(s)
      case Malformed => Malformed
      case Got(u, s1) =>
        match ReadBody(s1)
        case Malformed => Malformed
        case Got(tail, s2) => Got([u] + tail, s2)
  }

  // ---------------------------------------------------------------------------
  // Numbers
  // ---------------------------------------------------------------------------

  /** The length of the longest prefix of number characters. */
  function TokenLength(s: Str): (n: nat)
    ensures n <= |s|
    ensures forall i :: 0 <= i < n ==> IsNumberUnit(s[i])
  {
    if s == [] || !IsNumberUnit(s[0]) then 0 else 1 + TokenLength(s[1..])
  }

  function DigitsValue(s: Str): int {
    if s == [] then 0 else DigitsValue(s[..|s| - 1]) * 10 + (s[|s| - 1] as int) - 0x30
  }

  /** Decimal digits without a leading zero, other than zero itself. */
  predicate IsNatural(t: Str) {
    t != [] && (forall i :: 0 <= i < |t| ==> 0x30 <= t[i] <= 0x39) && (t[0] == 0x30 ==> |t| == 1)
  }

  predicate IsSafe(n: int) {
    -9007199254740991 <= n <= 9007199254740991
  }

  function ReadNumber(token: Str, rest: Str): Reading<Json> {
    if IsFractionText(token) then Got(Num(Fraction(token)), rest)
    else if IsNatural(token) && IsSafe(DigitsValue(token)) then Got(Num(Whole(DigitsValue(token))), rest)
    else if token != [] && token[0] == 0x2d && IsNatural(token[1..]) && token[1] != 0x30 && IsSafe(DigitsValue(token[1..])) then
      Got(Num(Whole(-DigitsValue(token[1..]))), rest)
    else Malformed
  }

  // ---------------------------------------------------------------------------
  // Values
  // ---------------------------------------------------------------------------

  function ReadValue(s: Str): (r: Reading<Json>)
    ensures r.Got? ==> |r.rest| < |s|
    decreases |s|, 1
  {
    if s == [] then Malformed
    else if s[0] == 0x6e then ReadWord(s, [0x6e, 0x75, 0x6c, 0x6c], Null)
    else if s[0] == 0x74 then ReadWord(s, [0x74, 0x72, 0x75, 0x65], Bool(true))
    else if s[0] == 0x66 then ReadWord(s, [0x66, 0x61, 0x6c, 0x73, 0x65], Bool(false))
    else if s[0] == 0x22 then
      match ReadBody(s[1..])
      case Malformed => Malformed
      case Got(t, rest) => Got(Text(t), rest)
    else if s[0] == 0x5b then
      if |s| >= 2 && s[1] == 0x5d then Got(Arr([]), s[2..])
      else
        match ReadItems(s[1..])
        case Malformed => Malformed
        case Got(items, rest) => Got(Arr(items), rest)
    else if s[0] == 0x7b then
      if |s| >= 2 && s[1] == 0x7d then Got(Obj([]), s[2..])
      else
        match ReadFields(s[1..])
        case Malformed => Malformed
        case Got(fields, rest) => Got(Obj(fields), rest)
    else
      var n := TokenLength(s);
      if n == 0 then Malformed else ReadNumber(s[..n], s[n..])
  }

  function ReadWord(s: Str, word: Str, v: Json): (r: Reading<Json>)
    requires word != []
    ensures r.Got? ==> |r.rest| < |s|
  {
    if |word| <= |s| && s[..|word|] == word then Got(v, s[|word|..]) else Malformed
  }

  /** One or more values separated by commas, then the closing bracket. */
  function ReadItems(s: Str): (r: Reading<seq<Json>>)
    ensures r.Got? ==> |r.rest| < |s|
    decreases |s|, 2
  {
    match ReadValue(s)
    case Malformed => Malformed
    case Got(v, s1) =>
      if s1 == [] then Malformed
      else if s1[0] == 0x5d then Got([v], s1[1..])
      else if s1[0] != 0x2c then Malformed
      else
        match ReadItems(s1[1..])
        case Malformed => Malformed
        case Got(vs, s2) => Got([v] + vs, s2)
  }

  function ReadField(s: Str): (r: Reading<Field>)
    ensures r.Got? ==> |r.rest| < |s|
    decreases |s|, 2
  {
    if s == [] || s[0] != 0x22 then Malformed
    else
      match ReadBody(s[1..])
      case Malformed => Malformed
      case Got(key, s1) =>
        if s1 == [] || s1[0] != 0x3a then Malformed
        else
          match ReadValue(s1[1..])
          case Malformed => Malformed
          case Got(v, s2) => Got(Field(key, v), s2)
  }

  function ReadFields(s: Str): (r: Reading<seq<Field>>)
    ensures r.Got? ==> |r.rest| < |s|
    decreases |s|, 3
  {
    match ReadField(s)
    case Malformed => Malformed
    case Got(f, s1) =>
      if s1 == [] then Malformed
      else if s1[0] == 0x7d then Got([f], s1[1..])
      else if s1[0] != 0x2c then Malformed
      else
        match ReadFields(s1[1..])
        case Malformed => Malformed
        case Got(fs, s2) => Got([f] + fs, s2)
  }

  /** Section 3.2.3 of RFC 8785: at every level the keys ascend, so none is repeated. */
  predicate KeysAscend(v: Json) {
    match v
    case Arr(items) => forall i :: 0 <= i < |items| ==> KeysAscend(items[i])
    case Obj(fields) =>
      && (forall i, j :: 0 <= i < j < |fields| ==> Less(fields[i].key, fields[j].key))
      && (forall i :: 0 <= i < |fields| ==> KeysAscend(fields[i].value))
    case _ => true
  }

  /** A whole text read as one value. */
  function Decode(s: Str): Reading<Json> {
    var r := ReadValue(s);
    if r.Got? && r.rest == [] && KeysAscend(r.value) then r else Malformed
  }

  // ---------------------------------------------------------------------------
  // Reading back what was written
  // ---------------------------------------------------------------------------

  lemma ReadEscapedUnit(u: Unit, rest: Str)
    ensures ReadUnit(EscapeUnit(u) + rest) == Got(u, rest)
    ensures (EscapeUnit(u) + rest)[0] != QUOTE
  {
    var e := EscapeUnit(u);
    assert (e + rest)[|e|..] == rest;
    assert forall i :: 0 <= i < |e| ==> (e + rest)[i] == e[i];
  }

  lemma {:induction false} ReadEscaped(t: Str, rest: Str)
    ensures ReadBody(EscapeBody(t) + [QUOTE] + rest) == Got(t, rest)
  {
    if t == [] {
      assert (EscapeBody(t) + [QUOTE] + rest)[1..] == rest;
    } else {
      var tail := EscapeBody(t[1..]) + [QUOTE] + rest;
      assert EscapeBody(t) + [QUOTE] + rest == EscapeUnit(t[0]) + tail;
      ReadEscapedUnit(t[0], tail);
      ReadEscaped(t[1..], rest);
      assert [t[0]] + t[1..] == t;
    }
  }

  lemma {:induction false} DigitsRead(n: nat)
    ensures DigitsValue(Digits(n)) == n
    ensures Digits(n) != [] && forall i :: 0 <= i < |Digits(n)| ==> IsDigit(Digits(n)[i])
  {
    if n >= 10 {
      DigitsRead(n / 10);
      assert Digits(n)[..|Digits(n)| - 1] == Digits(n / 10);
    } else {
      assert Digits(n)[..0] == [];
    }
  }

  lemma {:induction false} DigitsNatural(n: nat)
    ensures IsNatural(Digits(n)) && (Digits(n)[0] == 0x30 <==> n == 0)
  {
    DigitsRead(n);
    if n >= 10 {
      DigitsNatural(n / 10);
      assert Digits(n)[0] == Digits(n / 10)[0];
    }
  }

  lemma NumberRead(n: Number, rest: Str)
    requires Serializable(n)
    ensures NumberText(n) != []
    ensures forall i :: 0 <= i < |NumberText(n)| ==> IsNumberUnit(NumberText(n)[i])
    ensures ReadNumber(NumberText(n), rest) == Got(Num(n), rest)
  {
    if n.Whole? {
      WholeRead(n.n, rest);
    }
  }

  lemma WholeRead(k: int, rest: Str)
    requires IsSafe(k)
    ensures WholeText(k) != []
    ensures forall i :: 0 <= i < |WholeText(k)| ==> IsNumberUnit(WholeText(k)[i])
    ensures ReadNumber(WholeText(k), rest) == Got(Num(Whole(k)), rest)
  {
    var n := if k < 0 then -k else k;
    var d := Digits(n);
    DigitsRead(n);
    DigitsNatural(n);
    hide Digits, DigitsValue;
    assert ([MINUS] + d)[1..] == d;
    assert POINT !in d && LOWER_E !in d;
  }

  /** What may follow a value: nothing, or a character that ends a number. */
  predicate Delimited(rest: Str) {
    rest == [] || !IsNumberUnit(rest[0])
  }

  lemma {:induction false} TokenRead(t: Str, rest: Str)
    requires Delimited(rest) && forall i :: 0 <= i < |t| ==> IsNumberUnit(t[i])
    ensures TokenLength(t + rest) == |t|
  {
    if t == [] {
      assert t + rest == rest;
    } else {
      assert (t + rest)[1..] == t[1..] + rest;
      TokenRead(t[1..], rest);
    }
  }

  /** No value starts like the end of its container. */
  lemma EmitStarts(v: Json)
    requires Proper(v)
    ensures Emit(v) != [] && Emit(v)[0] != RIGHT_BRACKET
  {
    if v.Num? {
      NumberRead(v.n, []);
    }
  }

  lemma ReadEmittedWord(word: Str, rest: Str, v: Json)
    requires word != []
    ensures ReadWord(word + rest, word, v) == Got(v, rest)
  {
    assert (word + rest)[..|word|] == word && (word + rest)[|word|..] == rest;
  }

  lemma ReadEmittedNumber(n: Number, rest: Str)
    requires Serializable(n) && Delimited(rest)
    ensures ReadValue(NumberText(n) + rest) == Got(Num(n), rest)
  {
    hide NumberText, ReadNumber, TokenLength, ReadBody, ReadItems, ReadFields;
    var t := NumberText(n);
    NumberRead(n, rest);
    TokenRead(t, rest);
    assert (t + rest)[..|t|] == t && (t + rest)[|t|..] == rest;
    assert (t + rest)[0] == t[0] && IsNumberUnit(t[0]);
  }

  lemma ReadEmittedText(t: Str, rest: Str)
    ensures ReadValue(Escape(t) + rest) == Got(Text(t), rest)
  {
    hide ReadBody, EscapeBody, ReadItems, ReadFields, ReadNumber, ReadWord, TokenLength;
    ReadEscaped(t, rest);
    assert (Escape(t) + rest)[1..] == EscapeBody(t) + [QUOTE] + rest;
  }

  lemma ReadEmittedScalar(v: Json, rest: Str)
    requires Proper(v) && Delimited(rest) && !v.Arr? && !v.Obj?
    ensures ReadValue(Emit(v) + rest) == Got(v, rest)
  {
    match v
    case Null => ReadEmittedWord(NULL_TEXT, rest, v);
    case Bool(b) => ReadEmittedWord(if b then TRUE_TEXT else FALSE_TEXT, rest, v);
    case Num(n) => ReadEmittedNumber(n, rest);
    case Text(t) => ReadEmittedText(t, rest);
  }

  /** The steps for containers, given that what stands between the brackets is read back. */
  lemma ReadArrStep(body: Str, items: seq<Json>, rest: Str)
    requires body != [] && body[0] != RIGHT_BRACKET
    requires ReadItems(body + [RIGHT_BRACKET] + rest) == Got(items, rest)
    ensures ReadValue([LEFT_BRACKET] + body + [RIGHT_BRACKET] + rest) == Got(Arr(items), rest)
  {
    hide ReadItems, ReadFields, ReadBody, ReadNumber, ReadWord, TokenLength;
    var s := [LEFT_BRACKET] + body + [RIGHT_BRACKET] + rest;
    assert s[1..] == body + [RIGHT_BRACKET] + rest;
    assert s[1] == body[0];
  }

  lemma ReadObjStep(body: Str, fields: seq<Field>, rest: Str)
    requires body != [] && body[0] != RIGHT_BRACE
    requires ReadFields(body + [RIGHT_BRACE] + rest) == Got(fields, rest)
    ensures ReadValue([LEFT_BRACE] + body + [RIGHT_BRACE] + rest) == Got(Obj(fields), rest)
  {
    hide ReadItems, ReadFields, ReadBody, ReadNumber, ReadWord, TokenLength;
    var s := [LEFT_BRACE] + body + [RIGHT_BRACE] + rest;
    assert s[1..] == body + [RIGHT_BRACE] + rest;
    assert s[1] == body[0];
  }

  lemma FieldsStart(fields: seq<Field>)
    requires fields != []
    ensures EmitFields(fields) != [] && EmitFields(fields)[0] == QUOTE
  {
    assert EmitField(fields[0])[0] == QUOTE;
  }

  /** Unique readability: whatever follows, a value is read back from its own text. */
  lemma {:induction false} ReadEmitted(v: Json, rest: Str)
    requires Proper(v) && Delimited(rest)
    ensures ReadValue(Emit(v) + rest) == Got(v, rest)
    decreases v, 0
  {
    match v
    case Arr(items) =>
      if items == [] {
        assert Emit(v) + rest == [LEFT_BRACKET, RIGHT_BRACKET] + rest;
      } else {
        EmitStarts(items[0]);
        ReadEmittedItems(items, rest);
        ReadArrStep(EmitItems(items), items, rest);
      }
    case Obj(fields) =>
      if fields == [] {
        assert Emit(v) + rest == [LEFT_BRACE, RIGHT_BRACE] + rest;
      } else {
        FieldsStart(fields);
        ReadEmittedFields(fields, rest);
        ReadObjStep(EmitFields(fields), fields, rest);
      }
    case _ => ReadEmittedScalar(v, rest);
  }

  lemma ReadItemsEnd(items: seq<Json>, rest: Str)
    requires |items| == 1
    requires ReadValue(Emit(items[0]) + ([RIGHT_BRACKET] + rest)) == Got(items[0], [RIGHT_BRACKET] + rest)
    ensures ReadItems(EmitItems(items) + [RIGHT_BRACKET] + rest) == Got(items, rest)
  {
    assert EmitItems(items) == Emit(items[0]);
    assert Emit(items[0]) + [RIGHT_BRACKET] + rest == Emit(items[0]) + ([RIGHT_BRACKET] + rest);
    assert ([RIGHT_BRACKET] + rest)[1..] == rest;
    assert items == [items[0]];
  }

  lemma ReadItemsStep(items: seq<Json>, more: Str, rest: Str)
    requires |items| > 1 && more == EmitItems(items[1..]) + [RIGHT_BRACKET] + rest
    requires ReadValue(Emit(items[0]) + ([COMMA] + more)) == Got(items[0], [COMMA] + more)
    requires ReadItems(more) == Got(items[1..], rest)
    ensures ReadItems(EmitItems(items) + [RIGHT_BRACKET] + rest) == Got(items, rest)
  {
    RegroupFive(Emit(items[0]), [COMMA], EmitItems(items[1..]), [RIGHT_BRACKET], rest);
    assert ([COMMA] + more)[1..] == more;
    assert items == [items[0]] + items[1..];
  }

  lemma {:induction false} ReadEmittedItems(items: seq<Json>, rest: Str)
    requires items != [] && forall i :: 0 <= i < |items| ==> Proper(items[i])
    ensures ReadItems(EmitItems(items) + [RIGHT_BRACKET] + rest) == Got(items, rest)
    decreases items, 1
  {
    if |items| == 1 {
      ReadEmitted(items[0], [RIGHT_BRACKET] + rest);
      ReadItemsEnd(items, rest);
    } else {
      var more := EmitItems(items[1..]) + [RIGHT_BRACKET] + rest;
      ReadEmitted(items[0], [COMMA] + more);
      ReadEmittedItems(items[1..], rest);
      ReadItemsStep(items, more, rest);
    }
  }

  lemma FieldText(f: Field, rest: Str)
    ensures EmitField(f) + rest == [QUOTE] + (EscapeBody(f.key) + [QUOTE] + ([COLON] + (Emit(f.value) + rest)))
  {
  }

  lemma ReadFieldParts(key: Str, more: Str, v: Json, rest: Str)
    requires ReadBody(EscapeBody(key) + [QUOTE] + ([COLON] + more)) == Got(key, [COLON] + more)
    requires ReadValue(more) == Got(v, rest)
    ensures ReadField([QUOTE] + (EscapeBody(key) + [QUOTE] + ([COLON] + more))) == Got(Field(key, v), rest)
  {
    var body := EscapeBody(key) + [QUOTE] + ([COLON] + more);
    assert ([QUOTE] + body)[1..] == body;
    assert ([COLON] + more)[1..] == more;
  }

  lemma ReadFieldStep(f: Field, rest: Str)
    requires ReadValue(Emit(f.value) + rest) == Got(f.value, rest)
    ensures ReadField(EmitField(f) + rest) == Got(f, rest)
  {
    FieldText(f, rest);
    ReadEscaped(f.key, [COLON] + (Emit(f.value) + rest));
    ReadFieldParts(f.key, Emit(f.value) + rest, f.value, rest);
  }

  lemma ReadFieldsEnd(fields: seq<Field>, rest: Str)
    requires |fields| == 1
    requires ReadField(EmitField(fields[0]) + ([RIGHT_BRACE] + rest)) == Got(fields[0], [RIGHT_BRACE] + rest)
    ensures ReadFields(EmitFields(fields) + [RIGHT_BRACE] + rest) == Got(fields, rest)
  {
    assert EmitFields(fields) == EmitField(fields[0]);
    assert EmitField(fields[0]) + [RIGHT_BRACE] + rest == EmitField(fields[0]) + ([RIGHT_BRACE] + rest);
    ReadLastField(EmitField(fields[0]) + ([RIGHT_BRACE] + rest), fields[0], rest);
    assert fields == [fields[0]];
  }

  lemma ReadFieldsStep(fields: seq<Field>, more: Str, rest: Str)
    requires |fields| > 1 && more == EmitFields(fields[1..]) + [RIGHT_BRACE] + rest
    requires ReadField(EmitField(fields[0]) + ([COMMA] + more)) == Got(fields[0], [COMMA] + more)
    requires ReadFields(more) == Got(fields[1..], rest)
    ensures ReadFields(EmitFields(fields) + [RIGHT_BRACE] + rest) == Got(fields, rest)
  {
    RegroupFive(EmitField(fields[0]), [COMMA], EmitFields(fields[1..]), [RIGHT_BRACE], rest);
    ReadNextField(EmitField(fields[0]) + ([COMMA] + more), fields[0], more, fields[1..], rest);
    assert fields == [fields[0]] + fields[1..];
  }

  lemma ReadLastField(s: Str, f: Field, rest: Str)
    requires ReadField(s) == Got(f, [RIGHT_BRACE] + rest)
    ensures ReadFields(s) == Got([f], rest)
  {
    assert ([RIGHT_BRACE] + rest)[1..] == rest;
  }

  lemma ReadNextField(s: Str, f: Field, more: Str, fs: seq<Field>, rest: Str)
    requires ReadField(s) == Got(f, [COMMA] + more) && ReadFields(more) == Got(fs, rest)
    ensures ReadFields(s) == Got([f] + fs, rest)
  {
    assert ([COMMA] + more)[1..] == more;
  }

  lemma {:induction false} ReadEmittedFields(fields: seq<Field>, rest: Str)
    requires fields != [] && forall i :: 0 <= i < |fields| ==> Proper(fields[i].value)
    ensures ReadFields(EmitFields(fields) + [RIGHT_BRACE] + rest) == Got(fields, rest)
    decreases fields, 1
  {
    var f := fields[0];
    if |fields| == 1 {
      ReadEmitted(f.value, [RIGHT_BRACE] + rest);
      ReadFieldStep(f, [RIGHT_BRACE] + rest);
      ReadFieldsEnd(fields, rest);
    } else {
      var more := EmitFields(fields[1..]) + [RIGHT_BRACE] + rest;
      ReadEmitted(f.value, [COMMA] + more);
      ReadFieldStep(f, [COMMA] + more);
      ReadEmittedFields(fields[1..], rest);
      ReadFieldsStep(fields, more, rest);
    }
  }

  /** A string literal holds no raw control character, and is read back as the string. */
  lemma LiteralReads(t: Str)
    ensures forall i :: 0 <= i < |Escape(t)| ==> Escape(t)[i] >= 0x20
    ensures Escape(t)[0] == 0x22 && ReadBody(Escape(t)[1..]) == Got(t, [])
  {
    NoControls(t);
    ReadEscaped(t, []);
    assert Escape(t)[1..] == EscapeBody(t) + [QUOTE] + [];
  }

  lemma {:induction false} NoControls(t: Str)
    ensures forall i :: 0 <= i < |EscapeBody(t)| ==> EscapeBody(t)[i] >= 0x20
  {
    if t != [] {
      NoControls(t[1..]);
    }
  }

  // ---------------------------------------------------------------------------
  // Nothing else is read
  // ---------------------------------------------------------------------------

  lemma HexDigitOf(u: Unit)
    requires IsLowerHex(u)
    ensures HexDigit(HexValue(u)) == u
  {
  }

  /** A unit is read from its own spelling only. */
  lemma UnitSpelled(s: Str)
    requires ReadUnit(s).Got? && s[0] != 0x22
    ensures s == EscapeUnit(ReadUnit(s).value) + ReadUnit(s).rest
  {
    if s[0] == 0x5c && s[1] == 0x75 {
      HexDigitOf(s[5]);
      assert s == s[..6] + s[6..];
      assert s[..6] == [0x5c, 0x75, 0x30, 0x30, s[4], s[5]];
    } else if s[0] == 0x5c {
      assert s == s[..2] + s[2..];
      assert s[..2] == [0x5c, s[1]];
    } else {
      assert s == [s[0]] + s[1..];
    }
  }

  lemma {:induction false} BodySpelled(s: Str)
    requires ReadBody(s).Got?
    ensures s == EscapeBody(ReadBody(s).value) + ([0x22] + ReadBody(s).rest)
    decreases |s|
  {
    hide EscapeUnit, ReadUnit;
    if s[0] != 0x22 {
      var u := ReadUnit(s);
      UnitSpelled(s);
      BodySpelled(u.rest);
      var tail := ReadBody(u.rest);
      assert ReadBody(s).value == [u.value] + tail.value;
      assert ([u.value] + tail.value)[1..] == tail.value;
      Regroup(EscapeUnit(u.value), EscapeBody(tail.value), [0x22] + tail.rest);
    } else {
      assert s == [0x22] + s[1..];
    }
  }

  lemma {:induction false} DigitsSpelled(t: Str)
    requires IsNatural(t)
    ensures DigitsValue(t) >= 0 && Digits(DigitsValue(t)) == t
    ensures t[0] != 0x30 ==> DigitsValue(t) > 0
  {
    var n := |t| - 1;
    if n > 0 {
      var front := t[..n];
      assert front[0] == t[0];
      DigitsSpelled(front);
      assert t == front + [t[n]];
      assert DigitsValue(t) / 10 == DigitsValue(front) && DigitsValue(t) % 10 == t[n] - 0x30;
    } else {
      assert t[..0] == [] && t == [t[0]];
    }
  }

  lemma NumberSpelled(token: Str, rest: Str)
    requires ReadNumber(token, rest).Got?
    ensures ReadNumber(token, rest).rest == rest && ReadNumber(token, rest).value.Num?
    ensures Emit(ReadNumber(token, rest).value) == token && Proper(ReadNumber(token, rest).value)
  {
    if !IsFractionText(token) {
      if IsNatural(token) {
        DigitsSpelled(token);
      } else {
        DigitsSpelled(token[1..]);
        assert token == [0x2d] + token[1..];
      }
    }
  }

  lemma WordSpelled(s: Str, word: Str, v: Json)
    requires word != [] && ReadWord(s, word, v).Got?
    ensures s == word + ReadWord(s, word, v).rest && ReadWord(s, word, v).value == v
  {
  }

  /** A value is read from its own text only, whatever follows. */
  lemma {:induction false} ValueSpelled(s: Str)
    requires ReadValue(s).Got?
    ensures s == Emit(ReadValue(s).value) + ReadValue(s).rest
    decreases |s|, 1
  {
    hide EscapeBody, ReadBody, ReadItems, ReadFields, ReadNumber, EmitItems, EmitFields, ReadWord, TokenLength, Digits;
    if s[0] == 0x6e {
      WordSpelled(s, [0x6e, 0x75, 0x6c, 0x6c], Null);
    } else if s[0] == 0x74 {
      WordSpelled(s, [0x74, 0x72, 0x75, 0x65], Bool(true));
    } else if s[0] == 0x66 {
      WordSpelled(s, [0x66, 0x61, 0x6c, 0x73, 0x65], Bool(false));
    } else if s[0] == 0x22 {
      BodySpelled(s[1..]);
      assert s == [0x22] + s[1..];
    } else if s[0] == 0x5b {
      ArraySpelled(s);
    } else if s[0] == 0x7b {
      ObjectSpelled(s);
    } else {
      var n := TokenLength(s);
      NumberSpelled(s[..n], s[n..]);
      assert s == s[..n] + s[n..];
    }
  }

  lemma {:induction false} ArraySpelled(s: Str)
    requires ReadValue(s).Got? && s[0] == 0x5b
    ensures s == Emit(ReadValue(s).value) + ReadValue(s).rest
    decreases |s|, 0
  {
    if |s| >= 2 && s[1] == 0x5d {
      assert s == [0x5b, 0x5d] + s[2..];
      assert EmitItems([]) == [];
    } else {
      ItemsSpelled(s[1..]);
      assert s == [0x5b] + s[1..];
    }
  }

  lemma {:induction false} ObjectSpelled(s: Str)
    requires ReadValue(s).Got? && s[0] == 0x7b
    ensures s == Emit(ReadValue(s).value) + ReadValue(s).rest
    decreases |s|, 0
  {
    if |s| >= 2 && s[1] == 0x7d {
      assert s == [0x7b, 0x7d] + s[2..];
      assert EmitFields([]) == [];
    } else {
      FieldsSpelled(s[1..]);
      assert s == [0x7b] + s[1..];
    }
  }

  lemma {:induction false} ItemsSpelled(s: Str)
    requires ReadItems(s).Got?
    ensures ReadItems(s).value != []
    ensures s == EmitItems(ReadItems(s).value) + ([0x5d] + ReadItems(s).rest)
    decreases |s|, 2
  {
    hide ReadValue, Emit;
    ValueSpelled(s);
    var v := ReadValue(s);
    assert v.rest == [v.rest[0]] + v.rest[1..];
    if v.rest[0] == 0x2c {
      ItemsSpelled(v.rest[1..]);
      var vs := ReadItems(v.rest[1..]);
      assert ([v.value] + vs.value)[1..] == vs.value;
      assert EmitItems([v.value] + vs.value) == Emit(v.value) + ([0x2c] + EmitItems(vs.value));
    } else {
      assert EmitItems([v.value]) == Emit(v.value);
    }
  }

  lemma {:induction false} FieldSpelled(s: Str)
    requires ReadField(s).Got?
    ensures s == EmitField(ReadField(s).value) + ReadField(s).rest
    decreases |s|, 2
  {
    hide ReadValue, Emit, ReadBody, EscapeBody;
    BodySpelled(s[1..]);
    var key := ReadBody(s[1..]);
    ValueSpelled(key.rest[1..]);
    assert s == [0x22] + s[1..];
    assert key.rest == [0x3a] + key.rest[1..];
  }

  lemma {:induction false} FieldsSpelled(s: Str)
    requires ReadFields(s).Got?
    ensures ReadFields(s).value != []
    ensures s == EmitFields(ReadFields(s).value) + ([0x7d] + ReadFields(s).rest)
    decreases |s|, 3
  {
    hide ReadField, EmitField;
    FieldSpelled(s);
    var f := ReadField(s);
    assert f.rest == [f.rest[0]] + f.rest[1..];
    if f.rest[0] == 0x2c {
      FieldsSpelled(f.rest[1..]);
      var fs := ReadFields(f.rest[1..]);
      assert ([f.value] + fs.value)[1..] == fs.value;
      assert EmitFields([f.value] + fs.value) == EmitField(f.value) + ([0x2c] + EmitFields(fs.value));
    } else {
      assert EmitFields([f.value]) == EmitField(f.value);
    }
  }

  // ---------------------------------------------------------------------------
  // Key order
  // ---------------------------------------------------------------------------

  lemma {:induction false} CanonAscends(v: Json)
    requires Proper(v)
    ensures KeysAscend(Canon(v))
  {
    match v
    case Arr(items) =>
      forall i | 0 <= i < |items| ensures KeysAscend(Canon(items[i])) {
        CanonAscends(items[i]);
      }
    case Obj(fields) =>
      var a := CanonFields(fields);
      var s := SortBy(a, KeyOf);
      assert Canon(v) == Obj(s);
      SortKeepsDistinct(a, KeyOf);
      SortBySorts(a, KeyOf);
      forall i, j | 0 <= i < j < |s| ensures Less(s[i].key, s[j].key) {
        assert AtMost(KeyOf(s[i]), KeyOf(s[j])) && KeyOf(s[i]) != KeyOf(s[j]);
      }
      forall i | 0 <= i < |s| ensures KeysAscend(s[i].value) {
        assert s[i] in s;
        var j := InMultiset(s[i], s, a);
        CanonAscends(fields[j].value);
      }
    case _ =>
  }

  lemma {:induction false} SortAscending(fields: seq<Field>)
    requires forall i, j :: 0 <= i < j < |fields| ==> Less(fields[i].key, fields[j].key)
    ensures SortBy(fields, KeyOf) == fields
  {
    if fields != [] {
      SortAscending(fields[1..]);
      if |fields| > 1 {
        LessAsymmetric(fields[0].key, fields[1].key);
        assert fields[1..][0] == fields[1];
      }
      assert fields == [fields[0]] + fields[1..];
    }
  }

  /** What is read with ascending keys is accepted, and its own canonical form. */
  lemma {:induction false} AscendingIsCanon(v: Json)
    requires KeysAscend(v)
    ensures Canon(v) == v
  {
    match v
    case Arr(items) =>
      forall i | 0 <= i < |items| ensures Canon(items[i]) == items[i] {
        AscendingIsCanon(items[i]);
      }
    case Obj(fields) =>
      var a := CanonFields(fields);
      forall i | 0 <= i < |fields| ensures a[i] == fields[i] {
        AscendingIsCanon(fields[i].value);
      }
      assert a == fields;
      SortAscending(fields);
    case _ =>
  }

  // ---------------------------------------------------------------------------
  // Main results
  // ---------------------------------------------------------------------------

  /** The decoder recovers every accepted value, up to the order of keys. */
  lemma DecodeEncode(v: Json)
    requires Proper(v)
    ensures Decode(Encode(v)) == Got(Canon(v), [])
  {
    CanonProper(v);
    CanonAscends(v);
    ReadEmitted(Canon(v), []);
    assert Encode(v) + [] == Encode(v);
  }

  /** A text the decoder accepts is the encoding of what it decodes to: there is one canonical text per value. */
  lemma DecodesCanonicalOnly(s: Str)
    requires Decode(s).Got?
    ensures Encode(Decode(s).value) == s
  {
    ValueSpelled(s);
    AscendingIsCanon(Decode(s).value);
    assert Emit(Decode(s).value) + [] == Emit(Decode(s).value);
  }

  /** Two accepted values have one encoding exactly when they are equal up to key order at every level. */
  lemma EncodeInjective(v: Json, w: Json)
    requires Proper(v) && Proper(w)
    ensures Encode(v) == Encode(w) <==> SameUpToKeyOrder(v, w)
  {
    DecodeEncode(v);
    DecodeEncode(w);
    CanonEqualIffSame(v, w);
  }
}
