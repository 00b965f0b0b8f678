/** The capped line history of src/kernel/pipeline-budgets.ts: single and batched appends. */
module Telemetry {
  import opened Text
  import opened Unicode

  const LF: Unit := 10
  const MAX_HISTORY_BYTES: nat := 5 * 1024 * 1024

  // ---------------------------------------------------------------------------
  // Lines and text
  // ---------------------------------------------------------------------------

  /** String.prototype.split at line feeds. */
  function Split(text: Str): (r: seq<Str>)
    ensures |r| >= 1
  {
    if text == [] then [[]]
    else
      var r := Split(text[1..]);
      if text[0] == LF then [[]] + r else [[text[0]] + r[0]] + r[1..]
  }

  /** filter((l) => l.length > 0) */
  function NonEmpty(lines: seq<Str>): seq<Str> {
    if lines == [] then [] else (if lines[0] == [] then [] else [lines[0]]) + NonEmpty(lines[1..])
  }

  /** join("\n") + "\n" */
  function JoinLines(lines: seq<Str>): Str {
    if lines == [] then [LF]
    else if |lines| == 1 then lines[0] + [LF]
    else lines[0] + [LF] + JoinLines(lines[1..])
  }

  /** A history: every line followed by a line feed. */
  function Render(lines: seq<Str>): Str {
    if lines == [] then [] else lines[0] + [LF] + Render(lines[1..])
  }

  /** What JSON.stringify yields for a record: not empty, and without line feeds. */
  ghost predicate IsLine(l: Str) {
    l != [] && LF !in l
  }

  ghost predicate AreLines(lines: seq<Str>) {
    forall i :: 0 <= i < |lines| ==> IsLine(lines[i])
  }

  // ---------------------------------------------------------------------------
  // Appending
  // ---------------------------------------------------------------------------

  predicate Fits(lines: seq<Str>) {
    Utf8Length(JoinLines(lines)) <= MAX_HISTORY_BYTES
  }

  /** Drops the oldest lines until the rest fits or one is left. */
  function Keep(lines: seq<Str>): seq<Str> {
    if |lines| <= 1 || Fits(lines) then lines else Keep(lines[1..])
  }

  /** The file after text has been added to it. */
  function Appended(existing: Str, added: Str): Str {
    var next := existing + added;
    if Utf8Length(next) > MAX_HISTORY_BYTES then JoinLines(Keep(NonEmpty(Split(next)))) else next
  }

  method Cap(next0: Str) returns (next: Str)
    ensures next == if Utf8Length(next0) > MAX_HISTORY_BYTES then JoinLines(Keep(NonEmpty(Split(next0)))) else next0
  {
    next := next0;
    if Utf8Length(next) > MAX_HISTORY_BYTES {
      var lines := NonEmpty(Split(next));
      ghost var all := lines;
      while |lines| > 1 && Utf8Length(JoinLines(lines)) > MAX_HISTORY_BYTES
        invariant Keep(all) == Keep(lines)
        decreases |lines|
      {
        lines := lines[1..];
      }
      next := JoinLines(lines);
    }
  }

  method AppendStepTelemetry(existing: Str, record: Str) returns (next: Str)
    ensures next == Appended(existing, record + [LF])
  {
    next := Cap(existing + (record + [LF]));
  }

  method BatchAppendStepTelemetry(existing: Str, records: seq<Str>) returns (next: Str)
    ensures next == if records == [] then existing else Appended(existing, JoinLines(records))
  {
    if |records| == 0 {
      return existing;
    }
    next := Cap(existing + JoinLines(records));
  }

  // ---------------------------------------------------------------------------
  // Splitting and rendering
  // ---------------------------------------------------------------------------

  lemma {:induction false} SplitLine(l: Str, rest: Str)
    requires LF !in l
    ensures Split(l + [LF] + rest) == [l] + Split(rest)
  {
    var t := l + [LF] + rest;
    if l == [] {
      assert t[0] == LF && t[1..] == rest;
    } else {
      assert t[0] == l[0] && t[1..] == l[1..] + [LF] + rest;
      SplitLine(l[1..], rest);
      assert [l[0]] + l[1..] == l;
    }
  }

  /** Splitting a history and dropping the empty rest gives back its lines. */
  lemma {:induction false} SplitRendered(lines: seq<Str>)
    requires AreLines(lines)
    ensures NonEmpty(Split(Render(lines))) == lines
  {
    if lines == [] {
      var blank: seq<Str> := [[]];
      assert blank[1..] == [];
    } else {
      SplitLine(lines[0], Render(lines[1..]));
      assert IsLine(lines[0]) && AreLines(lines[1..]);
      SplitRendered(lines[1..]);
      var r := Split(Render(lines[1..]));
      assert ([lines[0]] + r)[1..] == r;
    }
  }

  lemma {:induction false} JoinIsRender(lines: seq<Str>)
    requires lines != []
    ensures JoinLines(lines) == Render(lines)
  {
    if |lines| > 1 {
      JoinIsRender(lines[1..]);
    } else {
      assert Render(lines[1..]) == [];
    }
  }

  lemma {:induction false} RenderConcat(a: seq<Str>, b: seq<Str>)
    ensures Render(a + b) == Render(a) + Render(b)
  {
    if a == [] {
      assert a + b == b;
    } else {
      assert (a + b)[0] == a[0] && (a + b)[1..] == a[1..] + b;
      RenderConcat(a[1..], b);
      Regroup(a[0] + [LF], Render(a[1..]), Render(b));
    }
  }

  // ---------------------------------------------------------------------------
  // Byte lengths
  // ---------------------------------------------------------------------------

  ghost predicate EndsInLine(a: Str) {
    a == [] || a[|a| - 1] == LF
  }

  /** No surrogate pair straddles a line feed. */
  lemma {:induction false} Utf8AfterLine(a: Str, b: Str)
    requires EndsInLine(a)
    ensures Utf8Length(a + b) == Utf8Length(a) + Utf8Length(b)
    decreases |a|
  {
    hide PairBytes, UnitBytes;
    if a == [] {
      assert a + b == b;
    } else if StartsWithPair(a) {
      assert (a + b)[2..] == a[2..] + b && (a + b)[0] == a[0] && (a + b)[1] == a[1];
      Utf8AfterLine(a[2..], b);
    } else {
      assert (a + b)[1..] == a[1..] + b && (a + b)[0] == a[0];
      assert !StartsWithPair(a + b) by {
        if |a| == 1 {
          assert a[0] == LF;
        } else {
          assert (a + b)[1] == a[1];
        }
      }
      Utf8AfterLine(a[1..], b);
    }
  }

  lemma {:induction false} RenderEnds(lines: seq<Str>)
    ensures EndsInLine(Render(lines))
  {
    if lines != [] {
      RenderEnds(lines[1..]);
    }
  }

  /** More lines never take fewer bytes. */
  lemma FitsLess(a: seq<Str>, b: seq<Str>)
    requires a != [] && Fits(a + b)
    ensures Fits(a)
  {
    JoinIsRender(a);
    JoinIsRender(a + b);
    RenderConcat(a, b);
    RenderEnds(a);
    Utf8AfterLine(Render(a), Render(b));
  }

  // ---------------------------------------------------------------------------
  // What the cap keeps
  // ---------------------------------------------------------------------------

  lemma {:induction false} KeepSuffix(lines: seq<Str>) returns (i: nat)
    ensures i <= |lines| && Keep(lines) == lines[i..]
    ensures lines != [] ==> Keep(lines) != []
    ensures lines != [] ==> |lines[i..]| == 1 || Fits(lines[i..])
    ensures forall j :: 0 <= j < i ==> !Fits(lines[j..])
  {
    hide Fits;
    if |lines| <= 1 || Fits(lines) {
      i := 0;
    } else {
      var k := KeepSuffix(lines[1..]);
      i := k + 1;
      assert lines[1..][k..] == lines[i..];
      forall j | 0 <= j < i ensures !Fits(lines[j..]) {
        assert j > 0 ==> lines[1..][j - 1..] == lines[j..];
        assert lines[0..] == lines;
      }
    }
  }

  /** Capping what has been capped before is the same as capping once. */
  lemma {:induction false} KeepTwice(a: seq<Str>, b: seq<Str>)
    requires b != []
    ensures Keep(Keep(a) + b) == Keep(a + b)
  {
    hide Fits;
    if |a| > 1 && !Fits(a) {
      KeepTwice(a[1..], b);
      if Fits(a + b) {
        FitsLess(a, b);
      }
      assert (a + b)[1..] == a[1..] + b;
    }
  }

  /** On a well-formed history an append is the cap of all lines. */
  lemma AppendedIsKept(lines: seq<Str>, more: seq<Str>)
    requires AreLines(lines) && AreLines(more) && more != []
    ensures Appended(Render(lines), Render(more)) == Render(Keep(lines + more))
  {
    var all := lines + more;
    RenderConcat(lines, more);
    JoinIsRender(all);
    SplitRendered(all);
    var i := KeepSuffix(all);
    JoinIsRender(Keep(all));
    hide Keep, Split, NonEmpty, JoinLines, Render;
    if Utf8Length(Render(all)) <= MAX_HISTORY_BYTES {
      KeepsWhatFits(all);
    }
  }

  lemma KeepsWhatFits(lines: seq<Str>)
    requires Fits(lines)
    ensures Keep(lines) == lines
  {
  }

  /** The records appended one by one. */
  function OneByOne(existing: Str, records: seq<Str>): Str {
    if records == [] then existing
    else Appended(OneByOne(existing, records[..|records| - 1]), records[|records| - 1] + [LF])
  }

  lemma RenderOne(l: Str)
    ensures Render([l]) == l + [LF]
  {
    var one := [l];
    assert Render(one[1..]) == [];
  }

  lemma {:induction false} OneByOneIsKept(lines: seq<Str>, records: seq<Str>)
    requires AreLines(lines) && AreLines(records) && records != []
    ensures OneByOne(Render(lines), records) == Render(Keep(lines + records))
  {
    var n := |records| - 1;
    var front, last := records[..n], records[n];
    assert records == front + [last];
    RenderOne(last);
    assert AreLines([last]);
    if front == [] {
      assert OneByOne(Render(lines), records) == Appended(Render(lines), Render([last]));
      AppendedIsKept(lines, [last]);
    } else {
      OneByOneIsKept(lines, front);
      var i := KeepSuffix(lines + front);
      var kept := Keep(lines + front);
      forall k | 0 <= k < |kept| ensures IsLine(kept[k]) {
        assert kept[k] == (lines + front)[i + k];
      }
      AppendedIsKept(kept, [last]);
      KeepTwice(lines + front, [last]);
      assert lines + records == lines + front + [last];
    }
  }

  /** On a well-formed history a batch leaves exactly the file that single appends would. */
  lemma BatchIsOneByOne(lines: seq<Str>, records: seq<Str>)
    requires AreLines(lines) && AreLines(records) && records != []
    ensures Appended(Render(lines), JoinLines(records)) == OneByOne(Render(lines), records)
  {
    JoinIsRender(records);
    AppendedIsKept(lines, records);
    OneByOneIsKept(lines, records);
  }

  /** The file is the longest suffix of all lines that fits the cap, or the last line alone. */
  lemma LongestSuffix(lines: seq<Str>, records: seq<Str>) returns (i: nat)
    requires AreLines(lines) && AreLines(records) && records != []
    ensures
      var all := lines + records;
      && i < |all| && Appended(Render(lines), JoinLines(records)) == Render(all[i..])
      && (Utf8Length(Render(all[i..])) <= MAX_HISTORY_BYTES || i == |all| - 1)
      && forall j :: 0 <= j < i ==> Utf8Length(Render(all[j..])) > MAX_HISTORY_BYTES
  {
    var all := lines + records;
    JoinIsRender(records);
    AppendedIsKept(lines, records);
    i := KeepSuffix(all);
    JoinIsRender(all[i..]);
    forall j | 0 <= j < i ensures Utf8Length(Render(all[j..])) > MAX_HISTORY_BYTES {
      assert !Fits(all[j..]);
      JoinIsRender(all[j..]);
    }
  }

  /** The parts with a line feed (10) between them. */
  function Joined(parts: seq<Str>): Str {
    if parts == [] then [] else if |parts| == 1 then parts[0] else parts[0] + [10] + Joined(parts[1..])
  }

  /** Splitting takes any text apart at its line feeds, and loses nothing. */
  lemma {:induction false} SplitIs(text: Str)
    ensures forall part :: part in Split(text) ==> 10 !in part
    ensures Joined(Split(text)) == text
  {
    if text != [] {
      var rest := Split(text[1..]);
      SplitIs(text[1..]);
      if text[0] == 10 {
        assert ([[]] + rest)[1..] == rest;
        assert Joined(Split(text)) == [10] + Joined(rest);
      } else {
        var first := [text[0]] + rest[0];
        assert rest[0] in rest && forall part :: part in rest[1..] ==> part in rest;
        assert ([first] + rest[1..])[1..] == rest[1..];
        assert Joined(rest) == if |rest| == 1 then rest[0] else rest[0] + [10] + Joined(rest[1..]);
      }
    }
  }

  /** The file is what it was and what was added, up to 5 MiB; beyond, the last of its lines that are not empty. */
  lemma FileIs(existing: Str, added: Str)
    ensures Utf8Length(existing + added) <= 5_242_880 ==> Appended(existing, added) == existing + added
    ensures Utf8Length(existing + added) > 5_242_880 ==>
      exists i: nat :: i <= |NonEmpty(Split(existing + added))|
        && Appended(existing, added) == JoinLines(NonEmpty(Split(existing + added))[i..])
  {
    var i := KeepSuffix(NonEmpty(Split(existing + added)));
  }

  /** The lines kept are in their order, and only empty ones are dropped. */
  lemma {:induction false} NonEmptyAre(lines: seq<Str>)
    ensures forall l :: l in NonEmpty(lines) <==> l in lines && |l| > 0
    ensures [] !in lines ==> NonEmpty(lines) == lines
  {
    if lines != [] {
      NonEmptyAre(lines[1..]);
      assert lines == [lines[0]] + lines[1..];
    }
  }
}
