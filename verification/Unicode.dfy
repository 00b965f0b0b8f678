/**
  Surrogates and UTF-8: hasLoneSurrogate, the byte lengths the limits count, and the bytes
  that are hashed (src/fingerprint/canonical-json.ts; Buffer.from and Buffer.byteLength).
 */
module Unicode {
  import opened Text

  type Byte = b: int | 0 <= b < 0x100

  predicate IsHigh(u: Unit) {
    0xd800 <= u <= 0xdbff
  }

  predicate IsLow(u: Unit) {
    0xdc00 <= u <= 0xdfff
  }

  predicate StartsWithPair(s: Str) {
    |s| >= 2 && IsHigh(s[0]) && IsLow(s[1])
  }

  /** Every surrogate belongs to a pair: the string is a sequence of Unicode scalar values. */
  predicate WellFormed(s: Str) {
    s == [] || (if StartsWithPair(s) then WellFormed(s[2..])
                else !IsHigh(s[0]) && !IsLow(s[0]) && WellFormed(s[1..]))
  }

  /** Unit i is no lone surrogate. */
  predicate Paired(s: Str, i: int)
    requires 0 <= i < |s|
  {
    && (0xd800 <= s[i] < 0xdc00 ==> i + 1 < |s| && 0xdc00 <= s[i + 1] < 0xe000)
    && (0xdc00 <= s[i] < 0xe000 ==> i > 0 && 0xd800 <= s[i - 1] < 0xdc00)
  }

  lemma PairedTail(s: Str, k: nat, i: int)
    requires k <= i < |s| && (k == i ==> !(0xdc00 <= s[i] < 0xe000))
    ensures Paired(s, i) <==> Paired(s[k..], i - k)
  {
  }

  /** Well-formed text, unit by unit: every high surrogate stands before a low one, and every low one after a high one. */
  lemma {:induction false} WellFormedIff(s: Str)
    ensures WellFormed(s) <==> forall i :: 0 <= i < |s| ==> Paired(s, i)
  {
    if s != [] {
      var k := if StartsWithPair(s) then 2 else 1;
      var t := s[k..];
      WellFormedIff(t);
      if WellFormed(s) {
        forall i | 0 <= i < |s| ensures Paired(s, i) {
          if i >= k {
            assert Paired(t, i - k);
            PairedTail(s, k, i);
          }
        }
      } else if forall i :: 0 <= i < |s| ==> Paired(s, i) {
        assert Paired(s, 0);
        forall i | 0 <= i < |t| ensures Paired(t, i) {
          assert Paired(s, i + k) && Paired(s, k - 1);
          if i == 0 && 0xdc00 <= s[k] < 0xe000 {
            assert false;
          }
          PairedTail(s, k, i + k);
        }
      }
    }
  }

  method HasLoneSurrogate(str: Str) returns (r: bool)
    ensures r <==> !WellFormed(str)
    ensures r <==> exists i :: 0 <= i < |str| && !Paired(str, i)
  {
    WellFormedIff(str);
    hide Paired;
    var i := 0;
    assert str[0..] == str;
    while i < |str|
      invariant 0 <= i <= |str|
      invariant WellFormed(str) <==> WellFormed(str[i..])
    {
      var code := str[i];
      var tail := str[i..];
      if IsHigh(code) {
        if i + 1 >= |str| {
          return true;
        }
        var next := str[i + 1];
        assert tail[1] == next;
        if next < 0xdc00 || next > 0xdfff {
          return true;
        }
        assert tail[2..] == str[i + 2..];
        i := i + 1;
      } else if IsLow(code) {
        return true;
      } else {
        assert tail[1..] == str[i + 1..];
      }
      i := i + 1;
    }
    r := false;
  }

  // ---------------------------------------------------------------------------
  // UTF-8
  // ---------------------------------------------------------------------------

  function ScalarOfPair(high: Unit, low: Unit): (c: int)
    requires IsHigh(high) && IsLow(low)
    ensures 0x10000 <= c < 0x110000
  {
    0x10000 + (high - 0xd800) * 0x400 + (low - 0xdc00)
  }

  /** The bytes of one scalar value outside a pair; a lone surrogate becomes U+FFFD. */
  function UnitBytes(u: Unit): seq<Byte> {
    if u < 0x80 then [u]
    else if u < 0x800 then [0xc0 + u / 0x40, 0x80 + u % 0x40]
    else if IsHigh(u) || IsLow(u) then [0xef, 0xbf, 0xbd]
    else [0xe0 + u / 0x1000, 0x80 + u / 0x40 % 0x40, 0x80 + u % 0x40]
  }

  function PairBytes(high: Unit, low: Unit): seq<Byte>
    requires IsHigh(high) && IsLow(low)
  {
    var c := ScalarOfPair(high, low);
    [0xf0 + c / 0x40000, 0x80 + c / 0x1000 % 0x40, 0x80 + c / 0x40 % 0x40, 0x80 + c % 0x40]
  }

  function Utf8(s: Str): seq<Byte> {
    if s == [] then []
    else if StartsWithPair(s) then PairBytes(s[0], s[1]) + Utf8(s[2..])
    else UnitBytes(s[0]) + Utf8(s[1..])
  }

  function Utf8Length(s: Str): nat {
    |Utf8(s)|
  }

  datatype Decoding = Decoded(text: Str) | Invalid

  function Behind(units: Str, d: Decoding): Decoding {
    if d.Decoded? then Decoded(units + d.text) else Invalid
  }

  predicate Follows(b: Byte) {
    0x80 <= b < 0xc0
  }

  function TwoBytes(b0: Byte, b1: Byte, d: Decoding): Decoding {
    var c := (b0 - 0xc0) * 0x40 + b1 - 0x80;
    if Follows(b1) && 0x80 <= c < 0x800 then Behind([c], d) else Invalid
  }

  function ThreeBytes(b0: Byte, b1: Byte, b2: Byte, d: Decoding): Decoding {
    var c := (b0 - 0xe0) * 0x1000 + (b1 - 0x80) * 0x40 + b2 - 0x80;
    if Follows(b1) && Follows(b2) && 0x800 <= c < 0x10000 && !(0xd800 <= c < 0xe000) then Behind([c], d) else Invalid
  }

  function ScalarOfBytes(b0: int, b1: int, b2: int, b3: int): int {
    (b0 - 0xf0) * 0x40000 + (b1 - 0x80) * 0x1000 + (b2 - 0x80) * 0x40 + b3 - 0x80
  }

  function FourBytes(b0: Byte, b1: Byte, b2: Byte, b3: Byte, d: Decoding): Decoding {
    var c := ScalarOfBytes(b0, b1, b2, b3);
    if Follows(b1) && Follows(b2) && Follows(b3) && 0x10000 <= c < 0x110000
    then Behind([0xd800 + (c - 0x10000) / 0x400, 0xdc00 + (c - 0x10000) % 0x400], d) else Invalid
  }

  /** Decodes UTF-8 as section 3 of RFC 3629 defines it: shortest forms only, and no surrogates. */
  function DecodeUtf8(bytes: seq<Byte>): Decoding {
    if bytes == [] then Decoded([])
    else if bytes[0] < 0x80 then Behind([bytes[0]], DecodeUtf8(bytes[1..]))
    else if bytes[0] < 0xe0 && |bytes| >= 2 then TwoBytes(bytes[0], bytes[1], DecodeUtf8(bytes[2..]))
    else if 0xe0 <= bytes[0] < 0xf0 && |bytes| >= 3 then ThreeBytes(bytes[0], bytes[1], bytes[2], DecodeUtf8(bytes[3..]))
    else if 0xf0 <= bytes[0] && |bytes| >= 4 then FourBytes(bytes[0], bytes[1], bytes[2], bytes[3], DecodeUtf8(bytes[4..]))
    else Invalid
  }

  /** The text with U+FFFD in place of every lone surrogate. */
  function Replaced(s: Str): Str {
    if s == [] then []
    else if StartsWithPair(s) then [s[0], s[1]] + Replaced(s[2..])
    else [if 0xd800 <= s[0] < 0xe000 then 0xfffd else s[0]] + Replaced(s[1..])
  }

  lemma ScalarRead(c: int)
    requires 0x10000 <= c < 0x110000
    ensures ScalarOfBytes(0xf0 + c / 0x40000, 0x80 + c / 0x1000 % 0x40, 0x80 + c / 0x40 % 0x40, 0x80 + c % 0x40) == c
  {
    assert c / 0x1000 == c / 0x40000 * 0x40 + c / 0x1000 % 0x40;
    assert c / 0x40 == c / 0x1000 * 0x40 + c / 0x40 % 0x40;
  }

  lemma PairBytesRead(high: Unit, low: Unit, rest: seq<Byte>)
    requires IsHigh(high) && IsLow(low)
    ensures DecodeUtf8(PairBytes(high, low) + rest) == Behind([high, low], DecodeUtf8(rest))
  {
    var bytes := PairBytes(high, low) + rest;
    var c := ScalarOfPair(high, low);
    ScalarRead(c);
    assert bytes[..4] == PairBytes(high, low) && bytes[4..] == rest;
    assert bytes[0] == 0xf0 + c / 0x40000 >= 0xf0;
    assert ScalarOfBytes(bytes[0], bytes[1], bytes[2], bytes[3]) == c;
    assert (c - 0x10000) / 0x400 == high - 0xd800 && (c - 0x10000) % 0x400 == low - 0xdc00;
  }

  lemma UnitBytesRead(u: Unit, rest: seq<Byte>)
    ensures DecodeUtf8(UnitBytes(u) + rest) == Behind([if 0xd800 <= u < 0xe000 then 0xfffd else u], DecodeUtf8(rest))
  {
    var bytes := UnitBytes(u) + rest;
    hide Utf8;
    assert bytes[|UnitBytes(u)|..] == rest;
    assert bytes[..|UnitBytes(u)|] == UnitBytes(u);
    assert u == u / 0x1000 * 0x1000 + u / 0x40 % 0x40 * 0x40 + u % 0x40;
  }

  /** TextEncoder: valid UTF-8 for any text, with every lone surrogate replaced. */
  lemma {:induction false} DecodeUtf8Encoded(s: Str)
    ensures DecodeUtf8(Utf8(s)) == Decoded(Replaced(s))
  {
    if s != [] {
      hide UnitBytes, PairBytes;
      if StartsWithPair(s) {
        PairBytesRead(s[0], s[1], Utf8(s[2..]));
        DecodeUtf8Encoded(s[2..]);
      } else {
        UnitBytesRead(s[0], Utf8(s[1..]));
        DecodeUtf8Encoded(s[1..]);
      }
    }
  }

  /** Text survives encoding iff it is well formed. */
  lemma {:induction false} SurvivesIff(s: Str)
    ensures Replaced(s) == s <==> WellFormed(s)
  {
    if s != [] {
      if StartsWithPair(s) {
        SurvivesIff(s[2..]);
        assert s == [s[0], s[1]] + s[2..];
        assert Replaced(s)[2..] == Replaced(s[2..]);
      } else {
        SurvivesIff(s[1..]);
        assert s == [s[0]] + s[1..];
        assert Replaced(s)[1..] == Replaced(s[1..]);
      }
    }
  }

  /** Distinct well-formed texts have distinct bytes. */
  lemma Utf8Injective(s: Str, t: Str)
    requires WellFormed(s) && WellFormed(t) && Utf8(s) == Utf8(t)
    ensures s == t
  {
    hide Utf8, DecodeUtf8, Replaced, WellFormed;
    DecodeUtf8Encoded(s);
    DecodeUtf8Encoded(t);
    SurvivesIff(s);
    SurvivesIff(t);
  }

  lemma {:induction false} WellFormedConcat(s: Str, t: Str)
    requires WellFormed(s) && WellFormed(t)
    ensures WellFormed(s + t)
  {
    if s == [] {
      assert s + t == t;
    } else if StartsWithPair(s) {
      assert (s + t)[2..] == s[2..] + t;
      WellFormedConcat(s[2..], t);
    } else {
      assert (s + t)[1..] == s[1..] + t;
      WellFormedConcat(s[1..], t);
    }
  }
}
