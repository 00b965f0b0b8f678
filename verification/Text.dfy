/**
  JavaScript strings as sequences of 16-bit code units, ordered the way the repository
  orders keys and identifiers: lexicographically by code unit.
  Models compareJcsKeys in src/fingerprint/canonical-json.ts; Array.prototype.sort without
  a comparator and the `<` operator on strings use the same order.
 */
module Text {
  /** One UTF-16 code unit. */
  type Unit = u: int | 0 <= u < 0x10000

  type Str = seq<Unit>

  /** Strict lexicographic order by code unit; a proper prefix comes first. */
  predicate Less(a: Str, b: Str) {
    b != [] && (a == [] || a[0] < b[0] || (a[0] == b[0] && Less(a[1..], b[1..])))
  }

  predicate AtMost(a: Str, b: Str) {
    a == b || Less(a, b)
  }

  lemma {:induction false} LessIrreflexive(a: Str)
    ensures !Less(a, a)
  {
    if a != [] {
      LessIrreflexive(a[1..]);
    }
  }

  lemma {:induction false} LessTransitive(a: Str, b: Str, c: Str)
    requires Less(a, b) && Less(b, c)
    ensures Less(a, c)
  {
    if a != [] && a[0] == b[0] && b[0] == c[0] {
      LessTransitive(a[1..], b[1..], c[1..]);
    }
  }

  lemma {:induction false} LessTotal(a: Str, b: Str)
    ensures Less(a, b) || a == b || Less(b, a)
  {
    if a != [] && b != [] && a[0] == b[0] {
      LessTotal(a[1..], b[1..]);
      assert a == [a[0]] + a[1..] && b == [b[0]] + b[1..];
    }
  }

  lemma LessAsymmetric(a: Str, b: Str)
    requires Less(a, b)
    ensures !Less(b, a) && a != b
  {
    if Less(b, a) {
      LessTransitive(a, b, a);
    }
    LessIrreflexive(a);
  }

  lemma AtMostTransitive(a: Str, b: Str, c: Str)
    requires AtMost(a, b) && AtMost(b, c)
    ensures AtMost(a, c)
  {
    if a != b && b != c {
      LessTransitive(a, b, c);
    }
  }

  /** The first unit that differs decides, and a proper prefix comes first. */
  ghost predicate DiffersAt(a: Str, b: Str, k: int) {
    0 <= k <= |a| && k < |b| && a[..k] == b[..k] && (k == |a| || a[k] < b[k])
  }

  lemma DifferLater(a: Str, b: Str)
    ensures forall k :: DiffersAt(a, b, k) && k > 0 ==> a != [] && b != [] && a[0] == b[0]
  {
    forall k | DiffersAt(a, b, k) && k > 0 ensures a != [] && b != [] && a[0] == b[0] {
      assert a[..k][0] == b[..k][0];
    }
  }

  lemma {:induction false} LessIff(a: Str, b: Str)
    ensures Less(a, b) <==> exists k :: DiffersAt(a, b, k)
  {
    if a == [] || b == [] || a[0] != b[0] {
      assert DiffersAt(a, b, 0) <==> b != [] && (a == [] || a[0] < b[0]);
      DifferLater(a, b);
    } else {
      var s, t := a[1..], b[1..];
      LessIff(s, t);
      if k :| DiffersAt(s, t, k) {
        assert a[..k + 1] == [a[0]] + s[..k] && b[..k + 1] == [b[0]] + t[..k];
        assert DiffersAt(a, b, k + 1);
      }
      if k :| DiffersAt(a, b, k) {
        assert k > 0;
        assert s[..k - 1] == a[..k][1..] && t[..k - 1] == b[..k][1..];
        assert DiffersAt(s, t, k - 1);
      }
    }
  }

  /** The order only looks past a common prefix. */
  lemma {:induction false} LessPastPrefix(a: Str, b: Str, k: nat)
    requires k <= |a| && k <= |b| && a[..k] == b[..k]
    ensures Less(a, b) <==> Less(a[k..], b[k..])
  {
    if k == 0 {
      assert a[0..] == a && b[0..] == b;
    } else {
      assert a[0] == a[..k][0] == b[..k][0] == b[0];
      assert a[1..][..k - 1] == a[..k][1..] == b[..k][1..] == b[1..][..k - 1];
      LessPastPrefix(a[1..], b[1..], k - 1);
      assert a[1..][k - 1..] == a[k..] && b[1..][k - 1..] == b[k..];
    }
  }

  /** The comparator handed to Array.prototype.sort: its sign decides Less. */
  method CompareJcsKeys(a: Str, b: Str) returns (r: int)
    ensures r < 0 <==> Less(a, b)
    ensures r < 0 <==> exists k :: DiffersAt(a, b, k)
    ensures r == 0 <==> a == b
    ensures r > 0 <==> Less(b, a)
  {
    LessIff(a, b);
    hide DiffersAt;
    var len := if |a| < |b| then |a| else |b|;
    var i := 0;
    while i < len
      invariant 0 <= i <= len
      invariant a[..i] == b[..i]
    {
      var ca: int, cb: int := a[i], b[i];
      if ca != cb {
        LessPastPrefix(a, b, i);
        LessPastPrefix(b, a, i);
        return ca - cb;
      }
      i := i + 1;
    }
    LessPastPrefix(a, b, len);
    LessPastPrefix(b, a, len);
    assert a == a[..len] + a[len..] && b == b[..len] + b[len..];
    r := |a| - |b|;
  }

  // ---------------------------------------------------------------------------
  // Stable sorting by a string key
  // ---------------------------------------------------------------------------

  function Insert<T>(x: T, xs: seq<T>, key: T -> Str): (r: seq<T>)
    ensures multiset(r) == multiset{x} + multiset(xs)
  {
    if xs == [] then [x]
    else if Less(key(xs[0]), key(x)) then
      assert xs == [xs[0]] + xs[1..];
      [xs[0]] + Insert(x, xs[1..], key)
    else [x] + xs
  }

  /** What Array.prototype.sort computes: the stable rearrangement in key order. */
  function SortBy<T>(xs: seq<T>, key: T -> Str): (r: seq<T>)
    ensures multiset(r) == multiset(xs)
    ensures |r| == |xs|
  {
    if xs == [] then []
    else
      var r := Insert(xs[0], SortBy(xs[1..], key), key);
      assert xs == [xs[0]] + xs[1..];
      assert |multiset(r)| == |multiset(xs)|;
      r
  }

  ghost predicate SortedBy<T>(xs: seq<T>, key: T -> Str) {
    forall i, j :: 0 <= i < j < |xs| ==> AtMost(key(xs[i]), key(xs[j]))
  }

  /** The items carrying key k, in their original relative order. */
  ghost function WithKey<T>(xs: seq<T>, key: T -> Str, k: Str): seq<T> {
    if xs == [] then []
    else (if key(xs[0]) == k then [xs[0]] else []) + WithKey(xs[1..], key, k)
  }

  lemma Regroup<T>(a: seq<T>, b: seq<T>, c: seq<T>)
    ensures (a + b) + c == a + (b + c)
  {
  }

  lemma RegroupFive<T>(a: seq<T>, b: seq<T>, c: seq<T>, d: seq<T>, e: seq<T>)
    ensures (a + (b + c)) + d + e == a + (b + (c + d + e))
  {
  }

  lemma {:induction false} WithKeyConcat<T>(a: seq<T>, b: seq<T>, key: T -> Str, k: Str)
    ensures WithKey(a + b, key, k) == WithKey(a, key, k) + WithKey(b, key, k)
  {
    if a == [] {
      assert a + b == b;
    } else {
      var first := if key(a[0]) == k then [a[0]] else [];
      assert (a + b)[0] == a[0] && (a + b)[1..] == a[1..] + b;
      WithKeyConcat(a[1..], b, key, k);
      Regroup(first, WithKey(a[1..], key, k), WithKey(b, key, k));
    }
  }

  lemma {:induction false} InsertSorted<T>(x: T, xs: seq<T>, key: T -> Str)
    requires SortedBy(xs, key)
    ensures SortedBy(Insert(x, xs, key), key)
  {
    if xs != [] {
      if Less(key(xs[0]), key(x)) {
        var tail := Insert(x, xs[1..], key);
        InsertSorted(x, xs[1..], key);
        forall j | 0 <= j < |tail|
          ensures AtMost(key(xs[0]), key(tail[j]))
        {
          assert tail[j] in multiset(tail);
          assert tail[j] == x || tail[j] in xs[1..];
        }
      } else {
        LessTotal(key(x), key(xs[0]));
        forall j | 0 <= j < |xs|
          ensures AtMost(key(x), key(xs[j]))
        {
          AtMostTransitive(key(x), key(xs[0]), key(xs[j]));
        }
      }
    }
  }

  lemma {:induction false} InsertStable<T>(x: T, xs: seq<T>, key: T -> Str, k: Str)
    ensures WithKey(Insert(x, xs, key), key, k) == WithKey([x] + xs, key, k)
  {
    assert ([x] + xs)[0] == x && ([x] + xs)[1..] == xs;
    if xs != [] && Less(key(xs[0]), key(x)) {
      InsertStable(x, xs[1..], key, k);
      assert ([x] + xs[1..])[0] == x && ([x] + xs[1..])[1..] == xs[1..];
      LessIrreflexive(key(x));
      var wx := if key(x) == k then [x] else [];
      var w0 := if key(xs[0]) == k then [xs[0]] else [];
      var rest := WithKey(xs[1..], key, k);
      assert w0 + (wx + rest) == wx + (w0 + rest);
    }
  }

  lemma {:induction false} SortBySorts<T>(xs: seq<T>, key: T -> Str)
    ensures SortedBy(SortBy(xs, key), key)
    ensures forall k :: WithKey(SortBy(xs, key), key, k) == WithKey(xs, key, k)
  {
    if xs != [] {
      var s := SortBy(xs[1..], key);
      SortBySorts(xs[1..], key);
      InsertSorted(xs[0], s, key);
      forall k
        ensures WithKey(SortBy(xs, key), key, k) == WithKey(xs, key, k)
      {
        InsertStable(xs[0], s, key, k);
        assert ([xs[0]] + s)[1..] == s;
      }
    }
  }

  /** A stable sort is unique: key order plus the relative order within each key fix the result. */
  lemma {:induction false} StableSortUnique<T>(a: seq<T>, b: seq<T>, key: T -> Str)
    requires SortedBy(a, key) && SortedBy(b, key)
    requires forall k :: WithKey(a, key, k) == WithKey(b, key, k)
    ensures a == b
  {
    assert b != [] ==> WithKey(a, key, key(b[0])) == WithKey(b, key, key(b[0])) != [];
    assert a != [] ==> WithKey(a, key, key(a[0])) == WithKey(b, key, key(a[0])) != [];
    if a != [] {
      FirstKeyIsLeast(a, b, key);
      FirstKeyIsLeast(b, a, key);
      if key(a[0]) != key(b[0]) {
        LessAsymmetric(key(a[0]), key(b[0]));
      }
      assert WithKey(a, key, key(a[0])) == WithKey(b, key, key(a[0]));
      assert a[0] == WithKey(a, key, key(a[0]))[0] == b[0];
      forall k
        ensures WithKey(a[1..], key, k) == WithKey(b[1..], key, k)
      {
        var first := if key(a[0]) == k then [a[0]] else [];
        assert first + WithKey(a[1..], key, k) == WithKey(a, key, k);
        assert first + WithKey(b[1..], key, k) == WithKey(b, key, k);
        assert WithKey(a[1..], key, k) == WithKey(a, key, k)[|first|..];
        assert WithKey(b[1..], key, k) == WithKey(b, key, k)[|first|..];
      }
      StableSortUnique(a[1..], b[1..], key);
      assert a == [a[0]] + a[1..] && b == [b[0]] + b[1..];
    }
  }

  lemma FirstKeyIsLeast<T>(a: seq<T>, b: seq<T>, key: T -> Str)
    requires a != [] && b != [] && SortedBy(a, key)
    requires WithKey(a, key, key(b[0])) == WithKey(b, key, key(b[0]))
    ensures AtMost(key(a[0]), key(b[0]))
  {
    assert WithKey(b, key, key(b[0])) != [];
    var i := KeyOccurs(a, key, key(b[0]));
  }

  lemma {:induction false} KeyOccurs<T>(xs: seq<T>, key: T -> Str, k: Str) returns (i: nat)
    requires WithKey(xs, key, k) != []
    ensures i < |xs| && key(xs[i]) == k
  {
    if key(xs[0]) == k {
      i := 0;
    } else {
      i := KeyOccurs(xs[1..], key, k);
      i := i + 1;
    }
  }

  function Map<A, B>(xs: seq<A>, f: A -> B): (ys: seq<B>)
    ensures |ys| == |xs|
    ensures forall i :: 0 <= i < |xs| ==> ys[i] == f(xs[i])
  {
    seq(|xs|, i requires 0 <= i < |xs| => f(xs[i]))
  }

  lemma MapCons<A, B>(x: A, xs: seq<A>, f: A -> B)
    ensures Map([x] + xs, f) == [f(x)] + Map(xs, f)
  {
  }

  /** Sorting commutes with a change of representation that keeps the keys. */
  lemma {:induction false} SortMap<A, B>(xs: seq<A>, f: A -> B, keyA: A -> Str, keyB: B -> Str)
    requires forall x {:trigger f(x)} :: keyB(f(x)) == keyA(x)
    ensures Map(SortBy(xs, keyA), f) == SortBy(Map(xs, f), keyB)
  {
    if xs != [] {
      SortMap(xs[1..], f, keyA, keyB);
      InsertMap(xs[0], SortBy(xs[1..], keyA), f, keyA, keyB);
      assert Map(xs, f)[1..] == Map(xs[1..], f);
    }
  }

  lemma {:induction false} InsertMap<A, B>(x: A, xs: seq<A>, f: A -> B, keyA: A -> Str, keyB: B -> Str)
    requires forall y {:trigger f(y)} :: keyB(f(y)) == keyA(y)
    ensures Map(Insert(x, xs, keyA), f) == Insert(f(x), Map(xs, f), keyB)
  {
    hide Less;
    MapCons(x, xs, f);
    if xs != [] {
      assert Map(xs, f)[1..] == Map(xs[1..], f);
      InsertMap(x, xs[1..], f, keyA, keyB);
      MapCons(xs[0], Insert(x, xs[1..], keyA), f);
    }
  }

  ghost predicate DistinctKeys<T>(xs: seq<T>, key: T -> Str) {
    forall i, j :: 0 <= i < j < |xs| ==> key(xs[i]) != key(xs[j])
  }

  ghost predicate NoDuplicates<T>(xs: seq<T>) {
    forall i, j :: 0 <= i < j < |xs| ==> xs[i] != xs[j]
  }

  lemma InMultiset<T>(x: T, xs: seq<T>, ys: seq<T>) returns (j: nat)
    requires x in xs && multiset(xs) == multiset(ys)
    ensures j < |ys| && ys[j] == x
  {
    assert x in multiset(xs);
    assert x in ys;
    j :| j < |ys| && ys[j] == x;
  }

  lemma {:induction false} WithDistinctKey<T>(xs: seq<T>, key: T -> Str, i: nat)
    requires DistinctKeys(xs, key) && i < |xs|
    ensures WithKey(xs, key, key(xs[i])) == [xs[i]]
  {
    if i == 0 {
      WithAbsentKey(xs[1..], key, key(xs[0]));
    } else {
      assert xs[1..][i - 1] == xs[i];
      WithDistinctKey(xs[1..], key, i - 1);
    }
  }

  lemma {:induction false} WithAbsentKey<T>(xs: seq<T>, key: T -> Str, k: Str)
    requires forall i :: 0 <= i < |xs| ==> key(xs[i]) != k
    ensures WithKey(xs, key, k) == []
  {
    if xs != [] {
      WithAbsentKey(xs[1..], key, k);
    }
  }

  /** Two lists of distinctly keyed items that sort alike hold the same items, and conversely. */
  lemma SortEqualIff<T>(xs: seq<T>, ys: seq<T>, key: T -> Str)
    requires DistinctKeys(xs, key) && DistinctKeys(ys, key) && |xs| == |ys|
    ensures SortBy(xs, key) == SortBy(ys, key) <==> (forall i :: 0 <= i < |xs| ==> xs[i] in ys)
  {
    if SortBy(xs, key) == SortBy(ys, key) {
      forall i | 0 <= i < |xs|
        ensures xs[i] in ys
      {
        var j := InMultiset(xs[i], xs, ys);
      }
    }
    if forall i :: 0 <= i < |xs| ==> xs[i] in ys {
      SortBySorts(xs, key);
      SortBySorts(ys, key);
      DistinctInclusion(xs, ys, key);
      forall k
        ensures WithKey(xs, key, k) == WithKey(ys, key, k)
      {
        if WithKey(xs, key, k) != [] {
          var i := KeyOccurs(xs, key, k);
          WithDistinctKey(xs, key, i);
          var j :| 0 <= j < |ys| && ys[j] == xs[i];
          WithDistinctKey(ys, key, j);
        } else if WithKey(ys, key, k) != [] {
          var j := KeyOccurs(ys, key, k);
          assert ys[j] in xs;
          var i :| 0 <= i < |xs| && xs[i] == ys[j];
          WithDistinctKey(xs, key, i);
          assert false;
        }
      }
      forall k
        ensures WithKey(SortBy(xs, key), key, k) == WithKey(SortBy(ys, key), key, k)
      {
        assert WithKey(xs, key, k) == WithKey(ys, key, k);
      }
      StableSortUnique(SortBy(xs, key), SortBy(ys, key), key);
    }
  }

  /** Distinctly keyed lists of one length: inclusion one way is inclusion both ways. */
  lemma DistinctInclusion<T>(xs: seq<T>, ys: seq<T>, key: T -> Str)
    requires DistinctKeys(xs, key) && DistinctKeys(ys, key) && |xs| == |ys|
    requires forall i :: 0 <= i < |xs| ==> xs[i] in ys
    ensures forall j :: 0 <= j < |ys| ==> ys[j] in xs
  {
    var xset, yset := set x | x in xs, set y | y in ys;
    DistinctSize(xs, key);
    DistinctSize(ys, key);
    assert xset <= yset;
    SubsetSameSize(xset, yset);
    forall j | 0 <= j < |ys|
      ensures ys[j] in xs
    {
      assert ys[j] in yset;
    }
  }

  lemma {:induction false} DistinctSize<T>(xs: seq<T>, key: T -> Str)
    requires DistinctKeys(xs, key)
    ensures |set x | x in xs| == |xs|
  {
    if xs != [] {
      DistinctSize(xs[1..], key);
      assert (set x | x in xs) == {xs[0]} + (set x | x in xs[1..]);
      assert xs[0] !in xs[1..];
    }
  }

  lemma SubsetSameSize<T>(a: set<T>, b: set<T>)
    requires a <= b && |a| == |b|
    ensures a == b
  {
    assert |b - a| == |b| - |a|;
  }

  lemma {:induction false} SortKeepsDistinct<T>(xs: seq<T>, key: T -> Str)
    requires DistinctKeys(xs, key)
    ensures DistinctKeys(SortBy(xs, key), key)
  {
    var s := SortBy(xs, key);
    SortBySorts(xs, key);
    forall i, j | 0 <= i < j < |s|
      ensures key(s[i]) != key(s[j])
    {
      if key(s[i]) == key(s[j]) {
        assert s[i] in s;
        var a := InMultiset(s[i], s, xs);
        WithDistinctKey(xs, key, a);
        WithKeyTwice(s, key, i, j);
      }
    }
  }

  lemma {:induction false} WithKeyTwice<T>(xs: seq<T>, key: T -> Str, i: nat, j: nat)
    requires i < j < |xs| && key(xs[i]) == key(xs[j])
    ensures |WithKey(xs, key, key(xs[i]))| >= 2
  {
    assert xs == xs[..j] + xs[j..];
    WithKeyConcat(xs[..j], xs[j..], key, key(xs[i]));
    WithKeyConcat(xs[..i], xs[i..j], key, key(xs[i]));
    assert xs[..j] == xs[..i] + xs[i..j];
  }
}
