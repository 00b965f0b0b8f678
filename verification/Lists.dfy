/** Concatenated maps over lists, and when their stable sort forgets the order of the list. */
module Lists {
  import opened Text

  /** Array.prototype.flatMap. */
  function FlatMap<A, B>(xs: seq<A>, f: A -> seq<B>): seq<B> {
    if xs == [] then [] else FlatMap(xs[..|xs| - 1], f) + f(xs[|xs| - 1])
  }

  lemma FlatMapSnoc<A, B>(xs: seq<A>, x: A, f: A -> seq<B>)
    ensures FlatMap(xs + [x], f) == FlatMap(xs, f) + f(x)
  {
    assert (xs + [x])[..|xs|] == xs;
  }

  lemma {:induction false} FlatMapConcat<A, B>(xs: seq<A>, ys: seq<A>, f: A -> seq<B>)
    ensures FlatMap(xs + ys, f) == FlatMap(xs, f) + FlatMap(ys, f)
  {
    if ys == [] {
      assert xs + ys == xs;
    } else {
      var front, y := ys[..|ys| - 1], ys[|ys| - 1];
      assert xs + ys == (xs + front) + [y];
      FlatMapSnoc(xs + front, y, f);
      FlatMapConcat(xs, front, f);
      Regroup(FlatMap(xs, f), FlatMap(front, f), f(y));
    }
  }

  lemma {:induction false} FlatMapSame<A, B>(xs: seq<A>, f: A -> seq<B>, g: A -> seq<B>)
    requires forall x :: x in xs ==> f(x) == g(x)
    ensures FlatMap(xs, f) == FlatMap(xs, g)
  {
    if xs != [] {
      FlatMapSame(xs[..|xs| - 1], f, g);
    }
  }

  lemma {:induction false} FlatMapIn<A, B>(xs: seq<A>, f: A -> seq<B>, u: B)
    ensures u in FlatMap(xs, f) <==> exists x :: x in xs && u in f(x)
  {
    if xs != [] {
      var n := |xs| - 1;
      FlatMapIn(xs[..n], f, u);
      assert xs == xs[..n] + [xs[n]];
      assert u in FlatMap(xs, f) <==> u in FlatMap(xs[..n], f) || u in f(xs[n]);
    }
  }

  lemma Remove<A>(ys: seq<A>, j: nat) returns (rest: seq<A>)
    requires j < |ys|
    ensures rest == ys[..j] + ys[j + 1..]
    ensures multiset(ys) == multiset(rest) + multiset{ys[j]}
    ensures ys == ys[..j] + [ys[j]] + ys[j + 1..]
  {
    rest := ys[..j] + ys[j + 1..];
    assert ys == ys[..j] + [ys[j]] + ys[j + 1..];
  }

  /** Rearranging the list rearranges the result. */
  lemma {:induction false} FlatMapPermute<A, B>(xs: seq<A>, ys: seq<A>, f: A -> seq<B>)
    requires multiset(xs) == multiset(ys)
    ensures multiset(FlatMap(xs, f)) == multiset(FlatMap(ys, f))
  {
    assert |xs| == |multiset(xs)| == |multiset(ys)| == |ys|;
    if xs != [] {
      var front, x := xs[..|xs| - 1], xs[|xs| - 1];
      assert xs == front + [x];
      var j := InMultiset(x, xs, ys);
      var rest := Remove(ys, j);
      assert multiset(front) == multiset(xs) - multiset{x} == multiset(rest);
      FlatMapPermute(front, rest, f);
      FlatMapConcat(ys[..j], ys[j + 1..], f);
      FlatMapConcat(ys[..j] + [x], ys[j + 1..], f);
      FlatMapSnoc(ys[..j], x, f);
    }
  }

  // ---------------------------------------------------------------------------
  // Keys that name the list element they come from
  // ---------------------------------------------------------------------------

  /** The part of a key before the first separator. */
  function Before(s: Str, separator: Unit): Str {
    if s == [] || s[0] == separator then [] else [s[0]] + Before(s[1..], separator)
  }

  lemma {:induction false} BeforeSeparator(a: Str, separator: Unit, b: Str)
    requires separator !in a
    ensures Before(a + [separator] + b, separator) == a
  {
    var s := a + [separator] + b;
    if a != [] {
      assert s[1..] == a[1..] + [separator] + b;
      BeforeSeparator(a[1..], separator, b);
    }
  }

  ghost predicate Owned<A, B>(xs: seq<A>, f: A -> seq<B>, id: A -> Str, key: B -> Str, separator: Unit) {
    forall x, u :: x in xs && u in f(x) ==> Before(key(u), separator) == id(x)
  }

  lemma {:induction false} WithForeignKey<T>(xs: seq<T>, key: T -> Str, separator: Unit, owner: Str, k: Str)
    requires forall u :: u in xs ==> Before(key(u), separator) == owner
    requires Before(k, separator) != owner
    ensures WithKey(xs, key, k) == []
  {
    if xs != [] {
      WithForeignKey(xs[1..], key, separator, owner, k);
    }
  }

  /** All items with one key come from one list element. */
  lemma {:induction false} WithOwnedKey<A, B>(xs: seq<A>, f: A -> seq<B>, id: A -> Str, key: B -> Str, separator: Unit, k: Str)
    requires DistinctKeys(xs, id) && Owned(xs, f, id, key, separator)
    ensures forall x :: x in xs && id(x) == Before(k, separator) ==> WithKey(FlatMap(xs, f), key, k) == WithKey(f(x), key, k)
    ensures (forall x :: x in xs ==> id(x) != Before(k, separator)) ==> WithKey(FlatMap(xs, f), key, k) == []
  {
    if xs != [] {
      var n := |xs| - 1;
      var front, last := xs[..n], xs[n];
      assert xs == front + [last];
      WithOwnedKey(front, f, id, key, separator, k);
      WithKeyConcat(FlatMap(front, f), f(last), key, k);
      if id(last) == Before(k, separator) {
        assert forall x :: x in front ==> id(x) != id(last);
      } else {
        WithForeignKey(f(last), key, separator, id(last), k);
      }
    }
  }

  /** Sorted by such keys, the result does not depend on the order of the list. */
  lemma SortForgetsOrder<A, B>(xs: seq<A>, ys: seq<A>, f: A -> seq<B>, id: A -> Str, key: B -> Str, separator: Unit)
    requires multiset(xs) == multiset(ys)
    requires DistinctKeys(xs, id) && DistinctKeys(ys, id) && Owned(xs, f, id, key, separator)
    ensures SortBy(FlatMap(xs, f), key) == SortBy(FlatMap(ys, f), key)
  {
    SameElements(xs, ys);
    var a, b := FlatMap(xs, f), FlatMap(ys, f);
    forall k
      ensures WithKey(SortBy(a, key), key, k) == WithKey(SortBy(b, key), key, k)
    {
      SortBySorts(a, key);
      SortBySorts(b, key);
      WithOwnedKey(xs, f, id, key, separator, k);
      WithOwnedKey(ys, f, id, key, separator, k);
      if x :| x in xs && id(x) == Before(k, separator) {
        assert x in ys;
      }
    }
    SortBySorts(a, key);
    SortBySorts(b, key);
    StableSortUnique(SortBy(a, key), SortBy(b, key), key);
  }

  lemma SameElements<A>(xs: seq<A>, ys: seq<A>)
    requires multiset(xs) == multiset(ys)
    ensures |xs| == |ys|
    ensures forall x :: x in xs <==> x in ys
  {
    assert |xs| == |multiset(xs)| == |multiset(ys)| == |ys|;
    assert forall x :: x in xs <==> x in multiset(xs);
    assert forall x :: x in ys <==> x in multiset(ys);
  }

  lemma {:induction false} PermuteKeepsDistinct<A>(xs: seq<A>, ys: seq<A>, id: A -> Str)
    requires multiset(xs) == multiset(ys) && DistinctKeys(xs, id)
    ensures DistinctKeys(ys, id)
  {
    forall i, j | 0 <= i < j < |ys|
      ensures id(ys[i]) != id(ys[j])
    {
      if id(ys[i]) == id(ys[j]) {
        SameElements(xs, ys);
        assert ys[i] in ys && ys[j] in ys;
        var a :| 0 <= a < |xs| && xs[a] == ys[i];
        var b :| 0 <= b < |xs| && xs[b] == ys[j];
        assert a == b;
        OccursTwice(ys, i, j);
        OccursOnce(xs, id, a);
      }
    }
  }

  lemma DistinctSnoc<A>(front: seq<A>, last: A, key: A -> Str)
    ensures DistinctKeys(front + [last], key) <==> DistinctKeys(front, key) && forall x :: x in front ==> key(x) != key(last)
  {
    var xs := front + [last];
    assert forall i :: 0 <= i < |front| ==> xs[i] == front[i];
    if DistinctKeys(xs, key) {
      forall i, j | 0 <= i < j < |front| ensures key(front[i]) != key(front[j]) {
        assert key(xs[i]) != key(xs[j]);
      }
      forall x | x in front ensures key(x) != key(last) {
        var i :| 0 <= i < |front| && front[i] == x;
        assert key(xs[i]) != key(xs[|front|]);
      }
    }
  }

  lemma OccursTwice<A>(ys: seq<A>, i: nat, j: nat)
    requires i < j < |ys| && ys[i] == ys[j]
    ensures multiset(ys)[ys[i]] >= 2
  {
    assert ys == ys[..j] + [ys[j]] + ys[j + 1..];
    assert ys[i] in ys[..j];
    assert ys[i] in multiset(ys[..j]);
  }

  lemma OccursOnce<A>(xs: seq<A>, id: A -> Str, a: nat)
    requires DistinctKeys(xs, id) && a < |xs|
    ensures multiset(xs)[xs[a]] == 1
  {
    assert xs == xs[..a] + [xs[a]] + xs[a + 1..];
    assert xs[a] !in xs[..a] && xs[a] !in xs[a + 1..];
    assert xs[a] !in multiset(xs[..a]) && xs[a] !in multiset(xs[a + 1..]);
  }
}
