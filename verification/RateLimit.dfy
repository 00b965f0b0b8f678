/** The fixed-window rate limiter of src/agent-gate/limits.ts. Times are in milliseconds. */
module RateLimit {
  datatype Bucket = Bucket(count: nat, expiresAt: int)

  datatype Limits = Limits(windowSeconds: int, maxPerWindow: nat)

  type Buckets = map<string, Bucket>

  datatype Result = Result(allowed: bool, retryAfterSeconds: int)

  function Window(limits: Limits): int {
    limits.windowSeconds * 1000
  }

  /** The bucket a call is counted in: the current one, or a new one once that has expired. */
  function BucketFor(limits: Limits, buckets: Buckets, key: string, now: int): Bucket {
    if key !in buckets || now >= buckets[key].expiresAt then Bucket(0, now + Window(limits)) else buckets[key]
  }

  function Counted(limits: Limits, buckets: Buckets, key: string, now: int): Bucket {
    var b := BucketFor(limits, buckets, key, now);
    b.(count := b.count + 1)
  }

  function Ceil(n: int): int {
    (n + 999) / 1000
  }

  function Answer(limits: Limits, b: Bucket, now: int): Result {
    if b.count > limits.maxPerWindow then
      var seconds := Ceil(b.expiresAt - now);
      Result(false, if seconds < 1 then 1 else seconds)
    else Result(true, 0)
  }

  class FixedWindowLimiter {
    const limits: Limits
    var buckets: Buckets

    constructor (limits: Limits)
      ensures this.limits == limits && buckets == map[]
    {
      this.limits := limits;
      buckets := map[];
    }

    method Check(key: string, now: int) returns (r: Result)
      modifies this
      ensures buckets == old(buckets)[key := Counted(limits, old(buckets), key, now)]
      ensures r == Answer(limits, buckets[key], now)
    {
      if key !in buckets || now >= buckets[key].expiresAt {
        buckets := buckets[key := Bucket(0, now + limits.windowSeconds * 1000)];
      }
      var bucket := buckets[key];
      bucket := bucket.(count := bucket.count + 1);
      buckets := buckets[key := bucket];
      if bucket.count > limits.maxPerWindow {
        var seconds := Ceil(bucket.expiresAt - now);
        return Result(false, if seconds < 1 then 1 else seconds);
      }
      r := Result(true, 0);
    }
  }

  /** The bucket a call leaves: a new one after expiry, with this call as its first, or one call more. */
  lemma CountedIs(limits: Limits, buckets: Buckets, key: string, now: int)
    ensures Counted(limits, buckets, key, now) ==
      if key in buckets && now < buckets[key].expiresAt then buckets[key].(count := buckets[key].count + 1)
      else Bucket(count := 1, expiresAt := now + 1000 * limits.windowSeconds)
  {
  }

  /** A denied call is told the least whole number of seconds, at least one, after which the bucket has expired. */
  lemma AnswerIs(limits: Limits, b: Bucket, now: int)
    ensures Answer(limits, b, now).allowed <==> b.count <= limits.maxPerWindow
    ensures Answer(limits, b, now).allowed ==> Answer(limits, b, now).retryAfterSeconds == 0
    ensures !Answer(limits, b, now).allowed ==>
      var n := Answer(limits, b, now).retryAfterSeconds;
      && n >= 1 && now + 1000 * n >= b.expiresAt
      && forall m :: m >= 1 && now + 1000 * m >= b.expiresAt ==> n <= m
  {
  }

  // ---------------------------------------------------------------------------
  // Traces
  // ---------------------------------------------------------------------------

  datatype Call = Call(key: string, now: int)

  function After(limits: Limits, calls: seq<Call>): Buckets {
    if calls == [] then map[]
    else
      var c := calls[|calls| - 1];
      var before := After(limits, calls[..|calls| - 1]);
      before[c.key := Counted(limits, before, c.key, c.now)]
  }

  /** What the last call of a trace is answered. */
  function LastAnswer(limits: Limits, calls: seq<Call>): Result
    requires calls != []
  {
    var c := calls[|calls| - 1];
    Answer(limits, Counted(limits, After(limits, calls[..|calls| - 1]), c.key, c.now), c.now)
  }

  ghost predicate Monotone(calls: seq<Call>) {
    forall i, j :: 0 <= i < j < |calls| ==> calls[i].now <= calls[j].now
  }

  /** The calls for key allowed at times in [lo, hi). */
  function AllowedIn(limits: Limits, calls: seq<Call>, key: string, lo: int, hi: int): nat {
    if calls == [] then 0
    else
      var c := calls[|calls| - 1];
      AllowedIn(limits, calls[..|calls| - 1], key, lo, hi)
      + (if c.key == key && lo <= c.now < hi && LastAnswer(limits, calls).allowed then 1 else 0)
  }

  /** The times at which a bucket for key was opened. */
  function Openings(limits: Limits, calls: seq<Call>, key: string): set<int> {
    if calls == [] then {}
    else
      var c := calls[|calls| - 1];
      var before := After(limits, calls[..|calls| - 1]);
      Openings(limits, calls[..|calls| - 1], key)
      + (if c.key == key && (key !in before || c.now >= before[key].expiresAt) then {c.now} else {})
  }

  function Min(a: int, b: int): int {
    if a < b then a else b
  }

  /** The calls for key allowed in the span of one window that begins at s. */
  function InSpan(limits: Limits, calls: seq<Call>, key: string, s: int): nat {
    AllowedIn(limits, calls, key, s, s + Window(limits))
  }

  lemma InSpanSnoc(limits: Limits, calls: seq<Call>, c: Call, key: string, s: int)
    ensures InSpan(limits, calls + [c], key, s) == InSpan(limits, calls, key, s)
      + (if c.key == key && s <= c.now < s + Window(limits) && Answer(limits, Counted(limits, After(limits, calls), c.key, c.now), c.now).allowed
         then 1 else 0)
  {
    AllowedSnoc(limits, calls, c, key, s, s + Window(limits));
  }

  /** No call for the key has been made. */
  ghost predicate Untried(limits: Limits, calls: seq<Call>, key: string) {
    && (forall s :: InSpan(limits, calls, key, s) == 0)
    && Openings(limits, calls, key) == {}
  }

  /**
    What a trace keeps for one key whose current bucket opened at start: spans that begin with the
    bucket see its own calls only, and later ones not even the first; spans that begin within one
    window before it see also the previous bucket, without that bucket's first call.
   */
  ghost predicate Bounded(limits: Limits, calls: seq<Call>, key: string) {
    var buckets := After(limits, calls);
    var w, max := Window(limits), limits.maxPerWindow;
    if key !in buckets then Untried(limits, calls, key)
    else
      var b := buckets[key];
      var start := b.expiresAt - w;
      && b.count >= 1
      && (forall s :: BoundAt(InSpan(limits, calls, key, s), b, s, w, max))
      && (forall o :: o in Openings(limits, calls, key) ==> InSpan(limits, calls, key, o) <= max && (o == start || o + w <= start))
      && (exists i :: 0 <= i < |calls| && calls[i].now == start)
  }

  predicate BoundAt(allowed: int, b: Bucket, s: int, w: int, max: int) {
    var start := b.expiresAt - w;
    && (s >= b.expiresAt ==> allowed == 0)
    && (s == start ==> allowed <= Min(b.count, max))
    && (s > start ==> allowed <= Min(b.count, max) - 1)
    && (start - w < s < start ==> allowed <= max - 1 + Min(b.count, max))
    && allowed <= 2 * max - 1
  }

  lemma AllowedSnoc(limits: Limits, calls: seq<Call>, c: Call, key: string, lo: int, hi: int)
    ensures AllowedIn(limits, calls + [c], key, lo, hi) == AllowedIn(limits, calls, key, lo, hi)
      + (if c.key == key && lo <= c.now < hi && Answer(limits, Counted(limits, After(limits, calls), c.key, c.now), c.now).allowed then 1 else 0)
    ensures After(limits, calls + [c]) == After(limits, calls)[c.key := Counted(limits, After(limits, calls), c.key, c.now)]
    ensures Openings(limits, calls + [c], key) == Openings(limits, calls, key)
      + (if c.key == key && (key !in After(limits, calls) || c.now >= After(limits, calls)[key].expiresAt) then {c.now} else {})
  {
    assert (calls + [c])[..|calls|] == calls;
  }

  lemma {:induction false} AlwaysBounded(limits: Limits, calls: seq<Call>, key: string)
    requires Monotone(calls) && limits.windowSeconds > 0 && limits.maxPerWindow >= 1
    ensures Bounded(limits, calls, key)
  {
    if calls == [] {
      assert Openings(limits, calls, key) == {};
      forall s ensures InSpan(limits, calls, key, s) == 0 {
      }
    } else {
      var n := |calls| - 1;
      var front, c := calls[..n], calls[n];
      assert calls == front + [c];
      AlwaysBounded(limits, front, key);
      forall i | 0 <= i < n ensures front[i].now <= c.now {
        assert calls[i].now <= calls[n].now;
      }
      if c.key == key {
        OwnCallBounded(limits, front, c);
      } else {
        OtherCallBounded(limits, front, c, key);
      }
    }
  }

  lemma OtherCallBounded(limits: Limits, calls: seq<Call>, c: Call, key: string)
    requires Bounded(limits, calls, key) && c.key != key
    ensures Bounded(limits, calls + [c], key)
  {
    var w := Window(limits);
    AllowedSnoc(limits, calls, c, key, 0, 0);
    forall s ensures InSpan(limits, calls + [c], key, s) == InSpan(limits, calls, key, s) {
      InSpanSnoc(limits, calls, c, key, s);
    }
    hide InSpan, AllowedIn, Openings, After, Counted, BoundAt;
    var more := calls + [c];
    if key in After(limits, calls) {
      var i :| 0 <= i < |calls| && calls[i].now == After(limits, calls)[key].expiresAt - w;
      assert more[i] == calls[i];
    }
  }

  lemma OwnCallBounded(limits: Limits, calls: seq<Call>, c: Call)
    requires Bounded(limits, calls, c.key) && limits.windowSeconds > 0 && limits.maxPerWindow >= 1
    requires forall i :: 0 <= i < |calls| ==> calls[i].now <= c.now
    ensures Bounded(limits, calls + [c], c.key)
  {
    var key, w, max := c.key, Window(limits), limits.maxPerWindow;
    var before, more := After(limits, calls), calls + [c];
    AllowedSnoc(limits, calls, c, key, 0, 0);
    forall s ensures BoundAt(InSpan(limits, more, key, s), After(limits, more)[key], s, w, max)
      && (s + w <= c.now ==> InSpan(limits, more, key, s) == InSpan(limits, calls, key, s))
    {
      OwnBoundAt(limits, calls, c, s);
    }
    hide InSpan, AllowedIn, Openings, After, Answer;
    assert more[|calls|] == c;
    if key in before && c.now < before[key].expiresAt {
      var i :| 0 <= i < |calls| && calls[i].now == before[key].expiresAt - w;
      assert more[i] == calls[i];
    }
  }

  lemma OwnBoundAt(limits: Limits, calls: seq<Call>, c: Call, s: int)
    requires Bounded(limits, calls, c.key) && limits.windowSeconds > 0 && limits.maxPerWindow >= 1
    requires forall i :: 0 <= i < |calls| ==> calls[i].now <= c.now
    ensures BoundAt(InSpan(limits, calls + [c], c.key, s), Counted(limits, After(limits, calls), c.key, c.now), s, Window(limits), limits.maxPerWindow)
    ensures s + Window(limits) <= c.now ==> InSpan(limits, calls + [c], c.key, s) == InSpan(limits, calls, c.key, s)
  {
    var before := After(limits, calls);
    InSpanSnoc(limits, calls, c, c.key, s);
    hide InSpan, AllowedIn, Openings, After;
    if c.key in before {
      assert BoundAt(InSpan(limits, calls, c.key, s), before[c.key], s, Window(limits), limits.maxPerWindow);
      BoundStep(limits, before[c.key], c.now, InSpan(limits, calls, c.key, s), s);
    }
  }

  /** One call more, at a time when the bucket is open or has expired, keeps the bound on a span. */
  lemma BoundStep(limits: Limits, bucket: Bucket, now: int, allowed: int, s: int)
    requires limits.windowSeconds > 0 && limits.maxPerWindow >= 1 && bucket.count >= 1
    requires now >= bucket.expiresAt - Window(limits)
    requires BoundAt(allowed, bucket, s, Window(limits), limits.maxPerWindow)
    ensures
      var b := Counted(limits, map["" := bucket], "", now);
      BoundAt(allowed + (if s <= now < s + Window(limits) && Answer(limits, b, now).allowed then 1 else 0), b, s, Window(limits), limits.maxPerWindow)
  {
  }

  /** A trace of calls and one call more for the key after the last one was denied. */
  lemma RetryIsAllowed(limits: Limits, calls: seq<Call>, others: seq<Call>, retry: Call)
    requires limits.maxPerWindow >= 1 && calls != []
    requires !LastAnswer(limits, calls).allowed
    requires forall c :: c in others ==> c.key != retry.key
    requires retry.key == calls[|calls| - 1].key
    requires retry.now >= calls[|calls| - 1].now + 1000 * LastAnswer(limits, calls).retryAfterSeconds
    ensures LastAnswer(limits, calls + others + [retry]).allowed
  {
    var all := calls + others;
    assert (all + [retry])[..|all|] == all;
    OthersKeep(limits, calls, others, retry.key);
  }

  /** Calls for other keys leave a key's bucket alone. */
  lemma {:induction false} OthersKeep(limits: Limits, calls: seq<Call>, others: seq<Call>, key: string)
    requires forall c :: c in others ==> c.key != key
    ensures key in After(limits, calls + others) <==> key in After(limits, calls)
    ensures key in After(limits, calls) ==> After(limits, calls + others)[key] == After(limits, calls)[key]
  {
    if others == [] {
      assert calls + others == calls;
    } else {
      var n := |others| - 1;
      assert calls + others == (calls + others[..n]) + [others[n]];
      AllowedSnoc(limits, calls + others[..n], others[n], key, 0, 0);
      OthersKeep(limits, calls, others[..n], key);
    }
  }

  // ---------------------------------------------------------------------------
  // The bounds
  // ---------------------------------------------------------------------------

  lemma {:induction false} EmptySpan(limits: Limits, calls: seq<Call>, key: string, lo: int, hi: int)
    requires hi <= lo
    ensures AllowedIn(limits, calls, key, lo, hi) == 0
  {
    if calls != [] {
      EmptySpan(limits, calls[..|calls| - 1], key, lo, hi);
    }
  }

  lemma {:induction false} NoneAllowed(limits: Limits, calls: seq<Call>, key: string, lo: int, hi: int)
    requires limits.maxPerWindow == 0
    ensures AllowedIn(limits, calls, key, lo, hi) == 0
  {
    if calls != [] {
      NoneAllowed(limits, calls[..|calls| - 1], key, lo, hi);
    }
  }

  /** From a bucket's opening to its expiry at most maxPerWindow calls for the key are allowed. */
  lemma AtMostMaxPerBucket(limits: Limits, calls: seq<Call>, key: string, opening: int)
    requires Monotone(calls) && opening in Openings(limits, calls, key)
    ensures AllowedIn(limits, calls, key, opening, opening + Window(limits)) <= limits.maxPerWindow
  {
    if limits.windowSeconds <= 0 {
      EmptySpan(limits, calls, key, opening, opening + Window(limits));
    } else if limits.maxPerWindow == 0 {
      NoneAllowed(limits, calls, key, opening, opening + Window(limits));
    } else {
      AlwaysBounded(limits, calls, key);
      assert InSpan(limits, calls, key, opening) <= limits.maxPerWindow;
    }
  }

  /** In any half-open span as long as the window fewer than twice maxPerWindow calls are allowed. */
  lemma FewerThanTwiceMaxPerSpan(limits: Limits, calls: seq<Call>, key: string, s: int)
    requires Monotone(calls)
    ensures AllowedIn(limits, calls, key, s, s + Window(limits)) <= 2 * limits.maxPerWindow
    ensures limits.maxPerWindow >= 1 ==> AllowedIn(limits, calls, key, s, s + Window(limits)) <= 2 * limits.maxPerWindow - 1
  {
    if limits.windowSeconds <= 0 {
      EmptySpan(limits, calls, key, s, s + Window(limits));
    } else if limits.maxPerWindow == 0 {
      NoneAllowed(limits, calls, key, s, s + Window(limits));
    } else {
      AlwaysBounded(limits, calls, key);
      assert InSpan(limits, calls, key, s) <= 2 * limits.maxPerWindow - 1;
    }
  }

  /** One less than twice is reached: late calls of one bucket and early ones of the next. */
  lemma BoundIsReached()
    ensures AllowedIn(Limits(1, 2), [Call("k", 0), Call("k", 999), Call("k", 1000), Call("k", 1001)], "k", 999, 1999) == 3
  {
    var two := Limits(1, 2);
    var a, b, c, d := Call("k", 0), Call("k", 999), Call("k", 1000), Call("k", 1001);
    assert [] + [a] == [a] && [a] + [b] == [a, b] && [a, b] + [c] == [a, b, c] && [a, b, c] + [d] == [a, b, c, d];
    AllowedSnoc(two, [], a, "k", 999, 1999);
    AllowedSnoc(two, [a], b, "k", 999, 1999);
    AllowedSnoc(two, [a, b], c, "k", 999, 1999);
    AllowedSnoc(two, [a, b, c], d, "k", 999, 1999);
  }
}
