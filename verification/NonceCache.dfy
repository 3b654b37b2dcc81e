/** The replay-attack cache: identifiers filed in time buckets that expire. */
module NonceCaches {
  import opened Orders

  datatype Options = Options(windowMs: nat, bucketSizeMs: nat, maxNoncesPerBucket: nat)

  type Buckets = map<int, set<string>>

  /** `Math.floor`: the divisor is positive, so `/` rounds down. */
  function BucketOf(opts: Options, ts: int): int
    requires opts.bucketSizeMs > 0
  {
    ts / opts.bucketSizeMs
  }

  function Entries(buckets: Buckets, b: int): set<string> {
    if b in buckets then buckets[b] else {}
  }

  predicate InWindow(opts: Options, ts: int, now: int) {
    now - ts <= opts.windowMs && ts - now <= opts.windowMs
  }

  predicate Accepts(opts: Options, buckets: Buckets, id: string, ts: int, now: int)
    requires opts.bucketSizeMs > 0
  {
    && InWindow(opts, ts, now)
    && id !in Entries(buckets, BucketOf(opts, ts))
    && |Entries(buckets, BucketOf(opts, ts))| < opts.maxNoncesPerBucket
  }

  function Evicted(opts: Options, buckets: Buckets, now: int): Buckets
    requires opts.bucketSizeMs > 0
  {
    map b | b in buckets && b >= BucketOf(opts, now - opts.windowMs) :: buckets[b]
  }

  /** What one call leaves behind. A refused call inside the window still creates its bucket. */
  function AfterCall(opts: Options, buckets: Buckets, id: string, ts: int, now: int): Buckets
    requires opts.bucketSizeMs > 0
  {
    var b := BucketOf(opts, ts);
    if !InWindow(opts, ts, now) then buckets
    else if Accepts(opts, buckets, id, ts, now) then
      Evicted(opts, buckets[b := Entries(buckets, b) + {id}], now)
    else buckets[b := Entries(buckets, b)]
  }

  class NonceCache {
    var buckets: Buckets
    const opts: Options

    constructor (opts: Options)
      ensures buckets == map[] && this.opts == opts
    {
      this.opts := opts;
      buckets := map[];
    }

    method CheckAndRegister(eventId: string, timestamp: int, now: int) returns (accepted: bool)
      requires opts.bucketSizeMs > 0
      modifies this
      ensures accepted <==> Accepts(opts, old(buckets), eventId, timestamp, now)
      ensures buckets == AfterCall(opts, old(buckets), eventId, timestamp, now)
    {
      if now - timestamp > opts.windowMs || timestamp - now > opts.windowMs {
        return false;
      }
      var b := BucketOf(opts, timestamp);
      if b !in buckets {
        buckets := buckets[b := {}];
      }
      var bucket := buckets[b];
      if eventId in bucket {
        assert buckets == old(buckets)[b := Entries(old(buckets), b)];
        return false;
      }
      if |bucket| >= opts.maxNoncesPerBucket {
        assert buckets == old(buckets)[b := Entries(old(buckets), b)];
        return false;
      }
      buckets := buckets[b := bucket + {eventId}];
      assert buckets == old(buckets)[b := Entries(old(buckets), b) + {eventId}];
      EvictExpired(now);
      accepted := true;
    }

    method EvictExpired(now: int)
      requires opts.bucketSizeMs > 0
      modifies this
      ensures buckets == Evicted(opts, old(buckets), now)
      ensures forall b :: b in buckets <==>
        b in old(buckets) && !(b < (now - opts.windowMs) / opts.bucketSizeMs)
      ensures forall b :: b in buckets ==> buckets[b] == old(buckets)[b]
    {
      var minBucket := BucketOf(opts, now - opts.windowMs);
      hide BucketOf, Dropped;
      ghost var start := buckets;
      var keys := SetToSeq(buckets.Keys);
      NothingDropped(start, minBucket);
      for i := 0 to |keys|
        invariant buckets == Dropped(start, keys[..i], minBucket)
      {
        DroppedNext(start, keys, i, minBucket);
        if keys[i] < minBucket {
          buckets := buckets - {keys[i]};
        }
      }
      AllDropped(start, keys, minBucket);
    }
  }

  /** The expired ones among `done` are gone. */
  ghost function Dropped(start: Buckets, done: seq<int>, minBucket: int): Buckets {
    map b | b in start && (b in done ==> b >= minBucket) :: start[b]
  }

  lemma NothingDropped(start: Buckets, minBucket: int)
    ensures Dropped(start, [], minBucket) == start
  {
  }

  lemma DroppedNext(start: Buckets, keys: seq<int>, i: nat, minBucket: int)
    requires i < |keys|
    ensures Dropped(start, keys[..i + 1], minBucket) ==
            Dropped(start, keys[..i], minBucket) - (if keys[i] < minBucket then {keys[i]} else {})
  {
    assert keys[..i + 1] == keys[..i] + [keys[i]];
  }

  lemma AllDropped(start: Buckets, keys: seq<int>, minBucket: int)
    requires forall b :: b in keys <==> b in start
    ensures Dropped(start, keys[..|keys|], minBucket) == map b | b in start && b >= minBucket :: start[b]
  {
    assert keys[..|keys|] == keys;
  }

  // ------------------------------------------------------- whole runs

  datatype Call = Call(id: string, ts: int, now: int)

  function Run(opts: Options, calls: seq<Call>): Buckets
    requires opts.bucketSizeMs > 0
  {
    if calls == [] then map[]
    else
      var c := calls[|calls| - 1];
      AfterCall(opts, Run(opts, calls[..|calls| - 1]), c.id, c.ts, c.now)
  }

  /** Whether the i-th call of the run was accepted. */
  predicate AcceptedAt(opts: Options, calls: seq<Call>, i: nat)
    requires opts.bucketSizeMs > 0 && i < |calls|
  {
    Accepts(opts, Run(opts, calls[..i]), calls[i].id, calls[i].ts, calls[i].now)
  }

  ghost predicate ClockNeverGoesBack(calls: seq<Call>) {
    forall i, j :: 0 <= i <= j < |calls| ==> calls[i].now <= calls[j].now
  }

  lemma MulMonotone(s: nat, a: int, b: int)
    requires a <= b
    ensures s * a <= s * b
  {
  }

  lemma DivBelow(n: int, s: nat, k: int)
    requires s > 0 && n < s * k
    ensures n / s < k
  {
    if k <= n / s { MulMonotone(s, k, n / s); }
  }

  lemma DivExact(k: int, s: nat)
    requires s > 0
    ensures k * s / s == k
  {
    DivBelow(k * s, s, k + 1);
    if k * s / s < k { MulMonotone(s, k * s / s + 1, k); }
  }

  lemma BucketMonotone(opts: Options, a: int, b: int)
    requires opts.bucketSizeMs > 0 && a <= b
    ensures BucketOf(opts, a) <= BucketOf(opts, b)
  {
    DivBelow(a, opts.bucketSizeMs, b / opts.bucketSizeMs + 1);
  }

  lemma StaysFiled(opts: Options, buckets: Buckets, c: Call, id: string, b: int)
    requires opts.bucketSizeMs > 0 && id in Entries(buckets, b)
    ensures b >= BucketOf(opts, c.now - opts.windowMs) ==> id in Entries(AfterCall(opts, buckets, c.id, c.ts, c.now), b)
  {
    hide BucketOf;
  }

  /** An accepted identifier is found in its bucket for as long as the bucket can still be
      asked for: eviction only drops buckets wholly outside the window. */
  lemma {:induction false} Remembered(opts: Options, calls: seq<Call>, i: nat, j: nat)
    requires opts.bucketSizeMs > 0 && ClockNeverGoesBack(calls) && i < j <= |calls| && AcceptedAt(opts, calls, i)
    ensures var b := BucketOf(opts, calls[i].ts);
            b >= BucketOf(opts, calls[j - 1].now - opts.windowMs) ==> calls[i].id in Entries(Run(opts, calls[..j]), b)
    decreases j
  {
    hide BucketOf;
    var b := BucketOf(opts, calls[i].ts);
    var c := calls[j - 1];
    RunLast(opts, calls, j);
    hide Accepts, AfterCall, Run;
    if i == j - 1 {
      JustFiled(opts, Run(opts, calls[..i]), c);
    } else {
      Remembered(opts, calls, i, j - 1);
      BucketMonotone(opts, calls[j - 2].now - opts.windowMs, c.now - opts.windowMs);
      if b >= BucketOf(opts, c.now - opts.windowMs) {
        StaysFiled(opts, Run(opts, calls[..j - 1]), c, calls[i].id, b);
      }
    }
  }

  lemma RunLast(opts: Options, calls: seq<Call>, j: nat)
    requires opts.bucketSizeMs > 0 && 0 < j <= |calls|
    ensures var c := calls[j - 1];
            Run(opts, calls[..j]) == AfterCall(opts, Run(opts, calls[..j - 1]), c.id, c.ts, c.now)
  {
    assert calls[..j][..j - 1] == calls[..j - 1];
  }

  lemma JustFiled(opts: Options, buckets: Buckets, c: Call)
    requires opts.bucketSizeMs > 0 && Accepts(opts, buckets, c.id, c.ts, c.now)
    ensures c.id in Entries(AfterCall(opts, buckets, c.id, c.ts, c.now), BucketOf(opts, c.ts))
  {
    hide BucketOf;
    BucketMonotone(opts, c.now - opts.windowMs, c.ts);
  }

  /** With a clock that never goes back, an identifier is accepted at most once per bucket,
      and so an (identifier, timestamp) pair at most once over the whole run. */
  lemma AcceptedOnce(opts: Options, calls: seq<Call>, i: nat, j: nat)
    requires opts.bucketSizeMs > 0 && ClockNeverGoesBack(calls) && i < j < |calls|
    requires calls[i].id == calls[j].id && BucketOf(opts, calls[i].ts) == BucketOf(opts, calls[j].ts)
    ensures !(AcceptedAt(opts, calls, i) && AcceptedAt(opts, calls, j))
  {
    hide BucketOf;
    if AcceptedAt(opts, calls, i) && AcceptedAt(opts, calls, j) {
      Remembered(opts, calls, i, j);
      BucketMonotone(opts, calls[j].now - opts.windowMs, calls[j].ts);
      BucketMonotone(opts, calls[j - 1].now - opts.windowMs, calls[j].now - opts.windowMs);
    }
  }

  /** The identifiers that calls before the j-th had accepted into bucket `b`. */
  ghost function AcceptedInto(opts: Options, calls: seq<Call>, j: nat, b: int): set<string>
    requires opts.bucketSizeMs > 0 && j <= |calls|
  {
    set i: nat | i < j && AcceptedAt(opts, calls, i) && calls[i].ts / opts.bucketSizeMs == b :: calls[i].id
  }

  /** What is filed was accepted. */
  lemma {:induction false} FiledWasAccepted(opts: Options, calls: seq<Call>, j: nat, b: int, id: string)
    requires opts.bucketSizeMs > 0 && j <= |calls| && id in Entries(Run(opts, calls[..j]), b)
    ensures id in AcceptedInto(opts, calls, j, b)
    decreases j
  {
    if j > 0 {
      RunLast(opts, calls, j);
      var before, c := Run(opts, calls[..j - 1]), calls[j - 1];
      hide Run;
      if id in Entries(before, b) {
        FiledWasAccepted(opts, calls, j - 1, b, id);
      } else {
        OnlyAcceptedAreFiled(opts, before, c, b, id);
        assert AcceptedAt(opts, calls, j - 1);
      }
    }
  }

  lemma OnlyAcceptedAreFiled(opts: Options, before: Buckets, c: Call, b: int, id: string)
    requires opts.bucketSizeMs > 0
    requires id !in Entries(before, b) && id in Entries(AfterCall(opts, before, c.id, c.ts, c.now), b)
    ensures Accepts(opts, before, c.id, c.ts, c.now) && c.id == id && c.ts / opts.bucketSizeMs == b
  {
  }

  /** Exactly when a call is accepted, over every run whose clock never goes back: inside the
      window, with an identifier that no earlier call had accepted into the same bucket, and
      into a bucket that earlier calls have not filled. Nothing else in the run matters. */
  lemma AcceptedExactly(opts: Options, calls: seq<Call>, j: nat)
    requires opts.bucketSizeMs > 0 && ClockNeverGoesBack(calls) && j < |calls|
    ensures var into := AcceptedInto(opts, calls, j, calls[j].ts / opts.bucketSizeMs);
            AcceptedAt(opts, calls, j) <==>
              && calls[j].now - calls[j].ts <= opts.windowMs && calls[j].ts - calls[j].now <= opts.windowMs
              && calls[j].id !in into && |into| < opts.maxNoncesPerBucket
  {
    var b := BucketOf(opts, calls[j].ts);
    if InWindow(opts, calls[j].ts, calls[j].now) {
      FiledExactly(opts, calls, j, b);
    }
  }

  lemma FiledExactly(opts: Options, calls: seq<Call>, j: nat, b: int)
    requires opts.bucketSizeMs > 0 && ClockNeverGoesBack(calls) && j < |calls|
    requires InWindow(opts, calls[j].ts, calls[j].now) && b == BucketOf(opts, calls[j].ts)
    ensures Entries(Run(opts, calls[..j]), b) == AcceptedInto(opts, calls, j, b)
  {
    forall id | id in Entries(Run(opts, calls[..j]), b) ensures id in AcceptedInto(opts, calls, j, b) {
      FiledWasAccepted(opts, calls, j, b, id);
    }
    hide Run, Accepts, Entries;
    forall i: nat | i < j && AcceptedAt(opts, calls, i) && calls[i].ts / opts.bucketSizeMs == b
      ensures calls[i].id in Entries(Run(opts, calls[..j]), b)
    {
      assert BucketOf(opts, calls[i].ts) == b;
      hide AcceptedAt, BucketOf;
      Remembered(opts, calls, i, j);
      BucketMonotone(opts, calls[j - 1].now - opts.windowMs, calls[j].now - opts.windowMs);
      BucketMonotone(opts, calls[j].now - opts.windowMs, calls[j].ts);
    }
  }

  // ------------------------------------------------------- clocks that go back

  /** Some call between the two readings throws away the bucket that both would use. */
  ghost predicate Readmits(opts: Options, clock: seq<int>)
    requires opts.bucketSizeMs > 0
  {
    exists i, k, j :: 0 <= i < k < j < |clock| && Forgets(opts, clock[i], clock[k], clock[j])
  }

  /** First and last reading are close enough for one timestamp to be in the window of both,
      and the one between is so late that an eviction then drops the latest such bucket. */
  predicate Forgets(opts: Options, first: int, between: int, last: int)
    requires opts.bucketSizeMs > 0
  {
    var later := if first <= last then last else first;
    && first - last <= 2 * opts.windowMs && last - first <= 2 * opts.windowMs
    && BucketOf(opts, between - opts.windowMs) > BucketOf(opts, later - opts.windowMs)
  }

  ghost predicate ReadsClock(calls: seq<Call>, clock: seq<int>) {
    |calls| == |clock| && forall i :: 0 <= i < |calls| ==> calls[i].now == clock[i]
  }

  /** One (identifier, timestamp) pair is accepted at two calls of the run. */
  ghost predicate AcceptedTwice(opts: Options, calls: seq<Call>, i: nat, j: nat)
    requires opts.bucketSizeMs > 0
  {
    && i < j < |calls| && calls[i].id == calls[j].id && calls[i].ts == calls[j].ts
    && AcceptedAt(opts, calls, i) && AcceptedAt(opts, calls, j)
  }

  /** Without a call that drops its bucket, an accepted identifier stays filed. */
  lemma {:induction false} StaysUntilDropped(opts: Options, calls: seq<Call>, i: nat, j: nat)
    requires opts.bucketSizeMs > 0 && i < j <= |calls| && AcceptedAt(opts, calls, i)
    requires forall k :: i < k < j ==> BucketOf(opts, calls[k].now - opts.windowMs) <= BucketOf(opts, calls[i].ts)
    ensures calls[i].id in Entries(Run(opts, calls[..j]), BucketOf(opts, calls[i].ts))
    decreases j
  {
    hide BucketOf;
    RunLast(opts, calls, j);
    hide Accepts, AfterCall, Run;
    if i == j - 1 {
      JustFiled(opts, Run(opts, calls[..i]), calls[i]);
    } else {
      StaysUntilDropped(opts, calls, i, j - 1);
      StaysFiled(opts, Run(opts, calls[..j - 1]), calls[j - 1], calls[i].id, BucketOf(opts, calls[i].ts));
    }
  }

  lemma TwiceNeedsForgetting(opts: Options, calls: seq<Call>, clock: seq<int>, i: nat, j: nat)
    requires opts.bucketSizeMs > 0 && ReadsClock(calls, clock) && AcceptedTwice(opts, calls, i, j)
    ensures Readmits(opts, clock)
  {
    hide BucketOf;
    var ts := calls[i].ts;
    var later := if clock[i] <= clock[j] then clock[j] else clock[i];
    BucketMonotone(opts, later - opts.windowMs, ts);
    if forall k :: i < k < j ==> BucketOf(opts, calls[k].now - opts.windowMs) <= BucketOf(opts, ts) {
      StaysUntilDropped(opts, calls, i, j);
      assert false;
    }
    var k :| i < k < j && BucketOf(opts, calls[k].now - opts.windowMs) > BucketOf(opts, ts);
    assert Forgets(opts, clock[i], clock[k], clock[j]);
  }

  /** A run in which only three calls are inside the window: the pair, another identifier that
      evicts it, and the pair again. */
  function Attempt(opts: Options, clock: seq<int>, i: nat, k: nat, j: nat): seq<Call>
    requires i < k < j < |clock|
  {
    var ts := (if clock[i] <= clock[j] then clock[j] else clock[i]) - opts.windowMs;
    seq(|clock|, n requires 0 <= n < |clock| =>
      if n == i || n == j then Call("a", ts, clock[n])
      else if n == k then Call("b", clock[n], clock[n])
      else Call("c", clock[n] + opts.windowMs + 1, clock[n]))
  }

  lemma {:induction false} OutsideChangesNothing(opts: Options, calls: seq<Call>, lo: nat, hi: nat)
    requires opts.bucketSizeMs > 0 && lo <= hi <= |calls|
    requires forall n :: lo <= n < hi ==> !InWindow(opts, calls[n].ts, calls[n].now)
    ensures Run(opts, calls[..hi]) == Run(opts, calls[..lo])
    decreases hi
  {
    hide BucketOf, Accepts;
    if lo < hi {
      OutsideChangesNothing(opts, calls, lo, hi - 1);
      RunLast(opts, calls, hi);
    }
  }

  lemma ForgettingReadmits(opts: Options, clock: seq<int>, i: nat, k: nat, j: nat)
    requires opts.bucketSizeMs > 0 && opts.maxNoncesPerBucket > 0
    requires i < k < j < |clock| && Forgets(opts, clock[i], clock[k], clock[j])
    ensures AcceptedTwice(opts, Attempt(opts, clock, i, k, j), i, j)
  {
    hide BucketOf, Run;
    var calls := Attempt(opts, clock, i, k, j);
    var ts, low := calls[i].ts, BucketOf(opts, calls[i].ts);
    assert calls[..0] == [] && Run(opts, []) == map[] by { NoCalls(opts); }
    OutsideChangesNothing(opts, calls, 0, i);
    RunLast(opts, calls, i + 1);
    BucketMonotone(opts, clock[i] - opts.windowMs, ts);
    assert Run(opts, calls[..i + 1]) == map[low := {"a"}];
    OutsideChangesNothing(opts, calls, i + 1, k);
    RunLast(opts, calls, k + 1);
    BucketMonotone(opts, clock[k] - opts.windowMs, clock[k]);
    assert low !in Run(opts, calls[..k + 1]);
    OutsideChangesNothing(opts, calls, k + 1, j);
  }

  lemma NoCalls(opts: Options)
    requires opts.bucketSizeMs > 0
    ensures Run(opts, []) == map[]
  {
  }

  lemma ForwardNeverForgets(opts: Options, clock: seq<int>)
    requires opts.bucketSizeMs > 0 && forall i, j :: 0 <= i <= j < |clock| ==> clock[i] <= clock[j]
    ensures !Readmits(opts, clock)
  {
    hide BucketOf;
    forall i, k, j | 0 <= i < k < j < |clock| ensures !Forgets(opts, clock[i], clock[k], clock[j]) {
      BucketMonotone(opts, clock[k] - opts.windowMs, clock[j] - opts.windowMs);
    }
  }

  /** Some calls that read this clock have a pair accepted twice. */
  ghost predicate CanAcceptTwice(opts: Options, clock: seq<int>)
    requires opts.bucketSizeMs > 0
  {
    exists calls, i: nat, j: nat :: ReadsClock(calls, clock) && AcceptedTwice(opts, calls, i, j)
  }

  /** Exactly which clocks can make the cache accept a pair twice: those that read early, then
      late enough to evict, then early again. A clock that never goes back is none of them. */
  lemma BackwardClockReadmits(opts: Options, clock: seq<int>)
    requires opts.bucketSizeMs > 0 && opts.maxNoncesPerBucket > 0
    ensures CanAcceptTwice(opts, clock) <==> Readmits(opts, clock)
    ensures (forall i, j :: 0 <= i <= j < |clock| ==> clock[i] <= clock[j]) ==> !Readmits(opts, clock)
  {
    hide AcceptedTwice, Forgets, Attempt;
    if CanAcceptTwice(opts, clock) {
      var calls, i: nat, j: nat :| ReadsClock(calls, clock) && AcceptedTwice(opts, calls, i, j);
      TwiceNeedsForgetting(opts, calls, clock, i, j);
    }
    if Readmits(opts, clock) {
      var i, k, j :| 0 <= i < k < j < |clock| && Forgets(opts, clock[i], clock[k], clock[j]);
      ForgettingReadmits(opts, clock, i, k, j);
      AttemptReads(opts, clock, i, k, j);
    }
    if forall i, j :: 0 <= i <= j < |clock| ==> clock[i] <= clock[j] {
      ForwardNeverForgets(opts, clock);
    }
  }

  lemma AttemptReads(opts: Options, clock: seq<int>, i: nat, k: nat, j: nat)
    requires i < k < j < |clock|
    ensures ReadsClock(Attempt(opts, clock, i, k, j), clock)
  {
  }

  // ------------------------------------------------------- memory bound

  function Interval(lo: int, hi: int): set<int>
    decreases hi - lo + 1
  {
    if lo > hi then {} else Interval(lo, hi - 1) + {hi}
  }

  lemma {:induction false} IntervalSize(lo: int, hi: int)
    requires lo <= hi + 1
    ensures |Interval(lo, hi)| == hi - lo + 1
    ensures forall x :: x in Interval(lo, hi) <==> lo <= x <= hi
    decreases hi - lo + 1
  {
    if lo <= hi {
      IntervalSize(lo, hi - 1);
    }
  }

  /** All buckets lie between the two ends of the window at some past time. */
  ghost predicate Spanned(opts: Options, buckets: Buckets, now: int)
    requires opts.bucketSizeMs > 0
  {
    forall b :: b in buckets ==> BucketOf(opts, now - opts.windowMs) <= b <= BucketOf(opts, now + opts.windowMs)
  }

  /** A per-bucket capacity of at least one: a new bucket always accepts, and accepting evicts. */
  lemma {:induction false} RunSpanned(opts: Options, calls: seq<Call>) returns (now: int)
    requires opts.bucketSizeMs > 0 && opts.maxNoncesPerBucket > 0 && ClockNeverGoesBack(calls)
    ensures Spanned(opts, Run(opts, calls), now)
    ensures calls != [] ==> now <= calls[|calls| - 1].now
  {
    hide BucketOf;
    if calls == [] {
      now := 0;
    } else {
      var init, c := calls[..|calls| - 1], calls[|calls| - 1];
      now := RunSpanned(opts, init);
      var before := Run(opts, init);
      var b := BucketOf(opts, c.ts);
      if Accepts(opts, before, c.id, c.ts, c.now) {
        BucketMonotone(opts, c.now - opts.windowMs, c.ts);
        BucketMonotone(opts, c.ts, c.now + opts.windowMs);
        if init != [] {
          BucketMonotone(opts, now + opts.windowMs, c.now + opts.windowMs);
        }
        now := c.now;
      } else if InWindow(opts, c.ts, c.now) {
        assert b in before;
      }
      if init == [] { now := c.now; }
    }
  }

  /** The cache never keeps more than floor(2 * window / bucket size) + 2 buckets. */
  lemma BucketCount(opts: Options, calls: seq<Call>)
    requires opts.bucketSizeMs > 0 && opts.maxNoncesPerBucket > 0 && ClockNeverGoesBack(calls)
    ensures |Run(opts, calls)| <= 2 * opts.windowMs / opts.bucketSizeMs + 2
  {
    var now := RunSpanned(opts, calls);
    WindowBuckets(opts, now);
    hide BucketOf;
    BucketMonotone(opts, now - opts.windowMs, now + opts.windowMs);
    CountBetween(Run(opts, calls), BucketOf(opts, now - opts.windowMs), BucketOf(opts, now + opts.windowMs));
  }

  lemma CountBetween(buckets: Buckets, lo: int, hi: int)
    requires lo <= hi && forall b :: b in buckets ==> lo <= b <= hi
    ensures |buckets| <= hi - lo + 1
  {
    IntervalSize(lo, hi);
    var all := Interval(lo, hi);
    forall b | b in buckets ensures b in all {
    }
    assert all == buckets.Keys + (all - buckets.Keys);
    assert |buckets| == |buckets.Keys|;
  }

  lemma WindowBuckets(opts: Options, now: int)
    requires opts.bucketSizeMs > 0
    ensures BucketOf(opts, now + opts.windowMs) - BucketOf(opts, now - opts.windowMs)
         <= 2 * opts.windowMs / opts.bucketSizeMs + 1
  {
    var a, d := now - opts.windowMs, 2 * opts.windowMs;
    SpanOfBuckets(a, d, opts.bucketSizeMs);
    assert a + d == now + opts.windowMs;
  }

  lemma SpanOfBuckets(a: int, d: nat, s: nat)
    requires s > 0
    ensures (a + d) / s - a / s <= d / s + 1
  {
    var x, y := a / s, d / s;
    assert a < s * x + s && d < s * y + s;
    assert s * (x + y + 2) == s * x + s * y + 2 * s;
    DivBelow(a + d, s, x + y + 2);
  }

  /** With capacity zero nothing is ever accepted, so nothing is ever evicted: every call
      inside the window may add a bucket, without bound. */
  lemma ZeroCapacityGrows(opts: Options, n: nat)
    requires opts.bucketSizeMs > 0 && opts.maxNoncesPerBucket == 0
    ensures ClockNeverGoesBack(Ticks(opts, n)) && |Run(opts, Ticks(opts, n))| == n
  {
    forall i, j | 0 <= i <= j < n ensures Ticks(opts, n)[i].now <= Ticks(opts, n)[j].now {
      MulMonotone(opts.bucketSizeMs, i, j);
    }
    ZeroCapacityKeys(opts, n);
    IntervalSize(0, n - 1);
    assert |Run(opts, Ticks(opts, n))| == |Run(opts, Ticks(opts, n)).Keys|;
  }

  function Tick(opts: Options, i: nat): Call {
    Call("a", i * opts.bucketSizeMs, i * opts.bucketSizeMs)
  }

  function Ticks(opts: Options, n: nat): seq<Call> {
    seq(n, i requires 0 <= i < n => Tick(opts, i))
  }

  lemma {:induction false} ZeroCapacityKeys(opts: Options, n: nat)
    requires opts.bucketSizeMs > 0 && opts.maxNoncesPerBucket == 0
    ensures Run(opts, Ticks(opts, n)).Keys == Interval(0, n - 1)
  {
    hide BucketOf, Tick;
    if n > 0 {
      ZeroCapacityKeys(opts, n - 1);
      assert Ticks(opts, n)[..n - 1] == Ticks(opts, n - 1);
      TickBucket(opts, n - 1);
    }
  }

  lemma TickBucket(opts: Options, i: nat)
    requires opts.bucketSizeMs > 0
    ensures var c := Tick(opts, i); c.now == c.ts && BucketOf(opts, c.ts) == i
  {
    DivExact(i, opts.bucketSizeMs);
  }

  /** The memory bound holds for every run exactly when a bucket may hold at least one. */
  lemma BucketCountExactly(opts: Options)
    requires opts.bucketSizeMs > 0
    ensures (forall calls: seq<Call> :: ClockNeverGoesBack(calls) ==>
               |Run(opts, calls)| <= 2 * opts.windowMs / opts.bucketSizeMs + 2)
            <==> opts.maxNoncesPerBucket > 0
  {
    hide Run, ClockNeverGoesBack;
    if opts.maxNoncesPerBucket > 0 {
      forall calls: seq<Call> | ClockNeverGoesBack(calls)
        ensures |Run(opts, calls)| <= 2 * opts.windowMs / opts.bucketSizeMs + 2
      {
        BucketCount(opts, calls);
      }
    } else {
      ZeroCapacityGrows(opts, 2 * opts.windowMs / opts.bucketSizeMs + 3);
    }
  }
}
