/** The token bucket per principal: how much a run can grant, and when forgetting idle
    buckets is invisible. Time is whole milliseconds, tokens are reals. */
module RateLimiters {
  import opened Orders

  datatype Limits = Limits(capacity: real, refillRatePerMs: real)

  datatype Bucket = Bucket(tokens: real, lastRefill: int)

  type Buckets = map<string, Bucket>

  function Refill(cfg: Limits, elapsed: int): real {
    elapsed as real * cfg.refillRatePerMs
  }

  function Min(a: real, b: real): real {
    if a <= b then a else b
  }

  /** What a call at `now` would find in the principal's bucket. */
  function Available(cfg: Limits, buckets: Buckets, principal: string, now: int): real {
    if principal in buckets then
      Min(cfg.capacity, buckets[principal].tokens + Refill(cfg, now - buckets[principal].lastRefill))
    else cfg.capacity
  }

  function Consumed(cfg: Limits, buckets: Buckets, principal: string, tokens: real, now: int): Buckets {
    var level := Available(cfg, buckets, principal, now);
    buckets[principal := Bucket(if level < tokens then level else level - tokens, now)]
  }

  /** What a call does to what is available: nothing when refused, its tokens when granted, and
      nothing to other principals. */
  ghost predicate TakesFairly(cfg: Limits, before: Buckets, after: Buckets, p: string, tokens: real, now: int) {
    && (Available(cfg, before, p, now) < tokens && Sensible(cfg) ==>
          forall t :: t >= now ==> Available(cfg, after, p, t) == Available(cfg, before, p, t))
    && (Available(cfg, before, p, now) >= tokens >= 0.0 ==>
          Available(cfg, after, p, now) == Available(cfg, before, p, now) - tokens)
    && (forall q, t :: q != p ==> Available(cfg, after, q, t) == Available(cfg, before, q, t))
  }

  lemma ConsumedFairly(cfg: Limits, buckets: Buckets, p: string, tokens: real, now: int)
    ensures TakesFairly(cfg, buckets, Consumed(cfg, buckets, p, tokens, now), p, tokens, now)
  {
    hide Refill;
    assert Refill(cfg, now - now) == 0.0 by { RefillAdds(cfg, 0, 0); }
    var after := Consumed(cfg, buckets, p, tokens, now);
    if Available(cfg, buckets, p, now) < tokens && Sensible(cfg) {
      forall t | t >= now ensures Available(cfg, after, p, t) == Available(cfg, buckets, p, t) {
        RefillGrows(cfg, 0, t - now);
        RefillAdds(cfg, 0, 0);
        if p in buckets {
          RefillAdds(cfg, now - buckets[p].lastRefill, t - now);
        }
      }
    }
  }

  function Evicted(buckets: Buckets, olderThanMs: int, now: int): Buckets {
    map p | p in buckets && buckets[p].lastRefill >= now - olderThanMs :: buckets[p]
  }

  class RateLimiter {
    const cfg: Limits
    var buckets: Buckets

    constructor (cfg: Limits)
      ensures buckets == map[] && this.cfg == cfg
    {
      this.cfg := cfg;
      buckets := map[];
    }

    /** A refused call takes nothing: now and later as much is available as without it. A granted
        one takes just what it asked for. No other principal notices. */
    method Consume(principal: string, tokens: real, now: int) returns (granted: bool)
      modifies this
      ensures TakesFairly(cfg, old(buckets), buckets, principal, tokens, now)
      ensures granted <==> Available(cfg, old(buckets), principal, now) >= tokens
      ensures buckets == Consumed(cfg, old(buckets), principal, tokens, now)
    {
      hide TakesFairly;
      ConsumedFairly(cfg, buckets, principal, tokens, now);
      if principal !in buckets {
        buckets := buckets[principal := Bucket(cfg.capacity, now)];
      }
      var bucket := buckets[principal];
      var elapsed := now - bucket.lastRefill;
      bucket := Bucket(Min(cfg.capacity, bucket.tokens + elapsed as real * cfg.refillRatePerMs), now);
      buckets := buckets[principal := bucket];
      if bucket.tokens < tokens {
        assert buckets == Consumed(cfg, old(buckets), principal, tokens, now);
        return false;
      }
      buckets := buckets[principal := bucket.(tokens := bucket.tokens - tokens)];
      assert buckets == Consumed(cfg, old(buckets), principal, tokens, now);
      granted := true;
    }

    method Evict(olderThanMs: int, now: int)
      modifies this
      ensures buckets == Evicted(old(buckets), olderThanMs, now)
      ensures forall p :: p in buckets <==> p in old(buckets) && !(old(buckets)[p].lastRefill < now - olderThanMs)
      ensures forall p :: p in buckets ==> buckets[p] == old(buckets)[p]
    {
      hide Idle;
      ghost var start := buckets;
      var cutoff := now - olderThanMs;
      var principals := SetToSeq(buckets.Keys);
      NoneIdle(start, cutoff);
      for i := 0 to |principals|
        invariant buckets == Idle(start, principals[..i], cutoff)
      {
        var principal := principals[i];
        IdleNext(start, principals, i, cutoff);
        if buckets[principal].lastRefill < cutoff {
          buckets := buckets - {principal};
        }
      }
      AllIdle(start, principals, cutoff);
    }
  }

  /** The buckets left after looking at `done`. */
  ghost function Idle(start: Buckets, done: seq<string>, cutoff: int): Buckets {
    map p | p in start && (p in done ==> start[p].lastRefill >= cutoff) :: start[p]
  }

  lemma NoneIdle(start: Buckets, cutoff: int)
    ensures Idle(start, [], cutoff) == start
  {
  }

  lemma IdleNext(start: Buckets, keys: seq<string>, i: nat, cutoff: int)
    requires i < |keys| && NoDup(keys) && keys[i] in start
    ensures keys[i] in Idle(start, keys[..i], cutoff) && Idle(start, keys[..i], cutoff)[keys[i]] == start[keys[i]]
    ensures Idle(start, keys[..i + 1], cutoff) ==
            Idle(start, keys[..i], cutoff) - (if start[keys[i]].lastRefill < cutoff then {keys[i]} else {})
  {
    assert keys[..i + 1] == keys[..i] + [keys[i]];
  }

  lemma AllIdle(start: Buckets, keys: seq<string>, cutoff: int)
    requires forall p :: p in keys <==> p in start
    ensures Idle(start, keys[..|keys|], cutoff) == map p | p in start && start[p].lastRefill >= cutoff :: start[p]
  {
    assert keys[..|keys|] == keys;
  }

  // ------------------------------------------------------- whole runs

  datatype Op =
    | Consume(principal: string, tokens: real, now: int)
    | Evict(olderThanMs: int, now: int)

  function Step(cfg: Limits, buckets: Buckets, op: Op): Buckets {
    match op
    case Consume(p, tokens, now) => Consumed(cfg, buckets, p, tokens, now)
    case Evict(older, now) => Evicted(buckets, older, now)
  }

  function Run(cfg: Limits, ops: seq<Op>): Buckets {
    if ops == [] then map[] else Step(cfg, Run(cfg, ops[..|ops| - 1]), ops[|ops| - 1])
  }

  /** The answers of the `consume` calls, in order. */
  function Answers(cfg: Limits, ops: seq<Op>): seq<bool> {
    if ops == [] then []
    else
      var init := ops[..|ops| - 1];
      match ops[|ops| - 1]
      case Consume(p, tokens, now) => Answers(cfg, init) + [Available(cfg, Run(cfg, init), p, now) >= tokens]
      case Evict(_, _) => Answers(cfg, init)
  }

  function WithoutEvictions(ops: seq<Op>): seq<Op> {
    if ops == [] then []
    else WithoutEvictions(ops[..|ops| - 1]) + if ops[|ops| - 1].Consume? then [ops[|ops| - 1]] else []
  }

  /** Tokens granted to `principal` by the calls from position `i` on. */
  function Granted(cfg: Limits, ops: seq<Op>, principal: string, i: nat): real
    decreases |ops|
  {
    if |ops| <= i then 0.0
    else
      var init := ops[..|ops| - 1];
      Granted(cfg, init, principal, i) +
      match ops[|ops| - 1]
      case Consume(p, tokens, now) =>
        if p == principal && Available(cfg, Run(cfg, init), p, now) >= tokens then tokens else 0.0
      case Evict(_, _) => 0.0
  }

  ghost predicate ClockNeverGoesBack(ops: seq<Op>) {
    forall i, j :: 0 <= i <= j < |ops| ==> ops[i].now <= ops[j].now
  }

  /** Every eviction waits at least `older` milliseconds. */
  ghost predicate EvictionsWait(ops: seq<Op>, older: int) {
    forall i :: 0 <= i < |ops| && ops[i].Evict? ==> ops[i].olderThanMs >= older
  }

  /** Every eviction waits long enough for an empty bucket to refill. */
  ghost predicate Patient(cfg: Limits, ops: seq<Op>) {
    forall i :: 0 <= i < |ops| && ops[i].Evict? ==> Refill(cfg, ops[i].olderThanMs + 1) >= cfg.capacity
  }

  lemma WaitingIsPatient(cfg: Limits, ops: seq<Op>, older: int)
    requires Sensible(cfg) && EvictionsWait(ops, older) && Refill(cfg, older + 1) >= cfg.capacity
    ensures Patient(cfg, ops)
  {
    forall i | 0 <= i < |ops| && ops[i].Evict? ensures Refill(cfg, ops[i].olderThanMs + 1) >= cfg.capacity {
      RefillGrows(cfg, older + 1, ops[i].olderThanMs + 1);
    }
  }

  ghost predicate Sensible(cfg: Limits) {
    cfg.capacity >= 0.0 && cfg.refillRatePerMs >= 0.0
  }

  lemma RefillAdds(cfg: Limits, a: int, b: int)
    ensures Refill(cfg, a) + Refill(cfg, b) == Refill(cfg, a + b)
  {
  }

  lemma RefillGrows(cfg: Limits, a: int, b: int)
    requires Sensible(cfg) && a <= b
    ensures Refill(cfg, a) <= Refill(cfg, b)
  {
  }

  /** No bucket is overdrawn and none was refilled in the future. */
  ghost predicate Sound(buckets: Buckets, now: int) {
    forall p :: p in buckets ==> buckets[p].tokens >= 0.0 && buckets[p].lastRefill <= now
  }

  lemma {:induction false} RunSound(cfg: Limits, ops: seq<Op>, now: int)
    requires Sensible(cfg) && ClockNeverGoesBack(ops)
    requires ops != [] ==> ops[|ops| - 1].now <= now
    ensures Sound(Run(cfg, ops), now)
    decreases |ops|
  {
    if ops != [] {
      hide Refill;
      var init, op := ops[..|ops| - 1], ops[|ops| - 1];
      RunSound(cfg, init, op.now);
      var before := Run(cfg, init);
      if op.Consume? && op.principal in before {
        RefillGrows(cfg, 0, op.now - before[op.principal].lastRefill);
        RefillAdds(cfg, 0, 0);
      }
    }
  }

  /** Nobody can tell the two states apart from `now` on. */
  ghost predicate Alike(cfg: Limits, a: Buckets, b: Buckets, now: int) {
    forall p, t :: t >= now ==> Available(cfg, a, p, t) == Available(cfg, b, p, t)
  }

  lemma ConsumeAlike(cfg: Limits, a: Buckets, b: Buckets, p: string, tokens: real, now: int)
    requires Alike(cfg, a, b, now)
    ensures Alike(cfg, Consumed(cfg, a, p, tokens, now), Consumed(cfg, b, p, tokens, now), now)
  {
    hide Refill;
    var x, y := Consumed(cfg, a, p, tokens, now), Consumed(cfg, b, p, tokens, now);
    assert Available(cfg, a, p, now) == Available(cfg, b, p, now);
    forall q, t | t >= now ensures Available(cfg, x, q, t) == Available(cfg, y, q, t) {
      if q != p {
        assert Available(cfg, x, q, t) == Available(cfg, a, q, t);
        assert Available(cfg, y, q, t) == Available(cfg, b, q, t);
      }
    }
  }

  /** An eviction that waits long enough only forgets buckets that would be full again. */
  lemma EvictAlike(cfg: Limits, a: Buckets, older: int, now: int)
    requires Sensible(cfg) && Sound(a, now) && Refill(cfg, older + 1) >= cfg.capacity
    ensures Alike(cfg, Evicted(a, older, now), a, now)
  {
    hide Refill;
    forall p, t | t >= now ensures Available(cfg, Evicted(a, older, now), p, t) == Available(cfg, a, p, t) {
      if p in a && p !in Evicted(a, older, now) {
        RefillGrows(cfg, older + 1, t - a[p].lastRefill);
      }
    }
  }

  lemma {:induction false} SameAnswers(cfg: Limits, ops: seq<Op>, now: int)
    requires Sensible(cfg) && ClockNeverGoesBack(ops) && Patient(cfg, ops)
    requires ops != [] ==> ops[|ops| - 1].now <= now
    ensures Answers(cfg, ops) == Answers(cfg, WithoutEvictions(ops))
    ensures Alike(cfg, Run(cfg, ops), Run(cfg, WithoutEvictions(ops)), now)
    decreases |ops|
  {
    if ops != [] {
      hide Refill, Available;
      var init, op := ops[..|ops| - 1], ops[|ops| - 1];
      SameAnswers(cfg, init, op.now);
      var a, b := Run(cfg, init), Run(cfg, WithoutEvictions(init));
      match op {
        case Consume(p, tokens, t) =>
          ConsumeAlike(cfg, a, b, p, tokens, t);
          assert (WithoutEvictions(init) + [op])[..|WithoutEvictions(init)|] == WithoutEvictions(init);
        case Evict(o, t) =>
          RunSound(cfg, init, t);
          EvictAlike(cfg, a, o, t);
          assert WithoutEvictions(init) + [] == WithoutEvictions(init);
      }
    }
  }

  /** Evictions that wait `older` milliseconds or more never change an answer. */
  ghost predicate EvictionInvisible(cfg: Limits, older: int) {
    forall ops: seq<Op> :: ClockNeverGoesBack(ops) && EvictionsWait(ops, older) ==>
      Answers(cfg, ops) == Answers(cfg, WithoutEvictions(ops))
  }

  lemma EarlyEvictionShows(cfg: Limits, older: nat, p: string)
    requires Sensible(cfg) && cfg.capacity > 0.0 && Refill(cfg, older + 1) < cfg.capacity
    ensures var ops := [Consume(p, cfg.capacity, 0), Evict(older, older + 1), Consume(p, cfg.capacity, older + 1)];
            ClockNeverGoesBack(ops) && EvictionsWait(ops, older) &&
            Answers(cfg, ops) == [true, true] && Answers(cfg, WithoutEvictions(ops)) == [true, false]
  {
    hide Refill;
    var first, again := Consume(p, cfg.capacity, 0), Consume(p, cfg.capacity, older + 1);
    var evict := Evict(older, older + 1);
    var ops := [first, evict, again];
    assert ops[..2] == [first, evict] && [first, evict][..1] == [first] && [first][..0] == [];
    assert Run(cfg, [first]) == map[p := Bucket(0.0, 0)];
    assert Run(cfg, [first, evict]) == map[];
    assert Answers(cfg, [first]) == [true];
    assert Answers(cfg, [first, evict]) == [true];
    assert Answers(cfg, ops) == [true, true];
    assert WithoutEvictions([first]) == [first];
    assert WithoutEvictions([first, evict]) == [first];
    assert WithoutEvictions(ops) == [first, again];
    assert [first, again][..1] == [first];
    assert Available(cfg, Run(cfg, [first]), p, older + 1) < cfg.capacity;
  }

  /** The exact waiting time: an idle bucket must have had time to refill from empty. */
  lemma EvictionInvisibleExactly(cfg: Limits, older: nat)
    requires Sensible(cfg) && cfg.capacity > 0.0
    ensures EvictionInvisible(cfg, older) <==> Refill(cfg, older + 1) >= cfg.capacity
  {
    hide Refill, ClockNeverGoesBack, EvictionsWait, Answers, WithoutEvictions, Patient;
    if Refill(cfg, older + 1) >= cfg.capacity {
      forall ops: seq<Op> | ClockNeverGoesBack(ops) && EvictionsWait(ops, older)
        ensures Answers(cfg, ops) == Answers(cfg, WithoutEvictions(ops))
      {
        WaitingIsPatient(cfg, ops, older);
        SameAnswers(cfg, ops, if ops == [] then 0 else ops[|ops| - 1].now);
      }
    } else {
      EarlyEvictionShows(cfg, older, "p");
    }
  }

  /** What has been granted plus what is left never outgrows one full bucket and the refill. */
  lemma {:induction false} GrantedBound(cfg: Limits, ops: seq<Op>, p: string, i: nat, now: int)
    requires Sensible(cfg) && ClockNeverGoesBack(ops) && Patient(cfg, ops)
    requires i < |ops| && ops[|ops| - 1].now <= now
    ensures Granted(cfg, ops, p, i) + Available(cfg, Run(cfg, ops), p, now)
         <= cfg.capacity + Refill(cfg, now - ops[i].now)
    decreases |ops|
  {
    hide Refill;
    var init, op := ops[..|ops| - 1], ops[|ops| - 1];
    var before := Run(cfg, init);
    RefillGrows(cfg, 0, now - op.now);
    RefillAdds(cfg, 0, 0);
    RefillAdds(cfg, op.now - ops[i].now, now - op.now);
    RunSound(cfg, init, op.now);
    hide Available, Sound;
    if i < |init| {
      GrantedBound(cfg, init, p, i, op.now);
      GrantedBound(cfg, init, p, i, now);
    }
    StepBound(cfg, before, op, p, now);
  }

  /** One call: a grant comes out of what was available, and a refill adds at most its rate. */
  lemma StepBound(cfg: Limits, before: Buckets, op: Op, p: string, now: int)
    requires Sensible(cfg) && Sound(before, op.now) && op.now <= now
    requires op.Evict? ==> Refill(cfg, op.olderThanMs + 1) >= cfg.capacity
    ensures var level := Available(cfg, before, p, op.now);
            var grant := if op.Consume? && op.principal == p && level >= op.tokens then op.tokens else 0.0;
            if op.Consume? && op.principal == p
            then grant + Available(cfg, Step(cfg, before, op), p, now) <= level + Refill(cfg, now - op.now)
            else Available(cfg, Step(cfg, before, op), p, now) == Available(cfg, before, p, now)
  {
    hide Refill;
    if op.Evict? {
      EvictAlike(cfg, before, op.olderThanMs, op.now);
    }
  }

  /** The bucket is full, or some stretch of the run has used up what it lacks. */
  lemma {:induction false} LevelIsAStretch(cfg: Limits, ops: seq<Op>, p: string, now: int) returns (i: nat)
    requires Sensible(cfg) && ClockNeverGoesBack(ops) && Patient(cfg, ops)
    requires ops != [] ==> ops[|ops| - 1].now <= now
    ensures var level := Available(cfg, Run(cfg, ops), p, now);
            level == cfg.capacity ||
            (i < |ops| && level == cfg.capacity + Refill(cfg, now - ops[i].now) - Granted(cfg, ops, p, i))
    decreases |ops|
  {
    i := 0;
    if ops != [] {
      var init, op := ops[..|ops| - 1], ops[|ops| - 1];
      if op.Consume? && op.principal == p {
        i := LevelIsAStretch(cfg, init, p, op.now);
        LevelAfterConsume(cfg, Run(cfg, init), op, now);
        hide Available, Refill, Run;
        if Available(cfg, Run(cfg, init), p, op.now) == cfg.capacity {
          i := |init|;
        } else {
          RefillAdds(cfg, op.now - ops[i].now, now - op.now);
        }
      } else {
        i := LevelIsAStretch(cfg, init, p, now);
        RunSound(cfg, init, op.now);
        StepBound(cfg, Run(cfg, init), op, p, now);
      }
    }
  }

  lemma LevelAfterConsume(cfg: Limits, before: Buckets, op: Op, now: int)
    requires op.Consume?
    ensures var level := Available(cfg, before, op.principal, op.now);
            Available(cfg, Step(cfg, before, op), op.principal, now) ==
              Min(cfg.capacity, level - (if level >= op.tokens then op.tokens else 0.0) + Refill(cfg, now - op.now))
  {
    hide Refill;
  }

  /** Exactly when a call of a run is granted: when it asks for no more than the capacity and
      every stretch of the run that ends with it stays within the capacity plus the refill of
      the time that passed. */
  lemma GrantedExactly(cfg: Limits, ops: seq<Op>, j: nat)
    requires Sensible(cfg) && ClockNeverGoesBack(ops) && Patient(cfg, ops) && j < |ops| && ops[j].Consume?
    ensures Available(cfg, Run(cfg, ops[..j]), ops[j].principal, ops[j].now) >= ops[j].tokens <==>
            ops[j].tokens <= cfg.capacity &&
            forall i :: 0 <= i < j ==>
              Granted(cfg, ops[..j], ops[j].principal, i) + ops[j].tokens <=
                cfg.capacity + Refill(cfg, ops[j].now - ops[i].now)
  {
    var p, now, init := ops[j].principal, ops[j].now, ops[..j];
    var k := LevelIsAStretch(cfg, init, p, now);
    AtMostFull(cfg, Run(cfg, init), p, now);
    hide Refill, Available, Granted, Run;
    forall i | 0 <= i < j
      ensures Granted(cfg, init, p, i) + Available(cfg, Run(cfg, init), p, now)
           <= cfg.capacity + Refill(cfg, now - ops[i].now)
    {
      GrantedBound(cfg, init, p, i, now);
    }
  }

  lemma AtMostFull(cfg: Limits, buckets: Buckets, p: string, now: int)
    ensures Available(cfg, buckets, p, now) <= cfg.capacity
  {
  }

  /** Over any stretch of calls, what one principal is granted stays within one capacity plus
      the refill of the time that passed, evictions included as long as they wait. */
  lemma GrantedWithinRate(cfg: Limits, ops: seq<Op>, p: string, i: nat, j: nat)
    requires Sensible(cfg) && ClockNeverGoesBack(ops) && Patient(cfg, ops)
    requires i < j <= |ops|
    ensures Granted(cfg, ops[..j], p, i) <= cfg.capacity + Refill(cfg, ops[j - 1].now - ops[i].now)
  {
    var now := ops[j - 1].now;
    GrantedBound(cfg, ops[..j], p, i, now);
    RunSound(cfg, ops[..j], now);
    AvailableNotNegative(cfg, Run(cfg, ops[..j]), p, now);
  }

  /** Runs whose evictions wait that long keep every stretch within the rate. */
  ghost predicate RateKept(cfg: Limits, older: int) {
    forall ops: seq<Op>, p, i: nat, j: nat ::
      ClockNeverGoesBack(ops) && EvictionsWait(ops, older) && i < j <= |ops| ==> WithinRate(cfg, ops, p, i, j)
  }

  ghost predicate WithinRate(cfg: Limits, ops: seq<Op>, p: string, i: nat, j: nat)
    requires i < j <= |ops|
  {
    Granted(cfg, ops[..j], p, i) <= cfg.capacity + Refill(cfg, ops[j - 1].now - ops[i].now)
  }

  /** Evicted too early, a principal gets a full bucket twice. */
  lemma EarlyEvictionGrants(cfg: Limits, older: nat, p: string)
    requires Sensible(cfg) && cfg.capacity > 0.0 && Refill(cfg, older + 1) < cfg.capacity
    ensures var ops := [Consume(p, cfg.capacity, 0), Evict(older, older + 1), Consume(p, cfg.capacity, older + 1)];
            !WithinRate(cfg, ops, p, 0, 3)
  {
    hide Refill;
    var first, again := Consume(p, cfg.capacity, 0), Consume(p, cfg.capacity, older + 1);
    var evict := Evict(older, older + 1);
    var ops := [first, evict, again];
    assert ops[..3] == ops && ops[..2] == [first, evict] && [first, evict][..1] == [first] && [first][..0] == [];
    assert Run(cfg, [first]) == map[p := Bucket(0.0, 0)];
    assert Run(cfg, [first, evict]) == map[];
    assert Granted(cfg, [first], p, 0) == cfg.capacity;
    assert Granted(cfg, [first, evict], p, 0) == cfg.capacity;
    assert Granted(cfg, ops, p, 0) == 2.0 * cfg.capacity;
  }

  /** The exact waiting time for the rate to hold over every stretch of every run. */
  lemma RateKeptExactly(cfg: Limits, older: nat)
    requires Sensible(cfg) && cfg.capacity > 0.0
    ensures RateKept(cfg, older) <==> Refill(cfg, older + 1) >= cfg.capacity
  {
    hide Refill, ClockNeverGoesBack, EvictionsWait, Granted, Patient;
    if Refill(cfg, older + 1) >= cfg.capacity {
      forall ops: seq<Op>, p, i: nat, j: nat | ClockNeverGoesBack(ops) && EvictionsWait(ops, older) && i < j <= |ops|
        ensures WithinRate(cfg, ops, p, i, j)
      {
        WaitingIsPatient(cfg, ops, older);
        GrantedWithinRate(cfg, ops, p, i, j);
      }
    } else {
      EarlyEvictionShows(cfg, older, "p");
      EarlyEvictionGrants(cfg, older, "p");
    }
  }

  lemma AvailableNotNegative(cfg: Limits, buckets: Buckets, p: string, now: int)
    requires Sensible(cfg) && Sound(buckets, now)
    ensures Available(cfg, buckets, p, now) >= 0.0
  {
    if p in buckets {
      RefillGrows(cfg, 0, now - buckets[p].lastRefill);
    }
  }
}
