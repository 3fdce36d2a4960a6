/** The dashboard's token buckets and the registry that forgets idle ones.

    A request reads the monotonic clock four times: in the eviction sweep, twice in the
    constructor of a new bucket, and once in `acquire`.  All four readings are parameters here.
    The event loop runs the whole request without interleaving, because no code awaits while it
    holds the bucket's lock. */
module AuthRateLimit {
  import opened Text

  const ENTRY_TTL: real := 3600.0
  const EVICTION_INTERVAL: real := 1800.0

  datatype Params = Params(capacity: int, refillRate: real)

  ghost predicate ValidParams(p: Params) {
    p.capacity >= 1 && p.refillRate > 0.0
  }

  /** The clamping of the configured interval and burst. */
  function EffectiveParams(averageInterval: real, maxBurst: int): (p: Params)
    ensures ValidParams(p)
    ensures p.refillRate * (if averageInterval > 0.0 then averageInterval else 1.0) == 1.0
    ensures p.capacity == if maxBurst > 0 then maxBurst else 3
  {
    var interval := if averageInterval <= 0.0 then 1.0 else averageInterval;
    var burst := if maxBurst <= 0 then 3 else maxBurst;
    Params(burst, 1.0 / interval)
  }

  // ---------------------------------------------------------------- one bucket

  datatype Bucket = Bucket(p: Params, tokens: real, lastRefill: real, lastAccessed: real)

  datatype Outcome = Outcome(bucket: Bucket, accepted: bool)

  function Min(x: real, y: real): real {
    if x <= y then x else y
  }

  function Fresh(p: Params, refillClock: real, accessClock: real): Bucket {
    Bucket(p, p.capacity as real, refillClock, accessClock)
  }

  /** What a bucket earns between two clock readings. */
  function Gain(from: real, to: real, rate: real): real {
    (to - from) * rate
  }

  function Refilled(b: Bucket, now: real): real {
    Min(b.p.capacity as real, b.tokens + Gain(b.lastRefill, now, b.p.refillRate))
  }

  function AcquireStep(b: Bucket, now: real): Outcome {
    var tokens := Refilled(b, now);
    if tokens >= 1.0 then Outcome(Bucket(b.p, tokens - 1.0, now, now), true)
    else Outcome(Bucket(b.p, tokens, now, now), false)
  }

  ghost predicate InRange(b: Bucket) {
    ValidParams(b.p) && 0.0 <= b.tokens <= b.p.capacity as real
  }

  lemma GainNonNegative(x: real, y: real, rate: real)
    requires x <= y && rate > 0.0
    ensures 0.0 <= Gain(x, y, rate)
  {
  }

  lemma GainAdds(x: real, y: real, z: real, rate: real)
    ensures Gain(x, z, rate) == Gain(x, y, rate) + Gain(y, z, rate)
  {
  }

  lemma GainOver(from: real, span: real, rate: real)
    ensures Gain(from, from + span, rate) == span * rate
  {
    assert from + span - from == span;
  }

  lemma AcquireKeepsRange(b: Bucket, now: real)
    requires InRange(b) && b.lastRefill <= now
    ensures InRange(AcquireStep(b, now).bucket)
  {
    GainNonNegative(b.lastRefill, now, b.p.refillRate);
    assert 0.0 <= Refilled(b, now);
  }

  class AuthRateLimiter {
    var capacity: int
    var refillRate: real
    var tokens: real
    var lastRefill: real
    var lastAccessed: real

    ghost function View(): Bucket
      reads this
    {
      Bucket(Params(capacity, refillRate), tokens, lastRefill, lastAccessed)
    }

    constructor (capacity: int, refillRate: real, refillClock: real, accessClock: real)
      ensures View() == Fresh(Params(capacity, refillRate), refillClock, accessClock)
    {
      this.capacity := capacity;
      this.refillRate := refillRate;
      this.tokens := capacity as real;
      this.lastRefill := refillClock;
      this.lastAccessed := accessClock;
    }

    method Acquire(now: real) returns (ok: bool)
      modifies this
      ensures Outcome(View(), ok) == AcquireStep(old(View()), now)
    {
      ghost var was := View();
      var elapsed := now - lastRefill;
      assert elapsed * refillRate == Gain(lastRefill, now, refillRate);
      tokens := Min(capacity as real, tokens + elapsed * refillRate);
      lastRefill := now;
      lastAccessed := now;
      assert tokens == Refilled(was, now);
      if tokens >= 1.0 {
        tokens := tokens - 1.0;
        return true;
      }
      return false;
    }
  }

  // ---------------------------------------------------------------- runs of one bucket

  ghost predicate Ascending(from: real, times: seq<real>)
    decreases times
  {
    times == [] || (from <= times[0] && Ascending(times[0], times[1..]))
  }

  /** How many acquires of a run are accepted at a time inside the closed window [s, t]. */
  ghost function AcceptedIn(b: Bucket, times: seq<real>, s: real, t: real): nat
    decreases times
  {
    if times == [] then 0
    else
      var r := AcquireStep(b, times[0]);
      (if r.accepted && s <= times[0] <= t then 1 else 0) + AcceptedIn(r.bucket, times[1..], s, t)
  }

  /** From any state, what is accepted up to t is paid for by the tokens in hand and the refill. */
  lemma {:induction false} AcceptedArePaidFor(b: Bucket, times: seq<real>, s: real, t: real)
    requires InRange(b) && Ascending(b.lastRefill, times) && b.lastRefill <= t
    ensures AcceptedIn(b, times, s, t) as real <= b.tokens + Gain(b.lastRefill, t, b.p.refillRate)
    decreases times
  {
    var rate := b.p.refillRate;
    GainNonNegative(b.lastRefill, t, rate);
    if times != [] {
      var x := times[0];
      var r := AcquireStep(b, x);
      AcquireKeepsRange(b, x);
      if x <= t {
        AcceptedArePaidFor(r.bucket, times[1..], s, t);
        GainAdds(b.lastRefill, x, t, rate);
      } else {
        NothingAfter(r.bucket, times[1..], s, t);
      }
    }
  }

  lemma {:induction false} NothingAfter(b: Bucket, times: seq<real>, s: real, t: real)
    requires t < b.lastRefill && Ascending(b.lastRefill, times)
    ensures AcceptedIn(b, times, s, t) == 0
    decreases times
  {
    if times != [] {
      NothingAfter(AcquireStep(b, times[0]).bucket, times[1..], s, t);
    }
  }

  /** The token-bucket bound: in every run and for every window [s, t]. */
  lemma {:induction false} WindowBound(b: Bucket, times: seq<real>, s: real, t: real)
    requires InRange(b) && Ascending(b.lastRefill, times) && s <= t
    ensures AcceptedIn(b, times, s, t) as real <= b.p.capacity as real + Gain(s, t, b.p.refillRate)
    decreases times
  {
    var rate := b.p.refillRate;
    GainNonNegative(s, t, rate);
    if times != [] {
      var x := times[0];
      var r := AcquireStep(b, x);
      AcquireKeepsRange(b, x);
      if x < s {
        WindowBound(r.bucket, times[1..], s, t);
      } else if x <= t {
        AcceptedArePaidFor(r.bucket, times[1..], s, t);
        GainAdds(s, x, t, rate);
        GainNonNegative(s, x, rate);
      } else {
        NothingAfter(r.bucket, times[1..], s, t);
      }
    }
  }

  ghost predicate Spaced(from: real, times: seq<real>, interval: real)
    decreases times
  {
    times == [] || (from + interval <= times[0] && Spaced(times[0], times[1..], interval))
  }

  ghost predicate AllAccepted(b: Bucket, times: seq<real>)
    decreases times
  {
    times == [] || (var r := AcquireStep(b, times[0]); r.accepted && AllAccepted(r.bucket, times[1..]))
  }

  lemma {:induction false} SpacedSinceRefill(b: Bucket, times: seq<real>)
    requires InRange(b)
    requires Spaced(b.lastRefill, times, 1.0 / b.p.refillRate)
    ensures AllAccepted(b, times)
    decreases times
  {
    if times != [] {
      var rate := b.p.refillRate;
      var due := b.lastRefill + 1.0 / rate;
      GainAdds(b.lastRefill, due, times[0], rate);
      GainNonNegative(due, times[0], rate);
      assert Gain(b.lastRefill, due, rate) == (1.0 / rate) * rate == 1.0;
      AcquireKeepsRange(b, times[0]);
      SpacedSinceRefill(AcquireStep(b, times[0]).bucket, times[1..]);
    }
  }

  /** Calls at least 1/refillRate apart. */
  ghost predicate CallsSpaced(times: seq<real>, rate: real)
    requires rate > 0.0
  {
    times == [] || Spaced(times[0], times[1..], 1.0 / rate)
  }

  /** Calls at least 1/refillRate apart are never refused if the first one finds a token. */
  lemma SpacedCallsPass(b: Bucket, times: seq<real>)
    requires InRange(b) && CallsSpaced(times, b.p.refillRate)
    requires times != [] ==> b.lastRefill <= times[0] && Refilled(b, times[0]) >= 1.0
    ensures AllAccepted(b, times)
  {
    if times != [] {
      AcquireKeepsRange(b, times[0]);
      SpacedSinceRefill(AcquireStep(b, times[0]).bucket, times[1..]);
    }
  }

  /** So it is for every new bucket, also when its first call comes at once. */
  lemma FreshSpacedCallsPass(p: Params, refillClock: real, accessClock: real, times: seq<real>)
    requires ValidParams(p) && CallsSpaced(times, p.refillRate) && (times != [] ==> refillClock <= times[0])
    ensures AllAccepted(Fresh(p, refillClock, accessClock), times)
  {
    if times != [] {
      FreshHasToken(p, refillClock, accessClock, times[0]);
    }
    SpacedCallsPass(Fresh(p, refillClock, accessClock), times);
  }

  lemma FreshHasToken(p: Params, refillClock: real, accessClock: real, now: real)
    requires ValidParams(p) && refillClock <= now
    ensures InRange(Fresh(p, refillClock, accessClock)) && Refilled(Fresh(p, refillClock, accessClock), now) >= 1.0
  {
    GainNonNegative(refillClock, now, p.refillRate);
  }

  // ---------------------------------------------------------------- the exact answers of a bucket

  ghost function Answers(b: Bucket, times: seq<real>): seq<bool>
    decreases times
  {
    if times == [] then []
    else var r := AcquireStep(b, times[0]); [r.accepted] + Answers(r.bucket, times[1..])
  }

  ghost function CountTrue(answers: seq<bool>): nat {
    if answers == [] then 0 else (if answers[0] then 1 else 0) + CountTrue(answers[1..])
  }

  lemma {:induction false} AnswerEach(b: Bucket, times: seq<real>)
    ensures |Answers(b, times)| == |times|
    decreases times
  {
    if times != [] {
      AnswerEach(AcquireStep(b, times[0]).bucket, times[1..]);
    }
  }

  /** One more call fits into every window that ends with call k and begins with an earlier call. */
  ghost predicate Fits(p: Params, times: seq<real>, answers: seq<bool>, k: nat)
    requires k < |times| == |answers|
  {
    forall j :: 0 <= j <= k ==>
      CountTrue(answers[j..k]) as real + 1.0 <= p.capacity as real + Gain(times[j], times[k], p.refillRate)
  }

  ghost predicate PaidBy(b: Bucket, times: seq<real>, answers: seq<bool>, k: nat)
    requires k < |times| == |answers|
  {
    CountTrue(answers[..k]) as real + 1.0 <= b.tokens + Gain(b.lastRefill, times[k], b.p.refillRate)
  }

  lemma CountTrueCons(first: bool, rest: seq<bool>, k: nat)
    requires k <= |rest|
    ensures CountTrue(([first] + rest)[..k + 1]) == (if first then 1 else 0) + CountTrue(rest[..k])
  {
    assert ([first] + rest)[..k + 1] == [first] + rest[..k];
  }

  lemma FitsTail(p: Params, times: seq<real>, answers: seq<bool>, k: nat)
    requires 0 < k < |times| == |answers|
    ensures Fits(p, times, answers, k) <==>
            Fits(p, times[1..], answers[1..], k - 1) &&
            CountTrue(answers[..k]) as real + 1.0 <= p.capacity as real + Gain(times[0], times[k], p.refillRate)
  {
    forall j | 0 <= j < k
      ensures answers[1..][j..k - 1] == answers[j + 1..k] && times[1..][j] == times[j + 1]
    {
    }
    if Fits(p, times, answers, k) {
      assert answers[0..k] == answers[..k];
      forall j | 0 <= j <= k - 1
        ensures CountTrue(answers[1..][j..k - 1]) as real + 1.0
             <= p.capacity as real + Gain(times[1..][j], times[1..][k - 1], p.refillRate)
      {
        assert 0 <= j + 1 <= k;
      }
    }
    if Fits(p, times[1..], answers[1..], k - 1) {
      forall j | 0 < j <= k
        ensures CountTrue(answers[j..k]) as real + 1.0 <= p.capacity as real + Gain(times[j], times[k], p.refillRate)
      {
        assert answers[1..][j - 1..k - 1] == answers[j..k] && times[1..][j - 1] == times[j];
      }
      assert answers[0..k] == answers[..k];
    }
  }

  /** The exact answers, without tokens: from any bucket and for any times, a call is accepted iff it
      fits into every window from an earlier call on and is paid for by the bucket. */
  lemma {:induction false} AcceptedIff(b: Bucket, times: seq<real>, k: nat)
    requires k < |times|
    ensures |Answers(b, times)| == |times|
    ensures Answers(b, times)[k] <==>
            Fits(b.p, times, Answers(b, times), k) && PaidBy(b, times, Answers(b, times), k)
    decreases times
  {
    AnswerEach(b, times);
    var answers, x := Answers(b, times), times[0];
    var r := AcquireStep(b, x);
    if k == 0 {
      assert Gain(x, x, b.p.refillRate) == 0.0;
      assert CountTrue(answers[0..0]) == 0;
    } else {
      AcceptedIff(r.bucket, times[1..], k - 1);
      FitsTail(b.p, times, answers, k);
      CountTrueCons(r.accepted, answers[1..], k - 1);
      GainAdds(b.lastRefill, x, times[k], b.p.refillRate);
      assert answers == [r.accepted] + answers[1..];
    }
  }

  /** So a new bucket accepts exactly the calls that fit. */
  lemma FreshAcceptedIff(p: Params, refillClock: real, accessClock: real, times: seq<real>, k: nat)
    requires ValidParams(p) && k < |times| && Ascending(refillClock, times)
    ensures var answers := Answers(Fresh(p, refillClock, accessClock), times);
            |answers| == |times| && (answers[k] <==> Fits(p, times, answers, k))
  {
    var b := Fresh(p, refillClock, accessClock);
    AcceptedIff(b, times, k);
    var answers := Answers(b, times);
    GainAdds(refillClock, times[0], times[k], p.refillRate);
    GainNonNegative(refillClock, times[0], p.refillRate);
    assert answers[0..k] == answers[..k];
  }

  /** Two buckets that cannot be told apart from now on. */
  ghost predicate SameFrom(a: Bucket, b: Bucket, now: real) {
    && a.p == b.p && InRange(a) && InRange(b) && a.lastRefill <= now && b.lastRefill <= now
    && Refilled(a, now) == Refilled(b, now)
  }

  lemma SameLater(a: Bucket, b: Bucket, x: real, y: real)
    requires SameFrom(a, b, x) && x <= y
    ensures SameFrom(a, b, y) && AcquireStep(a, y) == AcquireStep(b, y)
  {
    var rate := a.p.refillRate;
    GainAdds(a.lastRefill, x, y, rate);
    GainAdds(b.lastRefill, x, y, rate);
    GainNonNegative(x, y, rate);
  }

  lemma RefusedIsSame(b: Bucket, now: real)
    requires InRange(b) && b.lastRefill <= now && !AcquireStep(b, now).accepted
    ensures SameFrom(AcquireStep(b, now).bucket, b, now)
  {
    AcquireKeepsRange(b, now);
    RefillAtOnce(AcquireStep(b, now).bucket, now);
  }

  /** A refused call leaves no trace. */
  lemma RefusalLeavesNoTrace(b: Bucket, x: real, rest: seq<real>)
    requires InRange(b) && Ascending(b.lastRefill, [x] + rest) && !Answers(b, [x] + rest)[0]
    ensures Answers(b, [x] + rest) == [false] + Answers(b, rest)
  {
    var r := AcquireStep(b, x);
    assert ([x] + rest)[1..] == rest;
    RefusedIsSame(b, x);
    if rest != [] {
      SameLater(r.bucket, b, x, rest[0]);
    }
  }

  // ---------------------------------------------------------------- the registry

  datatype Request = Request(key: string, evictClock: real, refillClock: real, accessClock: real, acquireClock: real)

  datatype Registry = Registry(buckets: map<string, Bucket>, lastEviction: real)

  ghost predicate Stale(b: Bucket, now: real) {
    b.lastAccessed < now - ENTRY_TTL
  }

  ghost function Evict(s: Registry, now: real): Registry {
    if now - s.lastEviction < EVICTION_INTERVAL then s
    else Registry(map k | k in s.buckets && !Stale(s.buckets[k], now) :: s.buckets[k], now)
  }

  ghost function Lookup(m: map<string, Bucket>, p: Params, r: Request): Bucket {
    if r.key in m then m[r.key] else Fresh(p, r.refillClock, r.accessClock)
  }

  /** One rate-limited request against the evicting registry. */
  ghost function Handle(s: Registry, p: Params, r: Request): (Registry, bool) {
    var e := Evict(s, r.evictClock);
    var o := AcquireStep(Lookup(e.buckets, p, r), r.acquireClock);
    (Registry(e.buckets[r.key := o.bucket], e.lastEviction), o.accepted)
  }

  class RateLimiterRegistry {
    var limiters: map<string, AuthRateLimiter>
    var lastEviction: real

    // No two keys share a bucket.
    ghost predicate Valid()
      reads this
    {
      forall j, k :: j in limiters && k in limiters && limiters[j] == limiters[k] ==> j == k
    }

    ghost function View(): Registry
      reads this, limiters.Values
    {
      Registry(map k | k in limiters :: limiters[k].View(), lastEviction)
    }

    constructor (clock: real)
      ensures Valid() && View() == Registry(map[], clock)
    {
      limiters := map[];
      lastEviction := clock;
    }

    method EvictExpired(now: real)
      requires Valid()
      modifies this
      ensures Valid() && limiters.Values <= old(limiters.Values)
      ensures View() == Evict(old(View()), now)
    {
      if now - lastEviction < EVICTION_INTERVAL {
        return;
      }
      lastEviction := now;
      var cutoff := now - ENTRY_TTL;
      var stale := set k | k in limiters && limiters[k].lastAccessed < cutoff;
      var rest := stale;
      while rest != {}
        invariant rest <= stale
        invariant limiters == old(limiters) - (stale - rest)
        invariant lastEviction == now
      {
        var k :| k in rest;
        limiters := limiters - {k};
        rest := rest - {k};
      }
      assert limiters == old(limiters) - stale;
    }

    method GetOrCreate(key: string, capacity: int, refillRate: real, r: Request) returns (limiter: AuthRateLimiter)
      requires Valid() && r.key == key
      modifies this
      ensures Valid() && key in limiters && limiters[key] == limiter
      ensures limiter in old(limiters.Values) || fresh(limiter)
      ensures limiters.Values <= old(limiters.Values) + {limiter}
      ensures var e := Evict(old(View()), r.evictClock);
              View() == Registry(e.buckets[key := Lookup(e.buckets, Params(capacity, refillRate), r)], e.lastEviction)
    {
      EvictExpired(r.evictClock);
      if key in limiters {
        limiter := limiters[key];
      } else {
        limiter := new AuthRateLimiter(capacity, refillRate, r.refillClock, r.accessClock);
        limiters := limiters[key := limiter];
      }
    }

    /** The rate-limited part of a request: find the client's bucket, then draw on it. */
    method Apply(p: Params, r: Request) returns (ok: bool)
      requires Valid()
      modifies this, limiters.Values
      ensures Valid() && (View(), ok) == Handle(old(View()), p, r)
    {
      var limiter := GetOrCreate(r.key, p.capacity, p.refillRate, r);
      ghost var e := Evict(old(View()), r.evictClock);
      assert View().buckets[r.key] == limiter.View() == Lookup(e.buckets, p, r);
      ok := limiter.Acquire(r.acquireClock);
      assert View().buckets == e.buckets[r.key := limiter.View()];
    }
  }

  // ---------------------------------------------------------------- eviction is invisible

  ghost predicate Monotone(from: real, rs: seq<Request>)
    decreases rs
  {
    rs == [] ||
    (from <= rs[0].evictClock <= rs[0].refillClock <= rs[0].accessClock <= rs[0].acquireClock &&
     Monotone(rs[0].acquireClock, rs[1..]))
  }

  ghost function Decisions(s: Registry, p: Params, rs: seq<Request>): seq<bool>
    decreases rs
  {
    if rs == [] then []
    else var (s', ok) := Handle(s, p, rs[0]); [ok] + Decisions(s', p, rs[1..])
  }

  /** The reference: the same buckets, never evicted. */
  ghost function ReferenceDecisions(m: map<string, Bucket>, p: Params, rs: seq<Request>): seq<bool>
    decreases rs
  {
    if rs == [] then []
    else
      var o := AcquireStep(Lookup(m, p, rs[0]), rs[0].acquireClock);
      [o.accepted] + ReferenceDecisions(m[rs[0].key := o.bucket], p, rs[1..])
  }

  ghost predicate FullBy(b: Bucket, now: real) {
    b.tokens + Gain(b.lastRefill, now, b.p.refillRate) >= b.p.capacity as real
  }

  ghost predicate Settled(b: Bucket, p: Params, now: real) {
    b.p == p && InRange(b) && b.lastRefill == b.lastAccessed <= now
  }

  /** The registry agrees with the reference on the keys it kept; the others have refilled. */
  ghost predicate Simulates(s: Registry, m: map<string, Bucket>, p: Params, now: real) {
    && s.buckets.Keys <= m.Keys
    && (forall k :: k in m ==> Settled(m[k], p, now))
    && (forall k :: k in s.buckets ==> s.buckets[k] == m[k])
    && (forall k :: k in m && k !in s.buckets ==> FullBy(m[k], now))
  }

  lemma FullStaysFull(b: Bucket, x: real, y: real)
    requires b.p.refillRate > 0.0 && x <= y && FullBy(b, x)
    ensures FullBy(b, y)
  {
    GainAdds(b.lastRefill, x, y, b.p.refillRate);
    GainNonNegative(x, y, b.p.refillRate);
  }

  lemma StaleIsFull(b: Bucket, p: Params, now: real)
    requires Settled(b, p, b.lastAccessed) && p.capacity as real <= ENTRY_TTL * p.refillRate
    requires Stale(b, now)
    ensures FullBy(b, now)
  {
    var expiry := b.lastRefill + ENTRY_TTL;
    GainOver(b.lastRefill, ENTRY_TTL, p.refillRate);
    GainAdds(b.lastRefill, expiry, now, p.refillRate);
    GainNonNegative(expiry, now, p.refillRate);
  }

  lemma EvictSimulates(s: Registry, m: map<string, Bucket>, p: Params, from: real, now: real)
    requires ValidParams(p) && p.capacity as real <= ENTRY_TTL * p.refillRate
    requires Simulates(s, m, p, from) && from <= now
    ensures Simulates(Evict(s, now), m, p, now)
  {
    var e := Evict(s, now);
    forall k | k in m && k !in e.buckets
      ensures FullBy(m[k], now)
    {
      if k in s.buckets {
        StaleIsFull(m[k], p, now);
      } else {
        FullStaysFull(m[k], from, now);
      }
    }
  }

  lemma HandleSimulates(s: Registry, m: map<string, Bucket>, p: Params, from: real, r: Request)
    requires ValidParams(p) && p.capacity as real <= ENTRY_TTL * p.refillRate
    requires Simulates(s, m, p, from) && Monotone(from, [r])
    ensures var o := AcquireStep(Lookup(m, p, r), r.acquireClock);
            var (s', ok) := Handle(s, p, r);
            ok == o.accepted && Simulates(s', m[r.key := o.bucket], p, r.acquireClock)
  {
    EvictSimulates(s, m, p, from, r.evictClock);
    var e := Evict(s, r.evictClock);
    var b, c := Lookup(m, p, r), Lookup(e.buckets, p, r);
    GainNonNegative(r.refillClock, r.acquireClock, p.refillRate);
    AcquireKeepsRange(b, r.acquireClock);
    if r.key in m && r.key !in e.buckets {
      FullStaysFull(b, r.evictClock, r.acquireClock);
    }
    assert AcquireStep(b, r.acquireClock) == AcquireStep(c, r.acquireClock);
    forall k | k in m && k !in e.buckets
      ensures FullBy(m[k], r.acquireClock)
    {
      FullStaysFull(m[k], r.evictClock, r.acquireClock);
    }
  }

  lemma {:induction false} EvictionInvisibleFrom(s: Registry, m: map<string, Bucket>, p: Params, from: real,
                                                 rs: seq<Request>)
    requires ValidParams(p) && p.capacity as real <= ENTRY_TTL * p.refillRate
    requires Simulates(s, m, p, from) && Monotone(from, rs)
    ensures Decisions(s, p, rs) == ReferenceDecisions(m, p, rs)
    decreases rs
  {
    if rs != [] {
      var r := rs[0];
      HandleSimulates(s, m, p, from, r);
      var o := AcquireStep(Lookup(m, p, r), r.acquireClock);
      EvictionInvisibleFrom(Handle(s, p, r).0, m[r.key := o.bucket], p, r.acquireClock, rs[1..]);
    }
  }

  lemma EvictionInvisible(p: Params, start: real, rs: seq<Request>)
    requires ValidParams(p) && p.capacity as real <= ENTRY_TTL * p.refillRate
    requires Monotone(start, rs)
    ensures Decisions(Registry(map[], start), p, rs) == ReferenceDecisions(map[], p, rs)
  {
    EvictionInvisibleFrom(Registry(map[], start), map[], p, start, rs);
  }

  // ---------------------------------------------------------------- ... and only then

  /** n requests of one client at one instant. */
  ghost function Burst(clock: real, n: nat): (rs: seq<Request>)
    ensures |rs| == n
  {
    if n == 0 then [] else [Request("client", clock, clock, clock, clock)] + Burst(clock, n - 1)
  }

  ghost function Granted(n: nat): seq<bool> {
    if n == 0 then [] else [true] + Granted(n - 1)
  }

  ghost function Drained(p: Params, tokens: real, clock: real): Bucket {
    Bucket(p, tokens, clock, clock)
  }

  lemma RefillAtOnce(b: Bucket, clock: real)
    requires b.lastRefill == clock && b.tokens <= b.p.capacity as real
    ensures Refilled(b, clock) == b.tokens
  {
    assert Gain(clock, clock, b.p.refillRate) == 0.0;
  }

  ghost function RegistryAfter(s: Registry, p: Params, rs: seq<Request>): Registry
    decreases rs
  {
    if rs == [] then s else RegistryAfter(Handle(s, p, rs[0]).0, p, rs[1..])
  }

  ghost function ReferenceAfter(m: map<string, Bucket>, p: Params, rs: seq<Request>): map<string, Bucket>
    decreases rs
  {
    if rs == [] then m
    else ReferenceAfter(m[rs[0].key := AcquireStep(Lookup(m, p, rs[0]), rs[0].acquireClock).bucket], p, rs[1..])
  }

  lemma {:induction false} RunsCompose(s: Registry, p: Params, rs: seq<Request>, more: seq<Request>)
    ensures Decisions(s, p, rs + more) == Decisions(s, p, rs) + Decisions(RegistryAfter(s, p, rs), p, more)
    decreases rs
  {
    if rs == [] {
      assert rs + more == more;
    } else {
      assert (rs + more)[1..] == rs[1..] + more;
      RunsCompose(Handle(s, p, rs[0]).0, p, rs[1..], more);
    }
  }

  lemma {:induction false} ReferenceRunsCompose(m: map<string, Bucket>, p: Params, rs: seq<Request>, more: seq<Request>)
    ensures ReferenceDecisions(m, p, rs + more)
         == ReferenceDecisions(m, p, rs) + ReferenceDecisions(ReferenceAfter(m, p, rs), p, more)
    decreases rs
  {
    if rs == [] {
      assert rs + more == more;
    } else {
      assert (rs + more)[1..] == rs[1..] + more;
      var o := AcquireStep(Lookup(m, p, rs[0]), rs[0].acquireClock);
      ReferenceRunsCompose(m[rs[0].key := o.bucket], p, rs[1..], more);
    }
  }

  lemma BurstUnfolds(clock: real, n: nat)
    requires n >= 1
    ensures Burst(clock, n)[0] == Request("client", clock, clock, clock, clock)
    ensures Burst(clock, n)[1..] == Burst(clock, n - 1)
  {
  }

  lemma DrawOne(p: Params, x: real, clock: real)
    requires 1.0 <= x <= p.capacity as real
    ensures AcquireStep(Drained(p, x, clock), clock) == Outcome(Drained(p, x - 1.0, clock), true)
  {
    RefillAtOnce(Drained(p, x, clock), clock);
  }

  /** Draining a bucket at one instant, in the registry and in the reference. */
  lemma {:induction false} BurstDrains(s: Registry, m: map<string, Bucket>, p: Params, x: real, clock: real, n: nat)
    requires n as real <= x <= p.capacity as real && clock - s.lastEviction < EVICTION_INTERVAL
    requires "client" in s.buckets && s.buckets["client"] == Drained(p, x, clock)
    requires "client" in m && m["client"] == Drained(p, x, clock)
    ensures Decisions(s, p, Burst(clock, n)) == ReferenceDecisions(m, p, Burst(clock, n)) == Granted(n)
    ensures RegistryAfter(s, p, Burst(clock, n))
         == Registry(s.buckets["client" := Drained(p, x - n as real, clock)], s.lastEviction)
    ensures ReferenceAfter(m, p, Burst(clock, n)) == m["client" := Drained(p, x - n as real, clock)]
    decreases n
  {
    if n == 0 {
      assert s.buckets["client" := Drained(p, x, clock)] == s.buckets;
      assert m["client" := Drained(p, x, clock)] == m;
    } else {
      BurstUnfolds(clock, n);
      DrawOne(p, x, clock);
      var next := Drained(p, x - 1.0, clock);
      var s' := Registry(s.buckets["client" := next], s.lastEviction);
      assert Handle(s, p, Burst(clock, n)[0]) == (s', true);
      BurstDrains(s', m["client" := next], p, x - 1.0, clock, n - 1);
      var last := Drained(p, x - n as real, clock);
      assert x - 1.0 - (n - 1) as real == x - n as real;
      assert s'.buckets["client" := last] == s.buckets["client" := last];
      assert m["client" := next]["client" := last] == m["client" := last];
    }
  }

  lemma FreshDraw(s: Registry, p: Params, clock: real)
    requires ValidParams(p) && "client" !in Evict(s, clock).buckets
    ensures var e := Evict(s, clock);
            Handle(s, p, Request("client", clock, clock, clock, clock))
            == (Registry(e.buckets["client" := Drained(p, p.capacity as real - 1.0, clock)], e.lastEviction), true)
  {
    DrawOne(p, p.capacity as real, clock);
    assert Fresh(p, clock, clock) == Drained(p, p.capacity as real, clock);
  }

  lemma UpdateTwice(m: map<string, Bucket>, a: Bucket, b: Bucket)
    ensures m["client" := a]["client" := b] == m["client" := b]
  {
  }

  /** A client without a bucket can draw its whole capacity at once. */
  lemma FreshBurst(s: Registry, m: map<string, Bucket>, p: Params, clock: real)
    requires ValidParams(p) && "client" !in Evict(s, clock).buckets && "client" !in m
    ensures var rs := Burst(clock, p.capacity);
            var e := Evict(s, clock);
            Decisions(s, p, rs) == ReferenceDecisions(m, p, rs) == Granted(p.capacity) &&
            RegistryAfter(s, p, rs) == Registry(e.buckets["client" := Drained(p, 0.0, clock)], e.lastEviction) &&
            ReferenceAfter(m, p, rs) == m["client" := Drained(p, 0.0, clock)]
  {
    var n: nat := p.capacity;
    var x := n as real;
    BurstUnfolds(clock, n);
    DrawOne(p, x, clock);
    FreshDraw(s, p, clock);
    var e := Evict(s, clock);
    var next, last := Drained(p, x - 1.0, clock), Drained(p, 0.0, clock);
    var s' := Registry(e.buckets["client" := next], e.lastEviction);
    assert x - 1.0 - (n - 1) as real == 0.0;
    BurstDrains(s', m["client" := next], p, x - 1.0, clock, n - 1);
    UpdateTwice(e.buckets, next, last);
    UpdateTwice(m, next, last);
  }

  lemma {:induction false} ReferenceRefusesBurst(m: map<string, Bucket>, p: Params, clock: real, n: nat)
    requires n >= 1 && ValidParams(p) && "client" in m && m["client"].p == p && Refilled(m["client"], clock) < n as real
    ensures false in ReferenceDecisions(m, p, Burst(clock, n))
    decreases n
  {
    var rs := Burst(clock, n);
    var o := AcquireStep(m["client"], clock);
    assert rs[1..] == Burst(clock, n - 1);
    assert ReferenceDecisions(m, p, rs) == [o.accepted] + ReferenceDecisions(m["client" := o.bucket], p, rs[1..]);
    if o.accepted {
      RefillAtOnce(o.bucket, clock);
      ReferenceRefusesBurst(m["client" := o.bucket], p, clock, n - 1);
    }
  }

  lemma {:induction false} GrantedHasNoFalse(n: nat)
    ensures false !in Granted(n)
  {
    if n > 0 { GrantedHasNoFalse(n - 1); }
  }

  lemma {:induction false} GrantedLength(n: nat)
    ensures |Granted(n)| == n
  {
    if n > 0 { GrantedLength(n - 1); }
  }

  lemma {:induction false} BurstMonotone(from: real, clock: real, n: nat, rest: seq<Request>)
    requires from <= clock && Monotone(clock, rest)
    ensures Monotone(from, Burst(clock, n) + rest)
    decreases n
  {
    if n > 0 {
      BurstMonotone(clock, clock, n - 1, rest);
      assert (Burst(clock, n) + rest)[1..] == Burst(clock, n - 1) + rest;
    } else {
      assert Burst(clock, 0) + rest == rest;
    }
  }

  /** An instant after the entry's expiry at which a drained bucket has not refilled. */
  lemma UnrefilledInstant(p: Params) returns (t: real)
    requires ValidParams(p) && p.capacity as real > ENTRY_TTL * p.refillRate
    ensures t > ENTRY_TTL && Gain(0.0, t, p.refillRate) < p.capacity as real
  {
    var rate := p.refillRate;
    var full := p.capacity as real / rate;
    assert full * rate == p.capacity as real;
    if full <= ENTRY_TTL {
      GainNonNegative(full, ENTRY_TTL, rate);
      assert false;
    }
    t := (ENTRY_TTL + full) / 2.0;
    assert t * rate == (ENTRY_TTL * rate + p.capacity as real) / 2.0;
  }

  /** Draining a bucket, waiting for its eviction and coming back is noticed. */
  lemma EvictionVisible(p: Params) returns (rs: seq<Request>)
    requires ValidParams(p) && p.capacity as real > ENTRY_TTL * p.refillRate
    ensures Monotone(0.0, rs)
    ensures Decisions(Registry(map[], 0.0), p, rs) != ReferenceDecisions(map[], p, rs)
  {
    var n: nat := p.capacity;
    var t := UnrefilledInstant(p);
    var late := Burst(t, n);
    assert late + [] == late;
    rs := Burst(0.0, n) + late;
    BurstMonotone(0.0, t, n, []);
    BurstMonotone(0.0, 0.0, n, late);

    var s0 := Registry(map[], 0.0);
    RunsCompose(s0, p, Burst(0.0, n), late);
    ReferenceRunsCompose(map[], p, Burst(0.0, n), late);
    FreshBurst(s0, map[], p, 0.0);
    var s1, m1 := RegistryAfter(s0, p, Burst(0.0, n)), ReferenceAfter(map[], p, Burst(0.0, n));
    assert "client" !in Evict(s1, t).buckets;
    FreshBurst(s1, map[], p, t);
    assert Decisions(s1, p, late) == Granted(n);
    ReferenceRefusesBurst(m1, p, t, n);
    GrantedHasNoFalse(n);
    assert Decisions(s0, p, rs)[n..] == Decisions(s1, p, late) by { GrantedLength(n); }
    assert ReferenceDecisions(map[], p, rs)[n..] == ReferenceDecisions(m1, p, late) by { GrantedLength(n); }
  }

  /** Eviction is unobservable exactly when an idle bucket refills before its entry expires. */
  lemma EvictionInvisibleIff(p: Params)
    requires ValidParams(p)
    ensures p.capacity as real <= ENTRY_TTL * p.refillRate <==>
            forall start: real, rs | Monotone(start, rs) ::
              Decisions(Registry(map[], start), p, rs) == ReferenceDecisions(map[], p, rs)
  {
    if p.capacity as real <= ENTRY_TTL * p.refillRate {
      forall start: real, rs | Monotone(start, rs)
        ensures Decisions(Registry(map[], start), p, rs) == ReferenceDecisions(map[], p, rs)
      {
        EvictionInvisible(p, start, rs);
      }
    } else {
      var rs := EvictionVisible(p);
    }
  }

  lemma Scaled(rate: real, interval: real)
    requires rate * interval == 1.0
    ensures ENTRY_TTL * rate * interval == ENTRY_TTL
  {
  }

  /** The same condition on the configured values: burst times interval within one hour. */
  lemma ConfiguredEviction(averageInterval: real, maxBurst: int)
    requires averageInterval > 0.0 && maxBurst > 0
    ensures var p := EffectiveParams(averageInterval, maxBurst);
            p.capacity as real <= ENTRY_TTL * p.refillRate <==> maxBurst as real * averageInterval <= 3600.0
  {
    var p := EffectiveParams(averageInterval, maxBurst);
    var burst, earned := maxBurst as real, ENTRY_TTL * p.refillRate;
    Scaled(p.refillRate, averageInterval);
    assert (earned - burst) * averageInterval == ENTRY_TTL - burst * averageInterval;
    if burst <= earned {
      GainNonNegative(burst, earned, averageInterval);
    } else {
      assert (burst - earned) * averageInterval > 0.0;
    }
  }

  // ---------------------------------------------------------------- the bound for every client

  /** How many requests of one client are accepted in the window [s, t], given the decisions. */
  ghost function ClientAccepted(ds: seq<bool>, rs: seq<Request>, key: string, s: real, t: real): nat
    requires |ds| == |rs|
    decreases rs
  {
    if rs == [] then 0
    else
      (if ds[0] && rs[0].key == key && s <= rs[0].acquireClock <= t then 1 else 0)
      + ClientAccepted(ds[1..], rs[1..], key, s, t)
  }

  ghost function ClientTimes(rs: seq<Request>, key: string): seq<real> {
    if rs == [] then []
    else (if rs[0].key == key then [rs[0].acquireClock] else []) + ClientTimes(rs[1..], key)
  }

  lemma {:induction false} OneDecisionEach(m: map<string, Bucket>, p: Params, rs: seq<Request>)
    ensures |ReferenceDecisions(m, p, rs)| == |rs|
    decreases rs
  {
    if rs != [] {
      var o := AcquireStep(Lookup(m, p, rs[0]), rs[0].acquireClock);
      OneDecisionEach(m[rs[0].key := o.bucket], p, rs[1..]);
    }
  }

  lemma {:induction false} TimesAscend(rs: seq<Request>, key: string, from: real, bound: real)
    requires Monotone(from, rs) && bound <= from
    ensures Ascending(bound, ClientTimes(rs, key))
    decreases rs
  {
    if rs != [] {
      if rs[0].key == key {
        TimesAscend(rs[1..], key, rs[0].acquireClock, rs[0].acquireClock);
        assert ClientTimes(rs, key)[1..] == ClientTimes(rs[1..], key);
      } else {
        assert ClientTimes(rs, key) == ClientTimes(rs[1..], key);
        TimesAscend(rs[1..], key, rs[0].acquireClock, bound);
      }
    }
  }

  /** Once its bucket exists, a client is accepted as often as that bucket alone accepts. */
  lemma {:induction false} OwnBucketCounts(m: map<string, Bucket>, p: Params, rs: seq<Request>, key: string, s: real,
                                           t: real)
    requires key in m
    ensures |ReferenceDecisions(m, p, rs)| == |rs|
    ensures ClientAccepted(ReferenceDecisions(m, p, rs), rs, key, s, t)
         == AcceptedIn(m[key], ClientTimes(rs, key), s, t)
    decreases rs
  {
    OneDecisionEach(m, p, rs);
    if rs != [] {
      var o := AcquireStep(Lookup(m, p, rs[0]), rs[0].acquireClock);
      OwnBucketCounts(m[rs[0].key := o.bucket], p, rs[1..], key, s, t);
      assert ReferenceDecisions(m, p, rs)[1..] == ReferenceDecisions(m[rs[0].key := o.bucket], p, rs[1..]);
      if rs[0].key == key {
        assert ClientTimes(rs, key)[1..] == ClientTimes(rs[1..], key);
      } else {
        assert ClientTimes(rs, key) == ClientTimes(rs[1..], key);
      }
    }
  }

  lemma {:induction false} ReferenceClientBound(m: map<string, Bucket>, p: Params, from: real, rs: seq<Request>,
                                                key: string, s: real, t: real)
    requires ValidParams(p) && Monotone(from, rs) && s <= t && key !in m
    ensures |ReferenceDecisions(m, p, rs)| == |rs|
    ensures ClientAccepted(ReferenceDecisions(m, p, rs), rs, key, s, t) as real
         <= p.capacity as real + Gain(s, t, p.refillRate)
    decreases rs
  {
    OneDecisionEach(m, p, rs);
    GainNonNegative(s, t, p.refillRate);
    if rs != [] {
      var r := rs[0];
      if r.key == key {
        var b := Fresh(p, r.refillClock, r.accessClock);
        var start := m[key := b];
        assert ReferenceDecisions(m, p, rs) == ReferenceDecisions(start, p, rs) by {
          assert m[key := AcquireStep(b, r.acquireClock).bucket] == start[key := AcquireStep(b, r.acquireClock).bucket];
        }
        OwnBucketCounts(start, p, rs, key, s, t);
        TimesAscend(rs[1..], key, r.acquireClock, r.acquireClock);
        assert ClientTimes(rs, key)[1..] == ClientTimes(rs[1..], key);
        WindowBound(b, ClientTimes(rs, key), s, t);
      } else {
        var m' := m[r.key := AcquireStep(Lookup(m, p, r), r.acquireClock).bucket];
        ReferenceClientBound(m', p, r.acquireClock, rs[1..], key, s, t);
        assert ReferenceDecisions(m, p, rs)[1..] == ReferenceDecisions(m', p, rs[1..]);
      }
    }
  }

  /** The evicting registry still holds every client to its bucket's bound. */
  lemma RegistryClientBound(p: Params, start: real, rs: seq<Request>, key: string, s: real, t: real)
    requires ValidParams(p) && p.capacity as real <= ENTRY_TTL * p.refillRate
    requires Monotone(start, rs) && s <= t
    ensures var ds := Decisions(Registry(map[], start), p, rs);
            |ds| == |rs| && ClientAccepted(ds, rs, key, s, t) as real <= p.capacity as real + Gain(s, t, p.refillRate)
  {
    EvictionInvisible(p, start, rs);
    ReferenceClientBound(map[], p, start, rs, key, s, t);
  }

  // ---------------------------------------------------------------- one client among others

  ghost function Only(rs: seq<Request>, key: string): seq<Request> {
    if rs == [] then [] else (if rs[0].key == key then [rs[0]] else []) + Only(rs[1..], key)
  }

  ghost function AnswersTo(ds: seq<bool>, rs: seq<Request>, key: string): seq<bool>
    requires |ds| == |rs|
    decreases rs
  {
    if rs == [] then [] else (if rs[0].key == key then [ds[0]] else []) + AnswersTo(ds[1..], rs[1..], key)
  }

  lemma {:induction false} OnlyMonotone(rs: seq<Request>, key: string, from: real, bound: real)
    requires Monotone(from, rs) && bound <= from
    ensures Monotone(bound, Only(rs, key))
    decreases rs
  {
    if rs != [] {
      if rs[0].key == key {
        OnlyMonotone(rs[1..], key, rs[0].acquireClock, rs[0].acquireClock);
        assert Only(rs, key)[1..] == Only(rs[1..], key);
      } else {
        assert Only(rs, key) == Only(rs[1..], key);
        OnlyMonotone(rs[1..], key, rs[0].acquireClock, bound);
      }
    }
  }

  /** The other clients' buckets do not matter to the answers of the never-evicting reference. */
  lemma {:induction false} ReferenceAnswersAreOwn(m: map<string, Bucket>, own: map<string, Bucket>, p: Params,
                                                  rs: seq<Request>, key: string)
    requires (key in m <==> key in own) && (key in m ==> m[key] == own[key])
    ensures |ReferenceDecisions(m, p, rs)| == |rs|
    ensures AnswersTo(ReferenceDecisions(m, p, rs), rs, key) == ReferenceDecisions(own, p, Only(rs, key))
    decreases rs
  {
    OneDecisionEach(m, p, rs);
    if rs != [] {
      var r := rs[0];
      var o := AcquireStep(Lookup(m, p, r), r.acquireClock);
      assert ReferenceDecisions(m, p, rs)[1..] == ReferenceDecisions(m[r.key := o.bucket], p, rs[1..]);
      if r.key == key {
        ReferenceAnswersAreOwn(m[key := o.bucket], own[key := o.bucket], p, rs[1..], key);
        assert Only(rs, key)[1..] == Only(rs[1..], key);
      } else {
        ReferenceAnswersAreOwn(m[r.key := o.bucket], own, p, rs[1..], key);
        assert Only(rs, key) == Only(rs[1..], key);
      }
    }
  }

  /** The answers to one client are those it would get with no other client there, wherever
      eviction is invisible. */
  lemma ClientsAreIndependent(p: Params, start: real, rs: seq<Request>, key: string)
    requires ValidParams(p) && p.capacity as real <= ENTRY_TTL * p.refillRate
    requires Monotone(start, rs)
    ensures var ds := Decisions(Registry(map[], start), p, rs);
            |ds| == |rs| && AnswersTo(ds, rs, key) == Decisions(Registry(map[], start), p, Only(rs, key))
  {
    EvictionInvisible(p, start, rs);
    OnlyMonotone(rs, key, start, start);
    EvictionInvisible(p, start, Only(rs, key));
    ReferenceAnswersAreOwn(map[], map[], p, rs, key);
  }

  // ---------------------------------------------------------------- the exact answers to a client

  lemma {:induction false} OwnBucketAnswers(m: map<string, Bucket>, p: Params, rs: seq<Request>, key: string)
    requires key in m
    ensures |ReferenceDecisions(m, p, rs)| == |rs|
    ensures AnswersTo(ReferenceDecisions(m, p, rs), rs, key) == Answers(m[key], ClientTimes(rs, key))
    decreases rs
  {
    OneDecisionEach(m, p, rs);
    if rs != [] {
      var o := AcquireStep(Lookup(m, p, rs[0]), rs[0].acquireClock);
      OwnBucketAnswers(m[rs[0].key := o.bucket], p, rs[1..], key);
      assert ReferenceDecisions(m, p, rs)[1..] == ReferenceDecisions(m[rs[0].key := o.bucket], p, rs[1..]);
      if rs[0].key == key {
        assert ClientTimes(rs, key)[1..] == ClientTimes(rs[1..], key);
      } else {
        assert ClientTimes(rs, key) == ClientTimes(rs[1..], key);
      }
    }
  }

  /** The reference answers a client as one bucket that was new at its first request. */
  lemma {:induction false} ReferenceAnswersFresh(m: map<string, Bucket>, p: Params, from: real, rs: seq<Request>,
                                                 key: string)
    returns (refillClock: real, accessClock: real)
    requires Monotone(from, rs) && key !in m
    ensures |ReferenceDecisions(m, p, rs)| == |rs| && Ascending(refillClock, ClientTimes(rs, key))
    ensures AnswersTo(ReferenceDecisions(m, p, rs), rs, key)
         == Answers(Fresh(p, refillClock, accessClock), ClientTimes(rs, key))
    decreases rs
  {
    refillClock, accessClock := from, from;
    OneDecisionEach(m, p, rs);
    if rs != [] {
      var r := rs[0];
      var m' := m[r.key := AcquireStep(Lookup(m, p, r), r.acquireClock).bucket];
      assert ReferenceDecisions(m, p, rs)[1..] == ReferenceDecisions(m', p, rs[1..]);
      if r.key == key {
        refillClock, accessClock := r.refillClock, r.accessClock;
        OwnBucketAnswers(m', p, rs[1..], key);
        TimesAscend(rs[1..], key, r.acquireClock, r.acquireClock);
        assert ClientTimes(rs, key)[1..] == ClientTimes(rs[1..], key);
      } else {
        refillClock, accessClock := ReferenceAnswersFresh(m', p, r.acquireClock, rs[1..], key);
        assert ClientTimes(rs, key) == ClientTimes(rs[1..], key);
      }
    }
  }

  /** Where eviction is invisible, the k-th request of a client is accepted iff it fits into every
      window that begins with an earlier request of that client. */
  lemma ClientAcceptedIff(p: Params, start: real, rs: seq<Request>, key: string, k: nat)
    requires ValidParams(p) && p.capacity as real <= ENTRY_TTL * p.refillRate
    requires Monotone(start, rs) && k < |ClientTimes(rs, key)|
    ensures var ds := Decisions(Registry(map[], start), p, rs);
            && |ds| == |rs| && |AnswersTo(ds, rs, key)| == |ClientTimes(rs, key)|
            && (AnswersTo(ds, rs, key)[k] <==> Fits(p, ClientTimes(rs, key), AnswersTo(ds, rs, key), k))
  {
    EvictionInvisible(p, start, rs);
    var refillClock, accessClock := ReferenceAnswersFresh(map[], p, start, rs, key);
    FreshAcceptedIff(p, refillClock, accessClock, ClientTimes(rs, key), k);
  }

  ghost predicate SameBuckets(m: map<string, Bucket>, m': map<string, Bucket>, now: real) {
    m.Keys == m'.Keys && forall k :: k in m ==> m[k] == m'[k] || SameFrom(m[k], m'[k], now)
  }

  lemma {:induction false} SameAnswers(m: map<string, Bucket>, m': map<string, Bucket>, p: Params, now: real,
                                       rs: seq<Request>)
    requires SameBuckets(m, m', now) && Monotone(now, rs)
    ensures ReferenceDecisions(m, p, rs) == ReferenceDecisions(m', p, rs)
    decreases rs
  {
    if rs != [] {
      var r := rs[0];
      if r.key in m && m[r.key] != m'[r.key] {
        SameLater(m[r.key], m'[r.key], now, r.acquireClock);
      }
      var o := AcquireStep(Lookup(m, p, r), r.acquireClock);
      assert o == AcquireStep(Lookup(m', p, r), r.acquireClock);
      forall k | k in m && m[k] != m'[k] ensures SameFrom(m[k], m'[k], r.acquireClock) {
        SameLater(m[k], m'[k], now, r.acquireClock);
      }
      SameAnswers(m[r.key := o.bucket], m'[r.key := o.bucket], p, r.acquireClock, rs[1..]);
    }
  }

  lemma {:induction false} ReferenceSettles(m: map<string, Bucket>, p: Params, from: real, rs: seq<Request>)
    requires ValidParams(p) && Monotone(from, rs) && forall k :: k in m ==> Settled(m[k], p, from)
    ensures var m', now := ReferenceAfter(m, p, rs), EndOf(from, rs);
            from <= now && forall k :: k in m' ==> Settled(m'[k], p, now)
    decreases rs
  {
    if rs != [] {
      var r := rs[0];
      var m' := m[r.key := AcquireStep(Lookup(m, p, r), r.acquireClock).bucket];
      AcquireKeepsRange(Lookup(m, p, r), r.acquireClock);
      ReferenceSettles(m', p, r.acquireClock, rs[1..]);
      assert ReferenceAfter(m, p, rs) == ReferenceAfter(m', p, rs[1..]);
      assert EndOf(from, rs) == EndOf(r.acquireClock, rs[1..]);
    }
  }

  ghost function EndOf(from: real, rs: seq<Request>): real {
    if rs == [] then from else rs[|rs| - 1].acquireClock
  }

  lemma {:induction false} MonotoneParts(from: real, rs: seq<Request>, more: seq<Request>)
    requires Monotone(from, rs + more)
    ensures Monotone(from, rs) && Monotone(EndOf(from, rs), more)
    decreases rs
  {
    if rs == [] {
      assert rs + more == more;
    } else {
      assert (rs + more)[1..] == rs[1..] + more;
      MonotoneParts(rs[0].acquireClock, rs[1..], more);
    }
  }

  lemma {:induction false} MonotoneJoin(from: real, rs: seq<Request>, more: seq<Request>, mid: real)
    requires Monotone(from, rs) && EndOf(from, rs) <= mid && Monotone(mid, more)
    ensures Monotone(from, rs + more)
    decreases rs
  {
    if rs == [] {
      assert rs + more == more;
    } else {
      assert (rs + more)[1..] == rs[1..] + more;
      MonotoneJoin(rs[0].acquireClock, rs[1..], more, mid);
    }
  }

  /** A refused request changes no other answer, of any client, in the reference ... */
  lemma ReferenceRefusal(p: Params, start: real, before: seq<Request>, r: Request, after: seq<Request>)
    requires ValidParams(p) && Monotone(start, before + [r] + after)
    requires !AcquireStep(Lookup(ReferenceAfter(map[], p, before), p, r), r.acquireClock).accepted
    ensures ReferenceDecisions(map[], p, before + [r] + after)
         == ReferenceDecisions(map[], p, before) + [false]
            + ReferenceDecisions(ReferenceAfter(map[], p, before), p, after)
  {
    var m := ReferenceAfter(map[], p, before);
    assert before + [r] + after == before + ([r] + after);
    MonotoneParts(start, before, [r] + after);
    ReferenceSettles(map[], p, start, before);
    ReferenceRunsCompose(map[], p, before, [r] + after);
    assert ([r] + after)[1..] == after;
    var o := AcquireStep(Lookup(m, p, r), r.acquireClock);
    if r.key !in m {
      FreshHasToken(p, r.refillClock, r.accessClock, r.acquireClock);
      assert false;
    }
    RefusedIsSame(m[r.key], r.acquireClock);
    SameAnswers(m[r.key := o.bucket], m, p, r.acquireClock, after);
  }

  /** ... and in the evicting registry where eviction is invisible. */
  lemma RefusedRequestLeavesNoTrace(p: Params, start: real, before: seq<Request>, r: Request, after: seq<Request>)
    requires ValidParams(p) && p.capacity as real <= ENTRY_TTL * p.refillRate
    requires Monotone(start, before + [r] + after)
    requires var ds := Decisions(Registry(map[], start), p, before + [r] + after);
             |ds| == |before| + 1 + |after| && !ds[|before|]
    ensures var ds := Decisions(Registry(map[], start), p, before + [r] + after);
            Decisions(Registry(map[], start), p, before + after) == ds[..|before|] + ds[|before| + 1..]
  {
    var m := ReferenceAfter(map[], p, before);
    assert before + [r] + after == before + ([r] + after);
    EvictionInvisible(p, start, before + [r] + after);
    MonotoneParts(start, before, [r] + after);
    assert ([r] + after)[1..] == after;
    MonotoneJoin(start, before, after, r.acquireClock);
    EvictionInvisible(p, start, before + after);
    ReferenceRunsCompose(map[], p, before, [r] + after);
    ReferenceRunsCompose(map[], p, before, after);
    OneDecisionEach(map[], p, before);
    ReferenceRefusal(p, start, before, r, after);
  }

  // ---------------------------------------------------------------- what the registry holds

  /** Swept less than half an hour ago, of everything idle for an hour then. */
  ghost predicate Swept(s: Registry, now: real) {
    && s.lastEviction <= now < s.lastEviction + 1800.0
    && forall k :: k in s.buckets ==> s.lastEviction - 3600.0 <= s.buckets[k].lastAccessed <= now
  }

  lemma EvictSweeps(s: Registry, now: real)
    requires s.lastEviction <= now && forall k :: k in s.buckets ==> s.buckets[k].lastAccessed <= now
    requires forall k :: k in s.buckets ==> s.lastEviction - 3600.0 <= s.buckets[k].lastAccessed
    ensures Swept(Evict(s, now), now)
    ensures Evict(s, now).lastEviction == s.lastEviction || Evict(s, now).lastEviction >= s.lastEviction + 1800.0
    ensures forall k :: k in s.buckets && s.buckets[k].lastAccessed >= now - 3600.0 ==>
              k in Evict(s, now).buckets && Evict(s, now).buckets[k] == s.buckets[k]
  {
  }

  ghost predicate AccessedSince(s: Registry, now: real) {
    s.lastEviction <= now && forall k :: k in s.buckets ==>
      s.lastEviction - 3600.0 <= s.buckets[k].lastAccessed <= now
  }

  lemma {:induction false} RunSweeps(s: Registry, p: Params, from: real, rs: seq<Request>)
    requires AccessedSince(s, from) && Monotone(from, rs)
    ensures AccessedSince(RegistryAfter(s, p, rs), EndOf(from, rs))
    decreases rs
  {
    if rs != [] {
      EvictSweeps(s, rs[0].evictClock);
      RunSweeps(Handle(s, p, rs[0]).0, p, rs[0].acquireClock, rs[1..]);
    }
  }

  /** When the client last called: in the run, or before. */
  ghost function LastCall(s: Registry, rs: seq<Request>, key: string): Option<real> {
    var times := ClientTimes(rs, key);
    if times != [] then Some(times[|times| - 1])
    else if key in s.buckets then Some(s.buckets[key].lastAccessed)
    else None
  }

  /** Held are only clients with their last call, and at least those of the last hour. */
  ghost predicate HoldsRecent(s: Registry, key: string, last: Option<real>, now: real) {
    && (key in s.buckets ==> last == Some(s.buckets[key].lastAccessed))
    && (last.Some? && last.value >= now - 3600.0 ==> key in s.buckets)
  }

  lemma {:induction false} RunHolds(s: Registry, p: Params, from: real, rs: seq<Request>, key: string)
    requires AccessedSince(s, from) && Monotone(from, rs)
    ensures HoldsRecent(RegistryAfter(s, p, rs), key, LastCall(s, rs, key), EndOf(from, rs))
    decreases rs
  {
    if rs != [] {
      var r := rs[0];
      var s' := Handle(s, p, r).0;
      EvictSweeps(s, r.evictClock);
      RunHolds(s', p, r.acquireClock, rs[1..], key);
      EndLater(r.acquireClock, rs[1..]);
      assert EndOf(from, rs) == EndOf(r.acquireClock, rs[1..]);
      LastCallStep(s, p, rs, key);
    }
  }

  /** A request forgets the last call of a client only if that was more than an hour ago. */
  lemma LastCallStep(s: Registry, p: Params, rs: seq<Request>, key: string)
    requires rs != []
    ensures var last, next := LastCall(s, rs, key), LastCall(Handle(s, p, rs[0]).0, rs[1..], key);
            next == last || (next.None? && last.value < rs[0].evictClock - 3600.0)
  {
    if rs[0].key == key {
      assert ClientTimes(rs, key) == [rs[0].acquireClock] + ClientTimes(rs[1..], key);
    } else {
      assert ClientTimes(rs, key) == ClientTimes(rs[1..], key);
    }
  }

  lemma {:induction false} EndLater(from: real, rs: seq<Request>)
    requires Monotone(from, rs)
    ensures from <= EndOf(from, rs)
    decreases rs
  {
    if rs != [] {
      EndLater(rs[0].acquireClock, rs[1..]);
    }
  }

  /** After any run, a request finds every client that called within the last hour, no client idle
      for an hour and a half, and no sweep within half an hour of another. */
  lemma Retention(p: Params, start: real, rs: seq<Request>, r: Request, key: string)
    requires Monotone(start, rs) && EndOf(start, rs) <= r.evictClock
    ensures var s, times := RegistryAfter(Registry(map[], start), p, rs), ClientTimes(rs, key);
            var e := Evict(s, r.evictClock);
            && (times != [] && times[|times| - 1] >= r.evictClock - 3600.0 ==>
                  key in s.buckets && key in e.buckets && e.buckets[key] == s.buckets[key])
            && (key in e.buckets ==> times != [] && times[|times| - 1] > r.evictClock - 5400.0)
            && (e.lastEviction == s.lastEviction || e.lastEviction >= s.lastEviction + 1800.0)
  {
    RunSweeps(Registry(map[], start), p, start, rs);
    RunHolds(Registry(map[], start), p, start, rs, key);
    EvictSweeps(RegistryAfter(Registry(map[], start), p, rs), r.evictClock);
  }

  // ---------------------------------------------------------------- for every configuration

  /** All buckets are in range and up to date. */
  ghost predicate AllSettled(s: Registry, p: Params, now: real) {
    forall k :: k in s.buckets ==> Settled(s.buckets[k], p, now)
  }

  lemma HandleSettles(s: Registry, p: Params, from: real, r: Request)
    requires ValidParams(p) && AllSettled(s, p, from) && Monotone(from, [r])
    ensures AllSettled(Handle(s, p, r).0, p, r.acquireClock)
  {
    var e := Evict(s, r.evictClock);
    AcquireKeepsRange(Lookup(e.buckets, p, r), r.acquireClock);
  }

  lemma {:induction false} DecisionEach(s: Registry, p: Params, rs: seq<Request>)
    ensures |Decisions(s, p, rs)| == |rs|
    decreases rs
  {
    if rs != [] {
      DecisionEach(Handle(s, p, rs[0]).0, p, rs[1..]);
    }
  }

  lemma {:induction false} SpacedFromRegistry(s: Registry, p: Params, from: real, rs: seq<Request>, key: string)
    requires ValidParams(p) && AllSettled(s, p, from) && Monotone(from, rs)
    requires CallsSpaced(ClientTimes(rs, key), p.refillRate)
    requires key in s.buckets ==> Spaced(s.buckets[key].lastRefill, ClientTimes(rs, key), 1.0 / p.refillRate)
    ensures |Decisions(s, p, rs)| == |rs| && false !in AnswersTo(Decisions(s, p, rs), rs, key)
    decreases rs
  {
    DecisionEach(s, p, rs);
    if rs != [] {
      var r := rs[0];
      var s' := Handle(s, p, r).0;
      HandleSettles(s, p, from, r);
      assert Decisions(s, p, rs)[1..] == Decisions(s', p, rs[1..]);
      if r.key == key {
        assert ClientTimes(rs, key)[1..] == ClientTimes(rs[1..], key);
        SpacedDraw(s, p, from, r);
      } else {
        assert ClientTimes(rs, key) == ClientTimes(rs[1..], key);
      }
      SpacedFromRegistry(s', p, r.acquireClock, rs[1..], key);
    }
  }

  /** A draw at least 1/rate after the last one, or on a new bucket, finds a token. */
  lemma SpacedDraw(s: Registry, p: Params, from: real, r: Request)
    requires ValidParams(p) && AllSettled(s, p, from) && Monotone(from, [r])
    requires r.key in s.buckets ==> s.buckets[r.key].lastRefill + 1.0 / p.refillRate <= r.acquireClock
    ensures Handle(s, p, r).1
  {
    var b := Lookup(Evict(s, r.evictClock).buckets, p, r);
    if r.key in Evict(s, r.evictClock).buckets {
      SpacedSinceRefill(b, [r.acquireClock]);
    } else {
      FreshHasToken(p, r.refillClock, r.accessClock, r.acquireClock);
    }
  }

  /** A client whose requests are at least 1/rate apart is never refused, from its first request
      on, whatever the others do and whatever is evicted. */
  lemma SpacedClientsPass(p: Params, start: real, rs: seq<Request>, key: string)
    requires ValidParams(p) && Monotone(start, rs) && CallsSpaced(ClientTimes(rs, key), p.refillRate)
    ensures var ds := Decisions(Registry(map[], start), p, rs);
            |ds| == |rs| && false !in AnswersTo(ds, rs, key)
  {
    SpacedFromRegistry(Registry(map[], start), p, start, rs, key);
  }

  /** The rate that pays for evictions too: a whole bucket for every idle hour. */
  function EvictingRate(p: Params): real {
    p.refillRate + p.capacity as real / ENTRY_TTL
  }

  lemma EvictingRateExceeds(p: Params, from: real, to: real)
    requires ValidParams(p) && from <= to
    ensures 0.0 <= Gain(from, to, p.refillRate) <= Gain(from, to, EvictingRate(p))
  {
    GainNonNegative(from, to, p.refillRate);
    GainNonNegative(from, to, p.capacity as real / ENTRY_TTL);
    assert Gain(from, to, EvictingRate(p))
        == Gain(from, to, p.refillRate) + Gain(from, to, p.capacity as real / ENTRY_TTL);
  }

  /** By the time a bucket is evicted, a new one has been paid for. */
  lemma StaleIsPaidFor(b: Bucket, p: Params, now: real)
    requires Settled(b, p, b.lastAccessed) && Stale(b, now)
    ensures b.tokens + Gain(b.lastRefill, now, EvictingRate(p)) >= p.capacity as real
  {
    var expiry, rate := b.lastRefill + ENTRY_TTL, p.capacity as real / ENTRY_TTL;
    GainOver(b.lastRefill, ENTRY_TTL, rate);
    assert ENTRY_TTL * rate == p.capacity as real;
    GainAdds(b.lastRefill, expiry, now, rate);
    GainNonNegative(expiry, now, rate);
    GainNonNegative(b.lastRefill, now, p.refillRate);
    assert Gain(b.lastRefill, now, EvictingRate(p))
        == Gain(b.lastRefill, now, p.refillRate) + Gain(b.lastRefill, now, rate);
  }

  /** `v` is the client's bucket, or the one it lost when that had been paid for. */
  ghost predicate Covers(s: Registry, p: Params, now: real, key: string, v: Bucket) {
    && Settled(v, p, now)
    && (key in s.buckets ==> s.buckets[key] == v)
    && (key !in s.buckets ==> v.tokens + Gain(v.lastRefill, now, EvictingRate(p)) >= p.capacity as real)
  }

  lemma EvictCovers(s: Registry, p: Params, from: real, key: string, v: Bucket, now: real)
    requires ValidParams(p) && Covers(s, p, from, key, v) && from <= now
    ensures Covers(Evict(s, now), p, now, key, v)
  {
    PaidForStays(v, p, from, now);
    if key in s.buckets && key !in Evict(s, now).buckets {
      StaleIsPaidFor(v, p, now);
    }
  }

  lemma PaidForStays(v: Bucket, p: Params, x: real, y: real)
    requires ValidParams(p) && x <= y
    ensures Gain(v.lastRefill, x, EvictingRate(p)) <= Gain(v.lastRefill, y, EvictingRate(p))
  {
    GainAdds(v.lastRefill, x, y, EvictingRate(p));
    EvictingRateExceeds(p, x, y);
  }

  /** What the client's draw finds has been paid for since v was last refilled. */
  lemma DrawIsPaidFor(s: Registry, p: Params, from: real, v: Bucket, r: Request)
    requires ValidParams(p) && Covers(s, p, from, r.key, v) && Monotone(from, [r])
    ensures var (s', ok) := Handle(s, p, r);
            s'.buckets[r.key].lastRefill == r.acquireClock &&
            (if ok then 1.0 else 0.0) + s'.buckets[r.key].tokens
            <= v.tokens + Gain(v.lastRefill, r.acquireClock, EvictingRate(p))
  {
    EvictCovers(s, p, from, r.key, v, r.evictClock);
    PaidForStays(v, p, r.evictClock, r.acquireClock);
    EvictingRateExceeds(p, v.lastRefill, r.acquireClock);
  }

  lemma {:induction false} NoneAccepted(ds: seq<bool>, rs: seq<Request>, key: string, from: real, s: real, t: real)
    requires |ds| == |rs| && Monotone(from, rs) && t < from
    ensures ClientAccepted(ds, rs, key, s, t) == 0
    decreases rs
  {
    if rs != [] {
      NoneAccepted(ds[1..], rs[1..], key, rs[0].acquireClock, s, t);
    }
  }

  lemma {:induction false} RegistryPaidFor(s: Registry, p: Params, from: real, rs: seq<Request>, key: string,
                                           v: Bucket, lo: real, t: real)
    requires ValidParams(p) && Covers(s, p, from, key, v) && Monotone(from, rs) && v.lastRefill <= t
    ensures |Decisions(s, p, rs)| == |rs|
    ensures ClientAccepted(Decisions(s, p, rs), rs, key, lo, t) as real
         <= v.tokens + Gain(v.lastRefill, t, EvictingRate(p))
    decreases rs
  {
    DecisionEach(s, p, rs);
    EvictingRateExceeds(p, v.lastRefill, t);
    if rs != [] {
      var r := rs[0];
      var (s', ok) := Handle(s, p, r);
      assert Decisions(s, p, rs)[1..] == Decisions(s', p, rs[1..]);
      EvictCovers(s, p, from, key, v, r.evictClock);
      PaidForStays(v, p, r.evictClock, r.acquireClock);
      if r.key != key {
        RegistryPaidFor(s', p, r.acquireClock, rs[1..], key, v, lo, t);
      } else if r.acquireClock <= t {
        DrawIsPaidFor(s, p, from, v, r);
        AcquireKeepsRange(Lookup(Evict(s, r.evictClock).buckets, p, r), r.acquireClock);
        RegistryPaidFor(s', p, r.acquireClock, rs[1..], key, s'.buckets[key], lo, t);
        GainAdds(v.lastRefill, r.acquireClock, t, EvictingRate(p));
      } else {
        NoneAccepted(Decisions(s', p, rs[1..]), rs[1..], key, r.acquireClock, lo, t);
      }
    }
  }

  lemma {:induction false} RegistryWindow(s: Registry, p: Params, from: real, rs: seq<Request>, key: string,
                                          lo: real, t: real)
    requires ValidParams(p) && AllSettled(s, p, from) && Monotone(from, rs) && lo <= t
    ensures |Decisions(s, p, rs)| == |rs|
    ensures ClientAccepted(Decisions(s, p, rs), rs, key, lo, t) as real
         <= p.capacity as real + Gain(lo, t, EvictingRate(p))
    decreases rs
  {
    DecisionEach(s, p, rs);
    EvictingRateExceeds(p, lo, t);
    if rs != [] {
      var r := rs[0];
      var (s', ok) := Handle(s, p, r);
      assert Decisions(s, p, rs)[1..] == Decisions(s', p, rs[1..]);
      HandleSettles(s, p, from, r);
      if r.key == key && lo <= r.acquireClock <= t {
        RegistryPaidFor(s', p, r.acquireClock, rs[1..], key, s'.buckets[key], lo, t);
        GainAdds(lo, r.acquireClock, t, EvictingRate(p));
        EvictingRateExceeds(p, lo, r.acquireClock);
      } else if r.acquireClock <= t {
        RegistryWindow(s', p, r.acquireClock, rs[1..], key, lo, t);
      } else {
        NoneAccepted(Decisions(s', p, rs[1..]), rs[1..], key, r.acquireClock, lo, t);
      }
    }
  }

  /** For every configuration, also where eviction can be observed: the bound grows by at most one
      capacity for each hour of the window. */
  lemma EvictingClientBound(p: Params, start: real, rs: seq<Request>, key: string, s: real, t: real)
    requires ValidParams(p) && Monotone(start, rs) && s <= t
    ensures var ds := Decisions(Registry(map[], start), p, rs);
            && |ds| == |rs|
            && ClientAccepted(ds, rs, key, s, t) as real
               <= p.capacity as real + Gain(s, t, p.refillRate + p.capacity as real / ENTRY_TTL)
  {
    RegistryWindow(Registry(map[], start), p, start, rs, key, s, t);
  }
}
