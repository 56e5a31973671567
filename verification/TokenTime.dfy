/** The token-bucket map with time measured in refilled tokens: one unit is the
    time in which one token is refilled. In this unit a bucket's arithmetic is
    addition only. MemoryLimiter states the limiter in seconds and is reduced to
    this form. */
module TokenTime {

  /** Bucket size, and the idle time after which a cleanup evicts a bucket. */
  datatype Config = Config(burst: nat, idle: real)

  function Full(cfg: Config): real { cfg.burst as real }

  /** A bucket held level tokens at time at, its last use. */
  datatype Bucket = Bucket(level: real, at: real)

  type Buckets = map<string, Bucket>

  datatype Event = Request(ip: string, now: real) | Tick(now: real)

  /** Tokens in the bucket at a later time, capped at burst. */
  function Level(cfg: Config, b: Bucket, now: real): real {
    var l := b.level + (now - b.at);
    if l < Full(cfg) then l else Full(cfg)
  }

  /** A request is allowed iff a whole token is there, and takes it. */
  function Take(cfg: Config, b: Bucket, now: real): (Bucket, bool) {
    var l := Level(cfg, b, now);
    if l >= 1.0 then (Bucket(l - 1.0, now), true) else (Bucket(l, now), false)
  }

  function Get(cfg: Config, m: Buckets, ip: string, now: real): Bucket {
    if ip in m then m[ip] else Bucket(Full(cfg), now)
  }

  predicate Stale(cfg: Config, b: Bucket, now: real) { now - b.at > cfg.idle }

  function Step(cfg: Config, evict: bool, m: Buckets, e: Event): Buckets {
    match e
    case Request(ip, now) => m[ip := Take(cfg, Get(cfg, m, ip, now), now).0]
    case Tick(now) => if evict then map ip | ip in m && !Stale(cfg, m[ip], now) :: m[ip] else m
  }

  predicate Allowed(cfg: Config, m: Buckets, e: Event) {
    e.Request? && Take(cfg, Get(cfg, m, e.ip, e.now), e.now).1
  }

  function Decisions(cfg: Config, evict: bool, m: Buckets, evs: seq<Event>): seq<bool>
    decreases |evs|
  {
    if evs == [] then [] else
    [Allowed(cfg, m, evs[0])] + Decisions(cfg, evict, Step(cfg, evict, m, evs[0]), evs[1..])
  }

  function Count(cfg: Config, evict: bool, m: Buckets, evs: seq<Event>, ip: string): nat
    decreases |evs|
  {
    if evs == [] then 0 else
    (if Allowed(cfg, m, evs[0]) && evs[0].ip == ip then 1 else 0)
    + Count(cfg, evict, Step(cfg, evict, m, evs[0]), evs[1..], ip)
  }

  function After(cfg: Config, evict: bool, m: Buckets, evs: seq<Event>): Buckets
    decreases |evs|
  {
    if evs == [] then m else After(cfg, evict, Step(cfg, evict, m, evs[0]), evs[1..])
  }

  /** Event times do not decrease and lie between t and end. */
  predicate Ordered(t: real, evs: seq<Event>, end: real)
    decreases |evs|
  {
    if evs == [] then t <= end else t <= evs[0].now && Ordered(evs[0].now, evs[1..], end)
  }

  lemma {:induction false} OrderedEnd(t: real, evs: seq<Event>, end: real)
    requires Ordered(t, evs, end)
    ensures t <= end && forall e :: e in evs ==> t <= e.now <= end
    decreases |evs|
  {
    if evs != [] { OrderedEnd(evs[0].now, evs[1..], end); }
  }

  /** Every bucket was last used by time t and holds between 0 and burst tokens. */
  ghost predicate Good(cfg: Config, m: Buckets, t: real) {
    forall ip :: ip in m ==> 0.0 <= m[ip].level <= Full(cfg) && m[ip].at <= t
  }

  lemma StepGood(cfg: Config, evict: bool, m: Buckets, e: Event, t: real)
    requires Good(cfg, m, t) && t <= e.now
    ensures Good(cfg, Step(cfg, evict, m, e), e.now)
  {
  }

  // ---------------------------------------------- eviction can be invisible

  /** The evicting map agrees with the one that never evicts, except for buckets
      that have been idle for too long. */
  ghost predicate Mirrors(cfg: Config, m: Buckets, ideal: Buckets, t: real) {
    && Good(cfg, ideal, t)
    && (forall ip :: ip in m ==> ip in ideal && m[ip] == ideal[ip])
    && (forall ip :: ip in ideal && ip !in m ==> Stale(cfg, ideal[ip], t))
  }

  /** An idle bucket is full again, hence the same as a new one. */
  lemma MirrorStep(cfg: Config, m: Buckets, ideal: Buckets, t: real, e: Event)
    requires Full(cfg) <= cfg.idle && Mirrors(cfg, m, ideal, t) && t <= e.now
    ensures Allowed(cfg, m, e) == Allowed(cfg, ideal, e)
    ensures Mirrors(cfg, Step(cfg, true, m, e), Step(cfg, false, ideal, e), e.now)
  {
    StepGood(cfg, false, ideal, e, t);
    if e.Request? && e.ip in ideal && e.ip !in m {
      assert Level(cfg, ideal[e.ip], e.now) == Full(cfg);
    }
  }

  lemma {:induction false} EvictionInvisible(cfg: Config, m: Buckets, ideal: Buckets, t: real, evs: seq<Event>,
                                             end: real)
    requires Full(cfg) <= cfg.idle && Mirrors(cfg, m, ideal, t) && Ordered(t, evs, end)
    ensures Decisions(cfg, true, m, evs) == Decisions(cfg, false, ideal, evs)
    ensures Mirrors(cfg, After(cfg, true, m, evs), After(cfg, false, ideal, evs), end)
    decreases |evs|
  {
    if evs != [] {
      MirrorStep(cfg, m, ideal, t, evs[0]);
      EvictionInvisible(cfg, Step(cfg, true, m, evs[0]), Step(cfg, false, ideal, evs[0]), evs[0].now, evs[1..], end);
    }
  }

  /** Equal decisions mean equal counts. */
  lemma {:induction false} CountByDecisions(cfg: Config, m: Buckets, ideal: Buckets, evs: seq<Event>, ip: string)
    requires Decisions(cfg, true, m, evs) == Decisions(cfg, false, ideal, evs)
    ensures Count(cfg, true, m, evs, ip) == Count(cfg, false, ideal, evs, ip)
    decreases |evs|
  {
    if evs != [] {
      var d, d' := Decisions(cfg, true, m, evs), Decisions(cfg, false, ideal, evs);
      assert d[0] == d'[0] && d[1..] == d'[1..];
      CountByDecisions(cfg, Step(cfg, true, m, evs[0]), Step(cfg, false, ideal, evs[0]), evs[1..], ip);
    }
  }

  // --------------------------------------------------------------- budgets

  /** Tokens that an IP can spend at time t. */
  function Credit(cfg: Config, m: Buckets, ip: string, t: real): real {
    if ip in m then Level(cfg, m[ip], t) else Full(cfg)
  }

  function Spent(cfg: Config, m: Buckets, ip: string, e: Event): real {
    if Allowed(cfg, m, e) && e.ip == ip then 1.0 else 0.0
  }

  /** A request pays for itself. */
  lemma CreditStep(cfg: Config, evict: bool, m: Buckets, ip: string, t: real, e: Event)
    requires Good(cfg, m, t) && t <= e.now && (e.Request? || !evict)
    ensures Credit(cfg, Step(cfg, evict, m, e), ip, e.now) + Spent(cfg, m, ip, e) <= Credit(cfg, m, ip, t) + (e.now - t)
  {
  }

  /** Without eviction: what is allowed by time end was there at time t or has
      been refilled since. */
  lemma {:induction false} IdealBudget(cfg: Config, m: Buckets, ip: string, t: real, evs: seq<Event>, end: real)
    requires Good(cfg, m, t) && Ordered(t, evs, end)
    ensures Count(cfg, false, m, evs, ip) as real <= Credit(cfg, m, ip, t) + (end - t)
    decreases |evs|
  {
    if evs != [] {
      StepGood(cfg, false, m, evs[0], t);
      CreditStep(cfg, false, m, ip, t, evs[0]);
      IdealBudget(cfg, Step(cfg, false, m, evs[0]), ip, evs[0].now, evs[1..], end);
    }
  }

  /** The sum of k copies of x. */
  function Copies(k: nat, x: real): real { if k == 0 then 0.0 else x + Copies(k - 1, x) }

  lemma {:induction false} CopiesNonNegative(k: nat, x: real)
    requires x >= 0.0
    ensures Copies(k, x) >= 0.0
  {
    if k > 0 { CopiesNonNegative(k - 1, x); }
  }

  /** When the bucket of this IP was last known to be full or in use. */
  function Anchor(m: Buckets, ip: string, t: real): real { if ip in m then m[ip].at else t }

  /** What an eviction adds: a new bucket is full, while the evicted one had at least
      what is refilled in an idle period. */
  function Gain(cfg: Config): (g: real)
    ensures g >= 0.0
  {
    if Full(cfg) > cfg.idle then Full(cfg) - cfg.idle else 0.0
  }

  /** With eviction: every eviction adds at most Gain to what is there and what is
      refilled, but needs a whole idle period, so with less than k + 1 periods left
      there are at most k. */
  lemma {:induction false} EvictingBudget(cfg: Config, m: Buckets, ip: string, t: real, evs: seq<Event>, end: real,
                                          k: nat)
    requires Good(cfg, m, t) && Ordered(t, evs, end)
    requires end - Anchor(m, ip, t) < Copies(k + 1, cfg.idle)
    ensures Count(cfg, true, m, evs, ip) as real <= Credit(cfg, m, ip, t) + (end - t) + Copies(k, Gain(cfg))
    decreases |evs|
  {
    CopiesNonNegative(k, Gain(cfg));
    if evs != [] {
      var e := evs[0];
      var m' := Step(cfg, true, m, e);
      OrderedEnd(t, evs, end);
      StepGood(cfg, true, m, e, t);
      if e.Request? || !(ip in m && ip !in m') {
        if e.Request? { CreditStep(cfg, true, m, ip, t, e); }
        EvictingBudget(cfg, m', ip, e.now, evs[1..], end, k);
      } else {
        assert k > 0;
        EvictionGain(cfg, m, ip, t, e.now);
        EvictingBudget(cfg, m', ip, e.now, evs[1..], end, k - 1);
      }
    }
  }

  /** A stale bucket is full up to Gain. */
  lemma EvictionGain(cfg: Config, m: Buckets, ip: string, t: real, now: real)
    requires Good(cfg, m, t) && t <= now && ip in m && Stale(cfg, m[ip], now)
    ensures Full(cfg) <= Credit(cfg, m, ip, t) + (now - t) + Gain(cfg)
  {
  }

  /** In an interval with less than k + 1 idle periods one IP is allowed at most a
      full bucket, the refill, and Gain for each of k evictions, whatever happened
      before. */
  lemma {:induction false} IntervalBudget(cfg: Config, m: Buckets, ip: string, t: real, evs: seq<Event>, end: real,
                                          k: nat)
    requires Good(cfg, m, t) && Ordered(t, evs, end) && end - t < Copies(k + 1, cfg.idle)
    ensures Count(cfg, true, m, evs, ip) as real <= Full(cfg) + (end - t) + Copies(k, Gain(cfg))
    decreases |evs|
  {
    CopiesNonNegative(k, Gain(cfg));
    if ip !in m {
      EvictingBudget(cfg, m, ip, t, evs, end, k);
    } else if evs != [] {
      var e := evs[0];
      var m' := Step(cfg, true, m, e);
      StepGood(cfg, true, m, e, t);
      if e.Request? && e.ip == ip {
        CreditStep(cfg, true, m, ip, t, e);
        EvictingBudget(cfg, m', ip, e.now, evs[1..], end, k);
      } else {
        IntervalBudget(cfg, m', ip, e.now, evs[1..], end, k);
      }
    }
  }

  // ------------------------------------------------- a burst is let through

  /** n requests of one IP at one moment. */
  function Volley(ip: string, now: real, n: nat): seq<Event> {
    if n == 0 then [] else [Request(ip, now)] + Volley(ip, now, n - 1)
  }

  /** The bucket map in which the bucket of this IP holds l tokens at time now. */
  function Holding(m: Buckets, ip: string, l: real, now: real): Buckets { m[ip := Bucket(l, now)] }

  /** One request at once takes one token. */
  lemma OneAllowed(cfg: Config, evict: bool, m: Buckets, ip: string, l: real, now: real)
    requires 1.0 <= l <= Full(cfg)
    ensures Allowed(cfg, Holding(m, ip, l, now), Request(ip, now))
    ensures Step(cfg, evict, Holding(m, ip, l, now), Request(ip, now)) == Holding(m, ip, l - 1.0, now)
  {
  }

  /** n requests at once are all allowed when n tokens are there. */
  lemma {:induction false} VolleyAllowed(cfg: Config, evict: bool, m: Buckets, ip: string, l: real, now: real,
                                         n: nat, rest: seq<Event>)
    requires n as real <= l <= Full(cfg)
    ensures Count(cfg, evict, Holding(m, ip, l, now), Volley(ip, now, n) + rest, ip)
            == n + Count(cfg, evict, Holding(m, ip, l - n as real, now), rest, ip)
    decreases n
  {
    var evs := Volley(ip, now, n) + rest;
    if n == 0 {
      assert evs == rest;
    } else {
      assert evs[0] == Request(ip, now) && evs[1..] == Volley(ip, now, n - 1) + rest;
      OneAllowed(cfg, evict, m, ip, l, now);
      VolleyAllowed(cfg, evict, m, ip, l - 1.0, now, n - 1, rest);
    }
  }

  /** A request of an IP without a bucket is served as if a full one were there. */
  lemma NewIsFull(cfg: Config, evict: bool, m: Buckets, ip: string, now: real, rest: seq<Event>)
    requires ip !in m
    ensures Count(cfg, evict, m, [Request(ip, now)] + rest, ip)
            == Count(cfg, evict, Holding(m, ip, Full(cfg), now), [Request(ip, now)] + rest, ip)
  {
    assert Step(cfg, evict, m, Request(ip, now)) == Step(cfg, evict, Holding(m, ip, Full(cfg), now), Request(ip, now));
  }

  /** A burst of an IP without a bucket is let through. */
  lemma BurstAllowed(cfg: Config, evict: bool, m: Buckets, ip: string, now: real, rest: seq<Event>)
    requires ip !in m && cfg.burst > 0
    ensures Count(cfg, evict, m, Volley(ip, now, cfg.burst) + rest, ip)
            == cfg.burst + Count(cfg, evict, Holding(m, ip, 0.0, now), rest, ip)
  {
    var evs := Volley(ip, now, cfg.burst) + rest;
    assert evs == [Request(ip, now)] + (Volley(ip, now, cfg.burst - 1) + rest);
    NewIsFull(cfg, evict, m, ip, now, Volley(ip, now, cfg.burst - 1) + rest);
    VolleyAllowed(cfg, evict, m, ip, Full(cfg), now, cfg.burst, rest);
  }

  /** A burst at t and after each of k steps, with a cleanup before each further burst. */
  function Waves(burst: nat, ip: string, step: real, t: real, k: nat): seq<Event>
    decreases k
  {
    Volley(ip, t, burst) + if k == 0 then [] else [Tick(t + step)] + Waves(burst, ip, step, t + step, k - 1)
  }

  /** When every step is longer than an idle period, all waves are let through. */
  lemma {:induction false} WavesAllowed(cfg: Config, ip: string, step: real, t: real, k: nat)
    requires cfg.burst > 0 && step > cfg.idle
    ensures Count(cfg, true, map[], Waves(cfg.burst, ip, step, t, k), ip) == (k + 1) * cfg.burst
    decreases k
  {
    if k == 0 {
      BurstAllowed(cfg, true, map[], ip, t, []);
    } else {
      var rest := [Tick(t + step)] + Waves(cfg.burst, ip, step, t + step, k - 1);
      BurstAllowed(cfg, true, map[], ip, t, rest);
      assert Step(cfg, true, Holding(map[], ip, 0.0, t), rest[0]) == map[];
      assert rest[1..] == Waves(cfg.burst, ip, step, t + step, k - 1);
      WavesAllowed(cfg, ip, step, t + step, k - 1);
      assert (k + 1) * cfg.burst == cfg.burst + k * cfg.burst;
    }
  }

  /** The trace that shows an eviction: a burst, cleanups at u, then another burst. */
  function TwoBursts(cfg: Config, ip: string, ticks: seq<Event>, u: real): seq<Event> {
    Volley(ip, 0.0, cfg.burst) + (ticks + Volley(ip, u, cfg.burst))
  }

  lemma {:induction false} VolleyOrdered(ip: string, now: real, n: nat, rest: seq<Event>, end: real)
    requires Ordered(now, rest, end)
    ensures Ordered(now, Volley(ip, now, n) + rest, end)
    decreases n
  {
    var evs := Volley(ip, now, n) + rest;
    if n == 0 {
      assert evs == rest;
    } else {
      assert evs[0] == Request(ip, now) && evs[1..] == Volley(ip, now, n - 1) + rest;
      VolleyOrdered(ip, now, n - 1, rest, end);
    }
  }

  lemma {:induction false} OrderedAppend(t: real, a: seq<Event>, mid: real, b: seq<Event>, end: real)
    requires Ordered(t, a, mid) && Ordered(mid, b, end)
    ensures Ordered(t, a + b, end)
    decreases |a|
  {
    if a == [] {
      assert a + b == b;
      if b == [] { OrderedEnd(mid, b, end); }
    } else {
      assert (a + b)[1..] == a[1..] + b;
      OrderedAppend(a[0].now, a[1..], mid, b, end);
    }
  }

  /** Cleanups with no requests in between, the last one after more than an idle
      period: the bucket last used at time 0 is gone at the end. */
  lemma {:induction false} CleanedUp(cfg: Config, ip: string, m: Buckets, ticks: seq<Event>, rest: seq<Event>)
    requires m == map[] || m == Holding(map[], ip, 0.0, 0.0)
    requires ticks != [] && (forall e :: e in ticks ==> e.Tick?) && ticks[|ticks| - 1].now > cfg.idle
    ensures Count(cfg, true, m, ticks + rest, ip) == Count(cfg, true, map[], rest, ip)
    decreases |ticks|
  {
    var evs, m' := ticks + rest, Step(cfg, true, m, ticks[0]);
    assert evs[0] == ticks[0] && evs[1..] == ticks[1..] + rest;
    assert ticks[0] in ticks && m'.Keys <= {ip};
    if ip in m' {
      assert m' == m;
    } else {
      assert m' == map[];
    }
    if |ticks| == 1 {
      assert evs[1..] == rest;
    } else {
      CleanedUp(cfg, ip, m', ticks[1..], rest);
    }
  }

  /** If a bucket does not refill within an idle period, the trace of two bursts
      gets different decisions with and without eviction. */
  lemma EvictionVisible(cfg: Config, ip: string, ticks: seq<Event>, u: real)
    requires 0.0 <= cfg.idle < u < Full(cfg) && ticks != [] && (forall e :: e in ticks ==> e.Tick?)
    requires ticks[|ticks| - 1].now == u && Ordered(0.0, ticks, u)
    ensures var evs := TwoBursts(cfg, ip, ticks, u);
            Ordered(0.0, evs, u) && Decisions(cfg, true, map[], evs) != Decisions(cfg, false, map[], evs)
  {
    var evs, last := TwoBursts(cfg, ip, ticks, u), Volley(ip, u, cfg.burst);
    assert last + [] == last;
    VolleyOrdered(ip, u, cfg.burst, [], u);
    OrderedAppend(0.0, ticks, u, last, u);
    VolleyOrdered(ip, 0.0, cfg.burst, ticks + last, u);
    BurstAllowed(cfg, true, map[], ip, 0.0, ticks + last);
    CleanedUp(cfg, ip, Holding(map[], ip, 0.0, 0.0), ticks, last);
    BurstAllowed(cfg, true, map[], ip, u, []);
    assert Count(cfg, true, map[], evs, ip) == 2 * cfg.burst;
    IdealBudget(cfg, map[], ip, 0.0, evs, u);
    if Decisions(cfg, true, map[], evs) == Decisions(cfg, false, map[], evs) {
      CountByDecisions(cfg, map[], map[], evs, ip);
    }
  }

  lemma {:induction false} WavesOrdered(burst: nat, ip: string, step: real, t: real, k: nat)
    requires step >= 0.0
    ensures Ordered(t, Waves(burst, ip, step, t, k), t + Copies(k, step))
    decreases k
  {
    if k == 0 {
      VolleyOrdered(ip, t, burst, [], t);
    } else {
      var rest := [Tick(t + step)] + Waves(burst, ip, step, t + step, k - 1);
      WavesOrdered(burst, ip, step, t + step, k - 1);
      assert rest[1..] == Waves(burst, ip, step, t + step, k - 1);
      assert Ordered(t + step, rest, t + Copies(k, step));
      VolleyLater(ip, t, burst, rest, t + step, t + Copies(k, step));
    }
  }

  /** A volley now, and then what comes later. */
  lemma VolleyLater(ip: string, now: real, n: nat, rest: seq<Event>, later: real, end: real)
    requires now <= later && Ordered(later, rest, end)
    ensures Ordered(now, Volley(ip, now, n) + rest, end)
  {
    OrderedEnd(later, rest, end);
    VolleyOrdered(ip, now, n, rest, end);
  }
}
