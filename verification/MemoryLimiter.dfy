/** The in-memory rate limiter: one token bucket per client IP, refilled at rps
    tokens per second up to burst, with buckets idle for three minutes evicted.
    Times are real seconds; one clock reading is taken per request. */
module MemoryLimiter {
  import opened Common
  import opened TokenTime

  datatype Limits = Limits(rps: real, burst: nat)

  predicate Sane(l: Limits) { l.rps > 0.0 }

  const IDLE := 180.0

  function Burst(l: Limits): real { l.burst as real }

  /** Tokens refilled in a span of time. */
  function Refill(l: Limits, span: real): real { l.rps * span }

  /** Tokens in the bucket at a later time: refilled at rps, capped at burst. */
  function Refilled(l: Limits, b: Bucket, now: real): real {
    var tokens := b.level + Refill(l, now - b.at);
    if tokens < Burst(l) then tokens else Burst(l)
  }

  /** limiter.Allow(): true iff a whole token is there, which is then taken. */
  function Allow(l: Limits, b: Bucket, now: real): (Bucket, bool) {
    var tokens := Refilled(l, b, now);
    if tokens >= 1.0 then (Bucket(tokens - 1.0, now), true) else (Bucket(tokens, now), false)
  }

  /** The bucket of an IP; a new one starts full. */
  function BucketOf(l: Limits, m: Buckets, ip: string, now: real): Bucket {
    if ip in m then m[ip] else Bucket(Burst(l), now)
  }

  /** One event; with evict = false the cleanup does nothing. */
  function Serve(l: Limits, evict: bool, m: Buckets, e: Event): Buckets {
    match e
    case Request(ip, now) => m[ip := Allow(l, BucketOf(l, m, ip, now), now).0]
    case Tick(now) => if evict then map ip | ip in m && !(now - m[ip].at > IDLE) :: m[ip] else m
  }

  predicate Admits(l: Limits, m: Buckets, e: Event) {
    e.Request? && Allow(l, BucketOf(l, m, e.ip, e.now), e.now).1
  }

  /** The state after a trace. */
  function Final(l: Limits, evict: bool, m: Buckets, evs: seq<Event>): Buckets
    decreases |evs|
  {
    if evs == [] then m else Final(l, evict, Serve(l, evict, m, evs[0]), evs[1..])
  }

  /** The allow/deny decisions along a trace (cleanup ticks count as false). */
  function Verdicts(l: Limits, evict: bool, m: Buckets, evs: seq<Event>): seq<bool>
    decreases |evs|
  {
    if evs == [] then [] else
    [Admits(l, m, evs[0])] + Verdicts(l, evict, Serve(l, evict, m, evs[0]), evs[1..])
  }

  /** How many requests of one IP are admitted along a trace. */
  function Admitted(l: Limits, evict: bool, m: Buckets, evs: seq<Event>, ip: string): nat
    decreases |evs|
  {
    if evs == [] then 0 else
    (if Admits(l, m, evs[0]) && evs[0].ip == ip then 1 else 0)
    + Admitted(l, evict, Serve(l, evict, m, evs[0]), evs[1..], ip)
  }

  // ---------------------------------------------- reduction to token time

  function Core(l: Limits): Config { Config(l.burst, IDLE * l.rps) }

  function ScaleBucket(l: Limits, b: Bucket): Bucket { Bucket(b.level, Refill(l, b.at)) }

  function ScaleMap(l: Limits, m: Buckets): Buckets { map ip | ip in m :: ScaleBucket(l, m[ip]) }

  function ScaleEvent(l: Limits, e: Event): Event {
    match e case Request(ip, now) => Request(ip, Refill(l, now)) case Tick(now) => Tick(Refill(l, now))
  }

  function ScaleTrace(l: Limits, evs: seq<Event>): seq<Event> {
    seq(|evs|, i requires 0 <= i < |evs| => ScaleEvent(l, evs[i]))
  }

  lemma LevelScales(l: Limits, b: Bucket, now: real)
    ensures Level(Core(l), ScaleBucket(l, b), Refill(l, now)) == Refilled(l, b, now)
  {
    assert Refill(l, now) - Refill(l, b.at) == l.rps * (now - b.at);
  }

  lemma TakeScales(l: Limits, b: Bucket, now: real)
    ensures Take(Core(l), ScaleBucket(l, b), Refill(l, now)).0 == ScaleBucket(l, Allow(l, b, now).0)
    ensures Take(Core(l), ScaleBucket(l, b), Refill(l, now)).1 == Allow(l, b, now).1
  {
    LevelScales(l, b, now);
    var tokens := Refilled(l, b, now);
    if tokens >= 1.0 {
      assert Take(Core(l), ScaleBucket(l, b), Refill(l, now)).0 == Bucket(tokens - 1.0, Refill(l, now));
    } else {
      assert Take(Core(l), ScaleBucket(l, b), Refill(l, now)).0 == Bucket(tokens, Refill(l, now));
    }
  }

  lemma StaleScales(l: Limits, b: Bucket, now: real)
    requires Sane(l)
    ensures Stale(Core(l), ScaleBucket(l, b), Refill(l, now)) <==> now - b.at > IDLE
  {
    assert Refill(l, now) - Refill(l, b.at) - IDLE * l.rps == l.rps * (now - b.at - IDLE);
  }

  lemma GetScales(l: Limits, m: Buckets, ip: string, now: real)
    ensures Get(Core(l), ScaleMap(l, m), ip, Refill(l, now)) == ScaleBucket(l, BucketOf(l, m, ip, now))
  {
  }

  lemma StepScales(l: Limits, evict: bool, m: Buckets, e: Event)
    requires Sane(l)
    ensures Step(Core(l), evict, ScaleMap(l, m), ScaleEvent(l, e)) == ScaleMap(l, Serve(l, evict, m, e))
    ensures Allowed(Core(l), ScaleMap(l, m), ScaleEvent(l, e)) == Admits(l, m, e)
  {
    match e
    case Request(ip, now) =>
      GetScales(l, m, ip, now);
      TakeScales(l, BucketOf(l, m, ip, now), now);
      assert Step(Core(l), evict, ScaleMap(l, m), ScaleEvent(l, e))
             == ScaleMap(l, m)[ip := ScaleBucket(l, Allow(l, BucketOf(l, m, ip, now), now).0)];
    case Tick(now) =>
      forall ip | ip in m ensures Stale(Core(l), ScaleMap(l, m)[ip], Refill(l, now)) <==> now - m[ip].at > IDLE {
        StaleScales(l, m[ip], now);
      }
      assert Step(Core(l), evict, ScaleMap(l, m), ScaleEvent(l, e)).Keys == ScaleMap(l, Serve(l, evict, m, e)).Keys;
  }

  lemma {:induction false} RunScales(l: Limits, evict: bool, m: Buckets, evs: seq<Event>, ip: string)
    requires Sane(l)
    ensures Decisions(Core(l), evict, ScaleMap(l, m), ScaleTrace(l, evs)) == Verdicts(l, evict, m, evs)
    ensures Count(Core(l), evict, ScaleMap(l, m), ScaleTrace(l, evs), ip) == Admitted(l, evict, m, evs, ip)
    ensures After(Core(l), evict, ScaleMap(l, m), ScaleTrace(l, evs)) == ScaleMap(l, Final(l, evict, m, evs))
    decreases |evs|
  {
    if evs != [] {
      StepScales(l, evict, m, evs[0]);
      RunScales(l, evict, Serve(l, evict, m, evs[0]), evs[1..], ip);
      assert ScaleTrace(l, evs)[1..] == ScaleTrace(l, evs[1..]);
    }
  }

  lemma Monotone(l: Limits, x: real, y: real)
    requires Sane(l) && x <= y
    ensures l.rps * x <= l.rps * y
  {
  }

  lemma {:induction false} OrderedScales(l: Limits, t: real, evs: seq<Event>, end: real)
    requires Sane(l) && Ordered(t, evs, end)
    ensures Ordered(Refill(l, t), ScaleTrace(l, evs), Refill(l, end))
    decreases |evs|
  {
    if evs == [] {
      Monotone(l, t, end);
    } else {
      Monotone(l, t, evs[0].now);
      OrderedScales(l, evs[0].now, evs[1..], end);
      assert ScaleTrace(l, evs)[1..] == ScaleTrace(l, evs[1..]);
    }
  }

  lemma EmptyScales(l: Limits)
    ensures ScaleMap(l, map[]) == map[] && Refill(l, 0.0) == 0.0
  {
  }

  // ------------------------------------------ eviction is invisible, or not

  /** No client can tell the evicting map from one bucket per IP for ever. */
  ghost predicate Unnoticeable(l: Limits) {
    forall evs, end :: Ordered(0.0, evs, end) ==> Verdicts(l, true, map[], evs) == Verdicts(l, false, map[], evs)
  }

  lemma EvictionUnnoticed(l: Limits, evs: seq<Event>, end: real)
    requires Sane(l) && Burst(l) <= IDLE * l.rps && Ordered(0.0, evs, end)
    ensures Verdicts(l, true, map[], evs) == Verdicts(l, false, map[], evs)
  {
    EmptyScales(l);
    RunScales(l, true, map[], evs, "");
    RunScales(l, false, map[], evs, "");
    OrderedScales(l, 0.0, evs, end);
    TokenTime.EvictionInvisible(Core(l), map[], map[], 0.0, ScaleTrace(l, evs), Refill(l, end));
  }

  /** A moment after three idle minutes and within four at which a drained bucket
      is not full yet. */
  function Moment(l: Limits): real
    requires Sane(l)
  {
    if 240.0 < FillTime(l) then 240.0 else (IDLE + FillTime(l)) / 2.0
  }

  lemma StrictlyMonotone(r: real, x: real, y: real)
    requires r > 0.0
    ensures x < y <==> r * x < r * y
  {
    if x < y {
      assert r * (y - x) > 0.0;
    } else {
      assert r * (x - y) >= 0.0;
    }
  }

  /** How long a drained bucket takes to refill. */
  function FillTime(l: Limits): (q: real)
    requires Sane(l)
    ensures l.rps * q == Burst(l)
  {
    Quotient(Burst(l), l.rps);
    Burst(l) / l.rps
  }

  lemma Quotient(a: real, r: real)
    requires r > 0.0
    ensures r * (a / r) == a
  {
  }

  lemma MomentBounds(l: Limits)
    requires Sane(l) && Burst(l) > IDLE * l.rps
    ensures IDLE < Moment(l) <= 240.0 && IDLE * l.rps < Refill(l, Moment(l)) < Burst(l)
  {
    var q, u := FillTime(l), Moment(l);
    StrictlyMonotone(l.rps, IDLE, q);
    StrictlyMonotone(l.rps, IDLE, u);
    StrictlyMonotone(l.rps, u, q);
  }

  /** Cleanups one minute apart, the last one at Moment. */
  function Minutes(l: Limits): seq<Event>
    requires Sane(l)
  {
    var u := Moment(l);
    [Tick(u - 180.0), Tick(u - 120.0), Tick(u - 60.0), Tick(u)]
  }

  /** A burst, four cleanups one minute apart, and a second burst. */
  function Telltale(l: Limits, ip: string): seq<Event>
    requires Sane(l)
  {
    Volley(ip, 0.0, l.burst) + (Minutes(l) + Volley(ip, Moment(l), l.burst))
  }

  lemma {:induction false} VolleyScales(l: Limits, ip: string, now: real, n: nat)
    ensures ScaleTrace(l, Volley(ip, now, n)) == Volley(ip, Refill(l, now), n)
  {
    if n > 0 {
      VolleyScales(l, ip, now, n - 1);
      assert Volley(ip, now, n) == [Request(ip, now)] + Volley(ip, now, n - 1);
      AppendScales(l, [Request(ip, now)], Volley(ip, now, n - 1));
      assert ScaleTrace(l, [Request(ip, now)]) == [Request(ip, Refill(l, now))];
    }
  }

  lemma AppendScales(l: Limits, a: seq<Event>, b: seq<Event>)
    ensures ScaleTrace(l, a + b) == ScaleTrace(l, a) + ScaleTrace(l, b)
  {
  }

  lemma MinutesOrdered(l: Limits)
    requires Sane(l) && Burst(l) > IDLE * l.rps
    ensures Ordered(0.0, Minutes(l), Moment(l))
  {
    MomentBounds(l);
    var ticks, u := Minutes(l), Moment(l);
    assert ticks[3..] == [Tick(u)] && ticks[2..][1..] == ticks[3..] && ticks[1..][1..] == ticks[2..];
    assert ticks[3..][1..] == [];
    assert Ordered(u - 60.0, ticks[3..], u);
    assert Ordered(u - 120.0, ticks[2..], u);
    assert Ordered(u - 180.0, ticks[1..], u);
  }

  lemma TelltaleOrdered(l: Limits, ip: string)
    requires Sane(l) && Burst(l) > IDLE * l.rps
    ensures Ordered(0.0, Telltale(l, ip), Moment(l))
  {
    var u := Moment(l);
    var last := Volley(ip, u, l.burst);
    assert last + [] == last;
    VolleyOrdered(ip, u, l.burst, [], u);
    MinutesOrdered(l);
    OrderedAppend(0.0, Minutes(l), u, last, u);
    VolleyOrdered(ip, 0.0, l.burst, Minutes(l) + last, u);
  }

  lemma TelltaleScales(l: Limits, ip: string)
    requires Sane(l)
    ensures ScaleTrace(l, Telltale(l, ip)) == TwoBursts(Core(l), ip, ScaleTrace(l, Minutes(l)), Refill(l, Moment(l)))
  {
    var u, ticks := Moment(l), Minutes(l);
    EmptyScales(l);
    VolleyScales(l, ip, 0.0, l.burst);
    VolleyScales(l, ip, u, l.burst);
    AppendScales(l, Volley(ip, 0.0, l.burst), ticks + Volley(ip, u, l.burst));
    AppendScales(l, ticks, Volley(ip, u, l.burst));
  }

  lemma MinutesScale(l: Limits)
    requires Sane(l) && Burst(l) > IDLE * l.rps
    ensures var ticks := ScaleTrace(l, Minutes(l));
            && |ticks| == 4 && (forall e :: e in ticks ==> e.Tick?) && ticks[3].now == Refill(l, Moment(l))
            && Ordered(0.0, ticks, Refill(l, Moment(l)))
  {
    MinutesOrdered(l);
    OrderedScales(l, 0.0, Minutes(l), Moment(l));
    EmptyScales(l);
  }

  /** With burst > 180 rps, cleanups once a minute and one quiet client suffice to
      tell the difference. */
  lemma EvictionNoticed(l: Limits, ip: string)
    requires Sane(l) && Burst(l) > IDLE * l.rps
    ensures Ordered(0.0, Telltale(l, ip), Moment(l))
    ensures Verdicts(l, true, map[], Telltale(l, ip)) != Verdicts(l, false, map[], Telltale(l, ip))
  {
    var evs, ticks := Telltale(l, ip), ScaleTrace(l, Minutes(l));
    TelltaleOrdered(l, ip);
    MomentBounds(l);
    MinutesScale(l);
    TelltaleScales(l, ip);
    EmptyScales(l);
    RunScales(l, true, map[], evs, ip);
    RunScales(l, false, map[], evs, ip);
    TokenTime.EvictionVisible(Core(l), ip, ticks, ticks[3].now);
  }

  /** The exact condition under which eviction is only a cache policy. */
  lemma UnnoticeableIff(l: Limits)
    requires Sane(l)
    ensures Unnoticeable(l) <==> Burst(l) <= IDLE * l.rps
  {
    if Burst(l) <= IDLE * l.rps {
      forall evs, end | Ordered(0.0, evs, end) ensures Verdicts(l, true, map[], evs) == Verdicts(l, false, map[], evs) {
        EvictionUnnoticed(l, evs, end);
      }
    } else {
      EvictionNoticed(l, "");
    }
  }

  // --------------------------------------------------------------- budgets

  /** burst + rps * span. */
  function Budget(l: Limits, span: real): real { Burst(l) + l.rps * span }

  /** Whole idle periods that fit into a span of time. */
  function Periods(span: real): nat
    requires span >= 0.0
  {
    (span / IDLE).Floor
  }

  lemma {:induction false} CopiesIsProduct(k: nat, x: real)
    ensures Copies(k, x) == k as real * x
  {
    if k > 0 {
      CopiesIsProduct(k - 1, x);
      assert k as real * x == (k - 1) as real * x + x;
    }
  }

  /** Buckets reached by a trace are sound. */
  lemma {:induction false} GoodAfter(cfg: Config, evict: bool, m: Buckets, t: real, evs: seq<Event>, end: real)
    requires Good(cfg, m, t) && Ordered(t, evs, end)
    ensures Good(cfg, After(cfg, evict, m, evs), end)
    decreases |evs|
  {
    if evs != [] {
      StepGood(cfg, evict, m, evs[0], t);
      GoodAfter(cfg, evict, Step(cfg, evict, m, evs[0]), evs[0].now, evs[1..], end);
    }
  }

  /** What an eviction adds: max(0, burst - 180 rps). */
  function EvictionGain(l: Limits): (g: real) {
    if Burst(l) > IDLE * l.rps then Burst(l) - IDLE * l.rps else 0.0
  }

  /** The interval bound with both ends given in token time. */
  lemma AdmittedCore(l: Limits, before: seq<Event>, t: real, evs: seq<Event>, end: real, ip: string, k: nat)
    requires Sane(l) && Ordered(0.0, ScaleTrace(l, before), t) && Ordered(t, ScaleTrace(l, evs), end)
    requires end - t < Copies(k + 1, Core(l).idle)
    ensures Admitted(l, true, Final(l, true, map[], before), evs, ip) as real
            <= Burst(l) + (end - t) + Copies(k, EvictionGain(l))
  {
    var m := Final(l, true, map[], before);
    EmptyScales(l);
    RunScales(l, true, map[], before, ip);
    GoodAfter(Core(l), true, map[], 0.0, ScaleTrace(l, before), t);
    RunScales(l, true, m, evs, ip);
    IntervalBudget(Core(l), ScaleMap(l, m), ip, t, ScaleTrace(l, evs), end, k);
  }

  /** burst + rps * span + floor(span / 180) * max(0, burst - 180 rps). */
  function Allowance(l: Limits, span: real): real
    requires span >= 0.0
  {
    Burst(l) + l.rps * span + Periods(span) as real * EvictionGain(l)
  }

  lemma RefillBetween(l: Limits, t: real, end: real)
    ensures Refill(l, end) - Refill(l, t) == Refill(l, end - t)
  {
  }

  lemma AllowanceIs(l: Limits, t: real, end: real)
    requires t <= end
    ensures Burst(l) + (Refill(l, end) - Refill(l, t)) + Copies(Periods(end - t), EvictionGain(l))
            == Allowance(l, end - t)
  {
    RefillBetween(l, t, end);
    CopiesIsProduct(Periods(end - t), EvictionGain(l));
  }

  /** After any history, in any interval from t to end one IP is admitted at most
      burst + rps (end - t) times, and max(0, burst - 180 rps) times more for every
      idle period that fits in, evictions included. */
  lemma AdmittedPerInterval(l: Limits, before: seq<Event>, t: real, evs: seq<Event>, end: real, ip: string)
    requires Sane(l) && Ordered(0.0, before, t) && Ordered(t, evs, end) && t <= end
    ensures Admitted(l, true, Final(l, true, map[], before), evs, ip) as real <= Allowance(l, end - t)
  {
    EmptyScales(l);
    OrderedScales(l, 0.0, before, t);
    OrderedScales(l, t, evs, end);
    SpanScales(l, t, end);
    AdmittedCore(l, before, Refill(l, t), evs, Refill(l, end), ip, Periods(end - t));
    AllowanceIs(l, t, end);
  }

  /** burst (1 + floor(span / 180)) + rps * span. */
  function PerPeriod(l: Limits, span: real): real
    requires span >= 0.0
  {
    (Periods(span) + 1) as real * Burst(l) + l.rps * span
  }

  /** In particular burst for every idle period begun, and the refill. */
  lemma AdmittedPerPeriod(l: Limits, before: seq<Event>, t: real, evs: seq<Event>, end: real, ip: string)
    requires Sane(l) && Ordered(0.0, before, t) && Ordered(t, evs, end) && t <= end
    ensures Admitted(l, true, Final(l, true, map[], before), evs, ip) as real <= PerPeriod(l, end - t)
  {
    AdmittedPerInterval(l, before, t, evs, end, ip);
    AllowanceAtMost(l, end - t);
  }

  lemma AllowanceAtMost(l: Limits, span: real)
    requires Sane(l) && span >= 0.0
    ensures Allowance(l, span) <= PerPeriod(l, span)
  {
    var n := Periods(span) as real;
    GainAtMostBurst(l, n);
    assert (Periods(span) + 1) as real == n + 1.0;
    assert Allowance(l, span) == Burst(l) + l.rps * span + n * EvictionGain(l);
  }

  lemma GainAtMostBurst(l: Limits, n: real)
    requires Sane(l) && n >= 0.0
    ensures n * EvictionGain(l) + Burst(l) <= (n + 1.0) * Burst(l)
  {
    assert l.rps * IDLE > 0.0 && EvictionGain(l) <= Burst(l);
    assert n * (Burst(l) - EvictionGain(l)) >= 0.0;
  }

  /** Less than one more period fits into a span. */
  lemma SpanInPeriods(l: Limits, span: real)
    requires Sane(l) && span >= 0.0
    ensures Refill(l, span) < (Periods(span) + 1) as real * (IDLE * l.rps)
  {
    var n := (Periods(span) + 1) as real;
    assert span < n * IDLE;
    assert n * (IDLE * l.rps) - l.rps * span == l.rps * (n * IDLE - span);
    assert l.rps * (n * IDLE - span) > 0.0;
  }

  lemma SpanScales(l: Limits, t: real, end: real)
    requires Sane(l) && t <= end
    ensures Refill(l, end) - Refill(l, t) < Copies(Periods(end - t) + 1, Core(l).idle)
  {
    RefillBetween(l, t, end);
    SpanInPeriods(l, end - t);
    CopiesIsProduct(Periods(end - t) + 1, Core(l).idle);
  }

  /** If burst <= 180 rps, evictions add nothing: at most burst + rps (end - t). */
  lemma AdmittedTight(l: Limits, before: seq<Event>, t: real, evs: seq<Event>, end: real, ip: string)
    requires Sane(l) && Burst(l) <= IDLE * l.rps && Ordered(0.0, before, t) && Ordered(t, evs, end)
    ensures Admitted(l, true, Final(l, true, map[], before), evs, ip) as real <= Budget(l, end - t)
  {
    OrderedEnd(t, evs, end);
    AdmittedPerInterval(l, before, t, evs, end, ip);
  }

  lemma {:induction false} WavesScale(l: Limits, ip: string, step: real, t: real, k: nat)
    ensures ScaleTrace(l, Waves(l.burst, ip, step, t, k)) == Waves(l.burst, ip, Refill(l, step), Refill(l, t), k)
    decreases k
  {
    VolleyScales(l, ip, t, l.burst);
    if k == 0 {
      AppendScales(l, Volley(ip, t, l.burst), []);
    } else {
      var tick, later := [Tick(t + step)], Waves(l.burst, ip, step, t + step, k - 1);
      WavesScale(l, ip, step, t + step, k - 1);
      AppendScales(l, tick, later);
      AppendScales(l, Volley(ip, t, l.burst), tick + later);
      RefillAdds(l, t, step);
      assert ScaleTrace(l, tick) == [Tick(Refill(l, t) + Refill(l, step))];
    }
  }

  lemma RefillAdds(l: Limits, t: real, step: real)
    ensures Refill(l, t + step) == Refill(l, t) + Refill(l, step)
  {
  }

  /** Waves more than an idle period apart are admitted whole. */
  lemma WavesAdmitted(l: Limits, ip: string, k: nat, excess: real)
    requires Sane(l) && l.burst > 0 && excess > 0.0
    ensures Admitted(l, true, map[], Waves(l.burst, ip, IDLE + excess, 0.0, k), ip) == (k + 1) * l.burst
  {
    var evs := Waves(l.burst, ip, IDLE + excess, 0.0, k);
    EmptyScales(l);
    RunScales(l, true, map[], evs, ip);
    WavesScale(l, ip, IDLE + excess, 0.0, k);
    Longer(l, excess);
    WavesAllowed(Core(l), ip, Refill(l, IDLE + excess), 0.0, k);
  }

  lemma Longer(l: Limits, excess: real)
    requires Sane(l) && excess > 0.0
    ensures Refill(l, IDLE + excess) > Core(l).idle
  {
    assert l.rps * excess > 0.0;
  }

  /** k steps, each a little more than an idle period. */
  lemma WavesSpan(k: nat, excess: real)
    requires excess > 0.0 && Copies(k, excess) < IDLE
    ensures Copies(k, IDLE + excess) == k as real * IDLE + Copies(k, excess) >= 0.0
    ensures Periods(Copies(k, IDLE + excess)) == k
  {
    CopiesNonNegative(k, excess);
    SumOfCopies(k, IDLE, excess);
    CopiesIsProduct(k, IDLE);
  }

  lemma {:induction false} SumOfCopies(k: nat, x: real, y: real)
    ensures Copies(k, x + y) == Copies(k, x) + Copies(k, y)
  {
    if k > 0 { SumOfCopies(k - 1, x, y); }
  }

  lemma AllowanceOfWaves(l: Limits, k: nat, excess: real)
    requires Sane(l) && Burst(l) >= IDLE * l.rps && excess > 0.0 && Copies(k, excess) < IDLE
    ensures Copies(k, IDLE + excess) >= 0.0
    ensures Allowance(l, Copies(k, IDLE + excess)) == ((k + 1) * l.burst) as real + Refill(l, Copies(k, excess))
  {
    var n, x, span, gain := k as real, Copies(k, excess), Copies(k, IDLE + excess), EvictionGain(l);
    WavesSpan(k, excess);
    assert gain == Burst(l) - IDLE * l.rps;
    assert n * gain == n * Burst(l) - n * (IDLE * l.rps);
    assert n * (IDLE * l.rps) == l.rps * (n * IDLE);
    assert l.rps * span == l.rps * (n * IDLE) + l.rps * x;
    assert ((k + 1) * l.burst) as real == n * Burst(l) + Burst(l);
    assert Allowance(l, span) == Burst(l) + l.rps * span + n * gain;
  }

  /** The bound is sharp: k waves after the first one, each a little more than 180
      seconds after the last, are admitted whole in the interval that they span, and
      the bound exceeds that only by what is refilled in the excess. */
  lemma AllowanceReached(l: Limits, ip: string, k: nat, excess: real)
    requires Sane(l) && Burst(l) >= IDLE * l.rps && l.burst > 0 && excess > 0.0 && Copies(k, excess) < IDLE
    ensures var evs, span := Waves(l.burst, ip, IDLE + excess, 0.0, k), Copies(k, IDLE + excess);
            && span >= 0.0 && Ordered(0.0, evs, span)
            && Admitted(l, true, map[], evs, ip) == (k + 1) * l.burst
            && Allowance(l, span) == ((k + 1) * l.burst) as real + Refill(l, Copies(k, excess))
  {
    WavesOrdered(l.burst, ip, IDLE + excess, 0.0, k);
    WavesAdmitted(l, ip, k, excess);
    AllowanceOfWaves(l, k, excess);
  }

  // -------------------------------------------------------------- replicas

  /** Instances with separate maps: instance r has served befores[r] and then
      serves traces[r]. The requests of one IP that the first n instances admit
      on the second part. */
  function FleetAdmitted(l: Limits, befores: seq<seq<Event>>, traces: seq<seq<Event>>, ip: string, n: nat): nat
    requires n <= |traces| == |befores|
  {
    if n == 0 then 0 else
    FleetAdmitted(l, befores, traces, ip, n - 1)
    + Admitted(l, true, Final(l, true, map[], befores[n - 1]), traces[n - 1], ip)
  }

  /** n (burst + rps * span). */
  function FleetBudget(l: Limits, n: nat, span: real): real { n as real * Budget(l, span) }

  /** N instances with separate maps admit one IP at most N (burst + rps (end - t))
      times. */
  lemma FleetBound(l: Limits, befores: seq<seq<Event>>, t: real, traces: seq<seq<Event>>, end: real, ip: string, n: nat)
    requires Sane(l) && Burst(l) <= IDLE * l.rps && n <= |traces| == |befores|
    requires forall r :: 0 <= r < |traces| ==> Ordered(0.0, befores[r], t) && Ordered(t, traces[r], end)
    ensures FleetAdmitted(l, befores, traces, ip, n) as real <= FleetBudget(l, n, end - t)
  {
    FleetSum(l, befores, t, traces, end, ip, n);
    FleetBudgetIs(l, n, end - t);
  }

  lemma FleetBudgetIs(l: Limits, n: nat, span: real)
    ensures FleetBudget(l, n, span) == Copies(n, Budget(l, span))
  {
    CopiesIsProduct(n, Budget(l, span));
  }

  /** Instance by instance. */
  lemma {:induction false} FleetSum(l: Limits, befores: seq<seq<Event>>, t: real, traces: seq<seq<Event>>,
                                    end: real, ip: string, n: nat)
    requires Sane(l) && Burst(l) <= IDLE * l.rps && n <= |traces| == |befores|
    requires forall r :: 0 <= r < |traces| ==> Ordered(0.0, befores[r], t) && Ordered(t, traces[r], end)
    ensures FleetAdmitted(l, befores, traces, ip, n) as real <= Copies(n, Budget(l, end - t))
    decreases n
  {
    if n > 0 {
      FleetSum(l, befores, t, traces, end, ip, n - 1);
      AdmittedTight(l, befores[n - 1], t, traces[n - 1], end, ip);
    }
  }

  /** The factor N is reached: N fresh instances let N bursts through at one moment. */
  lemma {:induction false} FleetReached(l: Limits, ip: string, now: real, n: nat, size: nat)
    requires Sane(l) && n <= size && l.burst > 0
    ensures FleetAdmitted(l, seq(size, i => []), seq(size, i => Volley(ip, now, l.burst)), ip, n) == n * l.burst
    decreases n
  {
    if n > 0 {
      FleetReached(l, ip, now, n - 1, size);
      var volley := Volley(ip, now, l.burst);
      EmptyScales(l);
      RunScales(l, true, map[], volley, ip);
      VolleyScales(l, ip, now, l.burst);
      BurstAllowed(Core(l), true, map[], ip, Refill(l, now), []);
      assert Volley(ip, Refill(l, now), l.burst) + [] == Volley(ip, Refill(l, now), l.burst);
      assert n * l.burst == (n - 1) * l.burst + l.burst;
    }
  }

  // -------------------------------------------------------- size of the map

  /** The clients seen since a moment. */
  function SeenSince(evs: seq<Event>, since: real): set<string> {
    set i | 0 <= i < |evs| && evs[i].Request? && evs[i].now >= since :: evs[i].ip
  }

  /** No event, and not the moment end, is more than a minute after the last
      cleanup before it; last is the time of the latest cleanup or of the start. */
  predicate Punctual(last: real, evs: seq<Event>, end: real)
    decreases |evs|
  {
    if evs == [] then end <= last + 60.0
    else evs[0].now <= last + 60.0 && Punctual(if evs[0].Tick? then evs[0].now else last, evs[1..], end)
  }

  /** What the map is at time t, after a trace whose latest cleanup was at last:
      clients seen in the last three minutes are in it, and those in it are there
      with the time of a request that is not older than last - 180. */
  ghost predicate Tracks(m: Buckets, past: seq<Event>, last: real, t: real) {
    && (forall i :: 0 <= i < |past| ==> past[i].now <= t)
    && (forall i :: 0 <= i < |past| && past[i].Request? && past[i].now >= t - IDLE ==>
          past[i].ip in m && m[past[i].ip].at >= past[i].now)
    && (forall ip :: ip in m ==> m[ip].at >= last - IDLE && Request(ip, m[ip].at) in past)
  }

  lemma TracksStep(l: Limits, m: Buckets, past: seq<Event>, last: real, t: real, e: Event)
    requires Tracks(m, past, last, t) && last <= t <= e.now
    ensures Tracks(Serve(l, true, m, e), past + [e], if e.Tick? then e.now else last, e.now)
  {
  }

  lemma {:induction false} TracksRun(l: Limits, m: Buckets, past: seq<Event>, last: real, t: real, evs: seq<Event>,
                                     end: real)
    requires Tracks(m, past, last, t) && last <= t && Ordered(t, evs, end) && Punctual(last, evs, end)
    ensures exists tick :: tick >= end - 60.0 && Tracks(Final(l, true, m, evs), past + evs, tick, end)
    decreases |evs|
  {
    if evs == [] {
      assert past + evs == past;
      assert Tracks(Final(l, true, m, evs), past + evs, last, end);
    } else {
      var e := evs[0];
      TracksStep(l, m, past, last, t, e);
      assert past + evs == past + [e] + evs[1..];
      var m' := Serve(l, true, m, e);
      TracksRun(l, m', past + [e], if e.Tick? then e.now else last, e.now, evs[1..], end);
      var tick :| tick >= end - 60.0 && Tracks(Final(l, true, m', evs[1..]), past + [e] + evs[1..], tick, end);
      assert Tracks(Final(l, true, m, evs), past + evs, tick, end);
    }
  }

  /** With cleanups at most a minute apart, the map holds every client of the last
      three minutes and only clients of the last four, so it is never larger than
      the number of those. */
  lemma MapSize(l: Limits, evs: seq<Event>, end: real)
    requires Ordered(0.0, evs, end) && Punctual(0.0, evs, end)
    ensures var m := Final(l, true, map[], evs);
            SeenSince(evs, end - 180.0) <= m.Keys <= SeenSince(evs, end - 240.0) && |m| <= |SeenSince(evs, end - 240.0)|
  {
    var m := Final(l, true, map[], evs);
    TracksRun(l, map[], [], 0.0, 0.0, evs, end);
    assert [] + evs == evs;
    var tick :| tick >= end - 60.0 && Tracks(m, evs, tick, end);
    TracksMeans(m, evs, tick, end);
    SubsetSize(m.Keys, SeenSince(evs, end - 240.0));
  }

  lemma TracksMeans(m: Buckets, evs: seq<Event>, tick: real, end: real)
    requires tick >= end - 60.0 && Tracks(m, evs, tick, end)
    ensures SeenSince(evs, end - 180.0) <= m.Keys <= SeenSince(evs, end - 240.0)
  {
    forall ip | ip in SeenSince(evs, end - 180.0) ensures ip in m.Keys {
      var i :| 0 <= i < |evs| && evs[i].Request? && evs[i].now >= end - 180.0 && evs[i].ip == ip;
    }
    forall ip | ip in m.Keys ensures ip in SeenSince(evs, end - 240.0) {
      var i :| 0 <= i < |evs| && evs[i] == Request(ip, m[ip].at);
    }
  }

  // ------------------------------------------------------------- the object

  datatype Visitor = Visitor(limiter: Bucket, lastSeen: real)

  /** The backend: a map of visitors, changed by allow and by the cleanup loop. */
  class InMemoryBackend {
    var visitors: map<string, Visitor>
    const limits: Limits

    ghost predicate Valid() reads this {
      forall ip :: ip in visitors ==> visitors[ip].lastSeen == visitors[ip].limiter.at
    }

    ghost function Map(): Buckets reads this { map ip | ip in visitors :: visitors[ip].limiter }

    constructor (limits: Limits)
      ensures Valid() && Map() == map[] && this.limits == limits
    {
      this.limits := limits;
      visitors := map[];
    }

    method AllowRequest(ip: string, now: real) returns (allowed: bool)
      requires Valid()
      modifies this
      ensures Valid() && Map() == Serve(limits, true, old(Map()), Request(ip, now))
      ensures allowed == Admits(limits, old(Map()), Request(ip, now))
    {
      if ip !in visitors {
        visitors := visitors[ip := Visitor(Bucket(limits.burst as real, now), now)];
      }
      var v := visitors[ip];
      var tokens := Refilled(limits, v.limiter, now);
      allowed := tokens >= 1.0;
      visitors := visitors[ip := Visitor(Bucket(if allowed then tokens - 1.0 else tokens, now), now)];
      assert Refill(limits, 0.0) == 0.0;
      assert Map() == Serve(limits, true, old(Map()), Request(ip, now));
    }

    method Cleanup(now: real)
      requires Valid()
      modifies this
      ensures Valid() && Map() == Serve(limits, true, old(Map()), Tick(now))
    {
      var rest := visitors.Keys;
      while rest != {}
        invariant rest <= visitors.Keys <= old(visitors).Keys
        invariant forall ip :: ip in visitors ==> visitors[ip] == old(visitors)[ip]
        invariant forall ip :: ip in old(visitors) && ip !in rest ==>
                    (ip in visitors <==> !(now - old(visitors)[ip].lastSeen > IDLE))
        decreases |rest|
      {
        var ip :| ip in rest;
        if now - visitors[ip].lastSeen > IDLE {
          visitors := visitors - {ip};
        }
        rest := rest - {ip};
      }
      assert Map() == Serve(limits, true, old(Map()), Tick(now));
    }
  }
}
