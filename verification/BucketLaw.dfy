/** The law of the token bucket in terms of verdicts: exactly which requests are
    denied, and that a denied request costs nothing. First in token time, then in
    seconds. */
module BucketLaw {
  import opened TokenTime
  import opened MemoryLimiter

  predicate Touches(e: Event, ip: string) { e.Request? && e.ip == ip }

  /** Event k is a cleanup that finds this IP idle: all its requests are longer ago
      than the idle time. */
  ghost predicate IdleTick(idle: real, evs: seq<Event>, ip: string, k: nat) {
    && k < |evs| && evs[k].Tick?
    && forall r: nat :: r < k && Touches(evs[r], ip) ==> evs[k].now - evs[r].now > idle
  }

  /** No cleanup from event j up to event i may evict this IP. */
  ghost predicate Undisturbed(evict: bool, idle: real, evs: seq<Event>, ip: string, j: nat, i: nat) {
    evict ==> forall k: nat :: j <= k < i ==> !IdleTick(idle, evs, ip, k)
  }

  /** Requests of this IP admitted by the verdicts v, from event j up to event i. */
  function AdmittedBetween(evs: seq<Event>, v: seq<bool>, ip: string, j: nat, i: nat): nat
    requires j <= i <= |evs| == |v|
  {
    if i == j then 0
    else AdmittedBetween(evs, v, ip, j, i - 1)
         + if v[i - 1] && Touches(evs[i - 1], ip) then 1 else 0
  }

  // ------------------------------------------------------------ token time

  function StateAt(cfg: Config, evict: bool, evs: seq<Event>, i: nat): Buckets
    requires i <= |evs|
  {
    After(cfg, evict, map[], evs[..i])
  }

  lemma {:induction false} DecisionAt(cfg: Config, evict: bool, m: Buckets, evs: seq<Event>, i: nat)
    requires i < |evs|
    ensures |Decisions(cfg, evict, m, evs)| == |evs|
    ensures Decisions(cfg, evict, m, evs)[i] == Allowed(cfg, After(cfg, evict, m, evs[..i]), evs[i])
    decreases |evs|
  {
    DecisionsLength(cfg, evict, Step(cfg, evict, m, evs[0]), evs[1..]);
    if i > 0 {
      DecisionAt(cfg, evict, Step(cfg, evict, m, evs[0]), evs[1..], i - 1);
      assert evs[..i][1..] == evs[1..][..i - 1];
    }
  }

  lemma {:induction false} DecisionsLength(cfg: Config, evict: bool, m: Buckets, evs: seq<Event>)
    ensures |Decisions(cfg, evict, m, evs)| == |evs|
    decreases |evs|
  {
    if evs != [] { DecisionsLength(cfg, evict, Step(cfg, evict, m, evs[0]), evs[1..]); }
  }

  lemma {:induction false} AfterOneMore(cfg: Config, evict: bool, m: Buckets, evs: seq<Event>, i: nat)
    requires i < |evs|
    ensures After(cfg, evict, m, evs[..i + 1]) == Step(cfg, evict, After(cfg, evict, m, evs[..i]), evs[i])
    decreases i
  {
    assert evs[..i + 1][1..] == evs[1..][..i];
    if i > 0 {
      AfterOneMore(cfg, evict, Step(cfg, evict, m, evs[0]), evs[1..], i - 1);
      assert evs[..i][1..] == evs[1..][..i - 1];
    }
  }

  lemma {:induction false} TimesOrdered(t: real, evs: seq<Event>, end: real, j: nat, i: nat)
    requires Ordered(t, evs, end) && j <= i < |evs|
    ensures t <= evs[j].now <= evs[i].now <= end
    decreases |evs|
  {
    if j > 0 {
      TimesOrdered(evs[0].now, evs[1..], end, j - 1, i - 1);
    } else {
      OrderedEnd(evs[0].now, evs[1..], end);
      if i > 0 { assert evs[i] == evs[1..][i - 1]; }
    }
  }

  /** The time of the last event before event i. */
  function Before(evs: seq<Event>, i: nat): real
    requires i <= |evs|
  {
    if i == 0 then 0.0 else evs[i - 1].now
  }

  lemma BeforeOrdered(evs: seq<Event>, end: real, i: nat)
    requires Ordered(0.0, evs, end) && i < |evs|
    ensures Before(evs, i) <= evs[i].now
  {
    TimesOrdered(0.0, evs, end, if i == 0 then 0 else i - 1, i);
  }

  lemma {:induction false} StateGood(cfg: Config, evict: bool, evs: seq<Event>, end: real, i: nat)
    requires Ordered(0.0, evs, end) && i <= |evs|
    ensures Good(cfg, StateAt(cfg, evict, evs, i), Before(evs, i))
  {
    if i > 0 {
      StateGood(cfg, evict, evs, end, i - 1);
      BeforeOrdered(evs, end, i - 1);
      AfterOneMore(cfg, evict, map[], evs, i - 1);
      StepGood(cfg, evict, StateAt(cfg, evict, evs, i - 1), evs[i - 1], Before(evs, i - 1));
    }
  }

  /** What is there later: it refills up to a full bucket. */
  lemma CreditLater(cfg: Config, m: Buckets, ip: string, t: real, u: real)
    requires Good(cfg, m, t) && t <= u
    ensures var c := Credit(cfg, m, ip, t) + (u - t);
            Credit(cfg, m, ip, u) == if c < Full(cfg) then c else Full(cfg)
  {
  }

  /** An admitted request takes one token, and nothing else takes any. */
  lemma CreditTaken(cfg: Config, m: Buckets, ip: string, t: real, e: Event)
    requires Good(cfg, m, t) && t <= e.now
    ensures Credit(cfg, Step(cfg, false, m, e), ip, e.now) == Credit(cfg, m, ip, e.now) - Spent(cfg, m, ip, e)
    ensures e.Request? ==> (Allowed(cfg, m, e) <==> Credit(cfg, m, e.ip, e.now) >= 1.0)
  {
  }

  // ------------------------------------------------ which buckets are there

  /** Bucket map m after i events: a bucket was last used at the time of its last
      request, and an IP with a request within the idle time has a bucket. */
  ghost predicate Tracked(cfg: Config, m: Buckets, evs: seq<Event>, ip: string, i: nat)
    requires i <= |evs|
  {
    && (ip in m ==> exists r: nat :: r < i && Touches(evs[r], ip) && m[ip].at == evs[r].now)
    && (forall r: nat :: r < i && Touches(evs[r], ip) ==>
          && (ip in m ==> evs[r].now <= m[ip].at)
          && (ip !in m ==> Before(evs, i) - evs[r].now > cfg.idle))
  }

  lemma {:induction false} StateTracked(cfg: Config, evs: seq<Event>, end: real, ip: string, i: nat)
    requires Ordered(0.0, evs, end) && i <= |evs|
    ensures Tracked(cfg, StateAt(cfg, true, evs, i), evs, ip, i)
  {
    if i > 0 {
      StateTracked(cfg, evs, end, ip, i - 1);
      BeforeOrdered(evs, end, i - 1);
      AfterOneMore(cfg, true, map[], evs, i - 1);
      forall r: nat | r < i ensures evs[r].now <= evs[i - 1].now { TimesOrdered(0.0, evs, end, r, i - 1); }
      TrackedStep(cfg, StateAt(cfg, true, evs, i - 1), evs, ip, i);
    }
  }

  lemma TrackedStep(cfg: Config, m: Buckets, evs: seq<Event>, ip: string, i: nat)
    requires 0 < i <= |evs| && Tracked(cfg, m, evs, ip, i - 1) && Before(evs, i - 1) <= evs[i - 1].now
    requires forall r: nat :: r < i ==> evs[r].now <= evs[i - 1].now
    ensures Tracked(cfg, Step(cfg, true, m, evs[i - 1]), evs, ip, i)
  {
    var e, m' := evs[i - 1], Step(cfg, true, m, evs[i - 1]);
    if Touches(e, ip) {
      assert m'[ip].at == evs[i - 1].now;
    } else if ip in m' {
      assert m'[ip] == m[ip];
      var r: nat :| r < i - 1 && Touches(evs[r], ip) && m[ip].at == evs[r].now;
    }
  }

  /** A cleanup evicts exactly the idle IPs. */
  lemma TickEvicts(cfg: Config, evs: seq<Event>, end: real, ip: string, k: nat)
    requires Ordered(0.0, evs, end) && k < |evs| && evs[k].Tick?
    ensures var m, m' := StateAt(cfg, true, evs, k), StateAt(cfg, true, evs, k + 1);
            if IdleTick(cfg.idle, evs, ip, k) then ip !in m' else ip in m && ip in m' && m'[ip] == m[ip]
  {
    StateTracked(cfg, evs, end, ip, k);
    BeforeOrdered(evs, end, k);
    AfterOneMore(cfg, true, map[], evs, k);
  }

  // --------------------------------------------------------------- the law

  /** Event i - 1 in terms of credit at a moment u after it. */
  lemma CreditStepAt(cfg: Config, evict: bool, evs: seq<Event>, end: real, ip: string, i: nat, u: real)
    requires Ordered(0.0, evs, end) && 0 < i <= |evs| && evs[i - 1].now <= u
    ensures var v := Decisions(cfg, evict, map[], evs);
            var e := evs[i - 1];
            && |v| == |evs|
            && Credit(cfg, StateAt(cfg, evict, evs, i - 1), ip, e.now) <= Full(cfg)
            && var c := Credit(cfg, StateAt(cfg, evict, evs, i - 1), ip, e.now) + (u - e.now)
                        - if v[i - 1] && Touches(e, ip) then 1.0 else 0.0;
               Credit(cfg, StateAt(cfg, evict, evs, i), ip, u)
               == if c < Full(cfg) && Undisturbed(evict, cfg.idle, evs, ip, i - 1, i) then c else Full(cfg)
  {
    var m, e := StateAt(cfg, evict, evs, i - 1), evs[i - 1];
    StateGood(cfg, evict, evs, end, i - 1);
    StateGood(cfg, evict, evs, end, i);
    BeforeOrdered(evs, end, i - 1);
    DecisionAt(cfg, evict, map[], evs, i - 1);
    AfterOneMore(cfg, evict, map[], evs, i - 1);
    CreditTaken(cfg, m, ip, Before(evs, i - 1), e);
    CreditLater(cfg, StateAt(cfg, evict, evs, i), ip, e.now, u);
    if evict && e.Tick? { TickEvicts(cfg, evs, end, ip, i - 1); }
  }

  /** From every start on, what was admitted and what is left is at most a full
      bucket and the refill, unless the bucket is evicted in between. */
  lemma {:induction false} CreditAtMost(cfg: Config, evict: bool, evs: seq<Event>, end: real, ip: string,
                                        j: nat, i: nat, u: real)
    requires Ordered(0.0, evs, end) && j < i <= |evs| && evs[i - 1].now <= u
    requires Undisturbed(evict, cfg.idle, evs, ip, j, i)
    ensures var v := Decisions(cfg, evict, map[], evs);
            && |v| == |evs|
            && Credit(cfg, StateAt(cfg, evict, evs, i), ip, u) + AdmittedBetween(evs, v, ip, j, i) as real
               <= Full(cfg) + (u - evs[j].now)
    decreases i
  {
    CreditStepAt(cfg, evict, evs, end, ip, i, u);
    assert Undisturbed(evict, cfg.idle, evs, ip, i - 1, i);
    if j < i - 1 {
      TimesOrdered(0.0, evs, end, i - 2, i - 1);
      CreditAtMost(cfg, evict, evs, end, ip, j, i - 1, evs[i - 1].now);
    }
  }

  /** The bucket is full, or there is a start from which on that is all there was. */
  lemma {:induction false} CreditAttained(cfg: Config, evict: bool, evs: seq<Event>, end: real, ip: string,
                                          i: nat, u: real)
      returns (j: nat)
    requires Ordered(0.0, evs, end) && i <= |evs| && (i > 0 ==> evs[i - 1].now <= u)
    ensures j <= i && (j == i ==> Credit(cfg, StateAt(cfg, evict, evs, i), ip, u) == Full(cfg))
    ensures Undisturbed(evict, cfg.idle, evs, ip, j, i)
    ensures j < i ==>
              var v := Decisions(cfg, evict, map[], evs);
              && |v| == |evs|
              && Credit(cfg, StateAt(cfg, evict, evs, i), ip, u) + AdmittedBetween(evs, v, ip, j, i) as real
                 == Full(cfg) + (u - evs[j].now)
    decreases i
  {
    j := i;
    if i > 0 {
      CreditStepAt(cfg, evict, evs, end, ip, i, u);
      if Credit(cfg, StateAt(cfg, evict, evs, i), ip, u) != Full(cfg) {
        if i > 1 { TimesOrdered(0.0, evs, end, i - 2, i - 1); }
        j := CreditAttained(cfg, evict, evs, end, ip, i - 1, evs[i - 1].now);
      }
    }
  }

  /** From start j on, the admitted requests and one more exceed a full bucket and the refill. */
  predicate Exceeds(cfg: Config, evs: seq<Event>, v: seq<bool>, j: nat, i: nat)
    requires j <= i < |evs| == |v| && evs[i].Request?
  {
    (AdmittedBetween(evs, v, evs[i].ip, j, i) + 1) as real > Full(cfg) + (evs[i].now - evs[j].now)
  }

  lemma DeniedInTokenTime(cfg: Config, evict: bool, evs: seq<Event>, end: real, i: nat)
    requires Ordered(0.0, evs, end) && i < |evs| && evs[i].Request?
    ensures var v := Decisions(cfg, evict, map[], evs);
            && |v| == |evs|
            && (!v[i] <==> exists j: nat :: j <= i && Exceeds(cfg, evs, v, j, i)
                                            && Undisturbed(evict, cfg.idle, evs, evs[i].ip, j, i))
  {
    var v, ip, u := Decisions(cfg, evict, map[], evs), evs[i].ip, evs[i].now;
    DecisionAt(cfg, evict, map[], evs, i);
    StateGood(cfg, evict, evs, end, i);
    BeforeOrdered(evs, end, i);
    CreditTaken(cfg, StateAt(cfg, evict, evs, i), ip, Before(evs, i), evs[i]);
    if !v[i] {
      var j := CreditAttained(cfg, evict, evs, end, ip, i, u);
      assert Exceeds(cfg, evs, v, j, i);
    }
    forall j: nat | j <= i && Exceeds(cfg, evs, v, j, i) && Undisturbed(evict, cfg.idle, evs, ip, j, i) ensures !v[i] {
      if j < i { CreditAtMost(cfg, evict, evs, end, ip, j, i, u); }
    }
  }

  // ------------------------------------------ a denied request costs nothing

  ghost predicate SameCredit(cfg: Config, m: Buckets, m': Buckets, t: real) {
    && Good(cfg, m, t) && Good(cfg, m', t)
    && forall ip :: Credit(cfg, m, ip, t) == Credit(cfg, m', ip, t)
  }

  lemma SameStep(cfg: Config, m: Buckets, m': Buckets, t: real, e: Event)
    requires SameCredit(cfg, m, m', t) && t <= e.now
    ensures Allowed(cfg, m, e) == Allowed(cfg, m', e)
    ensures SameCredit(cfg, Step(cfg, false, m, e), Step(cfg, false, m', e), e.now)
  {
    StepGood(cfg, false, m, e, t);
    StepGood(cfg, false, m', e, t);
    forall ip ensures Credit(cfg, m, ip, e.now) == Credit(cfg, m', ip, e.now) {
      CreditLater(cfg, m, ip, t, e.now);
      CreditLater(cfg, m', ip, t, e.now);
    }
    forall ip
      ensures Credit(cfg, Step(cfg, false, m, e), ip, e.now) == Credit(cfg, Step(cfg, false, m', e), ip, e.now)
    {
      CreditTaken(cfg, m, ip, t, e);
      CreditTaken(cfg, m', ip, t, e);
    }
  }

  lemma {:induction false} SameDecisions(cfg: Config, m: Buckets, m': Buckets, t: real, evs: seq<Event>, end: real)
    requires SameCredit(cfg, m, m', t) && Ordered(t, evs, end)
    ensures Decisions(cfg, false, m, evs) == Decisions(cfg, false, m', evs)
    decreases |evs|
  {
    if evs != [] {
      SameStep(cfg, m, m', t, evs[0]);
      SameDecisions(cfg, Step(cfg, false, m, evs[0]), Step(cfg, false, m', evs[0]), evs[0].now, evs[1..], end);
    }
  }

  /** A denied request leaves every IP the credit that it has at that moment. */
  lemma DeniedKeepsCredit(cfg: Config, m: Buckets, t: real, e: Event)
    requires Good(cfg, m, t) && t <= e.now && e.Request? && !Allowed(cfg, m, e)
    ensures SameCredit(cfg, Step(cfg, false, m, e), m, e.now)
  {
    StepGood(cfg, false, m, e, t);
    forall ip ensures Credit(cfg, Step(cfg, false, m, e), ip, e.now) == Credit(cfg, m, ip, e.now) {
      CreditTaken(cfg, m, ip, t, e);
    }
  }

  function Without<T>(s: seq<T>, i: nat): seq<T>
    requires i < |s|
  {
    s[..i] + s[i + 1..]
  }

  lemma {:induction false} DroppedInTokenTime(cfg: Config, m: Buckets, t: real, evs: seq<Event>, end: real, i: nat)
    requires Good(cfg, m, t) && Ordered(t, evs, end) && i < |evs| && evs[i].Request?
    requires var v := Decisions(cfg, false, m, evs); |v| == |evs| && !v[i]
    ensures Decisions(cfg, false, m, Without(evs, i)) == Without(Decisions(cfg, false, m, evs), i)
    decreases |evs|
  {
    var e, m' := evs[0], Step(cfg, false, m, evs[0]);
    StepGood(cfg, false, m, e, t);
    if i == 0 {
      assert Without(evs, 0) == evs[1..];
      DeniedKeepsCredit(cfg, m, t, e);
      SameDecisions(cfg, m', m, e.now, evs[1..], end);
    } else {
      assert Without(evs, i)[0] == e && Without(evs, i)[1..] == Without(evs[1..], i - 1);
      DroppedInTokenTime(cfg, m', e.now, evs[1..], end, i - 1);
    }
  }

  // --------------------------------------------------------------- seconds

  /** From event j on, the admitted requests and this one exceed burst + rps * time. */
  predicate Overdrawn(l: Limits, evs: seq<Event>, v: seq<bool>, j: nat, i: nat)
    requires j <= i < |evs| == |v| && evs[i].Request?
  {
    (AdmittedBetween(evs, v, evs[i].ip, j, i) + 1) as real > Budget(l, evs[i].now - evs[j].now)
  }

  lemma {:induction false} BetweenScales(l: Limits, evs: seq<Event>, v: seq<bool>, ip: string, j: nat, i: nat)
    requires j <= i <= |evs| == |v|
    ensures AdmittedBetween(ScaleTrace(l, evs), v, ip, j, i) == AdmittedBetween(evs, v, ip, j, i)
    decreases i
  {
    if j < i { BetweenScales(l, evs, v, ip, j, i - 1); }
  }

  lemma ExceedsScales(l: Limits, evs: seq<Event>, v: seq<bool>, j: nat, i: nat)
    requires j <= i < |evs| == |v| && evs[i].Request?
    ensures Exceeds(Core(l), ScaleTrace(l, evs), v, j, i) <==> Overdrawn(l, evs, v, j, i)
  {
    BetweenScales(l, evs, v, evs[i].ip, j, i);
    RefillBetween(l, evs[j].now, evs[i].now);
    BudgetIs(l, evs[i].now - evs[j].now);
  }

  lemma BudgetIs(l: Limits, span: real)
    ensures Budget(l, span) == Burst(l) + Refill(l, span)
  {
  }

  lemma UndisturbedScales(l: Limits, evict: bool, evs: seq<Event>, ip: string, j: nat, i: nat)
    requires Sane(l)
    ensures Undisturbed(evict, Core(l).idle, ScaleTrace(l, evs), ip, j, i) <==> Undisturbed(evict, IDLE, evs, ip, j, i)
  {
    forall k: nat ensures IdleTick(Core(l).idle, ScaleTrace(l, evs), ip, k) <==> IdleTick(IDLE, evs, ip, k) {
      IdleTickScales(l, evs, ip, k);
    }
  }

  lemma IdleTickScales(l: Limits, evs: seq<Event>, ip: string, k: nat)
    requires Sane(l)
    ensures IdleTick(Core(l).idle, ScaleTrace(l, evs), ip, k) <==> IdleTick(IDLE, evs, ip, k)
  {
    var scaled := ScaleTrace(l, evs);
    forall r: nat | r < |evs| ensures Touches(scaled[r], ip) <==> Touches(evs[r], ip) {}
    if k < |evs| {
      forall r: nat | r < k
        ensures scaled[k].now - scaled[r].now > Core(l).idle <==> evs[k].now - evs[r].now > IDLE
      {
        StaleScales(l, Bucket(0.0, evs[r].now), evs[k].now);
      }
    }
  }

  /** The law of the bucket: a request is denied if and only if, for some earlier
      start or this very moment, the requests of its IP admitted from there on and
      this one are more than burst + rps times the time since, and no cleanup since
      then found the IP idle. Without eviction cleanups do not matter. */
  lemma DeniedIff(l: Limits, evict: bool, evs: seq<Event>, end: real, i: nat)
    requires Sane(l) && Ordered(0.0, evs, end) && i < |evs| && evs[i].Request?
    ensures var v := Verdicts(l, evict, map[], evs);
            && |v| == |evs|
            && (!v[i] <==> exists j: nat :: j <= i && Overdrawn(l, evs, v, j, i)
                                            && Undisturbed(evict, IDLE, evs, evs[i].ip, j, i))
  {
    var v, scaled, cfg := Verdicts(l, evict, map[], evs), ScaleTrace(l, evs), Core(l);
    EmptyScales(l);
    RunScales(l, evict, map[], evs, "");
    OrderedScales(l, 0.0, evs, end);
    DeniedInTokenTime(cfg, evict, scaled, Refill(l, end), i);
    forall j: nat | j <= i
      ensures Exceeds(cfg, scaled, v, j, i) <==> Overdrawn(l, evs, v, j, i)
      ensures Undisturbed(evict, cfg.idle, scaled, evs[i].ip, j, i) <==> Undisturbed(evict, IDLE, evs, evs[i].ip, j, i)
    {
      ExceedsScales(l, evs, v, j, i);
      UndisturbedScales(l, evict, evs, evs[i].ip, j, i);
    }
  }

  /** Eviction changes no verdict if it is switched off or burst <= 180 rps. */
  predicate Harmless(l: Limits, evict: bool) { evict ==> Burst(l) <= IDLE * l.rps }

  lemma HarmlessVerdicts(l: Limits, evict: bool, evs: seq<Event>, end: real)
    requires Sane(l) && Harmless(l, evict) && Ordered(0.0, evs, end)
    ensures Verdicts(l, evict, map[], evs) == Verdicts(l, false, map[], evs)
    ensures Verdicts(l, evict, map[], evs) == Decisions(Core(l), false, map[], ScaleTrace(l, evs))
  {
    EmptyScales(l);
    RunScales(l, false, map[], evs, "");
    if evict { EvictionUnnoticed(l, evs, end); }
  }

  /** When eviction is harmless, cleanups do not matter either. */
  lemma DeniedIffHarmless(l: Limits, evict: bool, evs: seq<Event>, end: real, i: nat)
    requires Sane(l) && Harmless(l, evict) && Ordered(0.0, evs, end) && i < |evs| && evs[i].Request?
    ensures var v := Verdicts(l, evict, map[], evs);
            && |v| == |evs|
            && (!v[i] <==> exists j: nat :: j <= i && Overdrawn(l, evs, v, j, i))
  {
    HarmlessVerdicts(l, evict, evs, end);
    DeniedIff(l, false, evs, end, i);
  }

  lemma {:induction false} OrderedWithout(t: real, evs: seq<Event>, end: real, i: nat)
    requires Ordered(t, evs, end) && i < |evs|
    ensures Ordered(t, Without(evs, i), end)
    decreases |evs|
  {
    if i == 0 {
      assert Without(evs, 0) == evs[1..];
      OrderedEnd(evs[0].now, evs[1..], end);
    } else {
      assert Without(evs, i)[0] == evs[0] && Without(evs, i)[1..] == Without(evs[1..], i - 1);
      OrderedWithout(evs[0].now, evs[1..], end, i - 1);
    }
  }

  /** A denied request costs nothing: without it every other verdict is the same. */
  lemma DeniedCostsNothing(l: Limits, evict: bool, evs: seq<Event>, end: real, i: nat)
    requires Sane(l) && Harmless(l, evict) && Ordered(0.0, evs, end) && i < |evs| && evs[i].Request?
    requires var v := Verdicts(l, evict, map[], evs); |v| == |evs| && !v[i]
    ensures Verdicts(l, evict, map[], Without(evs, i)) == Without(Verdicts(l, evict, map[], evs), i)
  {
    HarmlessVerdicts(l, evict, evs, end);
    OrderedWithout(0.0, evs, end, i);
    HarmlessVerdicts(l, evict, Without(evs, i), end);
    OrderedScales(l, 0.0, evs, end);
    EmptyScales(l);
    assert ScaleTrace(l, Without(evs, i)) == Without(ScaleTrace(l, evs), i);
    DroppedInTokenTime(Core(l), map[], 0.0, ScaleTrace(l, evs), Refill(l, end), i);
  }

  // ------------------------- and exactly when a denied request costs nothing

  /** Dropping a denied request never changes another verdict. */
  ghost predicate DeniedIsFree(l: Limits, evict: bool) {
    forall evs, end, i: nat :: Ordered(0.0, evs, end) && Denied(l, evict, evs, i) ==> Free(l, evict, evs, i)
  }

  ghost predicate Denied(l: Limits, evict: bool, evs: seq<Event>, i: nat) {
    && i < |evs| && evs[i].Request?
    && var v := Verdicts(l, evict, map[], evs); |v| == |evs| && !v[i]
  }

  ghost predicate Free(l: Limits, evict: bool, evs: seq<Event>, i: nat) {
    && i < |evs| && i < |Verdicts(l, evict, map[], evs)|
    && Verdicts(l, evict, map[], Without(evs, i)) == Without(Verdicts(l, evict, map[], evs), i)
  }

  lemma {:induction false} VerdictsAppend(l: Limits, evict: bool, m: Buckets, a: seq<Event>, b: seq<Event>)
    ensures |Verdicts(l, evict, m, a)| == |a|
    ensures Verdicts(l, evict, m, a + b) == Verdicts(l, evict, m, a) + Verdicts(l, evict, Final(l, evict, m, a), b)
    decreases |a|
  {
    if a == [] {
      assert a + b == b;
    } else {
      assert (a + b)[1..] == a[1..] + b;
      VerdictsAppend(l, evict, Serve(l, evict, m, a[0]), a[1..], b);
    }
  }

  lemma {:induction false} BetweenAppend(a: seq<Event>, va: seq<bool>, b: seq<Event>, vb: seq<bool>, ip: string, n: nat)
    requires |a| == |va| && n <= |b| == |vb|
    ensures AdmittedBetween(a + b, va + vb, ip, 0, |a| + n)
            == AdmittedBetween(a, va, ip, 0, |a|) + AdmittedBetween(b, vb, ip, 0, n)
    decreases n
  {
    if n == 0 {
      BetweenPrefix(a, va, b, vb, ip, |a|);
    } else {
      BetweenAppend(a, va, b, vb, ip, n - 1);
    }
  }

  lemma {:induction false} BetweenPrefix(a: seq<Event>, va: seq<bool>, b: seq<Event>, vb: seq<bool>, ip: string, n: nat)
    requires n <= |a| == |va| && |b| == |vb|
    ensures AdmittedBetween(a + b, va + vb, ip, 0, n) == AdmittedBetween(a, va, ip, 0, n)
    decreases n
  {
    if n > 0 { BetweenPrefix(a, va, b, vb, ip, n - 1); }
  }

  /** The number admitted is the number of verdicts that admit. */
  lemma {:induction false} AdmittedIsBetween(l: Limits, evict: bool, m: Buckets, evs: seq<Event>, ip: string)
    ensures |Verdicts(l, evict, m, evs)| == |evs|
    ensures Admitted(l, evict, m, evs, ip) == AdmittedBetween(evs, Verdicts(l, evict, m, evs), ip, 0, |evs|)
    decreases |evs|
  {
    if evs != [] {
      var m' := Serve(l, evict, m, evs[0]);
      AdmittedIsBetween(l, evict, m', evs[1..], ip);
      var first := [Admits(l, m, evs[0])];
      BetweenAppend([evs[0]], first, evs[1..], Verdicts(l, evict, m', evs[1..]), ip, |evs| - 1);
      assert evs == [evs[0]] + evs[1..];
      assert AdmittedBetween([evs[0]], first, ip, 0, 1)
             == AdmittedBetween([evs[0]], first, ip, 0, 0) + if first[0] && Touches(evs[0], ip) then 1 else 0;
    }
  }

  /** Dropping an event that was not admitted leaves the number. */
  lemma BetweenWithout(evs: seq<Event>, v: seq<bool>, ip: string, i: nat)
    requires i < |evs| == |v| && !v[i]
    ensures AdmittedBetween(Without(evs, i), Without(v, i), ip, 0, |evs| - 1) == AdmittedBetween(evs, v, ip, 0, |evs|)
  {
    var a, va, b, vb := evs[..i], v[..i], evs[i + 1..], v[i + 1..];
    BetweenAppend(a, va, b, vb, ip, |b|);
    BetweenAppend(a + [evs[i]], va + [v[i]], b, vb, ip, |b|);
    BetweenAppend(a, va, [evs[i]], [v[i]], ip, 1);
    assert AdmittedBetween([evs[i]], [v[i]], ip, 0, 1) == AdmittedBetween([evs[i]], [v[i]], ip, 0, 0);
    assert evs == (a + [evs[i]]) + b && v == (va + [v[i]]) + vb;
  }

  /** A moment at which less than a token is refilled, and 180 seconds after which a
      drained bucket is not full. */
  function Delay(l: Limits): real
    requires Sane(l)
  {
    var q := (FillTime(l) - IDLE) / 2.0;
    if HalfToken(l) < q then HalfToken(l) else q
  }

  /** The time in which half a token is refilled. */
  function HalfToken(l: Limits): (t: real)
    requires Sane(l)
    ensures t > 0.0 && Refill(l, t) == 0.5
  {
    Quotient(0.5, l.rps);
    StrictlyMonotone(l.rps, 0.0, 0.5 / l.rps);
    0.5 / l.rps
  }

  lemma RefillMonotone(l: Limits, x: real, y: real)
    requires Sane(l)
    ensures x < y <==> Refill(l, x) < Refill(l, y)
  {
    StrictlyMonotone(l.rps, x, y);
  }

  lemma DelayBounds(l: Limits)
    requires Sane(l) && Burst(l) > IDLE * l.rps
    ensures Delay(l) > 0.0 && Refill(l, Delay(l)) < 1.0 && Refill(l, IDLE + Delay(l)) < Burst(l)
  {
    var q := FillTime(l);
    assert Refill(l, q) == Burst(l);
    RefillMonotone(l, IDLE, q);
    RefillMonotone(l, HalfToken(l), Delay(l));
    RefillMonotone(l, IDLE + Delay(l), q);
  }

  /** A burst, a denied request, a cleanup that is too early by that request only,
      and a second burst. */
  function Costly(l: Limits, ip: string): seq<Event>
    requires Sane(l)
  {
    var d := Delay(l);
    Volley(ip, 0.0, l.burst) + ([Request(ip, d)] + ([Tick(IDLE + d)] + Volley(ip, IDLE + d, l.burst)))
  }

  lemma {:induction false} VolleyLength(ip: string, now: real, n: nat)
    ensures |Volley(ip, now, n)| == n
  {
    if n > 0 { VolleyLength(ip, now, n - 1); }
  }

  lemma CostlyWithout(l: Limits, ip: string)
    requires Sane(l)
    ensures l.burst < |Costly(l, ip)| && Costly(l, ip)[l.burst] == Request(ip, Delay(l))
    ensures |Costly(l, ip)| > l.burst + 1 && Costly(l, ip)[l.burst + 1] == Tick(IDLE + Delay(l))
    ensures Without(Costly(l, ip), l.burst) == Waves(l.burst, ip, IDLE + Delay(l), 0.0, 1)
  {
    var d := Delay(l);
    var evs, first, last := Costly(l, ip), Volley(ip, 0.0, l.burst), Volley(ip, IDLE + d, l.burst);
    VolleyLength(ip, 0.0, l.burst);
    assert evs[..l.burst] == first && evs[l.burst + 1..] == [Tick(IDLE + d)] + last;
    assert Waves(l.burst, ip, IDLE + d, IDLE + d, 0) == last;
    assert 0.0 + (IDLE + d) == IDLE + d;
    assert Waves(l.burst, ip, IDLE + d, 0.0, 1)
           == first + ([Tick(IDLE + d)] + Waves(l.burst, ip, IDLE + d, IDLE + d, 0));
  }

  lemma CostlyOrdered(l: Limits, ip: string)
    requires Sane(l) && Burst(l) > IDLE * l.rps
    ensures Ordered(0.0, Costly(l, ip), IDLE + Delay(l))
  {
    var d := Delay(l);
    var u, last := IDLE + d, Volley(ip, IDLE + d, l.burst);
    DelayBounds(l);
    assert last + [] == last;
    VolleyOrdered(ip, u, l.burst, [], u);
    var tail := [Tick(u)] + last;
    assert tail[1..] == last;
    assert Ordered(u, tail, u);
    var rest := [Request(ip, d)] + tail;
    assert rest[1..] == tail;
    assert Ordered(d, rest, u);
    VolleyLater(ip, 0.0, l.burst, rest, d, u);
  }

  lemma {:induction false} VolleyAt(ip: string, now: real, n: nat, i: nat)
    requires i < n
    ensures |Volley(ip, now, n)| == n && Volley(ip, now, n)[i] == Request(ip, now)
  {
    VolleyLength(ip, now, n);
    if i > 0 { VolleyAt(ip, now, n - 1, i - 1); }
  }

  /** The events of the costly trace. */
  lemma CostlyAt(l: Limits, ip: string, i: nat)
    requires Sane(l) && i < |Costly(l, ip)|
    ensures Costly(l, ip)[i] == if i < l.burst then Request(ip, 0.0) else if i == l.burst then Request(ip, Delay(l))
                                else if i == l.burst + 1 then Tick(IDLE + Delay(l)) else Request(ip, IDLE + Delay(l))
  {
    var d := Delay(l);
    VolleyLength(ip, 0.0, l.burst);
    VolleyLength(ip, IDLE + d, l.burst);
    if i < l.burst {
      VolleyAt(ip, 0.0, l.burst, i);
    } else if i > l.burst + 1 {
      VolleyAt(ip, IDLE + d, l.burst, i - l.burst - 2);
    }
  }

  /** The whole first burst is admitted. */
  lemma CostlyStart(l: Limits, ip: string)
    requires Sane(l) && Burst(l) > IDLE * l.rps
    ensures l.burst < |Costly(l, ip)| == |Verdicts(l, true, map[], Costly(l, ip))|
    ensures AdmittedBetween(Costly(l, ip), Verdicts(l, true, map[], Costly(l, ip)), ip, 0, l.burst) == l.burst
  {
    var evs, first := Costly(l, ip), Volley(ip, 0.0, l.burst);
    CostlyWithout(l, ip);
    VolleyLength(ip, 0.0, l.burst);
    var rest := evs[l.burst..];
    assert evs == first + rest && first + [] == first;
    VerdictsAppend(l, true, map[], evs, []);
    VerdictsAppend(l, true, map[], first, rest);
    VerdictsAppend(l, true, Final(l, true, map[], first), rest, []);
    BetweenPrefix(first, Verdicts(l, true, map[], first), rest, Verdicts(l, true, Final(l, true, map[], first), rest),
                  ip, l.burst);
    AdmittedIsBetween(l, true, map[], first, ip);
    WavesAdmitted(l, ip, 0, 1.0);
    assert Waves(l.burst, ip, IDLE + 1.0, 0.0, 0) == first;
  }

  lemma CostlyDenied(l: Limits, ip: string)
    requires Sane(l) && Burst(l) > IDLE * l.rps
    ensures Denied(l, true, Costly(l, ip), l.burst)
  {
    var evs := Costly(l, ip);
    CostlyStart(l, ip);
    CostlyWithout(l, ip);
    CostlyOrdered(l, ip);
    CostlyAt(l, ip, 0);
    DelayBounds(l);
    BudgetIs(l, Delay(l));
    assert Overdrawn(l, evs, Verdicts(l, true, map[], evs), 0, l.burst);
    forall k: nat | k < l.burst ensures !IdleTick(IDLE, evs, ip, k) { CostlyAt(l, ip, k); }
    DeniedIff(l, true, evs, IDLE + Delay(l), l.burst);
  }

  /** Without an eviction in between a trace admits at most burst + rps * time. */
  lemma AdmittedUndisturbed(l: Limits, evs: seq<Event>, end: real, ip: string)
    requires Sane(l) && Ordered(0.0, evs, end) && |evs| > 0 && Undisturbed(true, IDLE, evs, ip, 0, |evs|)
    ensures Admitted(l, true, map[], evs, ip) as real <= Budget(l, evs[|evs| - 1].now - evs[0].now)
  {
    var scaled, cfg, n := ScaleTrace(l, evs), Core(l), |evs|;
    EmptyScales(l);
    RunScales(l, true, map[], evs, ip);
    OrderedScales(l, 0.0, evs, end);
    UndisturbedScales(l, true, evs, ip, 0, n);
    CreditAtMost(cfg, true, scaled, Refill(l, end), ip, 0, n, scaled[n - 1].now);
    StateGood(cfg, true, scaled, Refill(l, end), n);
    AdmittedIsBetween(l, true, map[], evs, ip);
    BetweenScales(l, evs, Verdicts(l, true, map[], evs), ip, 0, n);
    RefillBetween(l, evs[0].now, evs[n - 1].now);
    BudgetIs(l, evs[n - 1].now - evs[0].now);
  }

  /** With the denied request fewer than two bursts are admitted, as it keeps the
      bucket from being evicted. */
  lemma CostlyBound(l: Limits, ip: string)
    requires Sane(l) && Burst(l) > IDLE * l.rps
    ensures Admitted(l, true, map[], Costly(l, ip), ip) < 2 * l.burst
  {
    var evs, u := Costly(l, ip), IDLE + Delay(l);
    DelayBounds(l);
    CostlyWithout(l, ip);
    CostlyOrdered(l, ip);
    CostlyAt(l, ip, 0);
    CostlyAt(l, ip, |evs| - 1);
    forall k: nat | k < |evs| ensures !IdleTick(IDLE, evs, ip, k) {
      CostlyAt(l, ip, k);
      assert Touches(evs[l.burst], ip);
    }
    AdmittedUndisturbed(l, evs, u, ip);
    BudgetIs(l, u);
  }

  lemma DeniedCosts(l: Limits, ip: string)
    requires Sane(l) && Burst(l) > IDLE * l.rps
    ensures !DeniedIsFree(l, true)
  {
    var evs, i := Costly(l, ip), l.burst;
    var v := Verdicts(l, true, map[], evs);
    CostlyOrdered(l, ip);
    CostlyDenied(l, ip);
    CostlyBound(l, ip);
    CostlyWithout(l, ip);
    DelayBounds(l);
    WavesAdmitted(l, ip, 1, Delay(l));
    AdmittedIsBetween(l, true, map[], evs, ip);
    AdmittedIsBetween(l, true, map[], Without(evs, i), ip);
    BetweenWithout(evs, v, ip, i);
    assert !Free(l, true, evs, i);
  }

  /** The exact condition under which a denied request costs nothing: no eviction, or
      burst <= 180 rps. Otherwise a denied request may keep a drained bucket alive. */
  lemma DeniedIsFreeIff(l: Limits, evict: bool)
    requires Sane(l)
    ensures DeniedIsFree(l, evict) <==> Harmless(l, evict)
  {
    if Harmless(l, evict) {
      forall evs, end, i: nat | Ordered(0.0, evs, end) && Denied(l, evict, evs, i) ensures Free(l, evict, evs, i) {
        DeniedCostsNothing(l, evict, evs, end, i);
      }
    } else {
      DeniedCosts(l, "");
    }
  }
}
