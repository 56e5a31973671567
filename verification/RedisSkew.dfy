/** The Redis limiter when the replicas' clocks are d milliseconds off. */
module RedisSkew {
  import opened RedisLimiter

  /** The least time between two starts of one counter: it is there for a second
      and the millisecond of its expiry. */
  const LIFE_MILLIS := 1001

  /** Every replica's clock is within d milliseconds of the server's: the second of
      a key is one that such a clock may show. */
  ghost predicate Skewed(calls: seq<Call>, d: nat) {
    forall i :: 0 <= i < |calls| && calls[i].Reached? ==>
      (calls[i].at - d) / WINDOW_MILLIS <= calls[i].key.second <= (calls[i].at + d) / WINDOW_MILLIS
  }

  lemma SynchronousIsUnskewed(calls: seq<Call>)
    ensures Synchronous(calls) <==> Skewed(calls, 0)
  {
  }

  /** How often a key can expire and start anew. */
  function Restarts(d: nat): nat { (2 * d + WINDOW_MILLIS - 1) / LIFE_MILLIS }

  /** How many more seconds the clocks may show: 2d / 1000, rounded up. */
  function Spread(d: nat): nat { (2 * d + WINDOW_MILLIS - 1) / WINDOW_MILLIS }

  /** How often the counter of key k started at 1 before call n. */
  function Lives(calls: seq<Call>, n: nat, k: Key): nat
    requires n <= |calls|
  {
    if n == 0 then 0
    else Lives(calls, n - 1, k) + if Runs(calls[n - 1], k) && CountAt(calls, n - 1) == 1 then 1 else 0
  }

  /** Every life of a counter lets at most burst runs through. */
  lemma {:induction false} LivesBound(calls: seq<Call>, burst: nat, n: nat, k: Key)
    requires n <= |calls|
    ensures if k !in StoreAt(calls, n) then Lives(calls, n, k) == 0 && Within(calls, burst, n, k) == 0
            else Lives(calls, n, k) > 0 && StoreAt(calls, n)[k].count > 0
                 && Within(calls, burst, n, k)
                    <= (Lives(calls, n, k) - 1) * burst + Min(StoreAt(calls, n)[k].count, burst)
  {
    if n > 0 {
      LivesBound(calls, burst, n - 1, k);
      var lives := Lives(calls, n - 1, k);
      assert lives > 0 ==> lives * burst == (lives - 1) * burst + burst;
    }
  }

  /** The lives of a counter follow each other: from the first run on they start
      at least LIFE_MILLIS apart, and the last one began with some run. */
  lemma {:induction false} LivesSpan(calls: seq<Call>, n: nat, k: Key) returns (last: nat)
    requires Ordered(calls) && n <= |calls| && k in StoreAt(calls, n)
    ensures Rank(calls, n, k) > 0 && last < n && Runs(calls[last], k)
    ensures StoreAt(calls, n)[k].expiresAt == calls[last].at + WINDOW_MILLIS
    ensures FirstAt(calls, n, k) + Lives(calls, n, k) * LIFE_MILLIS <= StoreAt(calls, n)[k].expiresAt + 1
  {
    var c := calls[n - 1];
    if k in StoreAt(calls, n - 1) {
      last := LivesSpan(calls, n - 1, k);
      if Runs(c, k) && CountAt(calls, n - 1) == 1 {
        LivesBound(calls, 0, n - 1, k);
        last := n - 1;
      }
    } else {
      NeverStored(calls, n - 1, k);
      last := n - 1;
    }
  }

  lemma {:induction false} NeverStored(calls: seq<Call>, n: nat, k: Key)
    requires n <= |calls| && k !in StoreAt(calls, n)
    ensures Rank(calls, n, k) == 0 && Lives(calls, n, k) == 0
  {
    if n > 0 { NeverStored(calls, n - 1, k); }
  }

  /** Runs on one key lie within 1000 + 2d milliseconds. */
  lemma FewLives(calls: seq<Call>, d: nat, n: nat, k: Key)
    requires Ordered(calls) && Skewed(calls, d) && n <= |calls|
    ensures Lives(calls, n, k) <= 1 + Restarts(d)
  {
    if k in StoreAt(calls, n) {
      var last := LivesSpan(calls, n, k);
      var first := FirstExists(calls, n, k);
      assert calls[last].at <= k.second * WINDOW_MILLIS + WINDOW_MILLIS - 1 + d;
      assert calls[first].at >= k.second * WINDOW_MILLIS - d;
      assert (Lives(calls, n, k) - 1) * LIFE_MILLIS <= WINDOW_MILLIS - 1 + 2 * d;
    } else {
      LivesBound(calls, 0, n, k);
    }
  }

  lemma TimesMonotone(a: nat, b: nat, x: nat)
    requires a <= b
    ensures a * x <= b * x
  {
    assert b * x - a * x == (b - a) * x;
  }

  /** One IP gets at most (1 + r) burst runs answered within the burst for one
      second, where r is the number of restarts. */
  lemma SkewedKeyBound(calls: seq<Call>, burst: nat, d: nat, n: nat, k: Key)
    requires Ordered(calls) && Skewed(calls, d) && n <= |calls|
    ensures Within(calls, burst, n, k) <= (1 + Restarts(d)) * burst
  {
    LivesBound(calls, burst, n, k);
    FewLives(calls, d, n, k);
    var lives := Lives(calls, n, k);
    assert lives > 0 ==> lives * burst == (lives - 1) * burst + burst;
    TimesMonotone(lives, 1 + Restarts(d), burst);
  }

  /** The middleware's bound under skew, for any number of replicas. */
  lemma SkewedMiddlewareBound(calls: seq<Call>, burst: nat, d: nat, n: nat, k: Key)
    requires Ordered(calls) && Skewed(calls, d) && n <= |calls|
    ensures PassedOn(calls, burst, n, k) <= (1 + Restarts(d)) * burst + ErrorsOn(calls, n, k)
  {
    PassedSplit(calls, burst, n, k);
    SkewedKeyBound(calls, burst, d, n, k);
  }

  // ------------------------------------------------- one key in one window

  /** Call c is a run on key k between two moments, the second one excluded. */
  predicate RunsBetween(c: Call, k: Key, lo: int, hi: int) { Runs(c, k) && lo <= c.at < hi }

  /** Runs on key k between two moments that are answered within the burst. */
  function WithinBetween(calls: seq<Call>, burst: nat, n: nat, k: Key, lo: int, hi: int): nat
    requires n <= |calls|
  {
    if n == 0 then 0
    else WithinBetween(calls, burst, n - 1, k, lo, hi)
         + if RunsBetween(calls[n - 1], k, lo, hi) && CountAt(calls, n - 1) <= burst then 1 else 0
  }

  /** How often the counter of key k started at 1 between two moments. */
  function StartsBetween(calls: seq<Call>, n: nat, k: Key, lo: int, hi: int): nat
    requires n <= |calls|
  {
    if n == 0 then 0
    else StartsBetween(calls, n - 1, k, lo, hi)
         + if RunsBetween(calls[n - 1], k, lo, hi) && CountAt(calls, n - 1) == 1 then 1 else 0
  }

  lemma {:induction false} BetweenIsWithin(calls: seq<Call>, burst: nat, n: nat, k: Key, lo: int, hi: int)
    requires n <= |calls|
    ensures WithinBetween(calls, burst, n, k, lo, hi) <= Within(calls, burst, n, k)
  {
    if n > 0 { BetweenIsWithin(calls, burst, n - 1, k, lo, hi); }
  }

  lemma {:induction false} NoneBefore(calls: seq<Call>, burst: nat, n: nat, k: Key, lo: int, hi: int)
    requires n <= |calls| && forall i :: 0 <= i < n && Runs(calls[i], k) ==> calls[i].at < lo
    ensures WithinBetween(calls, burst, n, k, lo, hi) == 0
  {
    if n > 0 { NoneBefore(calls, burst, n - 1, k, lo, hi); }
  }

  /** One life may have begun before the window; every other one begins in it. */
  lemma {:induction false} StartsAndOne(calls: seq<Call>, burst: nat, n: nat, k: Key, lo: int, hi: int)
    requires Ordered(calls) && n <= |calls| && forall i :: 0 <= i < n && Runs(calls[i], k) ==> calls[i].at < hi
    ensures var starts, w := StartsBetween(calls, n, k, lo, hi), WithinBetween(calls, burst, n, k, lo, hi);
            if k !in StoreAt(calls, n) then starts == 0 && w == 0
            else StoreAt(calls, n)[k].count > 0 && w <= starts * burst + Min(StoreAt(calls, n)[k].count, burst)
  {
    if n > 0 {
      LivesBound(calls, burst, n - 1, k);
      StartsAndOne(calls, burst, n - 1, k, lo, hi);
      var starts := StartsBetween(calls, n - 1, k, lo, hi);
      assert (starts + 1) * burst == starts * burst + burst;
      if Runs(calls[n - 1], k) && calls[n - 1].at < lo { NoneBefore(calls, burst, n, k, lo, hi); }
    }
  }

  lemma {:induction false} StartsApart(calls: seq<Call>, n: nat, k: Key, lo: int, hi: int)
    requires n <= |calls|
    ensures var starts := StartsBetween(calls, n, k, lo, hi);
            starts > 0 ==>
              && k in StoreAt(calls, n) && StoreAt(calls, n)[k].expiresAt + 1 >= lo + starts * LIFE_MILLIS
              && lo + (starts - 1) * LIFE_MILLIS < hi
  {
    if n > 0 {
      LivesBound(calls, 0, n - 1, k);
      StartsApart(calls, n - 1, k, lo, hi);
    }
  }

  /** With any clocks, one key lets at most (span + 1) burst runs through in a window
      of span seconds. */
  lemma {:induction false} KeyWindowBound(calls: seq<Call>, burst: nat, n: nat, k: Key, lo: int, span: nat)
    requires Ordered(calls) && n <= |calls|
    ensures WithinBetween(calls, burst, n, k, lo, lo + span * WINDOW_MILLIS) <= (span + 1) * burst
  {
    var hi := lo + span * WINDOW_MILLIS;
    if n > 0 {
      if RunsBetween(calls[n - 1], k, lo, hi) {
        StartsAndOne(calls, burst, n, k, lo, hi);
        StartsApart(calls, n, k, lo, hi);
        var starts := StartsBetween(calls, n, k, lo, hi);
        TimesMonotone(starts, span, burst);
        assert (span + 1) * burst == span * burst + burst;
      } else {
        KeyWindowBound(calls, burst, n - 1, k, lo, span);
      }
    }
  }

  // --------------------------------------------------- all keys of a window

  /** Runs within the burst between two moments on the keys of one IP for m seconds
      from s on. */
  function WithinSeconds(calls: seq<Call>, burst: nat, n: nat, ip: string, lo: int, hi: int, s: int, m: nat): nat
    requires n <= |calls|
  {
    if m == 0 then 0
    else WithinSeconds(calls, burst, n, ip, lo, hi, s, m - 1)
         + WithinBetween(calls, burst, n, Key(ip, s + m - 1), lo, hi)
  }

  lemma {:induction false} OneCallOneSecond(calls: seq<Call>, burst: nat, n: nat, ip: string, lo: int, hi: int,
                                            s: int, m: nat)
    requires 0 < n <= |calls|
    ensures var c := calls[n - 1];
            WithinSeconds(calls, burst, n, ip, lo, hi, s, m)
            == WithinSeconds(calls, burst, n - 1, ip, lo, hi, s, m)
               + if RunsBetween(c, c.key, lo, hi) && CountAt(calls, n - 1) <= burst
                    && c.key.ip == ip && s <= c.key.second < s + m then 1 else 0
    decreases m
  {
    if m > 0 { OneCallOneSecond(calls, burst, n, ip, lo, hi, s, m - 1); }
  }

  lemma {:induction false} EmptySeconds(calls: seq<Call>, burst: nat, ip: string, lo: int, hi: int, s: int, m: nat)
    ensures WithinSeconds(calls, burst, 0, ip, lo, hi, s, m) == 0
  {
    if m > 0 { EmptySeconds(calls, burst, ip, lo, hi, s, m - 1); }
  }

  /** What is allowed between two moments is counted on the keys of the seconds that
      a clock may show between them. */
  lemma {:induction false} BetweenBySeconds(calls: seq<Call>, burst: nat, d: nat, n: nat, ip: string, lo: int,
                                            hi: int, s: int, m: nat)
    requires Skewed(calls, d) && n <= |calls| && s == (lo - d) / WINDOW_MILLIS && (hi - 1 + d) / WINDOW_MILLIS < s + m
    ensures AllowedBetween(calls, burst, n, ip, lo, hi) <= WithinSeconds(calls, burst, n, ip, lo, hi, s, m)
  {
    if n == 0 {
      EmptySeconds(calls, burst, ip, lo, hi, s, m);
    } else {
      BetweenBySeconds(calls, burst, d, n - 1, ip, lo, hi, s, m);
      OneCallOneSecond(calls, burst, n, ip, lo, hi, s, m);
    }
  }

  /** Lives of one key that a window of span seconds may meet. */
  function LivesMet(d: nat, span: nat): nat { Min(span + 1, 1 + Restarts(d)) }

  lemma {:induction false} SecondsBound(calls: seq<Call>, burst: nat, d: nat, n: nat, ip: string, lo: int, span: nat,
                                        s: int, m: nat)
    requires Ordered(calls) && Skewed(calls, d) && n <= |calls|
    ensures WithinSeconds(calls, burst, n, ip, lo, lo + span * WINDOW_MILLIS, s, m) <= m * (LivesMet(d, span) * burst)
  {
    if m > 0 {
      var k := Key(ip, s + m - 1);
      SecondsBound(calls, burst, d, n, ip, lo, span, s, m - 1);
      KeyWindowBound(calls, burst, n, k, lo, span);
      SkewedKeyBound(calls, burst, d, n, k);
      BetweenIsWithin(calls, burst, n, k, lo, lo + span * WINDOW_MILLIS);
      var each := LivesMet(d, span) * burst;
      assert m * each == (m - 1) * each + each;
    }
  }

  /** Any window of span seconds admits at most (span + 1 + x) min(span + 1, 1 + r)
      burst requests of one IP, where x is 2d / 1000 rounded up and r the number of
      restarts; without skew this is WindowBound. */
  lemma SkewedWindowBound(calls: seq<Call>, burst: nat, d: nat, ip: string, lo: int, span: nat)
    requires Ordered(calls) && Skewed(calls, d)
    ensures AllowedBetween(calls, burst, |calls|, ip, lo, lo + span * WINDOW_MILLIS)
            <= (span + 1 + Spread(d)) * (LivesMet(d, span) * burst)
  {
    var s, m := (lo - d) / WINDOW_MILLIS, span + 1 + Spread(d);
    BetweenBySeconds(calls, burst, d, |calls|, ip, lo, lo + span * WINDOW_MILLIS, s, m);
    SecondsBound(calls, burst, d, |calls|, ip, lo, span, s, m);
  }

  // ------------------------------------------------ the bounds are reached

  /** Where call i stands when every life of a counter gets exactly burst calls. */
  function Place(burst: nat, i: nat): (p: (nat, nat))
    requires burst > 0
    ensures p.1 < burst
  {
    if i == 0 then (0, 0) else
    var (life, turn) := Place(burst, i - 1);
    if turn + 1 < burst then (life, turn + 1) else (life + 1, 0)
  }

  lemma {:induction false} PlaceIs(burst: nat, i: nat)
    requires burst > 0
    ensures i == Place(burst, i).0 * burst + Place(burst, i).1
  {
    if i > 0 {
      PlaceIs(burst, i - 1);
      var life := Place(burst, i - 1).0;
      assert (life + 1) * burst == life * burst + burst;
    }
  }

  lemma {:induction false} PlaceMonotone(burst: nat, i: nat, j: nat)
    requires burst > 0 && i <= j
    ensures Place(burst, i).0 <= Place(burst, j).0
    decreases j
  {
    if i < j { PlaceMonotone(burst, i, j - 1); }
  }

  /** Among the first lives * burst calls there are only that many lives. */
  lemma PlaceBound(burst: nat, i: nat, lives: nat)
    requires burst > 0 && i < lives * burst
    ensures Place(burst, i).0 < lives
  {
    PlaceIs(burst, i);
    if Place(burst, i).0 >= lives { TimesMonotone(lives, Place(burst, i).0, burst); }
  }

  /** Bursts one life apart, all for one key: the first one from a replica whose
      clock is d ahead, the last one from a replica whose clock is behind. */
  function Astray(burst: nat, ip: string, d: nat, n: nat): (calls: seq<Call>)
    requires burst > 0
    ensures |calls| == n
  {
    seq(n, i requires 0 <= i => Reached(Key(ip, 0), Place(burst, i).0 * LIFE_MILLIS - d, true))
  }

  lemma AstrayIsOrdered(burst: nat, ip: string, d: nat, n: nat)
    requires burst > 0
    ensures Ordered(Astray(burst, ip, d, n))
  {
    forall i, j | 0 <= i < j < n ensures Place(burst, i).0 <= Place(burst, j).0 { PlaceMonotone(burst, i, j); }
  }

  lemma AstrayIsSkewed(burst: nat, ip: string, d: nat, n: nat)
    requires burst > 0 && n == (1 + Restarts(d)) * burst
    ensures Skewed(Astray(burst, ip, d, n), d)
  {
    forall i | 0 <= i < n ensures Place(burst, i).0 <= Restarts(d) { PlaceBound(burst, i, 1 + Restarts(d)); }
  }

  /** The counter before call i of that trace. */
  ghost predicate AstrayStore(store: Store, burst: nat, k: Key, d: nat, i: nat)
    requires burst > 0
  {
    var (life, turn) := Place(burst, i);
    if i == 0 then store == map[]
    else if turn > 0 then store == map[k := Entry(turn, (life + 1) * LIFE_MILLIS - 1 - d)]
    else life > 0 && store == map[k := Entry(burst, life * LIFE_MILLIS - 1 - d)]
  }

  lemma AstrayStep(store: Store, burst: nat, k: Key, d: nat, i: nat)
    requires burst > 0 && AstrayStore(store, burst, k, d, i)
    ensures var (store', count) := IncrAndExpire(store, k, Place(burst, i).0 * LIFE_MILLIS - d);
            AstrayStore(store', burst, k, d, i + 1) && count <= burst
  {
  }

  ghost predicate IsAstray(calls: seq<Call>, burst: nat, k: Key, d: nat)
    requires burst > 0
  {
    forall i: nat :: i < |calls| ==> calls[i] == Reached(k, Place(burst, i).0 * LIFE_MILLIS - d, true)
  }

  lemma {:induction false} AstrayStored(calls: seq<Call>, burst: nat, k: Key, d: nat, n: nat)
    requires burst > 0 && IsAstray(calls, burst, k, d) && n <= |calls|
    ensures AstrayStore(StoreAt(calls, n), burst, k, d, n)
  {
    if n > 0 {
      AstrayStored(calls, burst, k, d, n - 1);
      AstrayStep(StoreAt(calls, n - 1), burst, k, d, n - 1);
    }
  }

  lemma {:induction false} AstrayWithin(calls: seq<Call>, burst: nat, k: Key, d: nat, n: nat)
    requires burst > 0 && IsAstray(calls, burst, k, d) && n <= |calls|
    ensures Within(calls, burst, n, k) == n
  {
    if n > 0 {
      AstrayWithin(calls, burst, k, d, n - 1);
      AstrayStored(calls, burst, k, d, n - 1);
      AstrayStep(StoreAt(calls, n - 1), burst, k, d, n - 1);
    }
  }

  /** The bound for one second is reached for every skew and every burst. */
  lemma SkewReachesBound(burst: nat, ip: string, d: nat)
    requires burst > 0
    ensures var calls := Astray(burst, ip, d, (1 + Restarts(d)) * burst);
            Ordered(calls) && Skewed(calls, d)
            && Within(calls, burst, |calls|, Key(ip, 0)) == (1 + Restarts(d)) * burst
  {
    var n := (1 + Restarts(d)) * burst;
    AstrayIsOrdered(burst, ip, d, n);
    AstrayIsSkewed(burst, ip, d, n);
    AstrayWithin(Astray(burst, ip, d, n), burst, Key(ip, 0), d, n);
  }

  // ------------------------- the documented bound holds only without skew

  /** A window of span seconds from lo on admits at most (span + 1) burst requests. */
  ghost predicate WindowHolds(calls: seq<Call>, burst: nat, ip: string, lo: int, span: nat) {
    AllowedBetween(calls, burst, |calls|, ip, lo, lo + span * WINDOW_MILLIS) <= (span + 1) * burst
  }

  /** The documented bound: it holds of every trace and window under this skew. */
  ghost predicate Documented(burst: nat, d: nat, span: nat) {
    forall calls, ip, lo :: Ordered(calls) && Skewed(calls, d) ==> WindowHolds(calls, burst, ip, lo, span)
  }

  /** When burst g of a full window comes: key 0 at its start, key span + 1 in its
      last millisecond, every other key at the start of its second. */
  function Moment(span: nat, g: nat): int {
    if g == 0 then WINDOW_MILLIS
    else if g <= span then g * WINDOW_MILLIS
    else (span + 1) * WINDOW_MILLIS - 1
  }

  /** A full window: one burst for each of span + 2 keys. */
  ghost predicate IsFull(calls: seq<Call>, burst: nat, ip: string, span: nat)
    requires burst > 0
  {
    && |calls| == (span + 2) * burst
    && forall i: nat :: i < |calls| ==>
         calls[i] == Reached(Key(ip, Place(burst, i).0), Moment(span, Place(burst, i).0), true)
  }

  lemma FullIsOrdered(calls: seq<Call>, burst: nat, ip: string, span: nat)
    requires burst > 0 && span > 0 && IsFull(calls, burst, ip, span)
    ensures Ordered(calls) && InTime(calls, |calls|)
  {
    forall i, j | 0 <= i < j < |calls| ensures calls[i].at <= calls[j].at {
      PlaceMonotone(burst, i, j);
      PlaceBound(burst, j, span + 2);
    }
  }

  /** One millisecond of skew suffices. */
  lemma FullIsSkewed(calls: seq<Call>, burst: nat, ip: string, span: nat, d: nat)
    requires burst > 0 && span > 0 && d > 0 && IsFull(calls, burst, ip, span)
    ensures Skewed(calls, d)
  {
    forall i | 0 <= i < |calls|
      ensures (calls[i].at - d) / WINDOW_MILLIS <= calls[i].key.second <= (calls[i].at + d) / WINDOW_MILLIS
    {
      PlaceBound(burst, i, span + 2);
    }
  }

  /** Before call i the current key has had as many runs as its place says, and later
      keys none. */
  lemma {:induction false} FullRank(calls: seq<Call>, burst: nat, ip: string, span: nat, i: nat)
    requires burst > 0 && IsFull(calls, burst, ip, span) && i <= |calls|
    ensures Rank(calls, i, Key(ip, Place(burst, i).0)) == Place(burst, i).1
    ensures forall s :: s > Place(burst, i).0 ==> Rank(calls, i, Key(ip, s)) == 0
  {
    if i > 0 { FullRank(calls, burst, ip, span, i - 1); }
  }

  /** Every call of a full window is allowed. */
  lemma FullAllowed(calls: seq<Call>, burst: nat, ip: string, span: nat, i: nat)
    requires burst > 0 && span > 0 && IsFull(calls, burst, ip, span) && i < |calls| && Agrees(calls, |calls|)
    ensures AllowedIn(calls, burst, i, ip, WINDOW_MILLIS, WINDOW_MILLIS + span * WINDOW_MILLIS)
  {
    FullRank(calls, burst, ip, span, i);
    PlaceBound(burst, i, span + 2);
  }

  function Full(burst: nat, ip: string, span: nat, n: nat): (calls: seq<Call>)
    requires burst > 0
    ensures |calls| == n
  {
    seq(n, i requires 0 <= i => Reached(Key(ip, Place(burst, i).0), Moment(span, Place(burst, i).0), true))
  }

  lemma FullBreaks(calls: seq<Call>, burst: nat, ip: string, span: nat)
    requires burst > 0 && span > 0 && IsFull(calls, burst, ip, span)
    ensures !WindowHolds(calls, burst, ip, WINDOW_MILLIS, span)
  {
    FullIsOrdered(calls, burst, ip, span);
    RefinesIff(calls, |calls|);
    var lo, hi := WINDOW_MILLIS, WINDOW_MILLIS + span * WINDOW_MILLIS;
    forall i | 0 <= i < |calls| ensures AllowedIn(calls, burst, i, ip, lo, hi) {
      FullAllowed(calls, burst, ip, span, i);
    }
    AllCounted(calls, burst, |calls|, ip, lo, hi);
    TooMany(calls, burst, ip, span);
  }

  lemma TooMany(calls: seq<Call>, burst: nat, ip: string, span: nat)
    requires burst > 0 && |calls| == (span + 2) * burst
    requires AllowedBetween(calls, burst, |calls|, ip, WINDOW_MILLIS, WINDOW_MILLIS + span * WINDOW_MILLIS) == |calls|
    ensures !WindowHolds(calls, burst, ip, WINDOW_MILLIS, span)
  {
    assert (span + 2) * burst == (span + 1) * burst + burst;
  }

  lemma FullExceeds(burst: nat, d: nat, span: nat)
    requires burst > 0 && d > 0 && span > 0
    ensures !Documented(burst, d, span)
  {
    var calls := Full(burst, "", span, (span + 2) * burst);
    FullIsOrdered(calls, burst, "", span);
    FullIsSkewed(calls, burst, "", span, d);
    FullBreaks(calls, burst, "", span);
  }

  lemma {:induction false} NothingAllowed(calls: seq<Call>, n: nat, ip: string, lo: int, hi: int)
    requires n <= |calls|
    ensures AllowedBetween(calls, 0, n, ip, lo, hi) == 0
  {
    if n > 0 { NothingAllowed(calls, n - 1, ip, lo, hi); }
  }

  /** The documented bound of span + 1 bursts holds of all windows of span seconds
      exactly when the clocks agree (or nothing is ever allowed). */
  lemma DocumentedIff(burst: nat, d: nat, span: nat)
    requires span > 0
    ensures Documented(burst, d, span) <==> d == 0 || burst == 0
  {
    if d > 0 && burst > 0 {
      FullExceeds(burst, d, span);
    } else {
      forall calls, ip, lo | Ordered(calls) && Skewed(calls, d) ensures WindowHolds(calls, burst, ip, lo, span) {
        if burst == 0 {
          NothingAllowed(calls, |calls|, ip, lo, lo + span * WINDOW_MILLIS);
        } else {
          SynchronousIsUnskewed(calls);
          WindowBound(calls, burst, ip, lo, span);
        }
      }
    }
  }
}
