/** The Redis rate limiter: a counter per IP and Unix second, shared by every
    replica, whose keys expire one second after their first increment. Times are
    integer milliseconds of the Redis server; a key is still there in the
    millisecond of its expiry time, and gone in the next one. */
module RedisLimiter {
  import opened Common

  const WINDOW_MILLIS := 1000

  datatype Key = Key(ip: string, second: int)

  datatype Entry = Entry(count: nat, expiresAt: int)

  type Store = map<Key, Entry>

  predicate Alive(s: Store, k: Key, at: int) { k in s && at <= s[k].expiresAt }

  /** INCR, and PEXPIRE when the result is 1. */
  function IncrAndExpire(s: Store, k: Key, at: int): (Store, nat) {
    var current := (if Alive(s, k, at) then s[k].count else 0) + 1;
    (s[k := Entry(current, if current == 1 then at + WINDOW_MILLIS else s[k].expiresAt)], current)
  }

  /** One call of allow, by any replica. The key's second is read from that
      replica's clock. The script runs unless the call does not reach Redis; even
      then the reply may be lost. */
  datatype Call = Reached(key: Key, at: int, delivered: bool) | Unreached(key: Key)

  predicate Runs(c: Call, k: Key) { c.Reached? && c.key == k }

  /** The store before call i of a trace. */
  function StoreAt(calls: seq<Call>, i: nat): Store
    requires i <= |calls|
  {
    if i == 0 then map[]
    else if calls[i - 1].Reached? then IncrAndExpire(StoreAt(calls, i - 1), calls[i - 1].key, calls[i - 1].at).0
    else StoreAt(calls, i - 1)
  }

  /** What the script returns to call i. */
  function CountAt(calls: seq<Call>, i: nat): nat
    requires i < |calls| && calls[i].Reached?
  {
    IncrAndExpire(StoreAt(calls, i), calls[i].key, calls[i].at).1
  }

  /** Script runs happen in time order. */
  ghost predicate Ordered(calls: seq<Call>) {
    forall i, j :: 0 <= i < j < |calls| && calls[i].Reached? && calls[j].Reached? ==> calls[i].at <= calls[j].at
  }

  // ------------------------------------- refinement of an ideal counter

  /** The ideal counter never expires: script runs on key k before call i. */
  function Rank(calls: seq<Call>, i: nat, k: Key): nat
    requires i <= |calls|
  {
    if i == 0 then 0 else Rank(calls, i - 1, k) + if Runs(calls[i - 1], k) then 1 else 0
  }

  /** The time of the first script run on key k before call i. */
  function FirstAt(calls: seq<Call>, i: nat, k: Key): int
    requires i <= |calls|
  {
    if i == 0 then 0
    else if Runs(calls[i - 1], k) && Rank(calls, i - 1, k) == 0 then calls[i - 1].at
    else FirstAt(calls, i - 1, k)
  }

  lemma {:induction false} FirstIsEarliest(calls: seq<Call>, i: nat, k: Key, j: nat)
    requires Ordered(calls) && j < i <= |calls| && Runs(calls[j], k)
    ensures Rank(calls, i, k) > 0 && FirstAt(calls, i, k) <= calls[j].at
  {
    if j < i - 1 {
      FirstIsEarliest(calls, i - 1, k, j);
    } else if Rank(calls, j, k) > 0 {
      var f := FirstExists(calls, j, k);
    }
  }

  lemma {:induction false} FirstExists(calls: seq<Call>, i: nat, k: Key) returns (f: nat)
    requires i <= |calls| && Rank(calls, i, k) > 0
    ensures f < i && Runs(calls[f], k) && calls[f].at == FirstAt(calls, i, k)
  {
    if Rank(calls, i - 1, k) > 0 { f := FirstExists(calls, i - 1, k); } else { f := i - 1; }
  }

  /** The script's answer is the ideal counter's for every call before n. */
  ghost predicate Agrees(calls: seq<Call>, n: nat)
    requires n <= |calls|
  {
    forall i :: 0 <= i < n && calls[i].Reached? ==> CountAt(calls, i) == Rank(calls, i, calls[i].key) + 1
  }

  /** As long as the answers agree, the store holds the ideal count with the
      expiry of the first run. */
  lemma {:induction false} StoreIs(calls: seq<Call>, i: nat, k: Key)
    requires i <= |calls| && Agrees(calls, i)
    ensures if Rank(calls, i, k) == 0 then k !in StoreAt(calls, i)
            else k in StoreAt(calls, i)
                 && StoreAt(calls, i)[k] == Entry(Rank(calls, i, k), FirstAt(calls, i, k) + WINDOW_MILLIS)
  {
    if i > 0 {
      StoreIs(calls, i - 1, k);
      if Runs(calls[i - 1], k) { assert CountAt(calls, i - 1) == Rank(calls, i - 1, k) + 1; }
    }
  }

  /** Every script run on a key comes at most a second after the first one. */
  ghost predicate InTime(calls: seq<Call>, n: nat)
    requires n <= |calls|
  {
    forall i, j :: 0 <= i < j < n && calls[i].Reached? && Runs(calls[j], calls[i].key) ==>
      calls[j].at <= calls[i].at + WINDOW_MILLIS
  }

  /** The expiring counter answers like the ideal one exactly on the traces in
      which every run on a key comes within its first second. */
  lemma {:induction false} RefinesIff(calls: seq<Call>, n: nat)
    requires Ordered(calls) && n <= |calls|
    ensures Agrees(calls, n) <==> InTime(calls, n)
  {
    if n > 0 {
      RefinesIff(calls, n - 1);
      var c := calls[n - 1];
      if Agrees(calls, n - 1) && c.Reached? {
        StoreIs(calls, n - 1, c.key);
        LastInTime(calls, n - 1);
      }
    }
  }

  lemma LastInTime(calls: seq<Call>, n: nat)
    requires Ordered(calls) && n < |calls| && calls[n].Reached? && Agrees(calls, n) && InTime(calls, n)
    ensures CountAt(calls, n) == Rank(calls, n, calls[n].key) + 1 <==> InTime(calls, n + 1)
  {
    var k := calls[n].key;
    StoreIs(calls, n, k);
    if Rank(calls, n, k) > 0 {
      var f := FirstExists(calls, n, k);
      forall i | 0 <= i < n && Runs(calls[i], k) ensures FirstAt(calls, n, k) <= calls[i].at {
        FirstIsEarliest(calls, n, k, i);
      }
    } else {
      forall i | 0 <= i < n ensures !Runs(calls[i], k) { if Runs(calls[i], k) { FirstIsEarliest(calls, n, k, i); } }
    }
  }

  // ---------------------------------------------------- what is admitted

  /** allow returned true: the reply arrived and the count is within the burst. */
  predicate Allowed(calls: seq<Call>, burst: nat, i: nat)
    requires i < |calls|
  {
    calls[i].Reached? && calls[i].delivered && CountAt(calls, i) <= burst
  }

  /** allow returned an error. */
  predicate Errs(c: Call) { c.Unreached? || !c.delivered }

  /** The middleware fails open. */
  predicate Passes(calls: seq<Call>, burst: nat, i: nat)
    requires i < |calls|
  {
    Errs(calls[i]) || Allowed(calls, burst, i)
  }

  function Min(a: nat, b: nat): nat { if a < b then a else b }

  /** Script runs on key k before call n that are answered within the burst. */
  function Within(calls: seq<Call>, burst: nat, n: nat, k: Key): nat
    requires n <= |calls|
  {
    if n == 0 then 0
    else Within(calls, burst, n - 1, k) + if Runs(calls[n - 1], k) && CountAt(calls, n - 1) <= burst then 1 else 0
  }

  /** Of n runs on a key exactly the first min(n, burst) are within the burst. */
  lemma {:induction false} FirstBurstOnly(calls: seq<Call>, burst: nat, n: nat, k: Key)
    requires Ordered(calls) && n <= |calls| && InTime(calls, n)
    ensures Within(calls, burst, n, k) == Min(Rank(calls, n, k), burst)
    ensures forall i :: 0 <= i < n && Runs(calls[i], k) ==> (CountAt(calls, i) <= burst <==> Rank(calls, i, k) < burst)
  {
    RefinesIff(calls, n);
    if n > 0 { FirstBurstOnly(calls, burst, n - 1, k); }
  }

  /** Which requests the middleware serves: those whose call did not reach the server
      or whose reply was lost, and the first burst runs of each IP and second. */
  lemma PassesIff(calls: seq<Call>, burst: nat, i: nat)
    requires Ordered(calls) && i < |calls| && InTime(calls, |calls|)
    ensures Passes(calls, burst, i) <==>
            calls[i].Unreached? || !calls[i].delivered || Rank(calls, i, calls[i].key) < burst
  {
    RefinesIff(calls, |calls|);
  }

  function PassedOn(calls: seq<Call>, burst: nat, n: nat, k: Key): nat
    requires n <= |calls|
  {
    if n == 0 then 0
    else PassedOn(calls, burst, n - 1, k) + if calls[n - 1].key == k && Passes(calls, burst, n - 1) then 1 else 0
  }

  function ErrorsOn(calls: seq<Call>, n: nat, k: Key): nat
    requires n <= |calls|
  {
    if n == 0 then 0
    else ErrorsOn(calls, n - 1, k) + if calls[n - 1].key == k && Errs(calls[n - 1]) then 1 else 0
  }

  lemma {:induction false} PassedSplit(calls: seq<Call>, burst: nat, n: nat, k: Key)
    requires n <= |calls|
    ensures PassedOn(calls, burst, n, k) <= Within(calls, burst, n, k) + ErrorsOn(calls, n, k)
  {
    if n > 0 { PassedSplit(calls, burst, n - 1, k); }
  }

  /** Whatever the number of replicas, the middleware passes at most burst
      requests per IP and second, plus one for every backend error. */
  lemma MiddlewareBound(calls: seq<Call>, burst: nat, n: nat, k: Key)
    requires Ordered(calls) && n <= |calls| && InTime(calls, n)
    ensures PassedOn(calls, burst, n, k) <= Min(Rank(calls, n, k), burst) + ErrorsOn(calls, n, k)
  {
    PassedSplit(calls, burst, n, k);
    FirstBurstOnly(calls, burst, n, k);
  }

  // ------------------------------------------- windows of whole seconds

  /** The key is made and the script run at one moment of one clock. */
  ghost predicate Synchronous(calls: seq<Call>) {
    forall i :: 0 <= i < |calls| && calls[i].Reached? ==> calls[i].key.second == calls[i].at / WINDOW_MILLIS
  }

  lemma SynchronousInTime(calls: seq<Call>)
    requires Synchronous(calls)
    ensures InTime(calls, |calls|)
  {
  }

  /** Call i is an allowed request of this IP between two moments, the second one excluded. */
  predicate AllowedIn(calls: seq<Call>, burst: nat, i: nat, ip: string, lo: int, hi: int)
    requires i < |calls|
  {
    Allowed(calls, burst, i) && calls[i].key.ip == ip && lo <= calls[i].at < hi
  }

  /** Requests of one IP allowed between two moments. */
  function AllowedBetween(calls: seq<Call>, burst: nat, n: nat, ip: string, lo: int, hi: int): nat
    requires n <= |calls|
  {
    if n == 0 then 0
    else AllowedBetween(calls, burst, n - 1, ip, lo, hi)
         + if AllowedIn(calls, burst, n - 1, ip, lo, hi) then 1 else 0
  }

  lemma {:induction false} OneSecond(calls: seq<Call>, burst: nat, n: nat, ip: string, lo: int, mid: int, hi: int)
    requires n <= |calls| && Synchronous(calls) && lo <= mid <= hi <= (mid / WINDOW_MILLIS + 1) * WINDOW_MILLIS
    ensures AllowedBetween(calls, burst, n, ip, lo, hi)
            <= AllowedBetween(calls, burst, n, ip, lo, mid) + Within(calls, burst, n, Key(ip, mid / WINDOW_MILLIS))
  {
    if n > 0 { OneSecond(calls, burst, n - 1, ip, lo, mid, hi); }
  }

  lemma {:induction false} NoTime(calls: seq<Call>, burst: nat, n: nat, ip: string, lo: int)
    requires n <= |calls|
    ensures AllowedBetween(calls, burst, n, ip, lo, lo) == 0
  {
    if n > 0 { NoTime(calls, burst, n - 1, ip, lo); }
  }

  /** From lo to the end of the second that comes k seconds later. */
  lemma {:induction false} WholeSeconds(calls: seq<Call>, burst: nat, ip: string, lo: int, k: nat)
    requires Ordered(calls) && Synchronous(calls)
    ensures AllowedBetween(calls, burst, |calls|, ip, lo, (lo / WINDOW_MILLIS + k + 1) * WINDOW_MILLIS)
            <= (k + 1) * burst
    decreases k
  {
    SynchronousInTime(calls);
    var mid := if k == 0 then lo else (lo / WINDOW_MILLIS + k) * WINDOW_MILLIS;
    if k == 0 { NoTime(calls, burst, |calls|, ip, lo); } else { WholeSeconds(calls, burst, ip, lo, k - 1); }
    assert mid / WINDOW_MILLIS == lo / WINDOW_MILLIS + k;
    OneSecond(calls, burst, |calls|, ip, lo, mid, (lo / WINDOW_MILLIS + k + 1) * WINDOW_MILLIS);
    FirstBurstOnly(calls, burst, |calls|, Key(ip, lo / WINDOW_MILLIS + k));
    assert (k + 1) * burst == k * burst + burst;
  }

  lemma {:induction false} ShorterIsLess(calls: seq<Call>, burst: nat, n: nat, ip: string, lo: int, hi: int, later: int)
    requires n <= |calls| && hi <= later
    ensures AllowedBetween(calls, burst, n, ip, lo, hi) <= AllowedBetween(calls, burst, n, ip, lo, later)
  {
    if n > 0 { ShorterIsLess(calls, burst, n - 1, ip, lo, hi, later); }
  }

  /** Any window of k seconds admits at most (k + 1) burst requests from one IP. */
  lemma WindowBound(calls: seq<Call>, burst: nat, ip: string, lo: int, k: nat)
    requires Ordered(calls) && Synchronous(calls)
    ensures AllowedBetween(calls, burst, |calls|, ip, lo, lo + k * WINDOW_MILLIS) <= (k + 1) * burst
  {
    WholeSeconds(calls, burst, ip, lo, k);
    ShorterIsLess(calls, burst, |calls|, ip, lo, lo + k * WINDOW_MILLIS, (lo / WINDOW_MILLIS + k + 1) * WINDOW_MILLIS);
  }

  /** A burst in the last millisecond of a second and one in the first of the next. */
  function Boundary(burst: nat, ip: string): seq<Call> {
    seq(2 * burst, i => if i < burst then Reached(Key(ip, 0), 999, true) else Reached(Key(ip, 1), 1000, true))
  }

  lemma {:induction false} BoundaryRank(burst: nat, ip: string, i: nat)
    requires i <= 2 * burst
    ensures Rank(Boundary(burst, ip), i, Key(ip, 0)) == Min(i, burst)
    ensures Rank(Boundary(burst, ip), i, Key(ip, 1)) == if i < burst then 0 else i - burst
  {
    if i > 0 { BoundaryRank(burst, ip, i - 1); }
  }

  lemma BoundaryOrdered(burst: nat, ip: string)
    ensures Ordered(Boundary(burst, ip)) && Synchronous(Boundary(burst, ip))
  {
  }

  /** Every call of the boundary trace is allowed. */
  lemma BoundaryAllowed(burst: nat, ip: string, i: nat)
    requires i < 2 * burst
    ensures Allowed(Boundary(burst, ip), burst, i)
  {
    var calls := Boundary(burst, ip);
    BoundaryOrdered(burst, ip);
    SynchronousInTime(calls);
    RefinesIff(calls, |calls|);
    BoundaryRank(burst, ip, i);
  }

  lemma {:induction false} AllCounted(calls: seq<Call>, burst: nat, n: nat, ip: string, lo: int, hi: int)
    requires n <= |calls| && forall i :: 0 <= i < n ==> AllowedIn(calls, burst, i, ip, lo, hi)
    ensures AllowedBetween(calls, burst, n, ip, lo, hi) == n
  {
    if n > 0 { AllCounted(calls, burst, n - 1, ip, lo, hi); }
  }

  /** The bound is reached at a second boundary: 2 burst requests in one second,
      for every burst. */
  lemma BoundaryReachesBound(burst: nat, ip: string)
    ensures Ordered(Boundary(burst, ip)) && Synchronous(Boundary(burst, ip))
    ensures AllowedBetween(Boundary(burst, ip), burst, 2 * burst, ip, 999, 999 + 1 * WINDOW_MILLIS) == (1 + 1) * burst
  {
    BoundaryOrdered(burst, ip);
    var calls := Boundary(burst, ip);
    forall i | 0 <= i < |calls| ensures AllowedIn(calls, burst, i, ip, 999, 1999) { BoundaryAllowed(burst, ip, i); }
    AllCounted(calls, burst, 2 * burst, ip, 999, 1999);
  }

  // ------------------------------------------------------------ the objects

  /** The shared server. */
  class RedisServer {
    var store: Store

    constructor ()
      ensures store == map[]
    {
      store := map[];
    }

    method Script(k: Key, at: int) returns (current: nat)
      modifies this
      ensures (store, current) == IncrAndExpire(old(store), k, at)
    {
      if k in store && at > store[k].expiresAt {
        store := store - {k};
      }
      var expiresAt := if k in store then store[k].expiresAt else at;
      current := (if k in store then store[k].count else 0) + 1;
      if current == 1 {
        expiresAt := at + WINDOW_MILLIS;
      }
      store := store[k := Entry(current, expiresAt)];
      assert store == IncrAndExpire(old(store), k, at).0;
    }
  }

  /** One replica's backend and middleware over the shared server. */
  class RedisBackend {
    const server: RedisServer
    const burst: nat

    constructor (server: RedisServer, burst: nat)
      ensures this.server == server && this.burst == burst
    {
      this.server, this.burst := server, burst;
    }

    method AllowRequest(c: Call) returns (r: Result<bool>)
      modifies server
      ensures c.Reached? ==> server.store == IncrAndExpire(old(server.store), c.key, c.at).0
      ensures c.Unreached? ==> server.store == old(server.store)
      ensures c.Unreached? || !c.delivered ==> r == Err(Internal)
      ensures c.Reached? && c.delivered ==> r == Ok(IncrAndExpire(old(server.store), c.key, c.at).1 <= burst)
    {
      if c.Unreached? { return Err(Internal); }
      var count := server.Script(c.key, c.at);
      if !c.delivered { return Err(Internal); }
      r := Ok(count <= burst);
    }

    method Middleware(c: Call) returns (served: bool)
      modifies server
      ensures c.Reached? ==> server.store == IncrAndExpire(old(server.store), c.key, c.at).0
      ensures c.Unreached? ==> server.store == old(server.store)
      ensures served <==>
              c.Unreached? || !c.delivered || IncrAndExpire(old(server.store), c.key, c.at).1 <= burst
    {
      var allowed := AllowRequest(c);
      served := allowed.Err? || allowed.value;
    }
  }
}
