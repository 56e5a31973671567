# Verification model of a task-management API

This project models the stateful core of a task-management API written in Go
and proves what that core keeps over whole runs. Four components are modelled.

**Refresh tokens** (`RefreshTokens`, `AuthProtocol`, `AuthInvariant`,
`AuthRotation`, `AuthReuse`, `AuthOutcome`, `AuthReplay`, `AuthSignIn`,
`TokenStores`, `AuthService`, `AuthRace`). Signup, Login, Refresh and Logout are sequences of separate SQL
statements that any number of replicas interleave, and each may die between any
two of them. `AuthProtocol` is that state machine: the users and refresh_tokens
tables, a program counter with locals for every call ever begun, and history
(who created a user, and for every token its parent, its generation and the call
that issued it). `AuthInvariant` has the inductive invariant, `AuthRotation` the
single use of tokens, chains, counting and provenance, `AuthReuse` what reuse
detection guarantees afterwards, `AuthOutcome` why each call ended as it did and
what its SELECT decided, `AuthReplay` what a replayed token leads to, and
`AuthSignIn` that a sign-in succeeds when it should, why a call failed, and that no
call is ever stuck. `TokenStores` writes the service calls against the repository interface and
compares the SQL repository with the in-memory stand-in; `AuthService` has the
repositories and the service as objects, and shows that an uninterrupted call is
a run of the protocol; `AuthRace` constructs the races of two calls for one token
and says what can bring an old chain back to life.

**Rate limiters** (`TokenTime`, `MemoryLimiter`, `BucketLaw`, `RedisLimiter`,
`RedisSkew`). The in-memory
backend is a map of token buckets with idle eviction; it is compared with one
bucket per IP that is never evicted, and `BucketLaw` says exactly which requests are
denied. The Redis backend is a counter per IP and
Unix second whose keys expire; it is compared with a counter that never expires,
and bounded when the replicas' clocks are off.

**Tasks** (`Tasks`, `TaskProtocol`, `TaskAnswers`, `TaskService`). Update and Delete read,
check and then write by id alone. They are shown to be linearizable and isolated
because ids are never used again and no statement changes the owner; `TaskAnswers`
says what every answer means in any interleaving.

**Pagination and seeding** (`TaskListing`, `Seeder`). Page walks over a listing
whose ties the database may order anew in every statement, and the seed command
on top of the clamped List, with any of its statements failing.

Each protocol is stated over states `b` and the events `evs` between them, so a
claim about a run names positions in it. Where a component works by updating
something in place it is a class, proved against the functions that the lemmas
are about.

## Where the code and its documentation differ

- The API description promises that an unusable refresh token is answered alike
  and that logout is idempotent, and the runbook says that concurrent refreshes
  trip reuse detection. What happens to the loser of a race depends on its
  SELECT. If that came after the winner's UPDATE, a Refresh does trip reuse
  detection and a Logout succeeds (`AuthOutcome.DeadReadDetects`). If it came
  before, the loser reaches its own UPDATE, and is answered with an error
  wrapping NotFound, writes nothing and revokes no session, if and only if
  another call has revoked the row in between (`AuthOutcome.NotFoundIff`).
  `AuthRace.RaceLost` builds such a run from any state. Calls made one at a time
  are never answered NotFound (`AuthReplay.SequentialNeverNotFound`).
- "Every refresh token for that user is revoked" is true of the rows that exist
  at that moment. Detection can meet a Refresh between its Revoke and its Create,
  whose INSERT then brings the chain back to life
  (`AuthRace.ExchangeOutlivesDetection` builds that run from any reachable
  state); after detection some continuation revives an old chain if and only if
  such an exchange was in flight (`AuthRace.RevivalIff`).
- The in-memory backend is called exact for a single instance. It is if and only
  if burst <= 180 rps (`MemoryLimiter.UnnoticeableIff`); otherwise an eviction
  fills a bucket early, which adds burst - 180 rps for every idle period that fits
  into an interval (`AdmittedPerInterval`), and no less (`AllowanceReached`). Denied
  requests then are not free either: one may keep a drained bucket from being
  evicted (`BucketLaw.DeniedIsFreeIff`).
- The seed command is called safe to run repeatedly. It never repeats a title,
  however the database orders ties, if and only if for every title of the window
  that the user has, fewer than a hundred of the user's tasks are newer than the
  newest of that title or tie with it under another title
  (`Seeder.NeverDuplicatesIff`). With a hundred strictly newer tasks every
  fault-free run repeats the title, and only then (`Seeder.AlwaysRepeatsIff`);
  `Seeder.CrowdRepeats` gives such a table. When its List fails it repeats every
  title that the user has and whose Create does not fail (`Seeder.RepeatedIff`).
- The Redis limiter's comment says that up to about twice the burst is let through
  at a window boundary. That is the bound of k + 1 bursts in k seconds for k = 1,
  and it holds of all traces if and only if the replicas' clocks agree with the
  server's (`RedisSkew.DocumentedIff`): one millisecond of skew lets k + 2 bursts
  into some window of k seconds, three into one second. The bounds that hold with
  clocks d milliseconds off are `RedisSkew.SkewedKeyBound`, which is reached
  (`RedisSkew.SkewReachesBound`), and `RedisSkew.SkewedWindowBound`.
- Newest-first pages have no tie-break, so they partition the list if and only if
  no tie straddles a page boundary (`TaskListing.WalksPartitionIff`).

## Modelling decisions

- Each SQL statement, and each run of the Lua script, is one atomic step. A crash
  event may follow any step, which also covers a statement that took effect but
  whose acknowledgement was lost. A statement takes effect before its call has
  answered or died: one that the database still carries out after a cancelled
  request has been answered is not covered, and `AuthReuse.SequentialReuse`,
  `AuthReplay.SequentialNeverNotFound` and `TaskProtocol.RealTimeOrder` depend on
  that. The error of RowsAffected that Revoke ignores does not occur.
- Hashing and password comparison are arbitrary functions. A Signup stores some
  hash that its password matches, as bcrypt promises. Ids, plaintexts and clock
  readings are arbitrary values carried by the events; clocks need not be
  monotone. An id drawn for a row is one that the table has not used.
- `rate.Limiter` follows its documented rule over real numbers: refill
  min(burst, tokens + rps * time), allow iff a whole token is there, start full.
  One clock reading is taken per request, and event times do not decrease. rps is
  positive.
- A Redis key is still there in the millisecond of its expiry time, 1000 ms after
  the first increment, and gone in the next one. Script runs happen in the order of
  the server's time, the replicas' clocks are
  arbitrary except where `Synchronous` or `Skewed` is assumed.
- A call of the seed command to the task service does its work, fails without, or
  has done it but is reported as failed.
- `created_at` of refresh tokens and users is not read by any modelled code and
  is not kept.

## Model

| member | source | states |
|---|---|---|
| `AuthInvariant.NextKeeps` | internal/service/auth_service.go:55-149 | every statement, check, return or crash of any call keeps the protocol invariant: unique emails and hashes, one successor per token, one call per claimed row, every stale local still true of its row |
| `AuthInvariant.RunKeeps` | internal/service/auth_service.go:55-149 | the invariant holds in every state of every interleaving |
| `AuthInvariant.RevokingKeeps` | internal/repository/refresh_token_repository.go:64-83 | revoking any set of rows keeps the invariant |
| `AuthInvariant.RevokeKeeps` | internal/repository/refresh_token_repository.go:64-74 | the conditional UPDATE, won or lost, keeps the invariant; a row that it revokes had no successor and no call claimed it |
| `AuthInvariant.InsertKeeps` | internal/service/auth_service.go:39-46 | inserting a token under a free hash keeps the invariant |
| `AuthInvariant.RunEvolves` | internal/repository/refresh_token_repository.go:64-83 | over any stretch of a run users, rows and lineage are only added to, a row changes only by being revoked, and a revoked row never changes again |
| `AuthRotation.AtMostOneExchange` | internal/service/auth_service.go:108-132 | in every run each token row is exchanged by at most one Refresh |
| `AuthRotation.OneWinnerPerRow` | internal/service/auth_service.go:127-131 | two Refresh calls that both got a pair presented different rows: every token has at most one successor |
| `AuthRotation.HolderContinues` | internal/service/auth_service.go:127-131 | after any event, a live row or in-flight exchange starts a new chain by a sign-in or continues the chain of what it replaces |
| `AuthRotation.StepKeepsChains` | internal/service/auth_service.go:108-132 | every event keeps "at most one holder per chain" |
| `AuthRotation.OneHolderPerChain` | internal/service/auth_service.go:28-49 | for every chain, live rows plus Refresh calls between Revoke and Create number at most one, in every reachable state |
| `AuthRotation.ChainProvenance` | internal/service/auth_service.go:131 | the root of a token's chain has the token's user and was issued by a call that proved to be that user |
| `AuthRotation.Provenance` | internal/service/auth_service.go:55-98 | in every reachable state each row's user is its root's, the root came from the Signup that created that user or from a Login whose password matched the stored hash, and emails are unique |
| `AuthRotation.CountOff` | internal/service/auth_service.go:28-49 | any set of live rows and in-flight exchanges is no larger than the set of sign-ins they go back to |
| `AuthRotation.SessionsBoundedBySignIns` | internal/service/auth_service.go:28-49 | a user's live tokens plus in-flight exchanges never outnumber the Signup and Login calls that issued the user a token, and each of those was authenticated |
| `AuthReuse.AftermathHolds` | internal/service/auth_service.go:117-122 | from a state with all rows of a user revoked, every later token of the user entered by an issue in flight then or by a Login |
| `AuthReuse.DetectionRevokes` | internal/repository/refresh_token_repository.go:76-83 | reuse detection leaves every row of the user revoked and adds and removes none |
| `AuthReuse.ReuseDetection` | internal/service/auth_service.go:117-122 | after detection every row the user had is revoked in every later state, and every later live token descends from a token issued by a call that had only its INSERT left to do at detection, or by a Login |
| `AuthReuse.ChainsEndAtDetection` | internal/service/auth_service.go:117-122 | with no exchange in flight at detection, no token the user had and no descendant of one is ever live again |
| `AuthReuse.InFlightEscapes` | internal/service/auth_service.go:127-131 | in a state with all rows of the user revoked, an exchange in flight can insert a live descendant of a revoked row as its next statement |
| `AuthReuse.SequentialReuse` | internal/service/auth_service.go:100-132 | in runs of one call at a time, after detection no old token or descendant is ever live or exchanged again |
| `AuthOutcome.EveryOutcomeExplained` | internal/service/auth_service.go:108-149 | in every run each outcome of Refresh or Logout is explained by the call's own events: a pair by a row live when read, an unexpired check and a won UPDATE, NotFound by a row live when read and revoked by another call before the UPDATE and no write, TokenInvalid by an unknown or expired row and no write or by a row revoked when read and detected reuse, LoggedOut by a row revoked when read and no write or by a won UPDATE, Internal with no write, a won UPDATE or detected reuse before it |
| `AuthOutcome.NotFoundIff` | internal/service/auth_service.go:127-148 | in every run each call that reaches its UPDATE had read the row as live, and is answered NotFound if and only if another call revoked the row between its SELECT and its UPDATE |
| `AuthOutcome.DeadReadDetects` | internal/service/auth_service.go:117-122 | in every run a Refresh whose SELECT reads the row as revoked runs reuse detection and is answered TokenInvalid, or crashes; a Logout is answered LoggedOut or crashes |
| `AuthReplay.ReplayDetected` | internal/service/auth_service.go:100-122 | in every run, once a row has been exchanged every later Refresh of it that does not crash runs reuse detection, is answered TokenInvalid, and leaves every descendant of the row and every other row of the user revoked for ever |
| `AuthReplay.SequentialNeverNotFound` | internal/service/auth_service.go:55-149 | in runs of one call at a time no call is ever answered NotFound |
| `AuthSignIn.LoginIsAPath` | internal/service/auth_service.go:79-98 | from any state a Login with the password of a stored user can run to a pair: one new live row of that user that expires a lifetime later and starts a chain, and no other change |
| `AuthSignIn.SignupIsAPath` | internal/service/auth_service.go:55-73 | from any state a Signup with a free email can run to a pair: the user is stored with the email and the hash, and issued one live row |
| `AuthSignIn.LookupDecides` | internal/service/auth_service.go:80-86 | in every run the lookup refuses a Login if and only if no user has the email |
| `AuthSignIn.PasswordDecides` | internal/service/auth_service.go:88-92 | in every run the comparison refuses a Login if and only if the password does not match the stored hash of the user with the email; otherwise a token is issued to that user |
| `AuthSignIn.InsertDecides` | internal/service/auth_service.go:61-67 | in every run the INSERT refuses a Signup if and only if the email is taken then; otherwise exactly one user is added, with the email and a matching hash, and is issued a token |
| `AuthSignIn.EveryFailureExplained` | internal/service/auth_service.go:28-149 | in every run InvalidCredentials means a Login that found no user or whose password did not match, AlreadyExists a Signup whose email was taken at its INSERT, an internal failure a crash or a drawn hash that was stored, and no other refusals occur but those of tokens |
| `AuthSignIn.SignInSucceeds` | internal/service/auth_service.go:67-97 | in every run a Signup or Login that got a pair got a stored token of the user that it proved to be, which starts a chain |
| `AuthSignIn.NeverStuck` | internal/service/auth_service.go:28-149 | in every reachable state a call that is not done has an event of its own that is not a crash, and can crash, which changes no table |
| `AuthRace.RaceLost` | internal/service/auth_service.go:127-149 | from any state, two calls for one live token can interleave so that one gets a pair, the other NotFound, and no other row changes |
| `AuthRace.ExchangeOutlivesDetection` | internal/service/auth_service.go:117-131 | from any reachable state with a live, unexpired row, two Refresh calls of it can interleave so that one detects reuse and revokes every row while the other is in flight, and the other then inserts a live successor |
| `AuthRace.RevivalIff` | internal/service/auth_service.go:117-131 | the allowance is exact: after detection some continuation makes a token of an old chain of the user live again if and only if an exchange for the user was in flight at detection |
| `TokenStores.RefreshUnknown` | internal/service/auth_service.go:109-115 | an unknown token gets TokenInvalid from Refresh and Logout, and nothing changes |
| `TokenStores.RefreshKnown` | internal/service/auth_service.go:117-131 | Refresh of a stored token, uninterrupted: a revoked one gets TokenInvalid and revokes exactly the user's live rows, now, an expired one gets TokenInvalid and changes nothing, any other is replaced by one live row of the same user; never NotFound |
| `TokenStores.LogoutIdempotent` | internal/service/auth_service.go:137-149 | Logout revokes the presented row, now, if it is live, and changes no other; repeating it succeeds and changes nothing |
| `TokenStores.ReplayKillsSession` | internal/service/auth_service_test.go:137-163 | three calls in a row: after rotating a token and replaying the old one, the rotated token is refused too |
| `TokenStores.FindAgrees` | internal/service/fakes_test.go:139-146 | the two repositories find the same token, ids aside |
| `TokenStores.CreateAgrees` | internal/service/fakes_test.go:130-137 | creating a token under a fresh hash answers alike and keeps the stores in agreement |
| `TokenStores.RevokeAgrees` | internal/service/fakes_test.go:148-157 | on a live row the unguarded Revoke answers like the guarded one and keeps the stores in agreement |
| `TokenStores.RevokeDiffersOnRevoked` | internal/service/fakes_test.go:148-157 | on a stored row the two Revoke forms answer alike if and only if the row is live |
| `TokenStores.RevokeDivergesIff` | internal/service/fakes_test.go:148-157 | after Revoke of a stored row the stores agree if and only if the row was live or had been revoked at that very moment |
| `TokenStores.CreateDiffersOnStored` | internal/service/fakes_test.go:130-137 | a stored hash is refused by the SQL form, which keeps the row, and replaced by the in-memory form |
| `TokenStores.RevokeAllAgrees` | internal/service/fakes_test.go:159-167 | RevokeAllForUser keeps the stores in agreement |
| `TokenStores.ServeAgrees` | internal/service/auth_service.go:28-149 | one sign-in, Refresh or Logout gets the same answer from both repositories and keeps them in agreement |
| `TokenStores.FakeIsFaithful` | internal/service/fakes_test.go:118-167 | every sequence of requests with fresh hashes gets the same replies from the in-memory and the SQL repository |
| `AuthService.RefreshTokenRepository.Create` | internal/repository/refresh_token_repository.go:33-44 | a fresh hash gets a new live row under the next id, a stored hash an error; hashes stay unique |
| `AuthService.RefreshTokenRepository.FindByHash` | internal/repository/refresh_token_repository.go:46-62 | the row with the hash, or NotFound |
| `AuthService.RefreshTokenRepository.Revoke` | internal/repository/refresh_token_repository.go:64-74 | revokes the row iff it exists and is live, and says whether it did |
| `AuthService.RefreshTokenRepository.RevokeAllForUser` | internal/repository/refresh_token_repository.go:76-83 | revokes exactly the user's live rows |
| `AuthService.FakeRefreshTokenRepository.Create` | internal/service/fakes_test.go:130-137 | stores the token under its hash with the next id, replacing one of the same hash |
| `AuthService.FakeRefreshTokenRepository.FindByHash` | internal/service/fakes_test.go:139-146 | the token stored under the hash, or NotFound |
| `AuthService.FakeRefreshTokenRepository.Revoke` | internal/service/fakes_test.go:148-157 | the loop revokes the one row with the id, live or not, and fails iff there is none |
| `AuthService.FakeRefreshTokenRepository.RevokeAllForUser` | internal/service/fakes_test.go:159-167 | the loop revokes exactly the user's live rows |
| `AuthService.UserRepository.Create` | internal/repository/user_repository.go:29-43 | a free email gets a new row, a taken one AlreadyExists and no change; emails stay unique |
| `AuthService.UserRepository.FindByEmail` | internal/repository/user_repository.go:45-57 | the row with the email, or NotFound |
| `AuthService.AuthService.IssueTokenPair` | internal/service/auth_service.go:28-49 | stores one live row for the user that expires a lifetime later, or fails on a stored hash |
| `AuthService.AuthService.Signup` | internal/service/auth_service.go:55-73 | a password that cannot be hashed and a taken email change nothing; otherwise one new user with this email and a hash that this password matches exists and is issued a token |
| `AuthService.AuthService.Login` | internal/service/auth_service.go:79-98 | unknown email and wrong password are answered alike and change nothing; otherwise the user with that email is issued a token |
| `AuthService.AuthService.Refresh` | internal/service/auth_service.go:108-132 | the statements in a row have the effect and answer that RefreshKnown and RefreshUnknown describe |
| `AuthService.AuthService.Logout` | internal/service/auth_service.go:137-149 | the statements in a row have the effect and answer that LogoutIdempotent and RefreshUnknown describe |
| `AuthService.RefreshIsAPath` | internal/service/auth_service.go:108-132 | from any state the protocol can run an uninterrupted Refresh and end with the same table and answer |
| `AuthService.LogoutIsAPath` | internal/service/auth_service.go:137-149 | from any state the protocol can run an uninterrupted Logout and end with the same table and answer |
| `TokenTime.MirrorStep` | internal/httpapi/middleware/ratelimit_memory.go:40-66 | if a bucket refills within the idle period, each request or cleanup gets the same decision and keeps the evicting map a mirror of the never-evicting one |
| `TokenTime.EvictingBudget` | internal/httpapi/middleware/ratelimit_memory.go:40-66 | with less than k + 1 idle periods left, evictions add at most k times what a new bucket has more than a stale one to what an IP may spend |
| `TokenTime.IntervalBudget` | internal/httpapi/middleware/ratelimit_memory.go:40-66 | the interval bound in units of refilled tokens, after any history |
| `TokenTime.EvictionVisible` | internal/httpapi/middleware/ratelimit_memory.go:40-66 | if a bucket does not refill within the idle period, a burst, cleanups and a second burst get different decisions with and without eviction |
| `MemoryLimiter.RunScales` | internal/httpapi/middleware/ratelimit_memory.go:40-66 | the limiter in seconds and the one in refilled tokens take the same decisions and reach the same buckets on every trace |
| `MemoryLimiter.EvictionUnnoticed` | internal/httpapi/middleware/ratelimit_memory.go:40-66 | if burst <= 180 rps, on every trace with every schedule of cleanups the evicting map decides like one bucket per IP for ever |
| `MemoryLimiter.EvictionNoticed` | internal/httpapi/middleware/ratelimit_memory.go:40-53 | if burst > 180 rps, one client with cleanups a minute apart gets different decisions |
| `MemoryLimiter.UnnoticeableIff` | internal/httpapi/middleware/ratelimit_memory.go:40-66 | eviction is unnoticeable on all traces if and only if burst <= 180 rps |
| `BucketLaw.DeniedIff` | internal/httpapi/middleware/ratelimit_memory.go:40-66 | on every trace, for every rps and burst, a request is denied if and only if, for some earlier start or this moment, the requests of its IP admitted from there on and this one exceed burst + rps times the time since, and no cleanup since then found all requests of the IP more than 180 seconds old (without eviction cleanups do not matter) |
| `BucketLaw.DeniedIffHarmless` | internal/httpapi/middleware/ratelimit_memory.go:40-66 | without eviction, or if burst <= 180 rps, the same law with cleanups left out of account |
| `BucketLaw.DeniedCostsNothing` | internal/httpapi/middleware/ratelimit_memory.go:40-66 | under that condition, a trace without one of its denied requests gets the same verdicts on all others |
| `BucketLaw.DeniedIsFreeIff` | internal/httpapi/middleware/ratelimit_memory.go:40-66 | with eviction, dropping denied requests never changes another verdict if and only if burst <= 180 rps; otherwise a denied request may keep a drained bucket from being evicted |
| `MemoryLimiter.AdmittedPerInterval` | internal/httpapi/middleware/ratelimit_memory.go:40-66 | after any history, one IP is admitted at most burst + rps T + floor(T/180) max(0, burst - 180 rps) times in any interval of length T, for every rps and burst |
| `MemoryLimiter.AdmittedPerPeriod` | internal/httpapi/middleware/ratelimit_memory.go:40-66 | hence at most burst (1 + floor(T/180)) + rps T times |
| `MemoryLimiter.AllowanceReached` | internal/httpapi/middleware/ratelimit_memory.go:40-66 | if burst >= 180 rps, for every k some trace of k idle periods, each longer by any small excess, admits (k + 1) burst requests, and the bound exceeds that by no more than the refill of the excesses |
| `MemoryLimiter.AdmittedTight` | internal/httpapi/middleware/ratelimit_memory.go:40-66 | if burst <= 180 rps the bound is burst + rps T |
| `MemoryLimiter.FleetBound` | internal/httpapi/middleware/ratelimit.go:25-30 | N instances with separate maps admit one IP at most N (burst + rps T) times if burst <= 180 rps |
| `MemoryLimiter.FleetReached` | internal/httpapi/middleware/ratelimit.go:25-30 | N instances admit exactly N burst requests of one IP at one moment: the factor N is real |
| `MemoryLimiter.MapSize` | internal/httpapi/middleware/ratelimit_memory.go:38-53 | with cleanups at most a minute apart the map holds every client of the last three minutes and only clients of the last four, hence no more entries than those |
| `MemoryLimiter.InMemoryBackend.AllowRequest` | internal/httpapi/middleware/ratelimit_memory.go:55-66 | answers and updates the visitor map as the trace functions do; lastSeen is the bucket's last use |
| `MemoryLimiter.InMemoryBackend.Cleanup` | internal/httpapi/middleware/ratelimit_memory.go:44-52 | the loop deletes exactly the visitors idle for more than three minutes |
| `RedisLimiter.StoreIs` | internal/httpapi/middleware/ratelimit_redis.go:14-24 | while answers agree, the store holds the number of runs on a key and the expiry set by the first |
| `RedisLimiter.RefinesIff` | internal/httpapi/middleware/ratelimit_redis.go:14-24 | the expiring counter answers like one that never expires if and only if every script run on a key comes at most 1000 ms after the first |
| `RedisLimiter.FirstBurstOnly` | internal/httpapi/middleware/ratelimit_redis.go:49-58 | across all replicas, of n runs on one IP and second exactly the first min(n, burst) are within the burst |
| `RedisLimiter.PassesIff` | internal/httpapi/middleware/ratelimit.go:57-75 | on in-time traces the middleware serves a request if and only if its call did not reach the server, or its reply was lost, or fewer than burst runs came before it on its IP and second |
| `RedisLimiter.MiddlewareBound` | internal/httpapi/middleware/ratelimit.go:57-75 | per IP and second the middleware passes at most min(n, burst) requests plus the number of backend errors, whatever the number of replicas |
| `RedisLimiter.SynchronousInTime` | internal/httpapi/middleware/ratelimit_redis.go:49-58 | if clock read and script run are one step, every run on a key is in time |
| `RedisLimiter.WindowBound` | internal/httpapi/middleware/ratelimit_redis.go:26-34 | then any window of k seconds admits at most (k + 1) burst requests of one IP |
| `RedisLimiter.BoundaryReachesBound` | internal/httpapi/middleware/ratelimit_redis.go:26-34 | for every burst, 2 burst requests are admitted within one second at a second boundary |
| `RedisSkew.LivesBound` | internal/httpapi/middleware/ratelimit_redis.go:14-24 | with any clocks, each time a key's counter starts anew it lets at most burst runs through |
| `RedisSkew.SkewedKeyBound` | internal/httpapi/middleware/ratelimit_redis.go:49-58 | with replica clocks within d ms of the server's, at most (1 + r) burst runs on one IP and second are within the burst, r = floor((2d + 999) / 1001) being how often the key can start anew |
| `RedisSkew.SkewedMiddlewareBound` | internal/httpapi/middleware/ratelimit.go:57-75 | under that skew the middleware passes at most (1 + r) burst requests per IP and second plus the number of backend errors |
| `RedisSkew.SkewedWindowBound` | internal/httpapi/middleware/ratelimit_redis.go:26-34 | under that skew any window of k seconds admits at most (k + 1 + x) min(k + 1, 1 + r) burst requests of one IP, x being 2d / 1000 rounded up |
| `RedisSkew.SkewReachesBound` | internal/httpapi/middleware/ratelimit_redis.go:49-58 | for every skew and every burst above 0 some run has (1 + r) burst runs within the burst for one IP and second |
| `RedisSkew.KeyWindowBound` | internal/httpapi/middleware/ratelimit_redis.go:14-24 | with any clocks, one key lets at most (k + 1) burst runs through in any window of k seconds |
| `RedisSkew.DocumentedIff` | internal/httpapi/middleware/ratelimit_redis.go:26-34 | for every k >= 1, the bound of (k + 1) burst holds of every trace with clocks d ms off and every window of k seconds if and only if d = 0 or burst = 0 |
| `RedisLimiter.RedisServer.Script` | internal/httpapi/middleware/ratelimit_redis.go:18-24 | increments a live counter or starts one at 1 with a fresh expiry, and changes no other key |
| `RedisLimiter.RedisBackend.AllowRequest` | internal/httpapi/middleware/ratelimit_redis.go:49-58 | an error iff the server was not reached or the reply was lost, otherwise whether the count is within the burst; a lost reply has counted |
| `RedisLimiter.RedisBackend.Middleware` | internal/httpapi/middleware/ratelimit.go:57-75 | serves the request iff the server was not reached, the reply was lost, or the count is within the burst |
| `Tasks.AtomicIsolated` | internal/service/task_service.go:20-102 | a transaction for user u changes only rows of u, never an owner or creation time, and stores only valid statuses |
| `TaskProtocol.NextKeeps` | internal/service/task_service.go:79-102 | every event keeps: a call about to write read a row of its own user, and if a row with that id exists it is the same row |
| `TaskProtocol.StepIsAtomic` | internal/service/task_service.go:68-102 | at its linearization point (the SQL write, or the SELECT when it stops there) a call does and answers what one transaction would; no other event changes the table |
| `TaskProtocol.Linearizable` | internal/service/task_service.go:68-102 | every run has a history of transactions, one per call that took effect, whose replay gives the table and every answer |
| `TaskProtocol.RealTimeOrder` | internal/service/task_service.go:68-102 | a call that answered before another began comes before it in the history |
| `TaskProtocol.StepIsolated` | internal/repository/task_repository.go:112-142 | in every interleaving a step for user u changes, adds or deletes only rows of u, and statuses stay valid |
| `TaskProtocol.UntouchedByOthers` | internal/service/task_service.go:64-102 | over any stretch of a run without events for user u, the rows of u are exactly what they were |
| `TaskProtocol.RowIdentity` | internal/database/migrations/0001_init.sql:8-17 | an id keeps its owner and creation time in every later state in which the row exists |
| `TaskAnswers.EveryAnswerExplained` | internal/service/task_service.go:20-102 | in every run a task answered to a Create is the new pending row as asked for, to a Get the user's own row as read, to an Update the user's row with the four columns as asked for and its owner and creation time; Deleted means that the user's row and no other was removed; each refusal has its cause |
| `TaskAnswers.ReadIsolation` | internal/service/task_service.go:64-77 | in every run no call is ever answered with another user's task |
| `TaskAnswers.RefusedIff` | internal/service/task_service.go:68-102 | in every run a call that answers is Forbidden iff its SELECT found another user's row, NotFound iff its SELECT or its write found no row, invalid iff it is an Update that found a row of the user and asks for no existing status; there is no other refusal |
| `TaskAnswers.CallIsAPath` | internal/service/task_service.go:20-102 | from any state an uninterrupted call does and answers what the transaction would |
| `TaskAnswers.NeverStuck` | internal/service/task_service.go:20-102 | in every reachable state a call that has not ended has an event of its own that is not a crash, and can crash, which does not change the table |
| `TaskService.TaskRepository.Create` | internal/repository/task_repository.go:37-49 | adds one row under an unused id, stamped now |
| `TaskService.TaskRepository.FindByID` | internal/repository/task_repository.go:51-67 | the row, or NotFound |
| `TaskService.TaskRepository.Update` | internal/repository/task_repository.go:112-127 | sets four columns and updated_at of the row and keeps its owner and creation time, or NotFound |
| `TaskService.TaskRepository.Delete` | internal/repository/task_repository.go:129-142 | removes exactly the row, or says that there is none |
| `TaskService.TaskRepository.ListByUser` | internal/repository/task_repository.go:69-110 | the number of matching rows, and the rows that LIMIT and OFFSET cut out of the order chosen by the database, all of the user and of the status if one is given |
| `TaskService.TaskService.Create` | internal/service/task_service.go:20-29 | a pending task of the user under an unused id, as the transaction does |
| `TaskService.TaskService.Get` | internal/service/task_service.go:68-77 | the row if and only if it exists and belongs to the user, NotFound iff there is none, Forbidden iff it is another user's |
| `TaskService.TaskService.Update` | internal/service/task_service.go:79-95 | effect and answer of the update transaction, error cases in the same order |
| `TaskService.TaskService.Delete` | internal/service/task_service.go:97-102 | effect and answer of the delete transaction |
| `TaskService.TaskService.List` | internal/service/task_service.go:43-62 | the page under the clamped limit and offset, both returned, and the number of matches; every task is the user's and has the status if one is given |
| `TaskListing.EffectiveLimit` | internal/service/task_service.go:31-50 | the applied limit is between 1 and 100 whatever was asked for: as asked from 1 to 100, 100 above, 20 below |
| `TaskListing.TotalsAddUp` | internal/repository/task_repository.go:73-82 | on tables with valid statuses the totals under the three statuses add up to the total without a filter |
| `TaskListing.SameBeforeCut` | internal/repository/task_repository.go:87-89 | before a cut that no tie straddles every order that the database may choose has the same rows |
| `TaskListing.WalkIsListing` | internal/repository/task_repository.go:69-110 | if no tie straddles a page boundary, enough pages list every matching task once, newest first, even if each page is read under a different order |
| `TaskListing.StraddleRepeats` | internal/repository/task_repository.go:87-89 | if a tie straddles a page boundary, the database may return one task on both adjacent pages |
| `TaskListing.WalksPartitionIff` | internal/repository/task_repository.go:69-110 | all walks partition the matching tasks if and only if no tie straddles a page boundary |
| `TaskListing.ListingUnique` | internal/repository/task_repository.go:87-89 | with distinct creation times there is one newest-first order |
| `TaskListing.PagesPartition` | internal/service/task_service.go:43-62 | with distinct creation times the pages at 0, L, 2L, ... concatenate to that order, total is its length, and page k is empty iff k L >= total |
| `Seeder.WindowSound` | cmd/seed/main.go:51-62 | every window of five templates has five different titles and valid statuses |
| `Seeder.WindowsRotate` | cmd/seed/main.go:126-142 | the window at offset 0 is the first five templates, each next one drops the first and appends the following one, and after ten they come again |
| `Seeder.NeighboursShareFour` | cmd/seed/main.go:126-142 | users at neighbouring offsets share exactly four templates |
| `Seeder.CollectTitles` | cmd/seed/main.go:135-138 | the loop collects exactly the titles of the listed tasks |
| `Seeder.SeedOne` | cmd/seed/main.go:148-169 | unless its Create fails, adds one row with the template's title, description and due date and changes no other; the status is the template's unless the Create or the Update went wrong; counts iff the Create is reported as done |
| `Seeder.SeedWindow` | cmd/seed/main.go:140-172 | whatever fails, the loop adds one row per window title not seen whose Create did not fail, keeps all rows, and counts created and skipped as the source does |
| `Seeder.SeedTasksForUser` | cmd/seed/main.go:130-173 | the same for the window at the user's offset and the titles among the newest hundred tasks, or no titles when List fails |
| `Seeder.CountsAddUp` | cmd/seed/main.go:143-169 | every round is counted as created or skipped, or its Create went wrong; when none did, created is the number of titles inserted |
| `Seeder.NewRowsFollow` | cmd/seed/main.go:148-169 | after a run in which nothing failed every new row is the user's and has the title, description, status and kind of due date of one template of the window |
| `Seeder.WindowPresent` | cmd/seed/main.go:126-173 | after a run the user has a title of the window if and only if the user had it before or its Create did not fail |
| `Seeder.SeedIdempotent` | cmd/seed/main.go:126-173 | after a run in which no Create went wrong, and with at most 100 tasks then, a second run whose List succeeds creates 0, skips all five and changes no row |
| `Seeder.DuplicatesIff` | cmd/seed/main.go:130-159 | a run repeats a title that the user has if and only if some round inserts a title that is there but was not seen |
| `Seeder.RepeatedIff` | cmd/seed/main.go:130-159 | title by title: a run repeats a window title if and only if the user has it, it was not seen, and its Create does not fail |
| `Seeder.NoTitleTwice` | cmd/seed/main.go:130-145 | with at most 100 tasks to begin with and a List that succeeds no title is repeated, whatever else fails |
| `Seeder.NeverDuplicatesIff` | cmd/seed/main.go:126-145 | no run whose List succeeds repeats a title, under any order of ties, if and only if fewer than 100 of the user's tasks are ahead of the newest task of each window title that the user has: newer, or of its age with another title |
| `Seeder.AlwaysRepeatsIff` | cmd/seed/main.go:126-145 | every fault-free run repeats a window title that the user has if and only if at least 100 of the user's tasks are strictly newer than every task of that title |
| `Seeder.CrowdRepeats` | cmd/seed/main.go:126-145 | for every window title there is a table, one old task of it and a hundred newer ones, on which every fault-free run repeats it |

## Left out

- HTTP handlers, request and response types, router, CORS, headers, request ids, timeouts and body limits: each claim is settled by reading one branch.
- Access tokens (JWT), bcrypt, SHA-256, base64 and random bytes: foreign libraries, kept as arbitrary functions and values; that hashes do not collide is not claimed.
- SQL text, drivers, connection retry and migrations: each statement is one step on a table; foreign keys, deletion of users and its cascade are not modelled, since no modelled code deletes a user.
- The Redis client and network: a call reaches the script or not, and its reply arrives or not.
- Float and nanosecond rounding in rate.Limiter, and the second clock reading within one request.
- The choice of backend at startup and the parsing of client addresses: an address is an opaque key.
- Failing statements inside the repository and service objects: they are crash events in the two protocols, and the seed command is given the fate of each of its calls.
- getOrCreateUser of the seed command: Signup, and FindByEmail when the email is taken.
- The count and the page of a listing are two statements: they are modelled on one table that does not change between them, and List is not part of the concurrent task protocol.
- The in-memory stand-ins for the user and task repositories (internal/service/fakes_test.go:11-116): maps by id and email that only the unit tests use; they are not modelled.
- Configuration, logging, metrics, tracing, version, health probes, shutdown and deployment files.
