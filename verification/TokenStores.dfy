/** The RefreshTokenRepository interface, its SQL and in-memory forms, and the
    service calls written against the interface, each run without interruption. */
module TokenStores {
  import opened Common
  import opened RefreshTokens
  import opened AuthProtocol

  /** The interface: Create, FindByHash, Revoke and RevokeAllForUser over a store S.
      The booleans say whether the call returned without an error. */
  datatype Repo<!S> = Repo(
    create: (S, int, string, int) -> (S, bool),
    find: (S, string) -> Option<(int, Token)>,
    revoke: (S, int, int) -> (S, bool),
    revokeAll: (S, int, int) -> S)

  // ------------------------------------------------------------- SQL form

  /** The table and the next value of its id sequence. */
  datatype Sql = Sql(rows: Table, nextId: int)

  ghost predicate SqlValid(s: Sql) {
    UniqueHashes(s.rows) && forall id :: id in s.rows ==> id < s.nextId
  }

  /** A failed INSERT consumes an id all the same. */
  function SqlCreate(s: Sql, userId: int, hash: string, expiresAt: int): (Sql, bool) {
    if HashFree(s.rows, hash)
    then (Sql(s.rows[s.nextId := Token(userId, hash, expiresAt, None)], s.nextId + 1), true)
    else (s.(nextId := s.nextId + 1), false)
  }

  ghost function SqlFind(s: Sql, hash: string): Option<(int, Token)> {
    if HashFree(s.rows, hash) then None
    else var id :| id in s.rows && s.rows[id].hash == hash; Some((id, s.rows[id]))
  }

  function SqlRevoke(s: Sql, id: int, now: int): (Sql, bool) {
    (s.(rows := RevokeRow(s.rows, id, now)), RowIsLive(s.rows, id))
  }

  function SqlRevokeAll(s: Sql, userId: int, now: int): Sql {
    s.(rows := RevokeUser(s.rows, userId, now))
  }

  ghost function SqlRepo(): Repo<Sql> { Repo(SqlCreate, SqlFind, SqlRevoke, SqlRevokeAll) }

  // ------------------------------------------------------- in-memory form

  datatype FakeRow = FakeRow(id: int, token: Token)

  /** Rows keyed by hash, and the last id handed out. */
  datatype Fake = Fake(byHash: map<string, FakeRow>, lastId: int)

  ghost predicate FakeValid(f: Fake) {
    && (forall h :: h in f.byHash ==> f.byHash[h].id <= f.lastId && f.byHash[h].token.hash == h)
    && (forall h, k :: h in f.byHash && k in f.byHash && f.byHash[h].id == f.byHash[k].id ==> h == k)
  }

  /** No uniqueness check: a duplicate hash replaces the row. */
  function FakeCreate(f: Fake, userId: int, hash: string, expiresAt: int): (Fake, bool) {
    (Fake(f.byHash[hash := FakeRow(f.lastId + 1, Token(userId, hash, expiresAt, None))], f.lastId + 1), true)
  }

  function FakeFind(f: Fake, hash: string): Option<(int, Token)> {
    if hash in f.byHash then Some((f.byHash[hash].id, f.byHash[hash].token)) else None
  }

  function RevokedAt(r: FakeRow, now: int): FakeRow { r.(token := r.token.(revokedAt := Some(now))) }

  predicate HasId(f: Fake, id: int) { exists h :: h in f.byHash && f.byHash[h].id == id }

  /** No "revoked_at IS NULL" guard: a revoked row is revoked again. */
  function FakeRevoke(f: Fake, id: int, now: int): (Fake, bool) {
    (f.(byHash := map h | h in f.byHash :: if f.byHash[h].id == id then RevokedAt(f.byHash[h], now) else f.byHash[h]),
     HasId(f, id))
  }

  function FakeRevokeAll(f: Fake, userId: int, now: int): Fake {
    f.(byHash := map h | h in f.byHash ::
         var row := f.byHash[h];
         if row.token.userId == userId && Live(row.token) then RevokedAt(row, now) else row)
  }

  ghost function FakeRepo(): Repo<Fake> { Repo(FakeCreate, FakeFind, FakeRevoke, FakeRevokeAll) }

  // -------------------------------------------------------- service calls

  /** What the caller of a service call sees. */
  datatype Reply = Tokens(plaintext: string) | Ended | Refused(error: Error)

  /** The clock readings and the random plaintext that one call draws. */
  datatype Draw = Draw(checkedAt: int, revokedAt: int, issuedAt: int, plaintext: string)

  ghost function IssuePair<S>(repo: Repo<S>, env: Env, s: S, userId: int, draw: Draw): (S, Reply) {
    var (s', ok) := repo.create(s, userId, env.hash(draw.plaintext), draw.issuedAt + env.ttl);
    (s', if ok then Tokens(draw.plaintext) else Refused(Internal))
  }

  ghost function RefreshCall<S>(repo: Repo<S>, env: Env, s: S, plaintext: string, draw: Draw): (S, Reply) {
    match repo.find(s, env.hash(plaintext))
    case None => (s, Refused(TokenInvalid))
    case Some((id, row)) =>
      if !Live(row) then (repo.revokeAll(s, row.userId, draw.revokedAt), Refused(TokenInvalid))
      else if draw.checkedAt > row.expiresAt then (s, Refused(TokenInvalid))
      else
        var (s1, ok) := repo.revoke(s, id, draw.revokedAt);
        if ok then IssuePair(repo, env, s1, row.userId, draw) else (s1, Refused(NotFound))
  }

  ghost function LogoutCall<S>(repo: Repo<S>, env: Env, s: S, plaintext: string, draw: Draw): (S, Reply) {
    match repo.find(s, env.hash(plaintext))
    case None => (s, Refused(TokenInvalid))
    case Some((id, row)) =>
      if !Live(row) then (s, Ended)
      else
        var (s1, ok) := repo.revoke(s, id, draw.revokedAt);
        (s1, if ok then Ended else Refused(NotFound))
  }

  /** A request that reaches the token store; SignedIn is a Signup or Login whose
      user has been established. */
  datatype Request = SignedIn(userId: int) | RefreshWith(plaintext: string) | LogoutWith(plaintext: string)

  ghost function Serve<S>(repo: Repo<S>, env: Env, s: S, r: Request, draw: Draw): (S, Reply) {
    match r
    case SignedIn(u) => IssuePair(repo, env, s, u, draw)
    case RefreshWith(p) => RefreshCall(repo, env, s, p, draw)
    case LogoutWith(p) => LogoutCall(repo, env, s, p, draw)
  }

  // ------------------------------------------- what the SQL form answers

  /** The id of the row with this hash. */
  ghost predicate IsRow(s: Sql, env: Env, plaintext: string, id: int) {
    id in s.rows && s.rows[id].hash == env.hash(plaintext)
  }

  /** An unknown token is refused and nothing changes. */
  lemma RefreshUnknown(env: Env, s: Sql, plaintext: string, draw: Draw)
    requires HashFree(s.rows, env.hash(plaintext))
    ensures RefreshCall(SqlRepo(), env, s, plaintext, draw) == (s, Refused(TokenInvalid))
    ensures LogoutCall(SqlRepo(), env, s, plaintext, draw) == (s, Refused(TokenInvalid))
  {
  }

  /** Refresh of a stored token: a revoked one costs the user every session and
      no one else anything; an expired one is refused and nothing changes; any
      other is revoked and replaced by one live row of the same user. The answer
      is never NotFound. */
  lemma RefreshKnown(env: Env, s: Sql, plaintext: string, draw: Draw, id: int)
    requires SqlValid(s) && IsRow(s, env, plaintext, id)
    ensures var (s', reply) := RefreshCall(SqlRepo(), env, s, plaintext, draw);
            var row := s.rows[id];
            && SqlValid(s')
            && (!Live(row) ==>
                  && reply == Refused(TokenInvalid) && s'.rows.Keys == s.rows.Keys
                  && forall t :: t in s.rows ==>
                       s'.rows[t] == if s.rows[t].userId == row.userId && Live(s.rows[t])
                                     then s.rows[t].(revokedAt := Some(draw.revokedAt)) else s.rows[t])
            && (Live(row) && draw.checkedAt > row.expiresAt ==> reply == Refused(TokenInvalid) && s' == s)
            && (Live(row) && draw.checkedAt <= row.expiresAt ==>
                  var used := s.rows[id := row.(revokedAt := Some(draw.revokedAt))];
                  if HashFree(s.rows, env.hash(draw.plaintext)) then
                    && reply == Tokens(draw.plaintext) && s.nextId !in s.rows
                    && var next := Token(row.userId, env.hash(draw.plaintext), draw.issuedAt + env.ttl, None);
                       s'.rows == used[s.nextId := next]
                  else reply == Refused(Internal) && s'.rows == used)
  {
    assert SqlFind(s, env.hash(plaintext)) == Some((id, s.rows[id]));
    RevokeKeepsHashes(s.rows, id, draw.revokedAt, env.hash(draw.plaintext));
  }

  /** Revoking a row frees no hash. */
  lemma RevokeKeepsHashes(rows: Table, id: int, now: int, hash: string)
    ensures HashFree(RevokeRow(rows, id, now), hash) <==> HashFree(rows, hash)
  {
    if t :| t in rows && rows[t].hash == hash {
      assert RevokeRow(rows, id, now)[t].hash == hash;
    }
  }

  /** Logout revokes the presented row and touches no other; a second Logout
      succeeds and changes nothing. */
  lemma LogoutIdempotent(env: Env, s: Sql, plaintext: string, draw: Draw, again: Draw, id: int)
    requires SqlValid(s) && IsRow(s, env, plaintext, id)
    ensures var (s', reply) := LogoutCall(SqlRepo(), env, s, plaintext, draw);
            && reply == Ended && SqlValid(s') && s'.nextId == s.nextId
            && (Live(s.rows[id]) ==> s'.rows == s.rows[id := s.rows[id].(revokedAt := Some(draw.revokedAt))])
            && (!Live(s.rows[id]) ==> s'.rows == s.rows)
            && LogoutCall(SqlRepo(), env, s', plaintext, again) == (s', Ended)
  {
    assert SqlFind(s, env.hash(plaintext)) == Some((id, s.rows[id]));
    var s' := LogoutCall(SqlRepo(), env, s, plaintext, draw).0;
    assert SqlFind(s', env.hash(plaintext)) == Some((id, s'.rows[id]));
  }

  /** The whole reuse story: a token is rotated, the old one is replayed, and
      then the rotated one is dead too. */
  lemma ReplayKillsSession(env: Env, s: Sql, plaintext: string, draw: Draw, replay: Draw, later: Draw, id: int)
    requires SqlValid(s) && IsRow(s, env, plaintext, id) && Live(s.rows[id]) && draw.checkedAt <= s.rows[id].expiresAt
    requires HashFree(s.rows, env.hash(draw.plaintext))
    ensures var s1 := RefreshCall(SqlRepo(), env, s, plaintext, draw).0;
            var (s2, replayed) := RefreshCall(SqlRepo(), env, s1, plaintext, replay);
            && replayed == Refused(TokenInvalid)
            && RefreshCall(SqlRepo(), env, s2, draw.plaintext, later).1 == Refused(TokenInvalid)
  {
    RefreshKnown(env, s, plaintext, draw, id);
    var s1 := RefreshCall(SqlRepo(), env, s, plaintext, draw).0;
    assert IsRow(s1, env, plaintext, id);
    RefreshKnown(env, s1, plaintext, replay, id);
    var s2 := RefreshCall(SqlRepo(), env, s1, plaintext, replay).0;
    assert IsRow(s2, env, draw.plaintext, s.nextId);
    RefreshKnown(env, s2, draw.plaintext, later, s.nextId);
  }

  // ------------------------------------- the two forms agree sequentially

  /** Both stores hold the same tokens; ids may differ. */
  ghost predicate Agree(s: Sql, f: Fake) {
    && SqlValid(s) && FakeValid(f)
    && (forall id :: id in s.rows ==> s.rows[id].hash in f.byHash && f.byHash[s.rows[id].hash].token == s.rows[id])
    && (forall h :: h in f.byHash ==> !HashFree(s.rows, h))
  }

  lemma FindAgrees(s: Sql, f: Fake, hash: string)
    requires Agree(s, f)
    ensures SqlFind(s, hash).None? <==> FakeFind(f, hash).None?
    ensures SqlFind(s, hash).Some? ==>
              && SqlFind(s, hash).value.1 == FakeFind(f, hash).value.1 && SqlFind(s, hash).value.1.hash == hash
              && SqlFind(s, hash).value.0 in s.rows && s.rows[SqlFind(s, hash).value.0].hash == hash
  {
  }

  lemma CreateAgrees(s: Sql, f: Fake, userId: int, hash: string, expiresAt: int)
    requires Agree(s, f) && HashFree(s.rows, hash)
    ensures SqlCreate(s, userId, hash, expiresAt).1 == FakeCreate(f, userId, hash, expiresAt).1
    ensures Agree(SqlCreate(s, userId, hash, expiresAt).0, FakeCreate(f, userId, hash, expiresAt).0)
  {
    var s', f' := SqlCreate(s, userId, hash, expiresAt).0, FakeCreate(f, userId, hash, expiresAt).0;
    forall h | h in f'.byHash ensures !HashFree(s'.rows, h) {
      if h == hash {
        assert s'.rows[s.nextId].hash == h;
      } else {
        var id :| id in s.rows && s.rows[id].hash == h;
        assert s'.rows[id].hash == h;
      }
    }
    forall h | h in f.byHash ensures h != hash {
      var id :| id in s.rows && s.rows[id].hash == h;
    }
  }

  lemma SameHashes(s: Sql, s': Sql, f: Fake, f': Fake)
    requires forall h :: h in f.byHash ==> !HashFree(s.rows, h)
    requires s'.rows.Keys == s.rows.Keys && f'.byHash.Keys == f.byHash.Keys
    requires forall id :: id in s.rows ==> s'.rows[id].hash == s.rows[id].hash
    ensures forall h :: h in f'.byHash ==> !HashFree(s'.rows, h)
  {
    forall h | h in f'.byHash ensures !HashFree(s'.rows, h) {
      var id :| id in s.rows && s.rows[id].hash == h;
      assert s'.rows[id].hash == h;
    }
  }

  /** The guard makes no difference on a row that is live. */
  lemma RevokeAgrees(s: Sql, f: Fake, id: int, now: int)
    requires Agree(s, f) && id in s.rows && Live(s.rows[id])
    ensures var fid := f.byHash[s.rows[id].hash].id;
            && SqlRevoke(s, id, now).1 && FakeRevoke(f, fid, now).1
            && Agree(SqlRevoke(s, id, now).0, FakeRevoke(f, fid, now).0)
  {
    var fid := f.byHash[s.rows[id].hash].id;
    SameHashes(s, SqlRevoke(s, id, now).0, f, FakeRevoke(f, fid, now).0);
  }

  /** On a stored row the two Revoke forms answer alike exactly when it is live. */
  lemma RevokeDiffersOnRevoked(s: Sql, f: Fake, id: int, now: int)
    requires Agree(s, f) && id in s.rows
    ensures SqlRevoke(s, id, now).1 == FakeRevoke(f, f.byHash[s.rows[id].hash].id, now).1 <==> Live(s.rows[id])
  {
    assert HasId(f, f.byHash[s.rows[id].hash].id);
  }

  /** And they agree afterwards exactly when it is live or was revoked at that very
      moment: the unguarded form overwrites the time of revocation. */
  lemma RevokeDivergesIff(s: Sql, f: Fake, id: int, now: int)
    requires Agree(s, f) && id in s.rows
    ensures Agree(SqlRevoke(s, id, now).0, FakeRevoke(f, f.byHash[s.rows[id].hash].id, now).0)
            <==> Live(s.rows[id]) || s.rows[id].revokedAt == Some(now)
  {
    var hash := s.rows[id].hash;
    var s', f' := SqlRevoke(s, id, now).0, FakeRevoke(f, f.byHash[hash].id, now).0;
    assert f'.byHash[hash].token == s.rows[id].(revokedAt := Some(now));
    if Live(s.rows[id]) {
      RevokeAgrees(s, f, id, now);
    } else {
      assert s' == s;
      if s.rows[id].revokedAt == Some(now) { assert f' == f; }
    }
  }

  /** A stored hash: the SQL form refuses it and keeps the row, the in-memory form
      replaces the token. */
  lemma CreateDiffersOnStored(s: Sql, f: Fake, userId: int, hash: string, expiresAt: int)
    requires Agree(s, f) && !HashFree(s.rows, hash)
    ensures !SqlCreate(s, userId, hash, expiresAt).1 && SqlCreate(s, userId, hash, expiresAt).0.rows == s.rows
    ensures var (f', ok) := FakeCreate(f, userId, hash, expiresAt);
            && ok && f'.byHash.Keys == f.byHash.Keys && hash in f'.byHash
            && f'.byHash[hash].token == Token(userId, hash, expiresAt, None)
  {
    FindAgrees(s, f, hash);
  }

  lemma RevokeAllAgrees(s: Sql, f: Fake, userId: int, now: int)
    requires Agree(s, f)
    ensures Agree(SqlRevokeAll(s, userId, now), FakeRevokeAll(f, userId, now))
  {
    SameHashes(s, SqlRevokeAll(s, userId, now), f, FakeRevokeAll(f, userId, now));
  }

  /** Revoke then issue, on a live row. */
  lemma ExchangeAgrees(env: Env, s: Sql, f: Fake, id: int, draw: Draw)
    requires Agree(s, f) && HashFree(s.rows, env.hash(draw.plaintext)) && id in s.rows && Live(s.rows[id])
    ensures var s1 := SqlRevoke(s, id, draw.revokedAt).0;
            var f1 := FakeRevoke(f, f.byHash[s.rows[id].hash].id, draw.revokedAt).0;
            var u := s.rows[id].userId;
            && IssuePair(SqlRepo(), env, s1, u, draw).1 == IssuePair(FakeRepo(), env, f1, u, draw).1
            && Agree(IssuePair(SqlRepo(), env, s1, u, draw).0, IssuePair(FakeRepo(), env, f1, u, draw).0)
  {
    RevokeAgrees(s, f, id, draw.revokedAt);
    RevokeKeepsHashes(s.rows, id, draw.revokedAt, env.hash(draw.plaintext));
    CreateAgrees(SqlRevoke(s, id, draw.revokedAt).0, FakeRevoke(f, f.byHash[s.rows[id].hash].id, draw.revokedAt).0,
                 s.rows[id].userId, env.hash(draw.plaintext), draw.issuedAt + env.ttl);
  }

  lemma RefreshAgrees(env: Env, s: Sql, f: Fake, plaintext: string, draw: Draw)
    requires Agree(s, f) && HashFree(s.rows, env.hash(draw.plaintext))
    ensures RefreshCall(SqlRepo(), env, s, plaintext, draw).1 == RefreshCall(FakeRepo(), env, f, plaintext, draw).1
    ensures Agree(RefreshCall(SqlRepo(), env, s, plaintext, draw).0, RefreshCall(FakeRepo(), env, f, plaintext, draw).0)
  {
    FindAgrees(s, f, env.hash(plaintext));
    if SqlFind(s, env.hash(plaintext)).Some? {
      var (id, row) := SqlFind(s, env.hash(plaintext)).value;
      if !Live(row) {
        RevokeAllAgrees(s, f, row.userId, draw.revokedAt);
      } else if draw.checkedAt <= row.expiresAt {
        assert HasId(f, f.byHash[row.hash].id);
        ExchangeAgrees(env, s, f, id, draw);
      }
    }
  }

  lemma LogoutAgrees(env: Env, s: Sql, f: Fake, plaintext: string, draw: Draw)
    requires Agree(s, f)
    ensures LogoutCall(SqlRepo(), env, s, plaintext, draw).1 == LogoutCall(FakeRepo(), env, f, plaintext, draw).1
    ensures Agree(LogoutCall(SqlRepo(), env, s, plaintext, draw).0, LogoutCall(FakeRepo(), env, f, plaintext, draw).0)
  {
    FindAgrees(s, f, env.hash(plaintext));
    if SqlFind(s, env.hash(plaintext)).Some? && Live(SqlFind(s, env.hash(plaintext)).value.1) {
      RevokeAgrees(s, f, SqlFind(s, env.hash(plaintext)).value.0, draw.revokedAt);
    }
  }

  /** One request: same answer, and the stores still agree. */
  lemma ServeAgrees(env: Env, s: Sql, f: Fake, r: Request, draw: Draw)
    requires Agree(s, f) && HashFree(s.rows, env.hash(draw.plaintext))
    ensures Serve(SqlRepo(), env, s, r, draw).1 == Serve(FakeRepo(), env, f, r, draw).1
    ensures Agree(Serve(SqlRepo(), env, s, r, draw).0, Serve(FakeRepo(), env, f, r, draw).0)
  {
    match r
    case SignedIn(u) => CreateAgrees(s, f, u, env.hash(draw.plaintext), draw.issuedAt + env.ttl);
    case RefreshWith(p) => RefreshAgrees(env, s, f, p, draw);
    case LogoutWith(p) => LogoutAgrees(env, s, f, p, draw);
  }

  /** The replies to a sequence of requests, one after the other. */
  ghost function Replies<S>(repo: Repo<S>, env: Env, s: S, rs: seq<(Request, Draw)>): seq<Reply>
    decreases |rs|
  {
    if rs == [] then [] else
    var (s', reply) := Serve(repo, env, s, rs[0].0, rs[0].1);
    [reply] + Replies(repo, env, s', rs[1..])
  }

  /** Every plaintext drawn has a hash that is not stored yet. */
  ghost predicate FreshDraws(env: Env, s: Sql, rs: seq<(Request, Draw)>)
    decreases |rs|
  {
    rs != [] ==>
      && HashFree(s.rows, env.hash(rs[0].1.plaintext))
      && FreshDraws(env, Serve(SqlRepo(), env, s, rs[0].0, rs[0].1).0, rs[1..])
  }

  /** No sequential client can tell the in-memory store from the SQL one. */
  lemma {:induction false} FakeIsFaithful(env: Env, s: Sql, f: Fake, rs: seq<(Request, Draw)>)
    requires Agree(s, f) && FreshDraws(env, s, rs)
    ensures Replies(SqlRepo(), env, s, rs) == Replies(FakeRepo(), env, f, rs)
    decreases |rs|
  {
    if rs != [] {
      ServeAgrees(env, s, f, rs[0].0, rs[0].1);
      FakeIsFaithful(env, Serve(SqlRepo(), env, s, rs[0].0, rs[0].1).0,
                     Serve(FakeRepo(), env, f, rs[0].0, rs[0].1).0, rs[1..]);
    }
  }
}
