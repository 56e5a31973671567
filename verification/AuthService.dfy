/** The repositories and the authentication service as objects that change
    their tables statement by statement, one call at a time. */
module AuthService {
  import opened Common
  import opened RefreshTokens
  import opened AuthProtocol
  import opened AuthInvariant
  import opened TokenStores

  class RefreshTokenRepository {
    var rows: Table
    var nextId: int

    ghost function Store(): Sql reads this { Sql(rows, nextId) }

    ghost predicate Valid() reads this { SqlValid(Store()) }

    constructor ()
      ensures Valid() && rows == map[]
    {
      rows, nextId := map[], 1;
    }

    method Create(userId: int, hash: string, expiresAt: int) returns (r: Result<int>)
      requires Valid()
      modifies this
      ensures Valid() && (Store(), r.Ok?) == SqlCreate(old(Store()), userId, hash, expiresAt)
      ensures r == if HashFree(old(rows), hash) then Ok(old(nextId)) else Err(Internal)
    {
      var id := nextId;
      nextId := nextId + 1;
      if HashFree(rows, hash) {
        rows := rows[id := Token(userId, hash, expiresAt, None)];
        r := Ok(id);
      } else {
        r := Err(Internal);
      }
    }

    method FindByHash(hash: string) returns (r: Result<(int, Token)>)
      requires Valid()
      ensures match SqlFind(Store(), hash) case Some(found) => r == Ok(found) case None => r == Err(NotFound)
    {
      if id :| id in rows && rows[id].hash == hash {
        r := Ok((id, rows[id]));
      } else {
        r := Err(NotFound);
      }
    }

    method Revoke(id: int, now: int) returns (ok: bool)
      requires Valid()
      modifies this
      ensures Valid() && (Store(), ok) == SqlRevoke(old(Store()), id, now)
    {
      var affected := 0;
      if id in rows && rows[id].revokedAt.None? {
        rows := rows[id := rows[id].(revokedAt := Some(now))];
        affected := 1;
      }
      ok := affected != 0;
    }

    method RevokeAllForUser(userId: int, now: int)
      requires Valid()
      modifies this
      ensures Valid() && Store() == SqlRevokeAll(old(Store()), userId, now)
    {
      var before := rows;
      rows := map id | id in before ::
        var row := before[id];
        if row.userId == userId && row.revokedAt.None? then row.(revokedAt := Some(now)) else row;
      assert rows.Keys == before.Keys;
      assert forall id :: id in before ==> rows[id] == RevokeUser(before, userId, now)[id];
    }
  }

  /** The in-memory stand-in, with its loops over the map. */
  class FakeRefreshTokenRepository {
    var byHash: map<string, FakeRow>
    var lastId: int

    ghost function Store(): Fake reads this { Fake(byHash, lastId) }

    ghost predicate Valid() reads this { FakeValid(Store()) }

    constructor ()
      ensures Valid() && byHash == map[]
    {
      byHash, lastId := map[], 0;
    }

    method Create(userId: int, hash: string, expiresAt: int)
      requires Valid()
      modifies this
      ensures Valid() && Store() == FakeCreate(old(Store()), userId, hash, expiresAt).0
    {
      lastId := lastId + 1;
      byHash := byHash[hash := FakeRow(lastId, Token(userId, hash, expiresAt, None))];
    }

    method FindByHash(hash: string) returns (r: Result<(int, Token)>)
      requires Valid()
      ensures match FakeFind(Store(), hash)
              case Some(found) => r == Ok(found) && found.1.hash == hash
              case None => r == Err(NotFound)
    {
      if hash in byHash { r := Ok((byHash[hash].id, byHash[hash].token)); } else { r := Err(NotFound); }
    }

    method Revoke(id: int, now: int) returns (ok: bool)
      requires Valid()
      modifies this
      ensures Valid() && (Store(), ok) == FakeRevoke(old(Store()), id, now)
    {
      var rest := byHash.Keys;
      while rest != {}
        invariant rest <= byHash.Keys && Store() == old(Store())
        invariant forall h :: h in byHash && h !in rest ==> byHash[h].id != id
        decreases |rest|
      {
        var h :| h in rest;
        if byHash[h].id == id {
          byHash := byHash[h := RevokedAt(byHash[h], now)];
          assert byHash == FakeRevoke(old(Store()), id, now).0.byHash;
          return true;
        }
        rest := rest - {h};
      }
      assert byHash == FakeRevoke(old(Store()), id, now).0.byHash;
      ok := false;
    }

    method RevokeAllForUser(userId: int, now: int)
      requires Valid()
      modifies this
      ensures Valid() && Store() == FakeRevokeAll(old(Store()), userId, now)
    {
      var rest := byHash.Keys;
      ghost var done := FakeRevokeAll(old(Store()), userId, now).byHash;
      while rest != {}
        invariant rest <= byHash.Keys == old(byHash).Keys && lastId == old(lastId)
        invariant forall h :: h in byHash ==> byHash[h] == if h in rest then old(byHash)[h] else done[h]
        decreases |rest|
      {
        var h :| h in rest;
        var t := byHash[h];
        if t.token.userId == userId && t.token.revokedAt.None? {
          byHash := byHash[h := RevokedAt(t, now)];
        }
        rest := rest - {h};
      }
      assert byHash == done;
    }
  }

  class UserRepository {
    var rows: map<int, User>
    var nextId: int

    /** Emails are unique and ids come from the sequence. */
    ghost predicate Valid() reads this {
      && EmailsUnique(rows)
      && (forall id :: id in rows ==> id < nextId)
    }

    constructor ()
      ensures Valid() && rows == map[]
    {
      rows, nextId := map[], 1;
    }

    method Create(email: string, passwordHash: string) returns (r: Result<int>)
      requires Valid()
      modifies this
      ensures Valid()
      ensures if EmailTaken(old(rows), email)
              then r == Err(AlreadyExists) && rows == old(rows)
              else r == Ok(old(nextId)) && rows == old(rows)[old(nextId) := User(email, passwordHash)]
    {
      var id := nextId;
      nextId := nextId + 1;
      if EmailTaken(rows, email) {
        r := Err(AlreadyExists);
      } else {
        rows := rows[id := User(email, passwordHash)];
        r := Ok(id);
      }
    }

    method FindByEmail(email: string) returns (r: Result<int>)
      requires Valid()
      ensures if EmailTaken(rows, email) then r.Ok? && r.value in rows && rows[r.value].email == email
              else r == Err(NotFound)
    {
      if id :| id in rows && rows[id].email == email {
        r := Ok(id);
      } else {
        r := Err(NotFound);
      }
    }
  }

  class AuthService {
    const users: UserRepository
    const tokens: RefreshTokenRepository
    const env: Env

    ghost predicate Valid() reads users, tokens { users.Valid() && tokens.Valid() }

    constructor (users: UserRepository, tokens: RefreshTokenRepository, env: Env)
      requires users.Valid() && tokens.Valid()
      ensures Valid() && this.users == users && this.tokens == tokens && this.env == env
    {
      this.users, this.tokens, this.env := users, tokens, env;
    }

    method IssueTokenPair(userId: int, draw: Draw) returns (reply: Reply)
      requires Valid()
      modifies tokens
      ensures Valid() && (tokens.Store(), reply) == IssuePair(SqlRepo(), env, old(tokens.Store()), userId, draw)
    {
      var created := tokens.Create(userId, env.hash(draw.plaintext), draw.issuedAt + env.ttl);
      reply := if created.Ok? then Tokens(draw.plaintext) else Refused(created.error);
    }

    /** hashed is what bcrypt made of the password, if it could. A password that
        cannot be hashed and a taken email change nothing; otherwise there is one
        new user, who has this email and a hash that this password matches, and
        the reply is that of issuing a token to that user. */
    method Signup(email: string, password: string, hashed: Option<string>, draw: Draw) returns (reply: Reply)
      requires Valid() && (hashed.Some? ==> env.matches(hashed.value, password))
      modifies users, tokens
      ensures Valid()
      ensures hashed.None? || EmailTaken(old(users.rows), email) ==>
                && reply == Refused(if hashed.None? then Internal else AlreadyExists)
                && users.rows == old(users.rows) && tokens.Store() == old(tokens.Store())
      ensures hashed.Some? && !EmailTaken(old(users.rows), email) ==>
                var id := old(users.nextId);
                && id in users.rows && users.rows == old(users.rows)[id := users.rows[id]] && id !in old(users.rows)
                && users.rows[id].email == email && env.matches(users.rows[id].passwordHash, password)
                && (tokens.Store(), reply) == IssuePair(SqlRepo(), env, old(tokens.Store()), id, draw)
    {
      if hashed.None? { return Refused(Internal); }
      var user := users.Create(email, hashed.value);
      if user.Err? { return Refused(user.error); }
      reply := IssueTokenPair(user.value, draw);
    }

    /** An unknown email and a wrong password are answered alike, and change nothing. */
    method Login(email: string, password: string, draw: Draw) returns (reply: Reply)
      requires Valid()
      modifies tokens
      ensures Valid()
      ensures !EmailTaken(users.rows, email) ==>
                reply == Refused(InvalidCredentials) && tokens.Store() == old(tokens.Store())
      ensures forall u | u in users.rows && users.rows[u].email == email ::
                if env.matches(users.rows[u].passwordHash, password)
                then (tokens.Store(), reply) == IssuePair(SqlRepo(), env, old(tokens.Store()), u, draw)
                else reply == Refused(InvalidCredentials) && tokens.Store() == old(tokens.Store())
    {
      var user := users.FindByEmail(email);
      if user.Err? { return Refused(InvalidCredentials); }
      assert forall u :: u in users.rows && users.rows[u].email == email ==> u == user.value;
      if !env.matches(users.rows[user.value].passwordHash, password) { return Refused(InvalidCredentials); }
      reply := IssueTokenPair(user.value, draw);
    }

    method Refresh(plaintext: string, draw: Draw) returns (reply: Reply)
      requires Valid()
      modifies tokens
      ensures Valid() && (tokens.Store(), reply) == RefreshCall(SqlRepo(), env, old(tokens.Store()), plaintext, draw)
    {
      var existing := tokens.FindByHash(env.hash(plaintext));
      if existing.Err? { return Refused(TokenInvalid); }
      var (id, row) := existing.value;
      if row.revokedAt.Some? {
        tokens.RevokeAllForUser(row.userId, draw.revokedAt);
        return Refused(TokenInvalid);
      }
      if draw.checkedAt > row.expiresAt { return Refused(TokenInvalid); }
      var ok := tokens.Revoke(id, draw.revokedAt);
      if !ok { return Refused(NotFound); }
      reply := IssueTokenPair(row.userId, draw);
    }

    method Logout(plaintext: string, draw: Draw) returns (reply: Reply)
      requires Valid()
      modifies tokens
      ensures Valid() && (tokens.Store(), reply) == LogoutCall(SqlRepo(), env, old(tokens.Store()), plaintext, draw)
    {
      var existing := tokens.FindByHash(env.hash(plaintext));
      if existing.Err? { return Refused(TokenInvalid); }
      var (id, row) := existing.value;
      if row.revokedAt.Some? { return Ended; }
      var ok := tokens.Revoke(id, draw.revokedAt);
      reply := if ok then Ended else Refused(NotFound);
    }
  }

  // ----------------------- an uninterrupted call is a run of the protocol

  ghost predicate SameAnswer(o: Outcome, reply: Reply) {
    match o
    case Pair(_) => reply.Tokens?
    case LoggedOut => reply.Ended?
    case Failed(err) => reply == Refused(err)
  }

  /** From any state the protocol can take the events of a Refresh or Logout in
      a row, and then ends with the table and the answer of the sequential call. */
  ghost predicate Realizes(env: Env, s: State, c: int, b: seq<State>, evs: seq<Event>, rows: Table, reply: Reply) {
    && IsPath(env, b, evs) && b[0] == s
    && (forall i :: 0 <= i < |evs| ==> evs[i].c == c)
    && var last := b[|evs|];
       last.tokens == rows && c in last.calls && last.calls[c].pc.Done? && SameAnswer(last.calls[c].pc.outcome, reply)
  }

  /** Adding the final return to a path. */
  lemma Finish(env: Env, s: State, c: int, b: seq<State>, evs: seq<Event>, reply: Reply)
      returns (b': seq<State>, evs': seq<Event>)
    requires IsPath(env, b, evs) && b[0] == s && forall i :: 0 <= i < |evs| ==> evs[i].c == c
    requires c in b[|evs|].calls && b[|evs|].calls[c].pc.Returning? && SameAnswer(b[|evs|].calls[c].pc.outcome, reply)
    ensures Realizes(env, s, c, b', evs', b[|evs|].tokens, reply)
  {
    b', evs' := Extend(env, b, evs, Return(c));
  }

  /** Begin, FindByHash and the local checks. */
  lemma Opening(env: Env, s: State, c: int, call: Call, id: int, now: int) returns (b: seq<State>, evs: seq<Event>)
    requires c !in s.calls && (call.Refresh? || call.Logout?)
    requires id in s.tokens && s.tokens[id].hash == env.hash(call.plaintext)
    ensures IsPath(env, b, evs) && b[0] == s && forall i :: 0 <= i < |evs| ==> evs[i].c == c
    ensures b[|evs|] == s.(calls := s.calls[c := Progress(call, AfterCheck(call, id, s.tokens[id], now))])
  {
    evs := [Begin(c, call), FindToken(c, Some(id)), CheckToken(c, now)];
    var s1 := Next(env, s, evs[0]);
    var s2 := Next(env, s1, evs[1]);
    b := [s, s1, s2, Next(env, s2, evs[2])];
    assert b[3].calls == s.calls[c := Progress(call, AfterCheck(call, id, s.tokens[id], now))];
  }

  /** Begin and a lookup that finds nothing. */
  lemma UnknownIsAPath(env: Env, s: State, c: int, call: Call) returns (b: seq<State>, evs: seq<Event>)
    requires c !in s.calls && (call.Refresh? || call.Logout?) && HashFree(s.tokens, env.hash(call.plaintext))
    ensures Realizes(env, s, c, b, evs, s.tokens, Refused(TokenInvalid))
  {
    evs := [Begin(c, call), FindToken(c, None)];
    var s1 := Next(env, s, evs[0]);
    b := [s, s1, Next(env, s1, evs[1])];
    b, evs := Finish(env, s, c, b, evs, Refused(TokenInvalid));
  }

  /** A Refresh that nothing interrupts is a run of the protocol. */
  lemma RefreshIsAPath(env: Env, s: State, nextId: int, c: int, plaintext: string, draw: Draw)
      returns (b: seq<State>, evs: seq<Event>)
    requires SqlValid(Sql(s.tokens, nextId)) && c !in s.calls
    ensures var (after, reply) := RefreshCall(SqlRepo(), env, Sql(s.tokens, nextId), plaintext, draw);
            Realizes(env, s, c, b, evs, after.rows, reply)
  {
    if id :| id in s.tokens && s.tokens[id].hash == env.hash(plaintext) {
      b, evs := KnownRefresh(env, s, nextId, c, plaintext, draw, id);
    } else {
      b, evs := UnknownIsAPath(env, s, c, Refresh(plaintext));
    }
  }

  lemma KnownRefresh(env: Env, s: State, nextId: int, c: int, plaintext: string, draw: Draw, id: int)
      returns (b: seq<State>, evs: seq<Event>)
    requires SqlValid(Sql(s.tokens, nextId)) && c !in s.calls
    requires id in s.tokens && s.tokens[id].hash == env.hash(plaintext)
    ensures var (after, reply) := RefreshCall(SqlRepo(), env, Sql(s.tokens, nextId), plaintext, draw);
            Realizes(env, s, c, b, evs, after.rows, reply)
  {
    var store := Sql(s.tokens, nextId);
    assert SqlFind(store, env.hash(plaintext)) == Some((id, s.tokens[id]));
    var reply := RefreshCall(SqlRepo(), env, store, plaintext, draw).1;
    b, evs := Opening(env, s, c, Refresh(plaintext), id, draw.checkedAt);
    var pc := b[|evs|].calls[c].pc;
    if pc.RevokingAll? {
      b, evs := Extend(env, b, evs, RevokeAll(c, draw.revokedAt));
    } else if pc.Revoking? {
      b, evs := Exchange(env, b, evs, c, nextId, draw);
    }
    b, evs := Finish(env, s, c, b, evs, reply);
  }

  /** The conditional UPDATE on a live row, and the INSERT. */
  lemma Exchange(env: Env, b: seq<State>, evs: seq<Event>, c: int, nextId: int, draw: Draw)
      returns (b': seq<State>, evs': seq<Event>)
    requires IsPath(env, b, evs) && forall i :: 0 <= i < |evs| ==> evs[i].c == c
    requires var s := b[|evs|];
             && c in s.calls && s.calls[c].call.Refresh? && s.calls[c].pc.Revoking?
             && RowIsLive(s.tokens, s.calls[c].pc.id) && nextId !in s.tokens
    ensures IsPath(env, b', evs') && b'[0] == b[0] && forall i :: 0 <= i < |evs'| ==> evs'[i].c == c
    ensures var s, s' := b[|evs|], b'[|evs'|];
            var revoked := RevokeRow(s.tokens, s.calls[c].pc.id, draw.revokedAt);
            var hash := env.hash(draw.plaintext);
            && c in s'.calls && s'.calls[c].pc.Returning?
            && if HashFree(revoked, hash)
               then s'.tokens == revoked[nextId := Token(s.calls[c].pc.userId, hash, draw.issuedAt + env.ttl, None)]
                    && s'.calls[c].pc.outcome == Pair(nextId)
               else s'.tokens == revoked && s'.calls[c].pc.outcome == Failed(Internal)
  {
    b', evs' := Extend(env, b, evs, Revoke(c, draw.revokedAt));
    b', evs' := Extend(env, b', evs', InsertToken(c, nextId, draw.plaintext, draw.issuedAt));
  }

  /** A Logout that nothing interrupts is a run of the protocol. */
  lemma LogoutIsAPath(env: Env, s: State, nextId: int, c: int, plaintext: string, draw: Draw)
      returns (b: seq<State>, evs: seq<Event>)
    requires SqlValid(Sql(s.tokens, nextId)) && c !in s.calls
    ensures var (after, reply) := LogoutCall(SqlRepo(), env, Sql(s.tokens, nextId), plaintext, draw);
            Realizes(env, s, c, b, evs, after.rows, reply)
  {
    if id :| id in s.tokens && s.tokens[id].hash == env.hash(plaintext) {
      b, evs := KnownLogout(env, s, nextId, c, plaintext, draw, id);
    } else {
      b, evs := UnknownIsAPath(env, s, c, Logout(plaintext));
    }
  }

  lemma KnownLogout(env: Env, s: State, nextId: int, c: int, plaintext: string, draw: Draw, id: int)
      returns (b: seq<State>, evs: seq<Event>)
    requires SqlValid(Sql(s.tokens, nextId)) && c !in s.calls
    requires id in s.tokens && s.tokens[id].hash == env.hash(plaintext)
    ensures var (after, reply) := LogoutCall(SqlRepo(), env, Sql(s.tokens, nextId), plaintext, draw);
            Realizes(env, s, c, b, evs, after.rows, reply)
  {
    var store := Sql(s.tokens, nextId);
    assert SqlFind(store, env.hash(plaintext)) == Some((id, s.tokens[id]));
    b, evs := Opening(env, s, c, Logout(plaintext), id, draw.checkedAt);
    if b[|evs|].calls[c].pc.Revoking? {
      b, evs := Extend(env, b, evs, Revoke(c, draw.revokedAt));
    }
    b, evs := Finish(env, s, c, b, evs, LogoutCall(SqlRepo(), env, store, plaintext, draw).1);
  }
}
