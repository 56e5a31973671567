/** Two calls that present the same token at the same time: constructed
    interleavings, and what can bring an old chain back to life. */
module AuthRace {
  import opened Common
  import opened RefreshTokens
  import opened AuthProtocol
  import opened AuthInvariant
  import opened AuthRotation
  import opened AuthReuse
  import opened TokenStores
  import opened AuthService

  /** Both calls have read the row as live and are about to revoke it. */
  ghost predicate AtTheGate(s: State, c: int, d: int, id: int) {
    && c != d && c in s.calls && d in s.calls && s.calls[c].call.Refresh?
    && (s.calls[d].call.Refresh? || s.calls[d].call.Logout?)
    && RowIsLive(s.tokens, id)
    && s.calls[c].pc == Revoking(id, s.tokens[id].userId) && s.calls[d].pc == Revoking(id, s.tokens[id].userId)
  }

  /** The conditional UPDATE lets the first one through and stops the second one. */
  lemma Settle(env: Env, s: State, c: int, d: int, id: int, newId: int, draw: Draw)
      returns (b: seq<State>, evs: seq<Event>)
    requires AtTheGate(s, c, d, id) && newId !in s.tokens && HashFree(s.tokens, env.hash(draw.plaintext))
    ensures IsPath(env, b, evs) && b[0] == s
    ensures Settled(env, s, b[|evs|], c, d, id, newId, draw)
  {
    RevokeKeepsHashes(s.tokens, id, draw.revokedAt, env.hash(draw.plaintext));
    evs := [Revoke(c, draw.revokedAt), Revoke(d, draw.revokedAt), InsertToken(c, newId, draw.plaintext, draw.issuedAt)];
    var s1 := Next(env, s, evs[0]);
    var s2 := Next(env, s1, evs[1]);
    b := [s, s1, s2, Next(env, s2, evs[2])];
  }

  /** One pair, one NotFound; the table shows one exchange and nothing else. */
  ghost predicate Settled(env: Env, s: State, s': State, c: int, d: int, id: int, newId: int, draw: Draw)
    requires id in s.tokens
  {
    && c in s'.calls && s'.calls[c].pc == Returning(Pair(newId))
    && d in s'.calls && s'.calls[d].pc == Returning(Failed(NotFound))
    && var row := s.tokens[id];
       s'.tokens == s.tokens[id := row.(revokedAt := Some(draw.revokedAt))]
                            [newId := Token(row.userId, env.hash(draw.plaintext), draw.issuedAt + env.ttl, None)]
  }

  /** From any state a Refresh and a second Refresh or Logout of one live token can
      interleave so that the second one is answered NotFound, the first one gets
      a pair that stays live, and no other session is revoked: the loser of the
      race does not trip reuse detection. */
  lemma RaceLost(env: Env, s: State, c: int, d: int, call: Call, id: int, newId: int, draw: Draw)
      returns (b: seq<State>, evs: seq<Event>)
    requires c != d && c !in s.calls && d !in s.calls && (call.Refresh? || call.Logout?)
    requires RowIsLive(s.tokens, id) && s.tokens[id].hash == env.hash(call.plaintext)
    requires draw.checkedAt <= s.tokens[id].expiresAt
    requires newId !in s.tokens && HashFree(s.tokens, env.hash(draw.plaintext))
    ensures IsPath(env, b, evs) && b[0] == s
    ensures Settled(env, s, b[|evs|], c, d, id, newId, draw)
  {
    b, evs := Opening(env, s, c, Refresh(call.plaintext), id, draw.checkedAt);
    var b1, evs1 := Opening(env, b[|evs|], d, call, id, draw.checkedAt);
    b, evs := Join(env, b, evs, b1, evs1);
    b1, evs1 := Settle(env, b[|evs|], c, d, id, newId, draw);
    b, evs := Join(env, b, evs, b1, evs1);
  }

  // ------------------------------- an exchange that outlives reuse detection

  /** Call c has revoked the row, call d has read it after that. */
  ghost predicate Overtaken(s: State, c: int, d: int, id: int) {
    && c != d && c in s.calls && d in s.calls && s.calls[c].call.Refresh? && s.calls[d].call.Refresh?
    && id in s.tokens
    && s.calls[c].pc == Issuing(s.tokens[id].userId, Rotation(id))
    && s.calls[d].pc == RevokingAll(id, s.tokens[id].userId)
  }

  /** The last two events: detection by d, and the INSERT of c. */
  lemma Overtake(env: Env, s: State, c: int, d: int, id: int, newId: int, draw: Draw)
      returns (b: seq<State>, evs: seq<Event>)
    requires Overtaken(s, c, d, id) && newId !in s.tokens && HashFree(s.tokens, env.hash(draw.plaintext))
    ensures IsPath(env, b, evs) && b[0] == s && |evs| == 2 && Outlives(b, evs, 0, c, id, s.tokens[id].userId, newId)
  {
    evs := [RevokeAll(d, draw.revokedAt), InsertToken(c, newId, draw.plaintext, draw.issuedAt)];
    var s1 := Next(env, s, evs[0]);
    b := [s, s1, Next(env, s1, evs[1])];
    assert StepAt(env, b, evs, 0) && StepAt(env, b, evs, 1);
    assert c in InFlightRefreshes(s1, s.tokens[id].userId);
  }

  /** Event i is reuse detection for user u while the exchange of row id by call c
      is in flight, and at the end the new row of that exchange is live. */
  ghost predicate Outlives(b: seq<State>, evs: seq<Event>, i: nat, c: int, id: int, u: int, newId: int) {
    && Detects(b, evs, i, u) && AllRevoked(b[i + 1], u) && c in InFlightRefreshes(b[i + 1], u)
    && var last := b[|evs|];
       && newId in LiveTokens(last, u)
       && newId in last.lineage && last.lineage[newId].parent == Some(id)
  }

  /** From any reachable state with a live, unexpired row, two Refresh calls of its
      token can interleave so that one detects reuse and revokes everything while
      the other is in flight, and the other then inserts a live successor. */
  lemma ExchangeOutlivesDetection(env: Env, s: State, c: int, d: int, plaintext: string, id: int, newId: int,
                                  draw: Draw)
      returns (b: seq<State>, evs: seq<Event>, i: nat)
    requires Inv(env, s) && c != d && c !in s.calls && d !in s.calls
    requires RowIsLive(s.tokens, id) && s.tokens[id].hash == env.hash(plaintext)
    requires draw.checkedAt <= s.tokens[id].expiresAt
    requires newId !in s.tokens && HashFree(s.tokens, env.hash(draw.plaintext))
    ensures IsPath(env, b, evs) && b[0] == s && Outlives(b, evs, i, c, id, s.tokens[id].userId, newId)
  {
    b, evs := Opening(env, s, c, Refresh(plaintext), id, draw.checkedAt);
    b, evs := Extend(env, b, evs, Revoke(c, draw.revokedAt));
    var b1, evs1 := Opening(env, b[|evs|], d, Refresh(plaintext), id, draw.checkedAt);
    b, evs := Join(env, b, evs, b1, evs1);
    RevokeKeepsHashes(s.tokens, id, draw.revokedAt, env.hash(draw.plaintext));
    i := |evs|;
    b1, evs1 := Overtake(env, b[|evs|], c, d, id, newId, draw);
    b, evs := Join(env, b, evs, b1, evs1);
  }

  /** A continuation of s in the end of which some token of u that goes back to an
      old row of u is live. */
  ghost predicate Revives(env: Env, rows: Table, s: State, u: int, b: seq<State>, evs: seq<Event>) {
    && IsPath(env, b, evs) && b[0] == s
    && exists t, a ::
         t in LiveTokens(b[|evs|], u) && Descends(b[|evs|].lineage, t, a) && a in rows && rows[a].userId == u
  }

  ghost predicate CanRevive(env: Env, rows: Table, s: State, u: int) {
    exists b, evs :: Revives(env, rows, s, u, b, evs)
  }

  /** The allowance of reuse detection is exact: after it, some continuation brings
      an old chain of the user back to life if and only if an exchange for the user
      was in flight. A fresh id and plaintext are what the INSERT needs. */
  lemma RevivalIff(env: Env, b: seq<State>, evs: seq<Event>, i: nat, u: int, newId: int, plaintext: string)
    requires IsRun(env, b, evs) && Detects(b, evs, i, u)
    requires newId !in b[i + 1].tokens && HashFree(b[i + 1].tokens, env.hash(plaintext))
    ensures CanRevive(env, b[i].tokens, b[i + 1], u) <==> InFlightRefreshes(b[i + 1], u) != {}
  {
    var rows, s := b[i].tokens, b[i + 1];
    if InFlightRefreshes(s, u) != {} {
      RevivedBy(env, b, evs, i, u, newId, plaintext);
    } else if b', evs' :| Revives(env, rows, s, u, b', evs') {
      NotRevived(env, b, evs, i, u, b', evs');
    }
  }

  lemma RevivedBy(env: Env, b: seq<State>, evs: seq<Event>, i: nat, u: int, newId: int, plaintext: string)
    requires IsRun(env, b, evs) && Detects(b, evs, i, u) && InFlightRefreshes(b[i + 1], u) != {}
    requires newId !in b[i + 1].tokens && HashFree(b[i + 1].tokens, env.hash(plaintext))
    ensures CanRevive(env, b[i].tokens, b[i + 1], u)
  {
    var s := b[i + 1];
    var claims := InFlightRefreshes(s, u);
    if |claims| > 0 {
      var c := Pick(claims);
      DetectionRevokes(env, b, evs, i, u);
      RunEvolves(env, b, evs, i, i + 1);
      RunKeeps(env, b, evs, i + 1);
      InFlightEscapes(env, s, u, c, newId, plaintext, 0);
      var e := InsertToken(c, newId, plaintext, 0);
      var b', evs' := [s, Next(env, s, e)], [e];
      assert StepAt(env, b', evs', 0);
      assert Claim(s.calls[c].pc).value in b[i].tokens;
      assert Revives(env, b[i].tokens, s, u, b', evs');
    }
  }

  lemma NotRevived(env: Env, b: seq<State>, evs: seq<Event>, i: nat, u: int, b': seq<State>, evs': seq<Event>)
    requires IsRun(env, b, evs) && Detects(b, evs, i, u) && InFlightRefreshes(b[i + 1], u) == {}
    ensures !Revives(env, b[i].tokens, b[i + 1], u, b', evs')
  {
    if Revives(env, b[i].tokens, b[i + 1], u, b', evs') {
      Beginning(env, b, evs, i + 1);
      var states, events := Join(env, b[..i + 2], evs[..i + 1], b', evs');
      var t, a :| t in LiveTokens(b'[|evs'|], u) && Descends(b'[|evs'|].lineage, t, a)
                  && a in b[i].tokens && b[i].tokens[a].userId == u;
      assert Detects(states, events, i, u);
      ChainsEndAtDetection(env, states, events, i, |events|, u, t, a);
    }
  }
}
