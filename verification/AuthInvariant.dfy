/** What every step of the authentication protocol keeps. */
module AuthInvariant {
  import opened Common
  import opened RefreshTokens
  import opened AuthProtocol

  predicate Finishing(pc: Pc) { pc.Returning? || pc.Done? }

  /** The row that a call has revoked and not yet replaced. */
  function Claim(pc: Pc): Option<int> {
    if pc.Issuing? && pc.source.Rotation? then Some(pc.source.parent) else None
  }

  ghost predicate EmailsUnique(users: map<int, User>) {
    forall i, j :: i in users && j in users && users[i].email == users[j].email ==> i == j
  }

  /** Call c proved to be user u: it is the Signup that inserted u, or a Login
      with u's email; in both cases its password matches u's stored hash. */
  ghost predicate Authenticated(env: Env, s: State, c: int, u: int) {
    && c in s.calls && u in s.users
    && var call := s.calls[c].call;
       && (call.Signup? || call.Login?)
       && (call.Signup? ==> u in s.signups && s.signups[u] == c)
       && s.users[u].email == call.email
       && env.matches(s.users[u].passwordHash, call.password)
  }

  ghost predicate TokenOk(env: Env, s: State, t: int)
    requires t in s.tokens && t in s.lineage
  {
    var row, l := s.tokens[t], s.lineage[t];
    && row.userId in s.users
    && l.issuer in s.calls && Finishing(s.calls[l.issuer].pc)
    && match l.parent
       case None => l.generation == 0 && Authenticated(env, s, l.issuer, row.userId)
       case Some(p) =>
         && p in s.tokens && p in s.lineage && !Live(s.tokens[p])
         && s.tokens[p].userId == row.userId
         && l.generation == s.lineage[p].generation + 1
         && s.calls[l.issuer].call.Refresh?
         && s.tokens[p].hash == env.hash(s.calls[l.issuer].call.plaintext)
  }

  /** One token per issuing call, and one successor per token. */
  ghost predicate LineageOk(lineage: map<int, Lineage>) {
    forall i, j :: i in lineage && j in lineage &&
      (lineage[i].issuer == lineage[j].issuer || (lineage[i].parent.Some? && lineage[i].parent == lineage[j].parent))
      ==> i == j
  }

  ghost predicate Unreplaced(lineage: map<int, Lineage>, p: int) {
    forall t :: t in lineage ==> lineage[t].parent != Some(p)
  }

  /** Row id is the one whose hash call c presented. */
  ghost predicate Presented(env: Env, s: State, c: int, id: int) {
    && c in s.calls && id in s.tokens
    && (s.calls[c].call.Refresh? || s.calls[c].call.Logout?)
    && s.tokens[id].hash == env.hash(s.calls[c].call.plaintext)
  }

  ghost predicate CallOk(env: Env, s: State, c: int)
    requires c in s.calls
  {
    match s.calls[c].pc
    case Ready => true
    case UserFound(id, user) =>
      s.calls[c].call.Login? && id in s.users && s.users[id] == user && user.email == s.calls[c].call.email
    case Found(id, row) => Presented(env, s, c, id) && RowAges(row, s.tokens[id])
    case RevokingAll(id, u) => Presented(env, s, c, id) && s.tokens[id].userId == u && !Live(s.tokens[id])
    case Revoking(id, u) => Presented(env, s, c, id) && s.tokens[id].userId == u
    case Issuing(u, SignIn) => Authenticated(env, s, c, u)
    case Issuing(u, Rotation(p)) =>
      && Presented(env, s, c, p) && s.calls[c].call.Refresh?
      && s.tokens[p].userId == u && u in s.users && !Live(s.tokens[p]) && Unreplaced(s.lineage, p)
    case Returning(o) => OutcomeOk(s, c, o)
    case Done(o) => OutcomeOk(s, c, o)
  }

  ghost predicate OutcomeOk(s: State, c: int, o: Outcome) {
    o.Pair? ==> o.token in s.tokens && o.token in s.lineage && s.lineage[o.token].issuer == c
  }

  ghost predicate ClaimsOk(calls: map<int, Progress>) {
    forall c, d :: c in calls && d in calls && Claim(calls[c].pc).Some? && Claim(calls[c].pc) == Claim(calls[d].pc)
      ==> c == d
  }

  ghost predicate TokensOk(env: Env, s: State) {
    && s.lineage.Keys == s.tokens.Keys
    && forall t :: t in s.tokens ==> TokenOk(env, s, t)
  }

  ghost predicate CallsOk(env: Env, s: State) {
    forall c :: c in s.calls ==> CallOk(env, s, c)
  }

  ghost predicate Inv(env: Env, s: State) {
    && EmailsUnique(s.users)
    && UniqueHashes(s.tokens)
    && LineageOk(s.lineage)
    && TokensOk(env, s)
    && CallsOk(env, s)
    && ClaimsOk(s.calls)
  }

  /** A step that only moves one call. */
  lemma GotoKeeps(env: Env, s: State, c: int, pc: Pc)
    requires Inv(env, s) && c in s.calls
    requires Finishing(s.calls[c].pc) ==> Finishing(pc)
    requires CallOk(env, Goto(s, c, pc), c)
    requires forall d :: d in s.calls && d != c && Claim(pc).Some? ==> Claim(s.calls[d].pc) != Claim(pc)
    ensures Inv(env, Goto(s, c, pc))
  {
    var s' := Goto(s, c, pc);
    forall t | t in s'.tokens ensures TokenOk(env, s', t) {
      assert TokenOk(env, s, t);
    }
    forall d | d in s'.calls ensures CallOk(env, s', d) {
      assert CallOk(env, s, d);
    }
  }

  /** Revoking rows keeps everything: no clause ever needs a row to be live. */
  lemma RevokingKeeps(env: Env, s: State, rows: Table)
    requires Inv(env, s) && OnlyRevokes(s.tokens, rows)
    ensures Inv(env, s.(tokens := rows))
  {
    var s' := s.(tokens := rows);
    forall t | t in s'.tokens ensures TokenOk(env, s', t) {
      assert TokenOk(env, s, t);
    }
    forall d | d in s'.calls ensures CallOk(env, s', d) {
      assert CallOk(env, s, d);
    }
  }

  lemma BeginKeeps(env: Env, s: State, c: int, call: Call)
    requires Inv(env, s) && c !in s.calls
    ensures Inv(env, s.(calls := s.calls[c := Progress(call, Ready)]))
  {
    var s' := s.(calls := s.calls[c := Progress(call, Ready)]);
    forall t | t in s'.tokens ensures TokenOk(env, s', t) {
      assert TokenOk(env, s, t);
    }
    forall d | d in s'.calls ensures CallOk(env, s', d) {
      if d != c { assert CallOk(env, s, d); }
    }
  }

  lemma NewUserKeeps(env: Env, s: State, u: int, user: User, c: int)
    requires Inv(env, s) && u !in s.users && !EmailTaken(s.users, user.email)
    ensures Inv(env, WithUser(s, u, user, c))
  {
    var s' := WithUser(s, u, user, c);
    forall t | t in s'.tokens ensures TokenOk(env, s', t) {
      assert TokenOk(env, s, t);
    }
    forall d | d in s'.calls ensures CallOk(env, s', d) {
      assert CallOk(env, s, d);
    }
  }

  /** The insertion of a token under a free hash. */
  ghost predicate Inserts(env: Env, s: State, e: Event) {
    Enabled(env, s, e) && e.InsertToken? && HashFree(s.tokens, env.hash(e.plaintext))
  }

  lemma InsertKeepsTokens(env: Env, s: State, e: Event)
    requires Inv(env, s) && Inserts(env, s, e)
    ensures TokensOk(env, Next(env, s, e)) && UniqueHashes(Next(env, s, e).tokens)
  {
    var s' := Next(env, s, e);
    assert CallOk(env, s, e.c);
    forall t | t in s'.tokens ensures TokenOk(env, s', t) {
      if t in s.tokens { assert TokenOk(env, s, t); }
    }
  }

  lemma InsertKeepsLineage(env: Env, s: State, e: Event)
    requires Inv(env, s) && Inserts(env, s, e)
    ensures LineageOk(Next(env, s, e).lineage)
  {
    assert CallOk(env, s, e.c);
    forall t | t in s.lineage ensures s.lineage[t].issuer != e.c {
      assert TokenOk(env, s, t);
    }
  }

  lemma InsertKeepsCalls(env: Env, s: State, e: Event)
    requires Inv(env, s) && Inserts(env, s, e)
    ensures CallsOk(env, Next(env, s, e))
  {
    var s', pc := Next(env, s, e), s.calls[e.c].pc;
    forall d | d in s'.calls ensures CallOk(env, s', d) {
      assert CallOk(env, s, d);
      if d != e.c && Claim(pc).Some? {
        assert Claim(s.calls[d].pc) != Claim(pc);
      }
    }
  }

  lemma InsertKeeps(env: Env, s: State, e: Event)
    requires Inv(env, s) && Inserts(env, s, e)
    ensures Inv(env, Next(env, s, e))
  {
    InsertKeepsTokens(env, s, e);
    InsertKeepsLineage(env, s, e);
    InsertKeepsCalls(env, s, e);
  }

  /** The conditional UPDATE; a row that it revokes had no successor and no claimant. */
  lemma RevokeKeeps(env: Env, s: State, e: Event)
    requires Inv(env, s) && Enabled(env, s, e) && e.Revoke?
    ensures Inv(env, Next(env, s, e))
    ensures var id := s.calls[e.c].pc.id;
            RowIsLive(s.tokens, id) ==>
              Unreplaced(s.lineage, id) && forall d :: d in s.calls ==> Claim(s.calls[d].pc) != Some(id)
  {
    var c, call, pc := e.c, s.calls[e.c].call, s.calls[e.c].pc;
    assert CallOk(env, s, c);
    assert TokenOk(env, s, pc.id);
    var s1 := s.(tokens := RevokeRow(s.tokens, pc.id, e.now));
    RevokingKeeps(env, s, s1.tokens);
    if RowIsLive(s.tokens, pc.id) {
      forall d | d in s.calls ensures Claim(s.calls[d].pc) != Some(pc.id) {
        assert CallOk(env, s, d);
      }
      forall t | t in s.lineage ensures s.lineage[t].parent != Some(pc.id) {
        assert TokenOk(env, s, t);
      }
    }
    GotoKeeps(env, s1, c, AfterRevoke(call, pc.id, pc.userId, RowIsLive(s.tokens, pc.id)));
  }

  /** An event does not move other calls than its own. */
  lemma OthersStay(env: Env, s: State, e: Event, c: int)
    requires Enabled(env, s, e) && c != e.c
    ensures c in Next(env, s, e).calls <==> c in s.calls
    ensures c in s.calls ==> Next(env, s, e).calls[c] == s.calls[c]
  {
  }

  lemma NextKeeps(env: Env, s: State, e: Event)
    requires Inv(env, s) && Enabled(env, s, e)
    ensures Inv(env, Next(env, s, e))
  {
    if e.Begin? {
      BeginKeeps(env, s, e.c, e.call);
      return;
    }
    var c, call, pc := e.c, s.calls[e.c].call, s.calls[e.c].pc;
    assert CallOk(env, s, c);
    if e.CreateUser? && !EmailTaken(s.users, call.email) {
      var user := User(call.email, e.passwordHash);
      NewUserKeeps(env, s, e.userId, user, c);
      GotoKeeps(env, WithUser(s, e.userId, user, c), c, Issuing(e.userId, SignIn));
    } else if e.InsertToken? && HashFree(s.tokens, env.hash(e.plaintext)) {
      InsertKeeps(env, s, e);
    } else if e.Revoke? {
      RevokeKeeps(env, s, e);
    } else if e.RevokeAll? {
      var rows := RevokeUser(s.tokens, pc.userId, e.now);
      RevokingKeeps(env, s, rows);
      GotoKeeps(env, s.(tokens := rows), c, Returning(Failed(TokenInvalid)));
    } else {
      GotoKeeps(env, s, c, Next(env, s, e).calls[c].pc);
    }
  }

  /** The invariant holds in every state of every run. */
  lemma {:induction false} RunKeeps(env: Env, b: seq<State>, evs: seq<Event>, i: nat)
    requires IsRun(env, b, evs) && i < |b|
    ensures Inv(env, b[i])
  {
    if i > 0 {
      RunKeeps(env, b, evs, i - 1);
      assert StepAt(env, b, evs, i - 1);
      NextKeeps(env, b[i - 1], evs[i - 1]);
    }
  }

  /** What time does to a state: users and lineage are only added to, rows are
      never deleted and change only by being revoked, calls keep their request
      and never leave Done. */
  ghost predicate Evolves(s: State, s': State) {
    && (forall u :: u in s.users ==> u in s'.users && s'.users[u] == s.users[u])
    && (forall u :: u in s.users && u in s.signups ==> u in s'.signups && s'.signups[u] == s.signups[u])
    && (forall t :: t in s.tokens ==> t in s'.tokens && RowAges(s.tokens[t], s'.tokens[t]))
    && (forall t :: t in s.lineage ==> t in s'.lineage && s'.lineage[t] == s.lineage[t])
    && (forall c :: c in s.calls ==> c in s'.calls && s'.calls[c].call == s.calls[c].call &&
                                     (s.calls[c].pc.Done? ==> s'.calls[c] == s.calls[c]))
  }

  lemma GotoEvolves(s: State, m: State, c: int, pc: Pc)
    requires Evolves(s, m) && c in s.calls && !s.calls[c].pc.Done? && m.calls == s.calls
    ensures Evolves(s, Goto(m, c, pc))
  {
  }

  lemma TablesEvolve(env: Env, s: State, e: Event)
    requires Enabled(env, s, e) && s.lineage.Keys == s.tokens.Keys && !e.Begin?
    ensures Evolves(s, Next(env, s, e).(calls := s.calls))
  {
    if e.InsertToken? { InsertEvolves(env, s, e); }
  }

  lemma InsertEvolves(env: Env, s: State, e: Event)
    requires Enabled(env, s, e) && s.lineage.Keys == s.tokens.Keys && e.InsertToken?
    ensures Evolves(s, Next(env, s, e).(calls := s.calls))
  {
    var s' := Next(env, s, e);
    assert s'.users == s.users && s'.signups == s.signups && e.id !in s.tokens;
    forall t | t in s.tokens ensures t in s'.tokens && s'.tokens[t] == s.tokens[t] {}
    forall t | t in s.lineage ensures t in s'.lineage && s'.lineage[t] == s.lineage[t] {}
  }

  lemma NextEvolves(env: Env, s: State, e: Event)
    requires Enabled(env, s, e) && s.lineage.Keys == s.tokens.Keys
    ensures Evolves(s, Next(env, s, e)) && e.c in Next(env, s, e).calls
  {
    if !e.Begin? {
      var s' := Next(env, s, e);
      TablesEvolve(env, s, e);
      GotoEvolves(s, s'.(calls := s.calls), e.c, s'.calls[e.c].pc);
      assert s' == Goto(s'.(calls := s.calls), e.c, s'.calls[e.c].pc);
    }
  }

  lemma EvolvesReflexive(s: State)
    ensures Evolves(s, s)
  {
  }

  lemma EvolvesTransitive(s: State, m: State, s': State)
    requires Evolves(s, m) && Evolves(m, s')
    ensures Evolves(s, s')
  {
  }

  /** One step of a run. */
  lemma StepEvolves(env: Env, b: seq<State>, evs: seq<Event>, n: nat)
    requires IsRun(env, b, evs) && 0 < n < |b|
    ensures Evolves(b[n - 1], b[n]) && evs[n - 1].c in b[n].calls
  {
    RunKeeps(env, b, evs, n - 1);
    assert StepAt(env, b, evs, n - 1);
    NextEvolves(env, b[n - 1], evs[n - 1]);
  }

  lemma {:induction false} RunEvolves(env: Env, b: seq<State>, evs: seq<Event>, i: nat, j: nat)
    requires IsRun(env, b, evs) && i <= j < |b|
    ensures Evolves(b[i], b[j])
    decreases j
  {
    if i == j {
      EvolvesReflexive(b[i]);
    } else {
      RunEvolves(env, b, evs, i, j - 1);
      StepEvolves(env, b, evs, j);
      EvolvesTransitive(b[i], b[j - 1], b[j]);
    }
  }
}
