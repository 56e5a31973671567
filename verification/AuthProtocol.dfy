/** Signup, Login, Refresh and Logout as a concurrent protocol.

    No call is a transaction: each is a sequence of separate SQL statements, and
    any number of replicas interleave them. A state is the two tables plus the
    program counter and locals of every call ever begun; an event is one
    statement, one local check, a return, or a crash. A call may crash between
    any two events, which also covers a statement that took effect but whose
    acknowledgement was lost. Random and external values (ids drawn from the
    sequences, bcrypt output, token plaintexts, clock readings) are carried by
    the events and are otherwise arbitrary. */
module AuthProtocol {
  import opened Common
  import opened RefreshTokens

  /** SHA-256, bcrypt comparison and the configured lifetime. The functions are
      arbitrary; a Signup stores some hash that its password matches. */
  datatype Env = Env(hash: string -> string, matches: (string, string) -> bool, ttl: int)

  /** A users row. */
  datatype User = User(email: string, passwordHash: string)

  datatype Call =
    | Signup(email: string, password: string)
    | Login(email: string, password: string)
    | Refresh(plaintext: string)
    | Logout(plaintext: string)

  /** Why a token is being issued: after a sign-in, or in exchange for another. */
  datatype Source = SignIn | Rotation(parent: int)

  datatype Outcome = Pair(token: int) | LoggedOut | Failed(error: Error)

  datatype Pc =
    | Ready
    | UserFound(userId: int, user: User)
    | Found(id: int, row: Token)
    | RevokingAll(id: int, userId: int)
    | Revoking(id: int, userId: int)
    | Issuing(userId: int, source: Source)
    | Returning(outcome: Outcome)
    | Done(outcome: Outcome)

  datatype Progress = Progress(call: Call, pc: Pc)

  /** History of a token: the token it was exchanged for, how many exchanges
      separate it from a sign-in, and the call that inserted it. */
  datatype Lineage = Lineage(parent: Option<int>, generation: nat, issuer: int)

  /** signups and lineage are history: the Signup call that inserted each user,
      and the lineage of each token. */
  datatype State = State(
    users: map<int, User>,
    signups: map<int, int>,
    tokens: Table,
    lineage: map<int, Lineage>,
    calls: map<int, Progress>)

  datatype Event =
    | Begin(c: int, call: Call)
    | CreateUser(c: int, userId: int, passwordHash: string)
    | FindUser(c: int, found: Option<int>)
    | CheckPassword(c: int)
    | FindToken(c: int, found: Option<int>)
    | CheckToken(c: int, now: int)
    | Revoke(c: int, now: int)
    | RevokeAll(c: int, now: int)
    | InsertToken(c: int, id: int, plaintext: string, now: int)
    | Return(c: int)
    | Crash(c: int)

  function Init(): State { State(map[], map[], map[], map[], map[]) }

  predicate EmailTaken(users: map<int, User>, email: string) {
    exists id :: id in users && users[id].email == email
  }

  predicate IsUserLookup(users: map<int, User>, email: string, found: Option<int>) {
    match found
    case None => !EmailTaken(users, email)
    case Some(id) => id in users && users[id].email == email
  }

  function Goto(s: State, c: int, pc: Pc): State
    requires c in s.calls
  {
    s.(calls := s.calls[c := s.calls[c].(pc := pc)])
  }

  ghost predicate Enabled(env: Env, s: State, e: Event) {
    if e.Begin? then e.c !in s.calls else
    && e.c in s.calls
    && var Progress(call, pc) := s.calls[e.c];
       match e
       case Begin(_, _) => false
       case CreateUser(_, id, passwordHash) =>
         call.Signup? && pc.Ready? && id !in s.users && env.matches(passwordHash, call.password)
       case FindUser(_, found) => call.Login? && pc.Ready? && IsUserLookup(s.users, call.email, found)
       case CheckPassword(_) => call.Login? && pc.UserFound?
       case FindToken(_, found) =>
         (call.Refresh? || call.Logout?) && pc.Ready? && IsLookup(s.tokens, env.hash(call.plaintext), found)
       case CheckToken(_, _) => (call.Refresh? || call.Logout?) && pc.Found?
       case Revoke(_, _) => (call.Refresh? || call.Logout?) && pc.Revoking?
       case RevokeAll(_, _) => call.Refresh? && pc.RevokingAll?
       case InsertToken(_, id, _, _) => pc.Issuing? && id !in s.tokens
       case Return(_) => pc.Returning?
       case Crash(_) => !pc.Done?
  }

  /** The local checks between FindByHash and the first write. A stale row is
      judged: the table may have moved on. Logout does not look at the expiry. */
  function AfterCheck(call: Call, id: int, row: Token, now: int): Pc {
    if call.Refresh? then
      if !Live(row) then RevokingAll(id, row.userId)
      else if now > row.expiresAt then Returning(Failed(TokenInvalid))
      else Revoking(id, row.userId)
    else
      if !Live(row) then Returning(LoggedOut) else Revoking(id, row.userId)
  }

  /** What the conditional UPDATE answers, and where the call goes next. */
  function AfterRevoke(call: Call, id: int, userId: int, affected: bool): Pc {
    if !affected then Returning(Failed(NotFound))
    else if call.Refresh? then Issuing(userId, Rotation(id))
    else Returning(LoggedOut)
  }

  predicate RowIsLive(rows: Table, id: int) { id in rows && Live(rows[id]) }

  function LineageFor(lineage: map<int, Lineage>, source: Source, c: int): Lineage {
    match source
    case SignIn => Lineage(None, 0, c)
    case Rotation(p) => Lineage(Some(p), if p in lineage then lineage[p].generation + 1 else 0, c)
  }

  function WithUser(s: State, id: int, user: User, c: int): State {
    s.(users := s.users[id := user], signups := s.signups[id := c])
  }

  function WithToken(env: Env, s: State, c: int, pc: Pc, id: int, plaintext: string, now: int): State
    requires pc.Issuing?
  {
    s.(tokens := s.tokens[id := Token(pc.userId, env.hash(plaintext), now + env.ttl, None)],
       lineage := s.lineage[id := LineageFor(s.lineage, pc.source, c)])
  }

  ghost function Next(env: Env, s: State, e: Event): State
    requires Enabled(env, s, e)
  {
    if e.Begin? then s.(calls := s.calls[e.c := Progress(e.call, Ready)]) else
    var Progress(call, pc) := s.calls[e.c];
    match e
    case CreateUser(c, id, passwordHash) =>
      if EmailTaken(s.users, call.email) then Goto(s, c, Returning(Failed(AlreadyExists)))
      else Goto(WithUser(s, id, User(call.email, passwordHash), c), c, Issuing(id, SignIn))
    case FindUser(c, found) =>
      if found.None? then Goto(s, c, Returning(Failed(InvalidCredentials)))
      else Goto(s, c, UserFound(found.value, s.users[found.value]))
    case CheckPassword(c) =>
      if env.matches(pc.user.passwordHash, call.password) then Goto(s, c, Issuing(pc.userId, SignIn))
      else Goto(s, c, Returning(Failed(InvalidCredentials)))
    case FindToken(c, found) =>
      if found.None? then Goto(s, c, Returning(Failed(TokenInvalid)))
      else Goto(s, c, Found(found.value, s.tokens[found.value]))
    case CheckToken(c, now) => Goto(s, c, AfterCheck(call, pc.id, pc.row, now))
    case Revoke(c, now) =>
      Goto(s.(tokens := RevokeRow(s.tokens, pc.id, now)), c,
           AfterRevoke(call, pc.id, pc.userId, RowIsLive(s.tokens, pc.id)))
    case RevokeAll(c, now) =>
      Goto(s.(tokens := RevokeUser(s.tokens, pc.userId, now)), c, Returning(Failed(TokenInvalid)))
    case InsertToken(c, id, plaintext, now) =>
      if HashFree(s.tokens, env.hash(plaintext)) then
        Goto(WithToken(env, s, c, pc, id, plaintext, now), c, Returning(Pair(id)))
      else Goto(s, c, Returning(Failed(Internal)))
    case Return(c) => Goto(s, c, Done(pc.outcome))
    case Crash(c) => Goto(s, c, Done(Failed(Internal)))
  }

  /** Event i leads from state i to state i + 1. */
  ghost predicate StepAt(env: Env, b: seq<State>, evs: seq<Event>, i: nat)
    requires i < |evs| && |b| == |evs| + 1
  {
    Enabled(env, b[i], evs[i]) && b[i + 1] == Next(env, b[i], evs[i])
  }

  /** A path: states b and the events between them. */
  ghost predicate IsPath(env: Env, b: seq<State>, evs: seq<Event>) {
    && |b| == |evs| + 1
    && forall i :: 0 <= i < |evs| ==> StepAt(env, b, evs, i)
  }

  /** A run: a path from empty tables. */
  ghost predicate IsRun(env: Env, b: seq<State>, evs: seq<Event>) {
    IsPath(env, b, evs) && b[0] == Init()
  }

  /** The beginning of a run is a run. */
  lemma Beginning(env: Env, b: seq<State>, evs: seq<Event>, n: nat)
    requires IsRun(env, b, evs) && n <= |evs|
    ensures IsRun(env, b[..n + 1], evs[..n])
  {
    var b', evs' := b[..n + 1], evs[..n];
    forall i | 0 <= i < n ensures StepAt(env, b', evs', i) {
      assert StepAt(env, b, evs, i);
    }
  }

  /** One path after another. */
  lemma Join(env: Env, b: seq<State>, evs: seq<Event>, b': seq<State>, evs': seq<Event>)
      returns (states: seq<State>, events: seq<Event>)
    requires IsPath(env, b, evs) && IsPath(env, b', evs') && b'[0] == b[|evs|]
    ensures IsPath(env, states, events) && states == b + b'[1..] && events == evs + evs'
    ensures states[|events|] == b'[|evs'|]
  {
    states, events := b + b'[1..], evs + evs';
    forall i | 0 <= i < |events| ensures StepAt(env, states, events, i) {
      if i < |evs| {
        assert StepAt(env, b, evs, i);
      } else {
        assert StepAt(env, b', evs', i - |evs|);
      }
    }
  }

  /** One more event. */
  lemma Extend(env: Env, b: seq<State>, evs: seq<Event>, e: Event) returns (b': seq<State>, evs': seq<Event>)
    requires IsPath(env, b, evs) && Enabled(env, b[|evs|], e)
    ensures IsPath(env, b', evs') && b' == b + [Next(env, b[|evs|], e)] && evs' == evs + [e]
  {
    var step := [b[|evs|], Next(env, b[|evs|], e)];
    assert StepAt(env, step, [e], 0);
    b', evs' := Join(env, b, evs, step, [e]);
  }
}
