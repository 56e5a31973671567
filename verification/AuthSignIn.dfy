/** Signup and Login: that they succeed when they should, and why they fail. */
module AuthSignIn {
  import opened Common
  import opened RefreshTokens
  import opened AuthProtocol
  import opened AuthInvariant
  import opened AuthRotation
  import opened AuthOutcome

  /** What an uninterrupted sign-in of user u leaves behind: one new live token of u
      that starts a chain, and the answer with that token. */
  ghost predicate SignedIn(env: Env, s: State, s': State, c: int, call: Call, u: int,
                           id: int, plaintext: string, now: int) {
    && s'.tokens == s.tokens[id := Token(u, env.hash(plaintext), now + env.ttl, None)]
    && s'.lineage == s.lineage[id := Lineage(None, 0, c)]
    && s'.calls == s.calls[c := Progress(call, Done(Pair(id)))]
  }

  /** The INSERT and the return. */
  lemma Issue(env: Env, b: seq<State>, evs: seq<Event>, c: int, u: int, id: int, plaintext: string, now: int)
      returns (b': seq<State>, evs': seq<Event>)
    requires IsPath(env, b, evs) && forall i :: 0 <= i < |evs| ==> evs[i].c == c
    requires c in b[|evs|].calls && b[|evs|].calls[c].pc == Issuing(u, SignIn)
    requires id !in b[|evs|].tokens && HashFree(b[|evs|].tokens, env.hash(plaintext))
    ensures IsPath(env, b', evs') && b'[0] == b[0] && forall i :: 0 <= i < |evs'| ==> evs'[i].c == c
    ensures SignedIn(env, b[|evs|], b'[|evs'|], c, b[|evs|].calls[c].call, u, id, plaintext, now)
    ensures b'[|evs'|].users == b[|evs|].users
  {
    b', evs' := Extend(env, b, evs, InsertToken(c, id, plaintext, now));
    b', evs' := Extend(env, b', evs', Return(c));
  }

  /** From any state a Login with the password of a stored user can run to a pair. */
  lemma LoginIsAPath(env: Env, s: State, c: int, email: string, password: string, u: int,
                     id: int, plaintext: string, now: int)
      returns (b: seq<State>, evs: seq<Event>)
    requires c !in s.calls && u in s.users && s.users[u].email == email
    requires env.matches(s.users[u].passwordHash, password)
    requires id !in s.tokens && HashFree(s.tokens, env.hash(plaintext))
    ensures IsPath(env, b, evs) && b[0] == s && forall i :: 0 <= i < |evs| ==> evs[i].c == c
    ensures SignedIn(env, s, b[|evs|], c, Login(email, password), u, id, plaintext, now) && b[|evs|].users == s.users
  {
    b, evs := Extend(env, [s], [], Begin(c, Login(email, password)));
    b, evs := Extend(env, b, evs, FindUser(c, Some(u)));
    b, evs := Extend(env, b, evs, CheckPassword(c));
    assert b[|evs|].calls == s.calls[c := Progress(Login(email, password), Issuing(u, SignIn))];
    b, evs := Issue(env, b, evs, c, u, id, plaintext, now);
  }

  /** From any state a Signup with a free email can run to a pair, and the new user
      is stored. */
  lemma SignupIsAPath(env: Env, s: State, c: int, email: string, password: string, u: int, passwordHash: string,
                      id: int, plaintext: string, now: int)
      returns (b: seq<State>, evs: seq<Event>)
    requires c !in s.calls && u !in s.users && !EmailTaken(s.users, email) && env.matches(passwordHash, password)
    requires id !in s.tokens && HashFree(s.tokens, env.hash(plaintext))
    ensures IsPath(env, b, evs) && b[0] == s && forall i :: 0 <= i < |evs| ==> evs[i].c == c
    ensures SignedIn(env, s, b[|evs|], c, Signup(email, password), u, id, plaintext, now)
    ensures b[|evs|].users == s.users[u := User(email, passwordHash)]
  {
    b, evs := Extend(env, [s], [], Begin(c, Signup(email, password)));
    b, evs := Extend(env, b, evs, CreateUser(c, u, passwordHash));
    assert b[|evs|].calls == s.calls[c := Progress(Signup(email, password), Issuing(u, SignIn))];
    b, evs := Issue(env, b, evs, c, u, id, plaintext, now);
  }

  // ---------------------------------------------------- what each step decides

  ghost predicate Refuses(s: State, c: int, error: Error) {
    c in s.calls && s.calls[c].pc == Returning(Failed(error))
  }

  /** The lookup refuses a Login if and only if no user has the email. */
  lemma LookupDecides(env: Env, b: seq<State>, evs: seq<Event>, c: int, k: nat)
    requires IsRun(env, b, evs) && Acts(b, evs, c, k) && evs[k].FindUser?
    ensures b[k].calls[c].call.Login?
    ensures Refuses(b[k + 1], c, InvalidCredentials) <==> !EmailTaken(b[k].users, b[k].calls[c].call.email)
  {
    assert StepAt(env, b, evs, k);
  }

  /** The comparison refuses a Login if and only if the password does not match the
      stored hash of the user with the email; otherwise a token is issued to that user. */
  lemma PasswordDecides(env: Env, b: seq<State>, evs: seq<Event>, c: int, k: nat, u: int)
    requires IsRun(env, b, evs) && Acts(b, evs, c, k) && evs[k].CheckPassword? && b[k].calls[c].call.Login?
    requires u in b[k].users && b[k].users[u].email == b[k].calls[c].call.email
    ensures var matching := env.matches(b[k].users[u].passwordHash, b[k].calls[c].call.password);
            && (Refuses(b[k + 1], c, InvalidCredentials) <==> !matching)
            && (matching ==> c in b[k + 1].calls && b[k + 1].calls[c].pc == Issuing(u, SignIn))
  {
    RunKeeps(env, b, evs, k);
    assert StepAt(env, b, evs, k) && CallOk(env, b[k], c);
  }

  /** The INSERT refuses a Signup if and only if the email is taken then; otherwise
      exactly one user is added, with the email and a hash that the password matches,
      and a token is issued to that user. */
  lemma InsertDecides(env: Env, b: seq<State>, evs: seq<Event>, c: int, k: nat)
    requires IsRun(env, b, evs) && Acts(b, evs, c, k) && evs[k].CreateUser? && b[k].calls[c].call.Signup?
    ensures var call := b[k].calls[c].call;
            if EmailTaken(b[k].users, call.email) then
              Refuses(b[k + 1], c, AlreadyExists) && b[k + 1].users == b[k].users
            else
              exists u :: && u !in b[k].users && u in b[k + 1].users
                          && b[k + 1].users == b[k].users[u := b[k + 1].users[u]]
                          && Authenticated(env, b[k + 1], c, u) && b[k + 1].calls[c].pc == Issuing(u, SignIn)
  {
    assert StepAt(env, b, evs, k);
    RunKeeps(env, b, evs, k + 1);
    if !EmailTaken(b[k].users, b[k].calls[c].call.email) {
      var u := evs[k].userId;
      assert CallOk(env, b[k + 1], c);
      assert Authenticated(env, b[k + 1], c, u) && b[k + 1].calls[c].pc == Issuing(u, SignIn);
    }
  }

  // -------------------------------------------------------- why a call failed

  ghost predicate SawNoUser(b: seq<State>, evs: seq<Event>, c: int, k: nat) {
    && Acts(b, evs, c, k) && evs[k].FindUser? && b[k].calls[c].call.Login?
    && !EmailTaken(b[k].users, b[k].calls[c].call.email)
  }

  ghost predicate SawWrongPassword(env: Env, b: seq<State>, evs: seq<Event>, c: int, k: nat) {
    && Acts(b, evs, c, k) && evs[k].CheckPassword? && b[k].calls[c].call.Login? && b[k].calls[c].pc.UserFound?
    && var u := b[k].calls[c].pc.userId;
       && u in b[k].users && b[k].users[u].email == b[k].calls[c].call.email
       && !env.matches(b[k].users[u].passwordHash, b[k].calls[c].call.password)
  }

  ghost predicate SawTaken(b: seq<State>, evs: seq<Event>, c: int, k: nat) {
    && Acts(b, evs, c, k) && evs[k].CreateUser? && b[k].calls[c].call.Signup?
    && EmailTaken(b[k].users, b[k].calls[c].call.email)
  }

  /** The call died, or drew a token whose hash was stored. */
  ghost predicate Broke(env: Env, b: seq<State>, evs: seq<Event>, c: int, k: nat) {
    && Acts(b, evs, c, k)
    && (evs[k].Crash? || (evs[k].InsertToken? && !HashFree(b[k].tokens, env.hash(evs[k].plaintext))))
  }

  ghost predicate FailureExplained(env: Env, b: seq<State>, evs: seq<Event>, n: nat, c: int, call: Call, error: Error) {
    match error
    case InvalidCredentials =>
      call.Login? && ((exists k: nat :: k < n && SawNoUser(b, evs, c, k))
                      || exists k: nat :: k < n && SawWrongPassword(env, b, evs, c, k))
    case AlreadyExists => call.Signup? && exists k: nat :: k < n && SawTaken(b, evs, c, k)
    case Internal => exists k: nat :: k < n && Broke(env, b, evs, c, k)
    case NotFound => call.Refresh? || call.Logout?
    case TokenInvalid => call.Refresh? || call.Logout?
    case _ => false
  }

  /** In every run a Login is answered InvalidCredentials only if no user had the
      email or the password did not match the stored hash of the user who had; a
      Signup is answered AlreadyExists only if the email was taken at its INSERT; and
      any call fails internally only if it died or drew a stored hash. */
  lemma {:induction false} EveryFailureExplained(env: Env, b: seq<State>, evs: seq<Event>, n: nat, c: int)
    requires IsRun(env, b, evs) && n < |b| && c in b[n].calls
    requires Finishing(b[n].calls[c].pc) && b[n].calls[c].pc.outcome.Failed?
    ensures FailureExplained(env, b, evs, n, c, b[n].calls[c].call, b[n].calls[c].pc.outcome.error)
  {
    if n > 0 {
      var s, s' := b[n - 1], b[n];
      assert StepAt(env, b, evs, n - 1);
      if c in s.calls && Finishing(s.calls[c].pc) && s.calls[c].pc.outcome == s'.calls[c].pc.outcome {
        StepEvolves(env, b, evs, n);
        EveryFailureExplained(env, b, evs, n - 1, c);
      } else {
        FailsNow(env, b, evs, n, c);
      }
    }
  }

  /** The event at which a call fails explains the failure. */
  lemma FailsNow(env: Env, b: seq<State>, evs: seq<Event>, n: nat, c: int)
    requires IsRun(env, b, evs) && 0 < n < |b| && StepAt(env, b, evs, n - 1) && c in b[n].calls
    requires Finishing(b[n].calls[c].pc) && b[n].calls[c].pc.outcome.Failed?
    requires var s := b[n - 1];
             !(c in s.calls && Finishing(s.calls[c].pc) && s.calls[c].pc.outcome == b[n].calls[c].pc.outcome)
    ensures FailureExplained(env, b, evs, n, c, b[n].calls[c].call, b[n].calls[c].pc.outcome.error)
  {
    var s, e := b[n - 1], evs[n - 1];
    RunKeeps(env, b, evs, n - 1);
    if e.c != c { OthersStay(env, s, e, c); }
    if e.Crash? {
      assert Broke(env, b, evs, c, n - 1);
    } else {
      assert CallOk(env, s, c);
      RefusedNow(env, b, evs, n, c);
    }
  }

  lemma RefusedNow(env: Env, b: seq<State>, evs: seq<Event>, n: nat, c: int)
    requires |b| == |evs| + 1 && 0 < n < |b| && Acts(b, evs, c, n - 1) && !evs[n - 1].Crash? && !evs[n - 1].Return?
    requires StepAt(env, b, evs, n - 1) && CallOk(env, b[n - 1], c) && c in b[n].calls
    requires Finishing(b[n].calls[c].pc) && b[n].calls[c].pc.outcome.Failed?
    ensures FailureExplained(env, b, evs, n, c, b[n].calls[c].call, b[n].calls[c].pc.outcome.error)
  {
    var e := evs[n - 1];
    if e.InsertToken? {
      assert Broke(env, b, evs, c, n - 1);
    } else if e.FindUser? {
      assert SawNoUser(b, evs, c, n - 1);
    } else if e.CheckPassword? {
      assert SawWrongPassword(env, b, evs, c, n - 1);
    } else if e.CreateUser? {
      assert SawTaken(b, evs, c, n - 1);
    }
  }

  /** In every run a sign-in that got a pair got a token of its own user, which is
      stored and starts a chain. */
  lemma SignInSucceeds(env: Env, b: seq<State>, evs: seq<Event>, n: nat, c: int)
    requires IsRun(env, b, evs) && n < |b| && c in b[n].calls
    requires b[n].calls[c].call.Signup? || b[n].calls[c].call.Login?
    requires Finishing(b[n].calls[c].pc) && b[n].calls[c].pc.outcome.Pair?
    ensures var t := b[n].calls[c].pc.outcome.token;
            && t in b[n].tokens && t in b[n].lineage && b[n].lineage[t] == Lineage(None, 0, c)
            && Authenticated(env, b[n], c, b[n].tokens[t].userId)
  {
    RunKeeps(env, b, evs, n);
    assert CallOk(env, b[n], c);
    assert TokenOk(env, b[n], b[n].calls[c].pc.outcome.token);
  }

  // --------------------------------------------------------------- progress

  /** No call is ever stuck: in every reachable state, a call that is not done has an
      event of its own that is not a crash (a Signup needs a hash that its password
      matches). It can also crash, which changes no table. */
  lemma NeverStuck(env: Env, b: seq<State>, evs: seq<Event>, n: nat, c: int,
                   freshUser: int, passwordHash: string, freshToken: int)
      returns (e: Event)
    requires IsRun(env, b, evs) && n < |b| && c in b[n].calls && !b[n].calls[c].pc.Done?
    requires freshUser !in b[n].users && freshToken !in b[n].tokens
    requires b[n].calls[c].call.Signup? ==> env.matches(passwordHash, b[n].calls[c].call.password)
    ensures e.c == c && !e.Crash? && Enabled(env, b[n], e) && Enabled(env, b[n], Crash(c))
    ensures var died := Progress(b[n].calls[c].call, Done(Failed(Internal)));
            Next(env, b[n], Crash(c)) == b[n].(calls := b[n].calls[c := died])
  {
    var s := b[n];
    RunKeeps(env, b, evs, n);
    AlwaysFits(env, b, evs, n, c);
    assert CallOk(env, s, c);
    var Progress(call, pc) := s.calls[c];
    match pc
    case Ready =>
      if call.Signup? {
        e := CreateUser(c, freshUser, passwordHash);
      } else if call.Login? {
        e := FindUser(c, None);
        if u :| u in s.users && s.users[u].email == call.email { e := FindUser(c, Some(u)); }
      } else {
        e := FindToken(c, None);
        if t :| t in s.tokens && s.tokens[t].hash == env.hash(call.plaintext) { e := FindToken(c, Some(t)); }
      }
    case UserFound(_, _) => e := CheckPassword(c);
    case Found(_, _) => e := CheckToken(c, 0);
    case RevokingAll(_, _) => e := RevokeAll(c, 0);
    case Revoking(_, _) => e := Revoke(c, 0);
    case Issuing(_, _) => e := InsertToken(c, freshToken, "", 0);
    case Returning(_) => e := Return(c);
  }

  /** Only a Refresh gets to RevokingAll. */
  predicate Fits(p: Progress) { p.pc.RevokingAll? ==> p.call.Refresh? }

  lemma {:induction false} AlwaysFits(env: Env, b: seq<State>, evs: seq<Event>, n: nat, c: int)
    requires IsRun(env, b, evs) && n < |b| && c in b[n].calls
    ensures Fits(b[n].calls[c])
  {
    if n > 0 {
      assert StepAt(env, b, evs, n - 1);
      if c in b[n - 1].calls { AlwaysFits(env, b, evs, n - 1, c); }
    }
  }
}
