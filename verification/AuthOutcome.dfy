/** Why a Refresh or Logout ended the way it did, in any interleaving. */
module AuthOutcome {
  import opened Common
  import opened RefreshTokens
  import opened AuthProtocol
  import opened AuthInvariant
  import opened AuthRotation

  /** None of the first n events is a write of call c to the token table. */
  ghost predicate Quiet(b: seq<State>, evs: seq<Event>, n: nat, c: int)
    requires n <= |evs| && |b| == |evs| + 1
  {
    forall i :: 0 <= i < n && evs[i].c == c ==> b[i + 1].tokens == b[i].tokens
  }

  /** Event k of the run is an event of call c. */
  ghost predicate Acts(b: seq<State>, evs: seq<Event>, c: int, k: nat) {
    k < |evs| && k < |b| && evs[k].c == c && c in b[k].calls
  }

  /** Event j is the SELECT of call c, and it found row id. */
  ghost predicate Reads(b: seq<State>, evs: seq<Event>, c: int, id: int, j: nat) {
    Acts(b, evs, c, j) && evs[j].FindToken? && evs[j].found == Some(id) && id in b[j].tokens
  }

  /** Before event n call c read row id, and then the row was as given. */
  ghost predicate Selected(b: seq<State>, evs: seq<Event>, n: nat, c: int, id: int, row: Token) {
    exists j: nat :: j < n && Reads(b, evs, c, id, j) && b[j].tokens[id] == row
  }

  ghost predicate SelectedLive(b: seq<State>, evs: seq<Event>, n: nat, c: int, id: int) {
    exists j: nat :: j < n && Reads(b, evs, c, id, j) && Live(b[j].tokens[id])
  }

  ghost predicate SelectedDead(b: seq<State>, evs: seq<Event>, n: nat, c: int, id: int) {
    exists j: nat :: j < n && Reads(b, evs, c, id, j) && !Live(b[j].tokens[id])
  }

  /** Event m takes row id from live to revoked. */
  ghost predicate Kills(b: seq<State>, m: nat, id: int) {
    m + 1 < |b| && RowIsLive(b[m].tokens, id) && !RowIsLive(b[m + 1].tokens, id)
  }

  /** Between events j and k another call than c revoked row id. */
  ghost predicate KilledBetween(b: seq<State>, evs: seq<Event>, j: nat, k: nat, c: int, id: int) {
    exists m: nat :: j < m < k && m < |evs| && Kills(b, m, id) && evs[m].c != c
  }

  /** No row with the presented hash existed. */
  ghost predicate SawUnknown(env: Env, b: seq<State>, evs: seq<Event>, c: int, k: nat) {
    && Acts(b, evs, c, k) && evs[k].FindToken? && (b[k].calls[c].call.Refresh? || b[k].calls[c].call.Logout?)
    && HashFree(b[k].tokens, env.hash(b[k].calls[c].call.plaintext))
  }

  /** The presented row was live when read, and expired when checked. */
  ghost predicate SawExpired(env: Env, b: seq<State>, evs: seq<Event>, c: int, k: nat) {
    && Acts(b, evs, c, k) && evs[k].CheckToken? && b[k].calls[c].call.Refresh? && b[k].calls[c].pc.Found?
    && Presented(env, b[k], c, b[k].calls[c].pc.id) && evs[k].now > b[k].tokens[b[k].calls[c].pc.id].expiresAt
    && SelectedLive(b, evs, k, c, b[k].calls[c].pc.id)
  }

  /** The presented row was revoked when read, and every row of its user was
      revoked with it. */
  ghost predicate SawReuse(env: Env, b: seq<State>, evs: seq<Event>, c: int, k: nat) {
    && Acts(b, evs, c, k) && evs[k].RevokeAll? && b[k].calls[c].pc.RevokingAll?
    && var id := b[k].calls[c].pc.id;
       && Presented(env, b[k], c, id) && !Live(b[k].tokens[id]) && SelectedDead(b, evs, k, c, id)
       && forall t :: t in b[k].tokens && b[k].tokens[t].userId == b[k].tokens[id].userId ==>
            k + 1 < |b| && t in b[k + 1].tokens && !Live(b[k + 1].tokens[t])
  }

  /** The presented row was live when read, and was revoked by another call
      between the SELECT and the conditional UPDATE. */
  ghost predicate LostRace(env: Env, b: seq<State>, evs: seq<Event>, c: int, k: nat) {
    && Acts(b, evs, c, k) && evs[k].Revoke? && b[k].calls[c].pc.Revoking?
    && var id := b[k].calls[c].pc.id;
       && Presented(env, b[k], c, id) && !Live(b[k].tokens[id])
       && exists j: nat ::
            j < k && Reads(b, evs, c, id, j) && Live(b[j].tokens[id]) && KilledBetween(b, evs, j, k, c, id)
  }

  /** A Logout read the presented row as revoked already. */
  ghost predicate SawRevoked(env: Env, b: seq<State>, evs: seq<Event>, c: int, k: nat) {
    && Acts(b, evs, c, k) && evs[k].CheckToken? && b[k].calls[c].pc.Found?
    && Presented(env, b[k], c, b[k].calls[c].pc.id) && SelectedDead(b, evs, k, c, b[k].calls[c].pc.id)
  }

  /** The presented row id was live when read and unexpired when call c checked it. */
  ghost predicate CheckedFresh(env: Env, b: seq<State>, evs: seq<Event>, c: int, id: int, k: nat) {
    && Acts(b, evs, c, k) && evs[k].CheckToken? && Presented(env, b[k], c, id) && SelectedLive(b, evs, k, c, id)
    && evs[k].now <= b[k].tokens[id].expiresAt
  }

  /** Call c revoked the presented row id itself. */
  ghost predicate WonRace(env: Env, b: seq<State>, evs: seq<Event>, c: int, id: int, k: nat) {
    && Acts(b, evs, c, k) && evs[k].Revoke? && b[k].calls[c].pc.Revoking? && b[k].calls[c].pc.id == id
    && Presented(env, b[k], c, id) && RowIsLive(b[k].tokens, id)
  }

  ghost predicate FreshBefore(env: Env, b: seq<State>, evs: seq<Event>, n: nat, c: int, id: int) {
    exists k: nat :: k < n && CheckedFresh(env, b, evs, c, id, k)
  }

  ghost predicate WonBefore(env: Env, b: seq<State>, evs: seq<Event>, n: nat, c: int, id: int) {
    exists k: nat :: k < n && WonRace(env, b, evs, c, id, k)
  }

  /** Why a Refresh or Logout has the outcome o, or none yet. */
  ghost predicate OutcomeExplained(env: Env, b: seq<State>, evs: seq<Event>, n: nat, c: int, call: Call, o: Outcome)
    requires n <= |evs| && |b| == |evs| + 1
  {
    match o
    case Pair(t) =>
      && call.Refresh? && t in b[n].lineage && b[n].lineage[t].parent.Some?
      && FreshBefore(env, b, evs, n, c, b[n].lineage[t].parent.value)
      && WonBefore(env, b, evs, n, c, b[n].lineage[t].parent.value)
    case LoggedOut =>
      && call.Logout?
      && (|| (Quiet(b, evs, n, c) && exists k: nat :: k < n && SawRevoked(env, b, evs, c, k))
          || exists id, k: nat :: k < n && WonRace(env, b, evs, c, id, k))
    case Failed(NotFound) => Quiet(b, evs, n, c) && exists k: nat :: k < n && LostRace(env, b, evs, c, k)
    case Failed(TokenInvalid) =>
      || (Quiet(b, evs, n, c) && exists k: nat :: k < n && SawUnknown(env, b, evs, c, k))
      || (Quiet(b, evs, n, c) && exists k: nat :: k < n && SawExpired(env, b, evs, c, k))
      || (call.Refresh? && exists k: nat :: k < n && SawReuse(env, b, evs, c, k))
    case Failed(err) =>
      && err == Internal
      && (|| Quiet(b, evs, n, c)
          || (exists id, k: nat :: k < n && WonRace(env, b, evs, c, id, k))
          || (exists k: nat :: k < n && SawReuse(env, b, evs, c, k)))
  }

  ghost predicate Explained(env: Env, b: seq<State>, evs: seq<Event>, n: nat, c: int)
    requires n <= |evs| && |b| == |evs| + 1 && c in b[n].calls
  {
    var Progress(call, pc) := b[n].calls[c];
    match pc
    case Found(id, row) => Quiet(b, evs, n, c) && Selected(b, evs, n, c, id, row)
    case Revoking(id, _) =>
      && Quiet(b, evs, n, c) && SelectedLive(b, evs, n, c, id)
      && (call.Refresh? ==> FreshBefore(env, b, evs, n, c, id))
    case RevokingAll(id, _) => Quiet(b, evs, n, c) && SelectedDead(b, evs, n, c, id)
    case Issuing(_, source) =>
      && call.Refresh? && source.Rotation?
      && FreshBefore(env, b, evs, n, c, source.parent) && WonBefore(env, b, evs, n, c, source.parent)
    case Returning(o) => OutcomeExplained(env, b, evs, n, c, call, o)
    case Done(o) => OutcomeExplained(env, b, evs, n, c, call, o)
    case _ => Quiet(b, evs, n, c)
  }

  /** An outcome stays explained by events that do not write for call c. */
  lemma OutcomeStays(env: Env, b: seq<State>, evs: seq<Event>, n: nat, c: int, call: Call, o: Outcome)
    requires |b| == |evs| + 1 && 0 < n <= |evs| && Evolves(b[n - 1], b[n])
    requires evs[n - 1].c == c ==> b[n].tokens == b[n - 1].tokens
    requires OutcomeExplained(env, b, evs, n - 1, c, call, o)
    ensures OutcomeExplained(env, b, evs, n, c, call, o)
  {
  }

  /** Events of other calls do not disturb an explanation. */
  lemma OthersExplained(env: Env, b: seq<State>, evs: seq<Event>, n: nat, c: int)
    requires IsRun(env, b, evs) && 0 < n <= |evs| && c in b[n - 1].calls && evs[n - 1].c != c
    requires Explained(env, b, evs, n - 1, c) && Evolves(b[n - 1], b[n])
    ensures c in b[n].calls && Explained(env, b, evs, n, c)
  {
    assert StepAt(env, b, evs, n - 1);
    assert b[n].calls[c] == b[n - 1].calls[c];
    var pc := b[n].calls[c].pc;
    if Finishing(pc) { OutcomeStays(env, b, evs, n, c, b[n].calls[c].call, pc.outcome); }
  }

  /** Call c, a Refresh or Logout, acts in the last of n events. */
  ghost predicate LastActor(env: Env, b: seq<State>, evs: seq<Event>, n: nat, c: int) {
    && |b| == |evs| + 1 && 0 < n <= |evs| && Acts(b, evs, c, n - 1)
    && (b[n - 1].calls[c].call.Refresh? || b[n - 1].calls[c].call.Logout?)
    && Enabled(env, b[n - 1], evs[n - 1]) && b[n] == Next(env, b[n - 1], evs[n - 1]) && c in b[n].calls
    && Explained(env, b, evs, n - 1, c) && CallOk(env, b[n - 1], c)
  }

  lemma CheckExplained(env: Env, b: seq<State>, evs: seq<Event>, n: nat, c: int)
    requires LastActor(env, b, evs, n, c) && evs[n - 1].CheckToken?
    ensures Explained(env, b, evs, n, c)
  {
    var pc := b[n - 1].calls[c].pc;
    if !Live(pc.row) {
      assert SawRevoked(env, b, evs, c, n - 1);
    } else if evs[n - 1].now > pc.row.expiresAt {
      if b[n - 1].calls[c].call.Refresh? { assert SawExpired(env, b, evs, c, n - 1); }
    } else {
      assert CheckedFresh(env, b, evs, c, pc.id, n - 1);
    }
  }

  /** A row that was live and is not any more was revoked in between. */
  lemma {:induction false} FirstKill(b: seq<State>, id: int, j: nat, k: nat) returns (m: nat)
    requires j <= k < |b| && RowIsLive(b[j].tokens, id) && !RowIsLive(b[k].tokens, id)
    ensures j <= m < k && Kills(b, m, id)
    decreases k - j
  {
    m := j;
    if RowIsLive(b[j + 1].tokens, id) { m := FirstKill(b, id, j + 1, k); }
  }

  lemma RevokeExplained(env: Env, b: seq<State>, evs: seq<Event>, n: nat, c: int)
    requires LastActor(env, b, evs, n, c) && evs[n - 1].Revoke?
    ensures Explained(env, b, evs, n, c)
  {
    var id := b[n - 1].calls[c].pc.id;
    if RowIsLive(b[n - 1].tokens, id) {
      assert WonRace(env, b, evs, c, id, n - 1);
    } else {
      var j: nat :| j < n - 1 && Reads(b, evs, c, id, j) && Live(b[j].tokens[id]);
      var m := FirstKill(b, id, j, n - 1);
      assert Kills(b, m, id) && evs[m].c != c;
      assert LostRace(env, b, evs, c, n - 1);
    }
  }

  lemma ReuseExplained(env: Env, b: seq<State>, evs: seq<Event>, n: nat, c: int)
    requires LastActor(env, b, evs, n, c) && evs[n - 1].RevokeAll?
    ensures Explained(env, b, evs, n, c)
  {
    assert SawReuse(env, b, evs, c, n - 1);
  }

  /** The event of call c itself explains where it goes. */
  lemma ActorExplained(env: Env, b: seq<State>, evs: seq<Event>, n: nat, c: int)
    requires LastActor(env, b, evs, n, c) && Evolves(b[n - 1], b[n])
    ensures Explained(env, b, evs, n, c)
  {
    var s, e := b[n - 1], evs[n - 1];
    if e.FindToken? {
      if e.found.None? { assert SawUnknown(env, b, evs, c, n - 1); }
    } else if e.CheckToken? {
      CheckExplained(env, b, evs, n, c);
    } else if e.Revoke? {
      RevokeExplained(env, b, evs, n, c);
    } else if e.RevokeAll? {
      ReuseExplained(env, b, evs, n, c);
    } else if e.Return? {
      OutcomeStays(env, b, evs, n, c, s.calls[c].call, s.calls[c].pc.outcome);
    }
  }

  /** In every run, every Refresh or Logout is explained by its own events:
      a pair means that the presented row was live when read, unexpired when
      checked and revoked by this very call; NotFound means that the row was live
      when read, another call revoked it before the conditional UPDATE, and
      nothing was written; TokenInvalid means that the row was unknown, or live
      when read and expired, and nothing was written, or that it was revoked when
      read and every row of the user was revoked; LoggedOut means that the row
      was revoked when read and nothing was written, or that this call revoked
      it; any other failure is internal, and what was written before it is the
      presented row's revocation or that of the user's rows. */
  lemma {:induction false} EveryOutcomeExplained(env: Env, b: seq<State>, evs: seq<Event>, n: nat, c: int)
    requires IsRun(env, b, evs) && n <= |evs| && c in b[n].calls
    requires b[n].calls[c].call.Refresh? || b[n].calls[c].call.Logout?
    ensures Explained(env, b, evs, n, c)
  {
    if n > 0 {
      if c in b[n - 1].calls {
        StepEvolves(env, b, evs, n);
        EveryOutcomeExplained(env, b, evs, n - 1, c);
        StepExplained(env, b, evs, n, c);
      } else {
        BeforeBegin(env, b, evs, n - 1, c);
        JustBegun(env, b, evs, n, c);
      }
    }
  }

  lemma StepExplained(env: Env, b: seq<State>, evs: seq<Event>, n: nat, c: int)
    requires IsRun(env, b, evs) && 0 < n <= |evs| && c in b[n - 1].calls && c in b[n].calls
    requires b[n - 1].calls[c].call.Refresh? || b[n - 1].calls[c].call.Logout?
    requires Evolves(b[n - 1], b[n]) && Explained(env, b, evs, n - 1, c)
    ensures Explained(env, b, evs, n, c)
  {
    if evs[n - 1].c == c {
      RunKeeps(env, b, evs, n - 1);
      assert CallOk(env, b[n - 1], c);
      assert StepAt(env, b, evs, n - 1) && LastActor(env, b, evs, n, c);
      ActorExplained(env, b, evs, n, c);
    } else {
      OthersExplained(env, b, evs, n, c);
    }
  }

  /** The first event of a call writes nothing. */
  lemma JustBegun(env: Env, b: seq<State>, evs: seq<Event>, n: nat, c: int)
    requires IsRun(env, b, evs) && 0 < n <= |evs| && c !in b[n - 1].calls && c in b[n].calls
    requires Quiet(b, evs, n - 1, c)
    ensures Explained(env, b, evs, n, c)
  {
    assert StepAt(env, b, evs, n - 1);
  }

  /** A call does nothing before it begins. */
  lemma {:induction false} BeforeBegin(env: Env, b: seq<State>, evs: seq<Event>, n: nat, c: int)
    requires IsRun(env, b, evs) && n <= |evs| && c !in b[n].calls
    ensures Quiet(b, evs, n, c)
  {
    if n > 0 {
      StepEvolves(env, b, evs, n);
      BeforeBegin(env, b, evs, n - 1, c);
    }
  }

  // ------------------------------------------------ what the SELECT decides

  /** Event k is the conditional UPDATE of call c on row id. */
  ghost predicate Updates(b: seq<State>, evs: seq<Event>, c: int, id: int, k: nat) {
    Acts(b, evs, c, k) && evs[k].Revoke? && b[k].calls[c].pc.Revoking? && b[k].calls[c].pc.id == id
  }

  /** The exact condition for NotFound: whoever reaches the UPDATE had read the row
      as live, at event j, and is answered NotFound if and only if another call
      revoked the row after that. */
  lemma NotFoundIff(env: Env, b: seq<State>, evs: seq<Event>, c: int, id: int, k: nat) returns (j: nat)
    requires IsRun(env, b, evs) && Updates(b, evs, c, id, k)
    ensures j < k && Reads(b, evs, c, id, j) && Live(b[j].tokens[id])
    ensures c in b[k + 1].calls
    ensures b[k + 1].calls[c].pc == Returning(Failed(NotFound)) <==> KilledBetween(b, evs, j, k, c, id)
  {
    assert StepAt(env, b, evs, k);
    EveryOutcomeExplained(env, b, evs, k, c);
    j :| j < k && Reads(b, evs, c, id, j) && Live(b[j].tokens[id]);
    if RowIsLive(b[k].tokens, id) {
      forall m | j < m < k ensures !Kills(b, m, id) {
        RunEvolves(env, b, evs, m, m + 1);
        RunEvolves(env, b, evs, m + 1, k);
      }
    } else {
      var m := FirstKill(b, id, j, k);
      assert Kills(b, m, id) && evs[m].c != c;
    }
  }

  /** Between events j and n call c crashed. */
  ghost predicate CrashedBetween(evs: seq<Event>, j: nat, n: nat, c: int) {
    exists k: nat :: j < k < n && k < |evs| && evs[k] == Crash(c)
  }

  /** Between events j and n call c answered its reuse detection. */
  ghost predicate DetectedBetween(env: Env, b: seq<State>, evs: seq<Event>, j: nat, n: nat, c: int, id: int) {
    exists k: nat :: j < k < n && SawReuse(env, b, evs, c, k) && b[k].calls[c].pc.id == id
  }

  /** What call c can have done by event n when event j read row id as revoked. */
  ghost predicate AfterDeadRead(env: Env, b: seq<State>, evs: seq<Event>, c: int, id: int, j: nat, n: nat)
    requires n < |b| && c in b[n].calls
  {
    var Progress(call, pc) := b[n].calls[c];
    match pc
    case Found(i, row) => i == id && !Live(row)
    case RevokingAll(i, _) => i == id && call.Refresh?
    case Returning(o) => DeadReadOutcome(env, b, evs, c, id, j, n, o)
    case Done(o) => DeadReadOutcome(env, b, evs, c, id, j, n, o)
    case _ => false
  }

  ghost predicate DeadReadOutcome(env: Env, b: seq<State>, evs: seq<Event>, c: int, id: int, j: nat, n: nat, o: Outcome)
    requires n < |b| && c in b[n].calls
  {
    || (o == Failed(Internal) && CrashedBetween(evs, j, n, c))
    || (o == LoggedOut && b[n].calls[c].call.Logout?)
    || (o == Failed(TokenInvalid) && b[n].calls[c].call.Refresh? && DetectedBetween(env, b, evs, j, n, c, id))
  }

  /** The other side: a Refresh that reads the row as revoked runs reuse detection
      and is answered TokenInvalid, or crashes; a Logout is answered LoggedOut or
      crashes. Neither is ever answered NotFound. */
  lemma {:induction false} DeadReadDetects(env: Env, b: seq<State>, evs: seq<Event>, c: int, id: int, j: nat, n: nat)
    requires IsRun(env, b, evs) && Reads(b, evs, c, id, j) && !Live(b[j].tokens[id]) && j < n < |b|
    ensures c in b[n].calls && AfterDeadRead(env, b, evs, c, id, j, n)
    decreases n
  {
    assert StepAt(env, b, evs, n - 1);
    if n - 1 > j {
      DeadReadDetects(env, b, evs, c, id, j, n - 1);
      StepEvolves(env, b, evs, n);
      RunKeeps(env, b, evs, n - 1);
      assert CallOk(env, b[n - 1], c);
      if evs[n - 1].c == c { DeadReadStep(env, b, evs, c, id, j, n); }
    }
  }

  lemma DeadReadStep(env: Env, b: seq<State>, evs: seq<Event>, c: int, id: int, j: nat, n: nat)
    requires |b| == |evs| + 1 && Reads(b, evs, c, id, j) && !Live(b[j].tokens[id]) && j < n - 1 < |evs|
    requires StepAt(env, b, evs, n - 1) && evs[n - 1].c == c && c in b[n - 1].calls && c in b[n].calls
    requires CallOk(env, b[n - 1], c) && AfterDeadRead(env, b, evs, c, id, j, n - 1)
    ensures AfterDeadRead(env, b, evs, c, id, j, n)
  {
    var e := evs[n - 1];
    if e.Crash? {
      assert CrashedBetween(evs, j, n, c);
    } else if e.RevokeAll? {
      assert SawReuse(env, b, evs, c, n - 1);
    }
  }
}
