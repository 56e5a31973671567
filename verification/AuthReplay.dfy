/** Replay of an exchanged token in any interleaving, and why calls made one at a
    time are never answered NotFound. */
module AuthReplay {
  import opened Common
  import opened RefreshTokens
  import opened AuthProtocol
  import opened AuthInvariant
  import opened AuthRotation
  import opened AuthReuse
  import opened AuthOutcome

  /** Event j is the SELECT of a Refresh, call c, for this hash. */
  ghost predicate Presents(env: Env, b: seq<State>, evs: seq<Event>, c: int, hash: string, j: nat) {
    && Acts(b, evs, c, j) && evs[j].FindToken?
    && b[j].calls[c].call.Refresh? && env.hash(b[j].calls[c].call.plaintext) == hash
  }

  /** Row a, exchanged at event i, is what a later SELECT for its hash finds, revoked. */
  lemma ReplayReadsDead(env: Env, b: seq<State>, evs: seq<Event>, i: nat, a: int, c: int, j: nat)
    requires IsRun(env, b, evs) && i < j < |evs| && Exchanges(b[i], evs[i], a)
    requires Presents(env, b, evs, c, b[i].tokens[a].hash, j)
    ensures Reads(b, evs, c, a, j) && !Live(b[j].tokens[a]) && b[j].tokens[a].userId == b[i].tokens[a].userId
  {
    assert StepAt(env, b, evs, i) && StepAt(env, b, evs, j);
    RunEvolves(env, b, evs, i, i + 1);
    RunEvolves(env, b, evs, i + 1, j);
    RunKeeps(env, b, evs, j);
  }

  /** Once row a has been exchanged, every Refresh whose SELECT comes later, and
      which ends without a crash, ran reuse detection at an event k: it is answered
      TokenInvalid, and every descendant of a that existed at k, and every other
      row of the user, is revoked for ever. */
  lemma ReplayDetected(env: Env, b: seq<State>, evs: seq<Event>, i: nat, a: int, c: int, j: nat, n: nat)
      returns (k: nat)
    requires IsRun(env, b, evs) && i < j < n < |b| && Exchanges(b[i], evs[i], a)
    requires Presents(env, b, evs, c, b[i].tokens[a].hash, j)
    requires c in b[n].calls && Finishing(b[n].calls[c].pc) && !CrashedBetween(evs, j, n, c)
    ensures b[n].calls[c].pc.outcome == Failed(TokenInvalid)
    ensures j < k < n && evs[k].c == c && Detects(b, evs, k, b[i].tokens[a].userId)
    ensures forall t :: t in b[k].tokens && Descends(b[k].lineage, t, a) ==> RevokedFrom(b, k + 1, t)
    ensures forall t :: t in b[k].tokens && b[k].tokens[t].userId == b[i].tokens[a].userId ==> RevokedFrom(b, k + 1, t)
  {
    ReplayReadsDead(env, b, evs, i, a, c, j);
    DeadReadDetects(env, b, evs, c, a, j, n);
    RunEvolves(env, b, evs, j, n);
    k :| j < k < n && SawReuse(env, b, evs, c, k) && b[k].calls[c].pc.id == a;
    DetectsOwner(env, b, evs, c, k);
    RunEvolves(env, b, evs, i, k);
    RunKeeps(env, b, evs, k);
    forall t | t in b[k].tokens && b[k].tokens[t].userId == b[i].tokens[a].userId ensures RevokedFrom(b, k + 1, t) {
      forall x | k < x < |b| ensures t in b[x].tokens && !Live(b[x].tokens[t]) {
        ReuseDetection(env, b, evs, k, x, b[i].tokens[a].userId);
      }
    }
    forall t | t in b[k].tokens && Descends(b[k].lineage, t, a) ensures RevokedFrom(b, k + 1, t) {
      DescendantUser(env, b[k], t, a);
    }
  }

  /** Row t is revoked in every state from position n on. */
  ghost predicate RevokedFrom(b: seq<State>, n: nat, t: int) {
    forall x :: n <= x < |b| ==> t in b[x].tokens && !Live(b[x].tokens[t])
  }

  /** Reuse detection is for the owner of the row that was presented. */
  lemma DetectsOwner(env: Env, b: seq<State>, evs: seq<Event>, c: int, k: nat)
    requires IsRun(env, b, evs) && SawReuse(env, b, evs, c, k)
    ensures Detects(b, evs, k, b[k].tokens[b[k].calls[c].pc.id].userId)
  {
    RunKeeps(env, b, evs, k);
    assert CallOk(env, b[k], c);
  }

  // ------------------------------------------------------- sequential runs

  /** A Signup or Login has no business with stored rows. */
  lemma {:induction false} SignInNeverNotFound(env: Env, b: seq<State>, evs: seq<Event>, n: nat, c: int)
    requires IsRun(env, b, evs) && n < |b| && c in b[n].calls
    requires b[n].calls[c].call.Signup? || b[n].calls[c].call.Login?
    ensures match b[n].calls[c].pc
            case Found(_, _) => false
            case Revoking(_, _) => false
            case RevokingAll(_, _) => false
            case Returning(o) => o != Failed(NotFound)
            case Done(o) => o != Failed(NotFound)
            case _ => true
  {
    if n > 0 {
      assert StepAt(env, b, evs, n - 1);
      if c in b[n - 1].calls {
        StepEvolves(env, b, evs, n);
        SignInNeverNotFound(env, b, evs, n - 1, c);
      }
    }
  }

  /** When every call is over before the next one begins, no call is ever answered
      NotFound. */
  lemma SequentialNeverNotFound(env: Env, b: seq<State>, evs: seq<Event>, n: nat, c: int)
    requires IsRun(env, b, evs) && OneAtATime(b, evs) && n < |b|
    requires c in b[n].calls && Finishing(b[n].calls[c].pc)
    ensures b[n].calls[c].pc.outcome != Failed(NotFound)
  {
    var call := b[n].calls[c].call;
    if call.Signup? || call.Login? {
      SignInNeverNotFound(env, b, evs, n, c);
    } else if b[n].calls[c].pc.outcome == Failed(NotFound) {
      EveryOutcomeExplained(env, b, evs, n, c);
      var k: nat :| k < n && LostRace(env, b, evs, c, k);
      NoRace(env, b, evs, c, k);
    }
  }

  lemma Killer(b: seq<State>, evs: seq<Event>, j: nat, k: nat, c: int, id: int) returns (m: nat)
    requires KilledBetween(b, evs, j, k, c, id)
    ensures j < m < k && m < |evs| && Kills(b, m, id) && evs[m].c != c
  {
    m :| j < m < k && m < |evs| && Kills(b, m, id) && evs[m].c != c;
  }

  lemma NoRace(env: Env, b: seq<State>, evs: seq<Event>, c: int, k: nat)
    requires IsRun(env, b, evs) && OneAtATime(b, evs)
    ensures !LostRace(env, b, evs, c, k)
  {
    if LostRace(env, b, evs, c, k) {
      var id := b[k].calls[c].pc.id;
      var j: nat :| j < k && Reads(b, evs, c, id, j) && KilledBetween(b, evs, j, k, c, id);
      var m := Killer(b, evs, j, k, c, id);
      assert StepAt(env, b, evs, m);
      RunEvolves(env, b, evs, j, m);
      RunEvolves(env, b, evs, m, k);
      OneActive(env, b, evs, m, c, evs[m].c);
    }
  }
}
