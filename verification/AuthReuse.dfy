/** Reuse detection: what RevokeAllForUser guarantees afterwards. */
module AuthReuse {
  import opened Common
  import opened RefreshTokens
  import opened AuthProtocol
  import opened AuthInvariant
  import opened AuthRotation

  /** Token t is a, or was exchanged, in any number of steps, for a. */
  ghost predicate Descends(l: map<int, Lineage>, t: int, a: int)
    decreases Generation(l, t)
  {
    t == a || (HasParent(l, t) && Descends(l, l[t].parent.value, a))
  }

  /** The first token of t's chain that is not among the known ones. */
  function Entry(l: map<int, Lineage>, known: set<int>, t: int): int
    decreases Generation(l, t)
  {
    if HasParent(l, t) && l[t].parent.value !in known then Entry(l, known, l[t].parent.value) else t
  }

  lemma {:induction false} EntryDescends(l: map<int, Lineage>, known: set<int>, t: int)
    requires t !in known
    ensures Descends(l, t, Entry(l, known, t)) && Entry(l, known, t) !in known
    decreases Generation(l, t)
  {
    if HasParent(l, t) && l[t].parent.value !in known { EntryDescends(l, known, l[t].parent.value); }
  }

  lemma {:induction false} EntryFrame(l: map<int, Lineage>, known: set<int>, id: int, entry: Lineage, t: int)
    requires id !in l && t in l && ParentsPresent(l)
    ensures Entry(l[id := entry], known, t) == Entry(l, known, t)
    ensures Entry(l, known, t) in l
    decreases Generation(l, t)
  {
    if HasParent(l, t) {
      assert HasParent(l[id := entry], t);
      EntryFrame(l, known, id, entry, l[t].parent.value);
    }
  }

  /** A call that, in state s, has only the INSERT of a token for u left to do. */
  predicate AboutToIssue(s: State, c: int, u: int) {
    c in s.calls && s.calls[c].pc.Issuing? && s.calls[c].pc.userId == u
  }

  /** What may bring a token to user u after s0: an issue already in flight in
      s0, or a Login. */
  predicate Admissible(s0: State, s: State, u: int, c: int, source: Option<int>) {
    c in s.calls && (AboutToIssue(s0, c, u) || (source.None? && s.calls[c].call.Login?))
  }

  /** The chain of token t entered after s0 in an admissible way. */
  ghost predicate EntryOk(s0: State, s: State, u: int, t: int) {
    var a := Entry(s.lineage, s0.tokens.Keys, t);
    a in s.lineage && Admissible(s0, s, u, s.lineage[a].issuer, s.lineage[a].parent)
  }

  /** What call c is about to insert is admissible, or continues a token newer than s0. */
  ghost predicate IssueOk(s0: State, s: State, u: int, c: int)
    requires AboutToIssue(s, c, u)
  {
    match s.calls[c].pc.source
    case SignIn => Admissible(s0, s, u, c, None)
    case Rotation(p) => p !in s0.tokens || AboutToIssue(s0, c, u)
  }

  /** Holds of every state s after s0, when all rows of u are revoked in s0. */
  ghost predicate Aftermath(s0: State, s: State, u: int) {
    && (forall t :: t in s.tokens && t !in s0.tokens && s.tokens[t].userId == u ==> EntryOk(s0, s, u, t))
    && (forall c :: AboutToIssue(s, c, u) ==> IssueOk(s0, s, u, c))
  }

  ghost predicate AllRevoked(s: State, u: int) {
    forall t :: t in s.tokens && s.tokens[t].userId == u ==> !Live(s.tokens[t])
  }

  lemma IssueStaysOk(env: Env, s0: State, s: State, e: Event, u: int, c: int)
    requires Inv(env, s) && Enabled(env, s, e) && Evolves(s0, s) && AllRevoked(s0, u) && u in s0.users
    requires Aftermath(s0, s, u) && AboutToIssue(Next(env, s, e), c, u)
    ensures IssueOk(s0, Next(env, s, e), u, c)
  {
    if c == e.c {
      if c in s.calls { assert CallOk(env, s, c); }
      NewIssueOk(env, s0, s, e, u);
    } else {
      OthersStay(env, s, e, c);
      assert AboutToIssue(s, c, u) && IssueOk(s0, s, u, c);
    }
  }

  /** A call becomes ready to issue by creating its user, by a password check, or
      by revoking a live row. */
  lemma NewIssueOk(env: Env, s0: State, s: State, e: Event, u: int)
    requires Enabled(env, s, e) && Evolves(s0, s) && AllRevoked(s0, u) && u in s0.users
    requires AboutToIssue(Next(env, s, e), e.c, u) && (e.c in s.calls ==> CallOk(env, s, e.c))
    ensures IssueOk(s0, Next(env, s, e), u, e.c)
  {
    if e.Revoke? {
      assert RowIsLive(s.tokens, s.calls[e.c].pc.id);
    }
  }

  lemma EntryStaysOk(env: Env, s0: State, s: State, e: Event, u: int, t: int)
    requires Inv(env, s) && Enabled(env, s, e) && !e.InsertToken?
    requires EntryOk(s0, s, u, t)
    ensures EntryOk(s0, Next(env, s, e), u, t)
  {
    assert Next(env, s, e).lineage == s.lineage;
  }

  lemma InsertedEntryOk(env: Env, s0: State, s: State, e: Event, u: int)
    requires Inv(env, s) && Enabled(env, s, e) && e.InsertToken? && Aftermath(s0, s, u)
    requires HashFree(s.tokens, env.hash(e.plaintext)) && AboutToIssue(s, e.c, u)
    ensures EntryOk(s0, Next(env, s, e), u, e.id)
  {
    var s', pc := Next(env, s, e), s.calls[e.c].pc;
    InvGivesParents(env, s);
    assert CallOk(env, s, e.c) && IssueOk(s0, s, u, e.c);
    if Claim(pc).Some? {
      var p := pc.source.parent;
      assert HasParent(s'.lineage, e.id);
      EntryFrame(s.lineage, s0.tokens.Keys, e.id, s'.lineage[e.id], p);
      if p !in s0.tokens { assert EntryOk(s0, s, u, p); }
    }
  }

  lemma InsertEntryOk(env: Env, s0: State, s: State, e: Event, u: int, t: int)
    requires Inv(env, s) && Enabled(env, s, e) && e.InsertToken? && Aftermath(s0, s, u)
    requires t in Next(env, s, e).tokens && t !in s0.tokens && Next(env, s, e).tokens[t].userId == u
    ensures EntryOk(s0, Next(env, s, e), u, t)
  {
    if t in s.tokens {
      InvGivesParents(env, s);
      assert EntryOk(s0, s, u, t);
      EntryFrame(s.lineage, s0.tokens.Keys, e.id, LineageFor(s.lineage, s.calls[e.c].pc.source, e.c), t);
    } else {
      InsertedEntryOk(env, s0, s, e, u);
    }
  }

  lemma AftermathStep(env: Env, s0: State, s: State, e: Event, u: int)
    requires Inv(env, s) && Enabled(env, s, e) && Evolves(s0, s) && AllRevoked(s0, u) && u in s0.users
    requires Aftermath(s0, s, u)
    ensures Aftermath(s0, Next(env, s, e), u)
  {
    var s' := Next(env, s, e);
    forall c | AboutToIssue(s', c, u) ensures IssueOk(s0, s', u, c) {
      IssueStaysOk(env, s0, s, e, u, c);
    }
    forall t | t in s'.tokens && t !in s0.tokens && s'.tokens[t].userId == u ensures EntryOk(s0, s', u, t) {
      if e.InsertToken? {
        InsertEntryOk(env, s0, s, e, u, t);
      } else {
        EntryStaysOk(env, s0, s, e, u, t);
      }
    }
  }

  lemma AftermathNow(s: State, u: int)
    ensures Aftermath(s, s, u)
  {
  }

  lemma {:induction false} AftermathHolds(env: Env, b: seq<State>, evs: seq<Event>, i: nat, j: nat, u: int)
    requires IsRun(env, b, evs) && i <= j < |b| && AllRevoked(b[i], u) && u in b[i].users
    ensures Aftermath(b[i], b[j], u)
    decreases j
  {
    if i == j {
      AftermathNow(b[i], u);
    } else {
      AftermathHolds(env, b, evs, i, j - 1, u);
      RunKeeps(env, b, evs, j - 1);
      RunEvolves(env, b, evs, i, j - 1);
      assert StepAt(env, b, evs, j - 1);
      AftermathStep(env, b[i], b[j - 1], evs[j - 1], u);
    }
  }

  /** Event i of the run is reuse detection for user u. */
  ghost predicate Detects(b: seq<State>, evs: seq<Event>, i: nat, u: int) {
    && i < |evs| && |b| == |evs| + 1 && evs[i].RevokeAll?
    && evs[i].c in b[i].calls && b[i].calls[evs[i].c].pc.RevokingAll? && b[i].calls[evs[i].c].pc.userId == u
  }

  lemma DetectionRevokes(env: Env, b: seq<State>, evs: seq<Event>, i: nat, u: int)
    requires IsRun(env, b, evs) && Detects(b, evs, i, u)
    ensures AllRevoked(b[i + 1], u) && u in b[i + 1].users && b[i + 1].tokens.Keys == b[i].tokens.Keys
  {
    RunKeeps(env, b, evs, i);
    var c := evs[i].c;
    assert StepAt(env, b, evs, i) && CallOk(env, b[i], c);
    assert TokenOk(env, b[i], b[i].calls[c].pc.id);
  }

  /** After reuse detection every row the user had stays revoked for ever, and
      every token that is live later goes back to a token a that did not exist
      then and was issued by a call that had only its INSERT left to do at that
      moment, or by a Login. */
  lemma ReuseDetection(env: Env, b: seq<State>, evs: seq<Event>, i: nat, j: nat, u: int)
    requires IsRun(env, b, evs) && Detects(b, evs, i, u) && i < j < |b|
    ensures forall t :: t in b[i].tokens && b[i].tokens[t].userId == u ==> t in b[j].tokens && !Live(b[j].tokens[t])
    ensures forall t :: t in LiveTokens(b[j], u) ==>
              exists a :: Descends(b[j].lineage, t, a) && a in b[j].lineage && a !in b[i].tokens
                          && Admissible(b[i + 1], b[j], u, b[j].lineage[a].issuer, b[j].lineage[a].parent)
  {
    DetectionRevokes(env, b, evs, i, u);
    RunEvolves(env, b, evs, i, i + 1);
    RunEvolves(env, b, evs, i + 1, j);
    AftermathHolds(env, b, evs, i + 1, j, u);
    RunKeeps(env, b, evs, j);
    forall t | t in LiveTokens(b[j], u)
      ensures exists a :: Descends(b[j].lineage, t, a) && a in b[j].lineage && a !in b[i].tokens
                          && Admissible(b[i + 1], b[j], u, b[j].lineage[a].issuer, b[j].lineage[a].parent)
    {
      assert t !in b[i + 1].tokens && EntryOk(b[i + 1], b[j], u, t);
      EntryDescends(b[j].lineage, b[i + 1].tokens.Keys, t);
    }
  }

  // ------------------------------------------------------- sequential runs

  /** Every call is over before the next one begins. */
  ghost predicate OneAtATime(b: seq<State>, evs: seq<Event>)
    requires |b| == |evs| + 1
  {
    forall i, c :: 0 <= i < |evs| && evs[i].Begin? && c in b[i].calls ==> b[i].calls[c].pc.Done?
  }

  lemma {:induction false} OneActive(env: Env, b: seq<State>, evs: seq<Event>, i: nat, c: int, d: int)
    requires IsRun(env, b, evs) && OneAtATime(b, evs) && i < |b|
    requires c in b[i].calls && !b[i].calls[c].pc.Done? && d in b[i].calls && !b[i].calls[d].pc.Done?
    ensures c == d
  {
    if i > 0 {
      var s, e := b[i - 1], evs[i - 1];
      assert StepAt(env, b, evs, i - 1);
      if c in s.calls && d in s.calls { OneActive(env, b, evs, i - 1, c, d); }
    }
  }

  /** A newer token that goes back to an old one has an entry exchanged for an old one. */
  lemma {:induction false} EntryOfDescendant(l: map<int, Lineage>, known: set<int>, t: int, a: int)
    requires Descends(l, t, a) && a in known && t !in known
    requires forall x :: x in known && HasParent(l, x) ==> l[x].parent.value in known
    ensures var x := Entry(l, known, t); x in l && l[x].parent.Some?
    decreases Generation(l, t)
  {
    if l[t].parent.value !in known { EntryOfDescendant(l, known, l[t].parent.value, a); }
  }

  lemma {:induction false} DescendantUser(env: Env, s: State, t: int, a: int)
    requires Inv(env, s) && t in s.tokens && Descends(s.lineage, t, a)
    ensures a in s.tokens && s.tokens[a].userId == s.tokens[t].userId
    decreases Generation(s.lineage, t)
  {
    assert TokenOk(env, s, t);
    if t != a { DescendantUser(env, s, s.lineage[t].parent.value, a); }
  }

  /** When no exchange for u was in flight at detection, no token the user had
      and no descendant of one is ever live again. */
  lemma ChainsEndAtDetection(env: Env, b: seq<State>, evs: seq<Event>, i: nat, j: nat, u: int, t: int, a: int)
    requires IsRun(env, b, evs) && Detects(b, evs, i, u) && i < j < |b|
    requires InFlightRefreshes(b[i + 1], u) == {}
    requires t in b[j].tokens && Descends(b[j].lineage, t, a) && a in b[i].tokens && b[i].tokens[a].userId == u
    ensures !Live(b[j].tokens[t])
  {
    var s0, s := b[i + 1], b[j];
    DetectionRevokes(env, b, evs, i, u);
    RunKeeps(env, b, evs, i + 1);
    RunKeeps(env, b, evs, j);
    RunEvolves(env, b, evs, i, i + 1);
    RunEvolves(env, b, evs, i + 1, j);
    DescendantUser(env, s, t, a);
    if t !in s0.tokens {
      AftermathHolds(env, b, evs, i + 1, j, u);
      forall x | x in s0.tokens.Keys && HasParent(s.lineage, x) ensures s.lineage[x].parent.value in s0.tokens.Keys {
        assert TokenOk(env, s0, x);
      }
      assert EntryOk(s0, s, u, t);
      EntryOfDescendant(s.lineage, s0.tokens.Keys, t, a);
      EntryNotSignIn(env, s0, s, u, Entry(s.lineage, s0.tokens.Keys, t));
    }
  }

  /** The entry of a chain that had been in flight at s0 was a claim at s0. */
  lemma EntryNotSignIn(env: Env, s0: State, s: State, u: int, x: int)
    requires Inv(env, s0) && Inv(env, s) && Evolves(s0, s) && x in s.lineage && s.lineage[x].parent.Some?
    requires Admissible(s0, s, u, s.lineage[x].issuer, s.lineage[x].parent)
    ensures s.lineage[x].issuer in InFlightRefreshes(s0, u)
  {
    assert TokenOk(env, s, x);
    assert CallOk(env, s0, s.lineage[x].issuer);
  }

  /** An exchange in flight can bring its chain back to life with its next
      statement. */
  lemma InFlightEscapes(env: Env, s: State, u: int, c: int, id: int, plaintext: string, now: int)
    requires Inv(env, s) && AllRevoked(s, u) && c in InFlightRefreshes(s, u)
    requires id !in s.tokens && HashFree(s.tokens, env.hash(plaintext))
    ensures var e := InsertToken(c, id, plaintext, now);
            var p := Claim(s.calls[c].pc).value;
            && Enabled(env, s, e) && id in LiveTokens(Next(env, s, e), u)
            && Descends(Next(env, s, e).lineage, id, p) && p in s.tokens && s.tokens[p].userId == u
  {
    assert CallOk(env, s, c);
    var s', p := Next(env, s, InsertToken(c, id, plaintext, now)), Claim(s.calls[c].pc).value;
    assert HasParent(s'.lineage, id) && Descends(s'.lineage, p, p);
  }

  /** In a sequential run, after reuse detection no token the user then had, and
      no descendant of one, is ever exchanged again. */
  lemma SequentialReuse(env: Env, b: seq<State>, evs: seq<Event>, i: nat, j: nat, u: int, t: int, a: int)
    requires IsRun(env, b, evs) && OneAtATime(b, evs) && Detects(b, evs, i, u) && i < j < |evs|
    requires t in b[j].tokens && Descends(b[j].lineage, t, a) && a in b[i].tokens && b[i].tokens[a].userId == u
    ensures !Live(b[j].tokens[t]) && !Exchanges(b[j], evs[j], t)
  {
    assert StepAt(env, b, evs, i);
    var claims := InFlightRefreshes(b[i + 1], u);
    if |claims| > 0 { OneActive(env, b, evs, i + 1, Pick(claims), evs[i].c); }
    ChainsEndAtDetection(env, b, evs, i, j, u, t, a);
  }
}
