/** Rotation: single use of every refresh token, chains, and provenance. */
module AuthRotation {
  import opened Common
  import opened RefreshTokens
  import opened AuthProtocol
  import opened AuthInvariant

  /** The token was exchanged for an older one; exchanges lower the generation. */
  predicate HasParent(l: map<int, Lineage>, t: int) {
    && t in l && l[t].parent.Some? && l[t].parent.value in l
    && l[l[t].parent.value].generation < l[t].generation
  }

  function Generation(l: map<int, Lineage>, t: int): nat { if t in l then l[t].generation else 0 }

  /** The first token of the chain that t belongs to. */
  function RootOf(l: map<int, Lineage>, t: int): int
    decreases Generation(l, t)
  {
    if HasParent(l, t) then RootOf(l, l[t].parent.value) else t
  }

  ghost predicate ParentsPresent(l: map<int, Lineage>) {
    forall x :: x in l && l[x].parent.Some? ==> l[x].parent.value in l
  }

  /** Issuing a token does not change the chain of the others. */
  lemma {:induction false} RootFrame(l: map<int, Lineage>, id: int, entry: Lineage, t: int)
    requires id !in l && t in l && ParentsPresent(l)
    ensures RootOf(l[id := entry], t) == RootOf(l, t)
    decreases Generation(l, t)
  {
    if HasParent(l, t) {
      assert HasParent(l[id := entry], t);
      RootFrame(l, id, entry, l[t].parent.value);
    }
  }

  /** Row id is revoked by event e of a Refresh: the row is exchanged. */
  ghost predicate Exchanges(s: State, e: Event, id: int) {
    && e.Revoke? && e.c in s.calls && s.calls[e.c].call.Refresh? && s.calls[e.c].pc.Revoking?
    && s.calls[e.c].pc.id == id && RowIsLive(s.tokens, id)
  }

  /** In every run a row is exchanged at most once. */
  lemma AtMostOneExchange(env: Env, b: seq<State>, evs: seq<Event>, id: int, i: nat, j: nat)
    requires IsRun(env, b, evs) && i < j < |evs|
    requires Exchanges(b[i], evs[i], id)
    ensures !Exchanges(b[j], evs[j], id)
  {
    RunEvolves(env, b, evs, i + 1, j);
    assert StepAt(env, b, evs, i);
    assert id in b[i + 1].tokens && !Live(b[i + 1].tokens[id]);
  }

  /** Two Refresh calls that both returned a pair presented different rows. */
  lemma OneWinnerPerRow(env: Env, b: seq<State>, evs: seq<Event>, i: nat, c: int, d: int)
    requires IsRun(env, b, evs) && i < |b|
    requires Rotated(b[i], c) && Rotated(b[i], d)
    requires b[i].lineage[b[i].calls[c].pc.outcome.token].parent == b[i].lineage[b[i].calls[d].pc.outcome.token].parent
    ensures c == d
  {
    RunKeeps(env, b, evs, i);
    assert CallOk(env, b[i], c) && CallOk(env, b[i], d);
    assert TokenOk(env, b[i], b[i].calls[c].pc.outcome.token);
  }

  ghost predicate Rotated(s: State, c: int) {
    && c in s.calls && s.calls[c].call.Refresh? && Finishing(s.calls[c].pc)
    && s.calls[c].pc.outcome.Pair? && s.calls[c].pc.outcome.token in s.lineage
  }

  // ---------------------------------------------------------------- chains

  /** What can still act for a chain: a live row, or a Refresh that has revoked
      a row and not yet inserted the next one. */
  datatype Holder = Row(id: int) | InFlight(c: int)

  predicate Holds(s: State, h: Holder) {
    match h
    case Row(id) => RowIsLive(s.tokens, id)
    case InFlight(c) => c in s.calls && Claim(s.calls[c].pc).Some?
  }

  function Chain(s: State, h: Holder): int
    requires Holds(s, h)
  {
    match h
    case Row(id) => RootOf(s.lineage, id)
    case InFlight(c) => RootOf(s.lineage, Claim(s.calls[c].pc).value)
  }

  /** At most one holder per chain. */
  ghost predicate ChainsExclusive(s: State) {
    forall h, k :: Holds(s, h) && Holds(s, k) && Chain(s, h) == Chain(s, k) ==> h == k
  }

  lemma InvGivesParents(env: Env, s: State)
    requires Inv(env, s)
    ensures ParentsPresent(s.lineage)
  {
    forall x | x in s.lineage && s.lineage[x].parent.Some? ensures s.lineage[x].parent.value in s.lineage {
      assert TokenOk(env, s, x);
    }
  }

  /** Where the holder h of the next state comes from: itself, or the row or
      call that it replaces. */
  function Origin(s: State, e: Event, h: Holder): Holder {
    if e.c in s.calls && h == InFlight(e.c) && s.calls[e.c].pc.Revoking? then Row(s.calls[e.c].pc.id)
    else if e.InsertToken? && h == Row(e.id) then InFlight(e.c)
    else h
  }

  /** A sign-in starts a chain with one holder. */
  predicate Starts(s: State, e: Event, h: Holder) {
    e.InsertToken? && h == Row(e.id) && e.c in s.calls && s.calls[e.c].pc.Issuing? && s.calls[e.c].pc.source.SignIn?
  }

  /** Every holder after a step starts a new chain or continues the chain of its origin. */
  lemma HolderContinues(env: Env, s: State, e: Event, h: Holder)
    requires Inv(env, s) && Enabled(env, s, e)
    requires Holds(Next(env, s, e), h) && !Starts(s, e, h)
    ensures Holds(s, Origin(s, e, h))
    ensures Chain(Next(env, s, e), h) == Chain(s, Origin(s, e, h))
  {
    if e.InsertToken? {
      InsertContinues(env, s, e, h);
    } else {
      if e.c in s.calls { assert CallOk(env, s, e.c); }
      assert Next(env, s, e).lineage == s.lineage;
    }
  }

  lemma InsertContinues(env: Env, s: State, e: Event, h: Holder)
    requires Inv(env, s) && Enabled(env, s, e) && e.InsertToken?
    requires Holds(Next(env, s, e), h) && !Starts(s, e, h)
    ensures Holds(s, Origin(s, e, h))
    ensures Chain(Next(env, s, e), h) == Chain(s, Origin(s, e, h))
  {
    InvGivesParents(env, s);
    assert CallOk(env, s, e.c);
    var s', pc := Next(env, s, e), s.calls[e.c].pc;
    if h == Row(e.id) {
      assert HasParent(s'.lineage, e.id);
      RootFrame(s.lineage, e.id, s'.lineage[e.id], pc.source.parent);
    } else {
      var t := if h.Row? then h.id else Claim(s.calls[h.c].pc).value;
      if h.InFlight? { assert CallOk(env, s, h.c); }
      RootFrame(s.lineage, e.id, LineageFor(s.lineage, pc.source, e.c), t);
    }
  }

  lemma {:induction false} RootPresent(l: map<int, Lineage>, t: int)
    requires t in l && ParentsPresent(l)
    ensures RootOf(l, t) in l
    decreases Generation(l, t)
  {
    if HasParent(l, t) { RootPresent(l, l[t].parent.value); }
  }

  lemma StepKeepsChains(env: Env, s: State, e: Event)
    requires Inv(env, s) && ChainsExclusive(s) && Enabled(env, s, e)
    ensures ChainsExclusive(Next(env, s, e))
  {
    var s' := Next(env, s, e);
    forall h, k | Holds(s', h) && Holds(s', k) && Chain(s', h) == Chain(s', k) ensures h == k {
      if Starts(s, e, h) && !Starts(s, e, k) {
        ChainIsOld(env, s, e, k);
      } else if Starts(s, e, k) && !Starts(s, e, h) {
        ChainIsOld(env, s, e, h);
      } else if !Starts(s, e, h) {
        HolderContinues(env, s, e, h);
        HolderContinues(env, s, e, k);
        assert Origin(s, e, h) == Origin(s, e, k);
        OriginInjective(env, s, e, h, k);
      }
    }
  }

  /** A continued chain is not the one that a sign-in has just started. */
  lemma ChainIsOld(env: Env, s: State, e: Event, k: Holder)
    requires Inv(env, s) && Enabled(env, s, e)
    requires Holds(Next(env, s, e), k) && !Starts(s, e, k)
    ensures Chain(Next(env, s, e), k) in s.lineage
  {
    HolderContinues(env, s, e, k);
    InvGivesParents(env, s);
    var o := Origin(s, e, k);
    if o.InFlight? { assert CallOk(env, s, o.c); }
    RootPresent(s.lineage, if o.Row? then o.id else Claim(s.calls[o.c].pc).value);
  }

  lemma OriginInjective(env: Env, s: State, e: Event, h: Holder, k: Holder)
    requires Inv(env, s) && Enabled(env, s, e)
    requires Holds(Next(env, s, e), h) && Holds(Next(env, s, e), k)
    requires Origin(s, e, h) == Origin(s, e, k)
    ensures h == k
  {
  }

  /** For every chain, live rows plus Refresh calls between Revoke and Create
      number at most one, in every state of every run. */
  lemma {:induction false} OneHolderPerChain(env: Env, b: seq<State>, evs: seq<Event>, i: nat)
    requires IsRun(env, b, evs) && i < |b|
    ensures ChainsExclusive(b[i])
  {
    if i > 0 {
      OneHolderPerChain(env, b, evs, i - 1);
      RunKeeps(env, b, evs, i - 1);
      assert StepAt(env, b, evs, i - 1);
      StepKeepsChains(env, b[i - 1], evs[i - 1]);
    }
  }

  // ------------------------------------------------------------ provenance

  /** The root of a chain belongs to the user of every token in it, and was
      issued by a call that proved to be that user. */
  lemma {:induction false} ChainProvenance(env: Env, s: State, t: int)
    requires Inv(env, s) && t in s.tokens
    ensures var r := RootOf(s.lineage, t);
            r in s.tokens && s.lineage[r].parent.None? && s.tokens[r].userId == s.tokens[t].userId
            && Authenticated(env, s, s.lineage[r].issuer, s.tokens[t].userId)
    decreases Generation(s.lineage, t)
  {
    assert TokenOk(env, s, t);
    if HasParent(s.lineage, t) { ChainProvenance(env, s, s.lineage[t].parent.value); }
  }

  lemma Provenance(env: Env, b: seq<State>, evs: seq<Event>, i: nat)
    requires IsRun(env, b, evs) && i < |b|
    ensures EmailsUnique(b[i].users)
    ensures forall t :: t in b[i].tokens ==>
              var r := RootOf(b[i].lineage, t);
              r in b[i].tokens && b[i].tokens[r].userId == b[i].tokens[t].userId
              && r in b[i].lineage && Authenticated(env, b[i], b[i].lineage[r].issuer, b[i].tokens[t].userId)
  {
    RunKeeps(env, b, evs, i);
    forall t | t in b[i].tokens
      ensures var r := RootOf(b[i].lineage, t);
              r in b[i].tokens && b[i].tokens[r].userId == b[i].tokens[t].userId
              && r in b[i].lineage && Authenticated(env, b[i], b[i].lineage[r].issuer, b[i].tokens[t].userId)
    {
      ChainProvenance(env, b[i], t);
    }
  }

  // -------------------------------------------------------------- counting

  function LiveTokens(s: State, u: int): set<int> {
    set t | t in s.tokens && Live(s.tokens[t]) && s.tokens[t].userId == u
  }

  function InFlightRefreshes(s: State, u: int): set<int> {
    set c | c in s.calls && Claim(s.calls[c].pc).Some? && s.calls[c].pc.userId == u
  }

  /** The Signup and Login calls that have issued a token to user u. */
  function SignIns(s: State, u: int): set<int> {
    set t | t in s.tokens && t in s.lineage && s.tokens[t].userId == u && s.lineage[t].parent.None? ::
      s.lineage[t].issuer
  }

  /** The sign-in that a holder goes back to. */
  function SignInOf(s: State, h: Holder): int
    requires Holds(s, h)
  {
    var r := Chain(s, h);
    if r in s.lineage then s.lineage[r].issuer else 0
  }

  lemma SignInOfHolder(env: Env, s: State, u: int, h: Holder)
    requires Inv(env, s) && Holds(s, h)
    requires match h case Row(id) => id in LiveTokens(s, u) case InFlight(c) => c in InFlightRefreshes(s, u)
    ensures SignInOf(s, h) in SignIns(s, u) && Chain(s, h) in s.lineage
  {
    if h.InFlight? { assert CallOk(env, s, h.c); }
    ChainProvenance(env, s, if h.Row? then h.id else Claim(s.calls[h.c].pc).value);
  }

  /** Distinct holders go back to distinct sign-ins, so removing a holder and its
      sign-in together counts them off against each other. */
  lemma {:induction false} CountOff(env: Env, s: State, u: int, rows: set<int>, calls: set<int>, signIns: set<int>)
    requires Inv(env, s) && ChainsExclusive(s)
    requires rows <= LiveTokens(s, u) && calls <= InFlightRefreshes(s, u)
    requires forall id :: id in rows ==> Holds(s, Row(id)) && SignInOf(s, Row(id)) in signIns
    requires forall c :: c in calls ==> Holds(s, InFlight(c)) && SignInOf(s, InFlight(c)) in signIns
    ensures |rows| + |calls| <= |signIns|
    decreases |rows| + |calls|
  {
    if |rows| + |calls| == 0 { return; }
    var h := if |rows| > 0 then Row(Pick(rows)) else InFlight(Pick(calls));
    var rows', calls' := if h.Row? then rows - {h.id} else rows, if h.InFlight? then calls - {h.c} else calls;
    SignInOfHolder(env, s, u, h);
    forall id | id in rows' ensures SignInOf(s, Row(id)) != SignInOf(s, h) { Apart(env, s, u, Row(id), h); }
    forall c | c in calls' ensures SignInOf(s, InFlight(c)) != SignInOf(s, h) { Apart(env, s, u, InFlight(c), h); }
    CountOff(env, s, u, rows', calls', signIns - {SignInOf(s, h)});
  }

  lemma Apart(env: Env, s: State, u: int, h: Holder, k: Holder)
    requires Inv(env, s) && ChainsExclusive(s) && Holds(s, h) && Holds(s, k) && h != k
    requires match h case Row(id) => id in LiveTokens(s, u) case InFlight(c) => c in InFlightRefreshes(s, u)
    requires match k case Row(id) => id in LiveTokens(s, u) case InFlight(c) => c in InFlightRefreshes(s, u)
    ensures SignInOf(s, h) != SignInOf(s, k)
  {
    SignInOfHolder(env, s, u, h);
    SignInOfHolder(env, s, u, k);
  }

  /** A user's live tokens plus in-flight exchanges never outnumber the sign-ins
      that issued a token to the user. */
  lemma SessionsBoundedBySignIns(env: Env, b: seq<State>, evs: seq<Event>, i: nat, u: int)
    requires IsRun(env, b, evs) && i < |b|
    ensures |LiveTokens(b[i], u)| + |InFlightRefreshes(b[i], u)| <= |SignIns(b[i], u)|
    ensures forall c :: c in SignIns(b[i], u) ==> Authenticated(env, b[i], c, u)
  {
    RunKeeps(env, b, evs, i);
    OneHolderPerChain(env, b, evs, i);
    var s := b[i];
    forall c | c in SignIns(s, u) ensures Authenticated(env, s, c, u) {
      var t :| t in s.tokens && t in s.lineage && s.tokens[t].userId == u
               && s.lineage[t].parent.None? && s.lineage[t].issuer == c;
      assert TokenOk(env, s, t);
    }
    forall id | id in LiveTokens(s, u) ensures Holds(s, Row(id)) && SignInOf(s, Row(id)) in SignIns(s, u) {
      SignInOfHolder(env, s, u, Row(id));
    }
    forall c | c in InFlightRefreshes(s, u) ensures Holds(s, InFlight(c)) && SignInOf(s, InFlight(c)) in SignIns(s, u) {
      SignInOfHolder(env, s, u, InFlight(c));
    }
    CountOff(env, s, u, LiveTokens(s, u), InFlightRefreshes(s, u), SignIns(s, u));
  }
}
