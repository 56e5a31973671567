/** What the answers of the task service mean in any interleaving: who may read,
    why a call is refused, and what a call that succeeded did. */
module TaskAnswers {
  import opened Common
  import opened Tasks
  import opened TaskProtocol

  /** Event k of the run is an event of call c. */
  ghost predicate Acts(b: seq<State>, evs: seq<Event>, c: int, k: nat) {
    k < |evs| && k + 1 < |b| && evs[k].c == c && c in b[k].calls
  }

  /** The SELECT of call c found no row. */
  ghost predicate FoundNone(b: seq<State>, evs: seq<Event>, c: int, k: nat) {
    && Acts(b, evs, c, k) && evs[k].Find?
    && var op := b[k].calls[c].op;
       !op.Create? && op.id !in b[k].tasks
  }

  /** It found a row of another user. */
  ghost predicate FoundForeign(b: seq<State>, evs: seq<Event>, c: int, k: nat) {
    && Acts(b, evs, c, k) && evs[k].Find?
    && var op := b[k].calls[c].op;
       !op.Create? && op.id in b[k].tasks && b[k].tasks[op.id].userId != op.userId
  }

  /** It found a row of the user. */
  ghost predicate FoundOwn(b: seq<State>, evs: seq<Event>, c: int, k: nat) {
    && Acts(b, evs, c, k) && evs[k].Find?
    && var op := b[k].calls[c].op;
       !op.Create? && op.id in b[k].tasks && b[k].tasks[op.id].userId == op.userId
  }

  /** The write of call c found no row. */
  ghost predicate WroteNone(b: seq<State>, evs: seq<Event>, c: int, k: nat) {
    && Acts(b, evs, c, k) && evs[k].Write?
    && var op := b[k].calls[c].op;
       !op.Create? && op.id !in b[k].tasks
  }

  /** A row of the user was found, but the status asked for does not exist. */
  ghost predicate FoundInvalid(b: seq<State>, evs: seq<Event>, c: int, k: nat) {
    && FoundOwn(b, evs, c, k)
    && var op := b[k].calls[c].op;
       op.Update? && op.status != "pending" && op.status != "in_progress" && op.status != "done"
  }

  /** The new row of a Create: what was asked for, pending, stamped at the INSERT. */
  ghost predicate CreatedRow(b: seq<State>, evs: seq<Event>, c: int, k: nat, id: int, t: Task) {
    && Acts(b, evs, c, k) && evs[k].Insert? && b[k].calls[c].op.Create?
    && var op := b[k].calls[c].op;
       && id !in b[k].tasks && b[k + 1].tasks == b[k].tasks[id := t]
       && t.userId == op.userId && t.title == op.title && t.description == op.description
       && t.status == "pending" && t.dueDate == op.dueDate && t.createdAt == t.updatedAt == evs[k].now
  }

  /** The row that a Get read. */
  ghost predicate ReadRow(b: seq<State>, evs: seq<Event>, c: int, k: nat, id: int, t: Task) {
    FoundOwn(b, evs, c, k) && b[k].calls[c].op == Get(t.userId, id) && t == b[k].tasks[id]
  }

  /** The row that an Update left: what was asked for, of the same owner and age. */
  ghost predicate UpdatedRow(b: seq<State>, evs: seq<Event>, c: int, k: nat, id: int, t: Task) {
    && Acts(b, evs, c, k) && evs[k].Write? && b[k].calls[c].op.Update?
    && var op := b[k].calls[c].op;
       && id == op.id && id in b[k].tasks && b[k + 1].tasks == b[k].tasks[id := t]
       && b[k].tasks[id].userId == op.userId == t.userId && t.createdAt == b[k].tasks[id].createdAt
       && t.title == op.title && t.description == op.description && t.status == op.status
       && t.dueDate == op.dueDate && t.updatedAt == evs[k].now
  }

  /** A Delete removed the row of its user, and no other. */
  ghost predicate RemovedRow(b: seq<State>, evs: seq<Event>, c: int, k: nat) {
    && Acts(b, evs, c, k) && evs[k].Write? && b[k].calls[c].op.Delete?
    && var op := b[k].calls[c].op;
       && op.id in b[k].tasks && b[k].tasks[op.id].userId == op.userId
       && b[k + 1].tasks == b[k].tasks - {op.id}
  }

  ghost predicate GivesRow(b: seq<State>, evs: seq<Event>, c: int, k: nat, id: int, t: Task) {
    CreatedRow(b, evs, c, k, id, t) || ReadRow(b, evs, c, k, id, t) || UpdatedRow(b, evs, c, k, id, t)
  }

  ghost predicate AnswerMeans(b: seq<State>, evs: seq<Event>, n: nat, c: int, answer: Answer) {
    match answer
    case Got(id, t) => exists k: nat :: k < n && GivesRow(b, evs, c, k, id, t)
    case Deleted => exists k: nat :: k < n && RemovedRow(b, evs, c, k)
    case Refused(NotFound) =>
      (exists k: nat :: k < n && FoundNone(b, evs, c, k)) || exists k: nat :: k < n && WroteNone(b, evs, c, k)
    case Refused(Forbidden) => exists k: nat :: k < n && FoundForeign(b, evs, c, k)
    case Refused(Validation) => exists k: nat :: k < n && FoundInvalid(b, evs, c, k)
    case _ => false
  }

  predicate Answered(pc: Pc) { pc.Returning? || pc.Done? }

  /** In every run every answer means what it says. */
  lemma {:induction false} EveryAnswerExplained(b: seq<State>, evs: seq<Event>, n: nat, c: int)
    requires IsRun(b, evs) && n < |b| && c in b[n].calls && Answered(b[n].calls[c].pc)
    ensures AnswerMeans(b, evs, n, c, b[n].calls[c].pc.answer)
  {
    if n > 0 {
      var s := b[n - 1];
      assert b[n] == Next(s, evs[n - 1]);
      if c in s.calls && Answered(s.calls[c].pc) {
        EveryAnswerExplained(b, evs, n - 1, c);
      } else {
        RunKeeps(b, evs, n - 1);
        assert evs[n - 1].c == c && c in s.calls && CallOk(s, c);
        AnswersNow(b, evs, n, c);
      }
    }
  }

  /** The event at which a call answers gives the answer its meaning. */
  lemma AnswersNow(b: seq<State>, evs: seq<Event>, n: nat, c: int)
    requires |b| == |evs| + 1 && 0 < n < |b| && Acts(b, evs, c, n - 1)
    requires Enabled(b[n - 1], evs[n - 1]) && b[n] == Next(b[n - 1], evs[n - 1]) && Inv(b[n - 1]) && CallOk(b[n - 1], c)
    requires c in b[n].calls && Answered(b[n].calls[c].pc) && !Answered(b[n - 1].calls[c].pc)
    ensures AnswerMeans(b, evs, n, c, b[n].calls[c].pc.answer)
  {
    var k: nat := n - 1;
    var s, e, op, answer := b[k], evs[k], b[k].calls[c].op, b[n].calls[c].pc.answer;
    if e.Insert? {
      assert GivesRow(b, evs, c, k, answer.id, answer.task);
    } else if e.Find? {
      if op.id !in s.tasks {
        assert FoundNone(b, evs, c, k);
      } else if s.tasks[op.id].userId != op.userId {
        assert FoundForeign(b, evs, c, k);
      } else if op.Get? {
        assert GivesRow(b, evs, c, k, answer.id, answer.task);
      } else {
        assert FoundInvalid(b, evs, c, k);
      }
    } else if op.id !in s.tasks {
      assert WroteNone(b, evs, c, k);
    } else if op.Update? {
      assert GivesRow(b, evs, c, k, answer.id, answer.task);
    } else {
      assert RemovedRow(b, evs, c, k);
    }
  }

  /** No user is ever given another user's task. */
  lemma ReadIsolation(b: seq<State>, evs: seq<Event>, n: nat, c: int)
    requires IsRun(b, evs) && n < |b| && c in b[n].calls && Answered(b[n].calls[c].pc)
    requires b[n].calls[c].pc.answer.Got?
    ensures b[n].calls[c].pc.answer.task.userId == b[n].calls[c].op.userId
  {
    EveryAnswerExplained(b, evs, n, c);
    var id, t := b[n].calls[c].pc.answer.id, b[n].calls[c].pc.answer.task;
    var k: nat :| k < n && GivesRow(b, evs, c, k, id, t);
    OpKept(b, evs, k, n, c);
  }

  /** A call keeps its request, and an answer once given is not changed: the call may
      only crash before it is delivered. */
  lemma {:induction false} OpKept(b: seq<State>, evs: seq<Event>, i: nat, n: nat, c: int)
    requires IsRun(b, evs) && i <= n < |b| && c in b[i].calls
    ensures c in b[n].calls && b[n].calls[c].op == b[i].calls[c].op
    ensures Answered(b[i].calls[c].pc) && Answered(b[n].calls[c].pc) ==>
              b[n].calls[c].pc.answer == b[i].calls[c].pc.answer
    ensures Answered(b[i].calls[c].pc) ==> Answered(b[n].calls[c].pc) || b[n].calls[c].pc.Dead?
    decreases n
  {
    if i < n {
      OpKept(b, evs, i, n - 1, c);
      assert b[n] == Next(b[n - 1], evs[n - 1]);
    }
  }

  /** The event at which a call is refused settles its answer. */
  lemma RefusalSettles(b: seq<State>, evs: seq<Event>, k: nat, n: nat, c: int)
    requires IsRun(b, evs) && k < n < |b| && c in b[n].calls && Answered(b[n].calls[c].pc)
    ensures FoundNone(b, evs, c, k) || WroteNone(b, evs, c, k) ==> b[n].calls[c].pc.answer == Refused(NotFound)
    ensures FoundForeign(b, evs, c, k) ==> b[n].calls[c].pc.answer == Refused(Forbidden)
    ensures FoundInvalid(b, evs, c, k) ==> b[n].calls[c].pc.answer == Refused(Validation)
  {
    if Acts(b, evs, c, k) {
      assert b[k + 1] == Next(b[k], evs[k]);
      OpKept(b, evs, k + 1, n, c);
    }
  }

  /** The exact conditions of the three refusals: a call that answers is Forbidden if
      and only if its SELECT found a row of another user, NotFound if and only if its
      SELECT or its write found no row, and refused as invalid if and only if it is an
      Update that found a row of the user and asks for no existing status. */
  lemma RefusedIff(b: seq<State>, evs: seq<Event>, n: nat, c: int)
    requires IsRun(b, evs) && n < |b| && c in b[n].calls && Answered(b[n].calls[c].pc)
    ensures var answer := b[n].calls[c].pc.answer;
            && (answer == Refused(Forbidden) <==> exists k: nat :: k < n && FoundForeign(b, evs, c, k))
            && (answer == Refused(NotFound) <==>
                  exists k: nat :: k < n && (FoundNone(b, evs, c, k) || WroteNone(b, evs, c, k)))
            && (answer == Refused(Validation) <==> exists k: nat :: k < n && FoundInvalid(b, evs, c, k))
            && (answer.Refused? ==> answer.error in {Forbidden, NotFound, Validation})
  {
    EveryAnswerExplained(b, evs, n, c);
    forall k: nat | k < n
      ensures FoundNone(b, evs, c, k) || WroteNone(b, evs, c, k) ==> b[n].calls[c].pc.answer == Refused(NotFound)
      ensures FoundForeign(b, evs, c, k) ==> b[n].calls[c].pc.answer == Refused(Forbidden)
      ensures FoundInvalid(b, evs, c, k) ==> b[n].calls[c].pc.answer == Refused(Validation)
    {
      RefusalSettles(b, evs, k, n, c);
    }
  }

  // --------------------------------------------------------------- progress

  /** One more event. */
  lemma Extend(b: seq<State>, evs: seq<Event>, e: Event) returns (b': seq<State>, evs': seq<Event>)
    requires IsPath(b, evs) && Enabled(b[|evs|], e)
    ensures IsPath(b', evs') && b' == b + [Next(b[|evs|], e)] && evs' == evs + [e]
  {
    b', evs' := b + [Next(b[|evs|], e)], evs + [e];
  }

  /** Begin and the first statement of a call. */
  lemma Opening(s: State, c: int, op: Op, id: int, now: int) returns (b: seq<State>, evs: seq<Event>)
    requires c !in s.calls && id !in s.used
    ensures IsPath(b, evs) && b[0] == s && forall i :: 0 <= i < |evs| ==> evs[i].c == c
    ensures var last := b[|evs|];
            if op.Create? then
              && last.tasks == s.tasks[id := NewTask(op, now)]
              && last.calls == s.calls[c := Progress(op, Returning(Got(id, NewTask(op, now))))]
            else last.tasks == s.tasks && last.calls == s.calls[c := Progress(op, AfterFind(s.tasks, op))]
  {
    b, evs := Extend([s], [], Begin(c, op));
    var e := if op.Create? then Insert(c, id, now) else Find(c);
    b, evs := Extend(b, evs, e);
  }

  /** The rest of a call. */
  lemma Closing(b: seq<State>, evs: seq<Event>, c: int, op: Op, now: int) returns (b': seq<State>, evs': seq<Event>)
    requires IsPath(b, evs) && forall i :: 0 <= i < |evs| ==> evs[i].c == c
    requires c in b[|evs|].calls && b[|evs|].calls[c].op == op
    requires var pc := b[|evs|].calls[c].pc; pc.Returning? || (pc.Writing? && (op.Update? || op.Delete?))
    ensures IsPath(b', evs') && b'[0] == b[0] && forall i :: 0 <= i < |evs'| ==> evs'[i].c == c
    ensures var s, s' := b[|evs|], b'[|evs'|];
            && c in s'.calls
            && if s.calls[c].pc.Returning? then
                 s'.tasks == s.tasks && s'.calls[c] == Progress(op, Done(s.calls[c].pc.answer))
               else
                 && s'.tasks == WriteRows(s.tasks, op, now)
                 && s'.calls[c] == Progress(op, Done(WriteAnswer(s.tasks, op, s.calls[c].pc.task, now)))
  {
    b', evs' := b, evs;
    if b[|evs|].calls[c].pc.Writing? { b', evs' := Extend(b', evs', Write(c, now)); }
    b', evs' := Extend(b', evs', Return(c));
  }

  /** From any state a call that nothing interrupts does and answers what the
      transaction would. */
  lemma CallIsAPath(s: State, c: int, op: Op, id: int, now: int) returns (b: seq<State>, evs: seq<Event>)
    requires c !in s.calls && id !in s.used
    ensures IsPath(b, evs) && b[0] == s && forall i :: 0 <= i < |evs| ==> evs[i].c == c
    ensures var (rows, answer) := Atomic(s.tasks, op, id, now);
            && b[|evs|].tasks == rows && c in b[|evs|].calls
            && b[|evs|].calls[c] == Progress(op, Done(answer))
  {
    b, evs := Opening(s, c, op, id, now);
    b, evs := Closing(b, evs, c, op, now);
  }

  /** No call is ever stuck: until it has ended it has an event of its own that is
      not a crash. It can also crash, which does not change the table. */
  lemma NeverStuck(b: seq<State>, evs: seq<Event>, n: nat, c: int, freshId: int) returns (e: Event)
    requires IsRun(b, evs) && n < |b| && c in b[n].calls && freshId !in b[n].used
    requires !b[n].calls[c].pc.Done? && !b[n].calls[c].pc.Dead?
    ensures e.c == c && !e.Crash? && Enabled(b[n], e) && Enabled(b[n], Crash(c))
    ensures Next(b[n], Crash(c)) == b[n].(calls := b[n].calls[c := Progress(b[n].calls[c].op, Dead)])
  {
    RunKeeps(b, evs, n);
    assert CallOk(b[n], c);
    var Progress(op, pc) := b[n].calls[c];
    match pc
    case Ready => if op.Create? { e := Insert(c, freshId, 0); } else { e := Find(c); }
    case Writing(_) => e := Write(c, 0);
    case Returning(_) => e := Return(c);
  }
}
