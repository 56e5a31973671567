/** TaskService as a concurrent protocol: Update and Delete are a SELECT, a check
    of the row that was read, and a write by id that does not mention the owner.
    Ids come from a sequence and are never used again after a DELETE. */
module TaskProtocol {
  import opened Common
  import opened Tasks

  datatype Pc =
    | Ready
    | Writing(task: Task)
    | Returning(answer: Answer)
    | Done(answer: Answer)
    | Dead

  datatype Progress = Progress(op: Op, pc: Pc)

  /** used is history: every id that a row ever had. */
  datatype State = State(tasks: Table, used: set<int>, calls: map<int, Progress>)

  datatype Event =
    | Begin(c: int, op: Op)
    | Insert(c: int, id: int, now: int)
    | Find(c: int)
    | Write(c: int, now: int)
    | Return(c: int)
    | Crash(c: int)

  function Init(): State { State(map[], {}, map[]) }

  function Goto(s: State, c: int, pc: Pc): State
    requires c in s.calls
  {
    s.(calls := s.calls[c := s.calls[c].(pc := pc)])
  }

  predicate Enabled(s: State, e: Event) {
    if e.Begin? then e.c !in s.calls else
    && e.c in s.calls
    && var Progress(op, pc) := s.calls[e.c];
       match e
       case Begin(_, _) => false
       case Insert(_, id, _) => op.Create? && pc.Ready? && id !in s.used
       case Find(_) => !op.Create? && pc.Ready?
       case Write(_, _) => (op.Update? || op.Delete?) && pc.Writing?
       case Return(_) => pc.Returning?
       case Crash(_) => !pc.Done? && !pc.Dead?
  }

  /** FindByID, the ownership check and the status check. */
  function AfterFind(rows: Table, op: Op): Pc
    requires !op.Create?
  {
    if op.id !in rows then Returning(Refused(NotFound))
    else if rows[op.id].userId != op.userId then Returning(Refused(Forbidden))
    else match op
      case Get(_, id) => Returning(Got(id, rows[id]))
      case Update(_, id, _, _, status, _) =>
        if !ValidStatus(status) then Returning(Refused(Validation)) else Writing(rows[id])
      case Delete(_, id) => Writing(rows[id])
  }

  /** UPDATE or DELETE ... WHERE id = $n on the current rows. */
  function WriteRows(rows: Table, op: Op, now: int): Table
    requires op.Update? || op.Delete?
  {
    if op.id !in rows then rows
    else if op.Update? then rows[op.id := Edited(rows[op.id], op, now)]
    else rows - {op.id}
  }

  /** What the call answers: an Update answers from the row it had read. */
  function WriteAnswer(rows: Table, op: Op, read: Task, now: int): Answer
    requires op.Update? || op.Delete?
  {
    if op.id !in rows then Refused(NotFound)
    else if op.Update? then Got(op.id, Edited(read, op, now))
    else Deleted
  }

  function Next(s: State, e: Event): State
    requires Enabled(s, e)
  {
    if e.Begin? then s.(calls := s.calls[e.c := Progress(e.op, Ready)]) else
    var Progress(op, pc) := s.calls[e.c];
    match e
    case Insert(c, id, now) =>
      Goto(s.(tasks := s.tasks[id := NewTask(op, now)], used := s.used + {id}), c, Returning(Got(id, NewTask(op, now))))
    case Find(c) => Goto(s, c, AfterFind(s.tasks, op))
    case Write(c, now) =>
      Goto(s.(tasks := WriteRows(s.tasks, op, now)), c, Returning(WriteAnswer(s.tasks, op, pc.task, now)))
    case Return(c) => Goto(s, c, Done(pc.answer))
    case Crash(c) => Goto(s, c, Dead)
  }

  /** A path: states b and the events between them. */
  ghost predicate IsPath(b: seq<State>, evs: seq<Event>) {
    && |b| == |evs| + 1
    && forall i :: 0 <= i < |evs| ==> Enabled(b[i], evs[i]) && b[i + 1] == Next(b[i], evs[i])
  }

  /** A run: a path from an empty table. */
  ghost predicate IsRun(b: seq<State>, evs: seq<Event>) {
    IsPath(b, evs) && b[0] == Init()
  }

  // ------------------------------------------------------------- invariant

  /** A call about to write read a row of its own user; if that row still exists,
      it is the same row. */
  ghost predicate CallOk(s: State, c: int)
    requires c in s.calls
  {
    var Progress(op, pc) := s.calls[c];
    pc.Writing? ==>
      && (op.Update? || op.Delete?) && op.id in s.used && pc.task.userId == op.userId
      && (op.Update? ==> ValidStatus(op.status))
      && (op.id in s.tasks ==> s.tasks[op.id].userId == pc.task.userId && s.tasks[op.id].createdAt == pc.task.createdAt)
  }

  ghost predicate Inv(s: State) {
    && s.tasks.Keys <= s.used
    && StatusesValid(s.tasks)
    && forall c :: c in s.calls ==> CallOk(s, c)
  }

  lemma NextKeeps(s: State, e: Event)
    requires Inv(s) && Enabled(s, e)
    ensures Inv(Next(s, e))
  {
    var s' := Next(s, e);
    forall c | c in s'.calls ensures CallOk(s', c) {
      if c in s.calls { assert CallOk(s, c); }
    }
    if e.Write? { assert CallOk(s, e.c); }
  }

  lemma {:induction false} RunKeeps(b: seq<State>, evs: seq<Event>, i: nat)
    requires IsRun(b, evs) && i < |b|
    ensures Inv(b[i])
  {
    if i > 0 {
      RunKeeps(b, evs, i - 1);
      NextKeeps(b[i - 1], evs[i - 1]);
    }
  }

  // -------------------------------------------------------- linearizability

  /** Event e is the moment at which its call takes effect: the SQL write, or the
      SELECT when the call stops there. */
  predicate Linearizes(s: State, e: Event)
    requires Enabled(s, e)
  {
    e.Insert? || e.Write? || (e.Find? && AfterFind(s.tasks, s.calls[e.c].op).Returning?)
  }

  /** The call, its request and the id and clock reading that it drew. */
  datatype Entry = Entry(c: int, op: Op, id: int, now: int)

  function EntryOf(s: State, e: Event): Entry
    requires Enabled(s, e) && Linearizes(s, e)
  {
    Entry(e.c, s.calls[e.c].op, if e.Insert? then e.id else 0, if e.Find? then 0 else e.now)
  }

  /** At its moment a call does and answers what the transaction would; at any
      other event the table does not change. */
  lemma StepIsAtomic(s: State, e: Event)
    requires Inv(s) && Enabled(s, e)
    ensures Linearizes(s, e) ==>
              var entry := EntryOf(s, e);
              var (rows, answer) := Atomic(s.tasks, entry.op, entry.id, entry.now);
              Next(s, e).tasks == rows && Next(s, e).calls[e.c] == Progress(entry.op, Returning(answer))
    ensures !Linearizes(s, e) ==> Next(s, e).tasks == s.tasks
  {
    if e.c in s.calls { assert CallOk(s, e.c); }
  }

  /** The calls in the order in which they took effect during the first n events. */
  ghost function History(b: seq<State>, evs: seq<Event>, n: nat): seq<Entry>
    requires IsRun(b, evs) && n <= |evs|
  {
    if n == 0 then []
    else History(b, evs, n - 1) + if Linearizes(b[n - 1], evs[n - 1]) then [EntryOf(b[n - 1], evs[n - 1])] else []
  }

  /** The table after executing a history one transaction after the other. */
  function Replay(h: seq<Entry>): Table
    decreases |h|
  {
    if h == [] then map[] else
    var last := h[|h| - 1];
    Atomic(Replay(h[..|h| - 1]), last.op, last.id, last.now).0
  }

  /** The answer of transaction k of a history. */
  function AnswerAt(h: seq<Entry>, k: nat): Answer
    requires k < |h|
  {
    Atomic(Replay(h[..k]), h[k].op, h[k].id, h[k].now).1
  }

  /** History h explains state s: replayed as transactions it gives the table; no
      call occurs twice; a call that has answered occurs, with its own request and
      the answer it gave; a call that has not taken effect does not occur. */
  ghost predicate Explains(h: seq<Entry>, s: State) {
    && Replay(h) == s.tasks
    && (forall i, j :: 0 <= i < j < |h| ==> h[i].c != h[j].c)
    && (forall k :: 0 <= k < |h| ==>
          && h[k].c in s.calls && h[k].op == s.calls[h[k].c].op
          && !s.calls[h[k].c].pc.Ready? && !s.calls[h[k].c].pc.Writing?
          && (!s.calls[h[k].c].pc.Dead? ==> s.calls[h[k].c].pc.answer == AnswerAt(h, k)))
    && (forall c :: c in s.calls && (s.calls[c].pc.Returning? || s.calls[c].pc.Done?) ==> Occurs(h, c))
  }

  ghost predicate Occurs(h: seq<Entry>, c: int) { exists k :: 0 <= k < |h| && h[k].c == c }

  lemma ExplainQuiet(h: seq<Entry>, s: State, e: Event)
    requires Inv(s) && Explains(h, s) && Enabled(s, e) && !Linearizes(s, e)
    ensures Explains(h, Next(s, e))
  {
    StepIsAtomic(s, e);
  }

  lemma AnswersKept(h: seq<Entry>, entry: Entry, k: nat)
    requires k < |h|
    ensures AnswerAt(h + [entry], k) == AnswerAt(h, k)
  {
    assert (h + [entry])[..k] == h[..k];
  }

  /** A call that has not taken effect yet does not occur. */
  lemma NotYetThere(h: seq<Entry>, s: State, e: Event)
    requires Explains(h, s) && Enabled(s, e) && Linearizes(s, e)
    ensures forall k :: 0 <= k < |h| ==> h[k].c != e.c
  {
  }

  lemma ReplayOneMore(h: seq<Entry>, entry: Entry)
    ensures Replay(h + [entry]) == Atomic(Replay(h), entry.op, entry.id, entry.now).0
    ensures AnswerAt(h + [entry], |h|) == Atomic(Replay(h), entry.op, entry.id, entry.now).1
  {
    assert (h + [entry])[..|h|] == h;
  }

  /** The history grows by the transaction that a call has just become. */
  lemma ExplainMore(h: seq<Entry>, s: State, s': State, entry: Entry, answer: Answer)
    requires Explains(h, s) && forall k :: 0 <= k < |h| ==> h[k].c != entry.c
    requires s'.calls == s.calls[entry.c := Progress(entry.op, Returning(answer))]
    requires (s'.tasks, answer) == Atomic(s.tasks, entry.op, entry.id, entry.now)
    ensures Explains(h + [entry], s')
  {
    var h' := h + [entry];
    ReplayOneMore(h, entry);
    forall k | 0 <= k < |h| ensures AnswerAt(h', k) == AnswerAt(h, k) {
      AnswersKept(h, entry, k);
    }
    forall c | c in s'.calls && (s'.calls[c].pc.Returning? || s'.calls[c].pc.Done?) ensures Occurs(h', c) {
      if c == entry.c {
        assert h'[|h|].c == c;
      } else {
        assert Occurs(h, c);
        var k :| 0 <= k < |h| && h[k].c == c;
        assert h'[k].c == c;
      }
    }
  }

  lemma ExplainEffect(h: seq<Entry>, s: State, e: Event)
    requires Inv(s) && Explains(h, s) && Enabled(s, e) && Linearizes(s, e)
    ensures Explains(h + [EntryOf(s, e)], Next(s, e))
  {
    var entry, s' := EntryOf(s, e), Next(s, e);
    StepIsAtomic(s, e);
    NotYetThere(h, s, e);
    ExplainMore(h, s, s', entry, Atomic(s.tasks, entry.op, entry.id, entry.now).1);
  }

  /** Every run is linearizable: its history explains its state. */
  lemma {:induction false} Linearizable(b: seq<State>, evs: seq<Event>, n: nat)
    requires IsRun(b, evs) && n <= |evs|
    ensures Explains(History(b, evs, n), b[n])
  {
    if n > 0 {
      Linearizable(b, evs, n - 1);
      RunKeeps(b, evs, n - 1);
      var h, s, e := History(b, evs, n - 1), b[n - 1], evs[n - 1];
      if Linearizes(s, e) {
        ExplainEffect(h, s, e);
      } else {
        assert h + [] == h;
        ExplainQuiet(h, s, e);
      }
    }
  }

  lemma {:induction false} HistoryGrows(b: seq<State>, evs: seq<Event>, i: nat, n: nat)
    requires IsRun(b, evs) && i <= n <= |evs|
    ensures History(b, evs, i) <= History(b, evs, n)
    decreases n
  {
    if i < n { HistoryGrows(b, evs, i, n - 1); }
  }

  /** Real time is respected: a call that answered before another one began takes
      effect before it. */
  lemma RealTimeOrder(b: seq<State>, evs: seq<Event>, i: nat, n: nat, j: nat, k: nat)
    requires IsRun(b, evs) && i <= n <= |evs| && j < |History(b, evs, n)| && k < |History(b, evs, n)|
    requires var h := History(b, evs, n);
             h[j].c in b[i].calls && b[i].calls[h[j].c].pc.Done? && h[k].c !in b[i].calls
    ensures j < k
  {
    var h, past := History(b, evs, n), History(b, evs, i);
    Linearizable(b, evs, i);
    Linearizable(b, evs, n);
    HistoryGrows(b, evs, i, n);
    assert Occurs(past, h[j].c);
    var m :| 0 <= m < |past| && past[m].c == h[j].c;
    assert h[m] == past[m];
  }

  // ------------------------------------------------------------- isolation

  /** Each step changes only rows of the user that its call acts for. */
  lemma StepIsolated(s: State, e: Event)
    requires Inv(s) && Enabled(s, e)
    ensures Isolated(s.tasks, Next(s, e).tasks, Next(s, e).calls[e.c].op.userId)
    ensures StatusesValid(Next(s, e).tasks)
  {
    StepIsAtomic(s, e);
    if Linearizes(s, e) {
      var entry := EntryOf(s, e);
      if e.Insert? {
        AtomicIsolated(s.tasks, entry.op, entry.id, entry.now);
      } else {
        assert CallOk(s, e.c);
      }
    }
  }

  /** Over any stretch of a run in which no event acts for user u, the rows of u
      are exactly what they were. */
  lemma {:induction false} UntouchedByOthers(b: seq<State>, evs: seq<Event>, i: nat, j: nat, u: int, id: int)
    requires IsRun(b, evs) && i <= j < |b|
    requires forall k :: i <= k < j ==> evs[k].c in b[k + 1].calls && b[k + 1].calls[evs[k].c].op.userId != u
    ensures id in b[i].tasks && b[i].tasks[id].userId == u <==> id in b[j].tasks && b[j].tasks[id].userId == u
    ensures id in b[i].tasks && b[i].tasks[id].userId == u ==> b[j].tasks[id] == b[i].tasks[id]
    decreases j
  {
    if i < j {
      UntouchedByOthers(b, evs, i, j - 1, u, id);
      RunKeeps(b, evs, j - 1);
      assert b[j] == Next(b[j - 1], evs[j - 1]);
      StepIsolated(b[j - 1], evs[j - 1]);
    }
  }

  /** Whoever acts, a row keeps its owner and creation time, in every later state
      in which it exists. */
  lemma {:induction false} RowIdentity(b: seq<State>, evs: seq<Event>, i: nat, j: nat, id: int)
    requires IsRun(b, evs) && i <= j < |b| && id in b[i].tasks
    ensures id in b[j].used
    ensures id in b[j].tasks ==>
              b[j].tasks[id].userId == b[i].tasks[id].userId && b[j].tasks[id].createdAt == b[i].tasks[id].createdAt
    decreases j
  {
    RunKeeps(b, evs, i);
    if i < j {
      RowIdentity(b, evs, i, j - 1, id);
      RunKeeps(b, evs, j - 1);
      StepIsolated(b[j - 1], evs[j - 1]);
    }
  }
}
