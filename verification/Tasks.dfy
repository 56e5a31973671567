/** The tasks table and what each TaskService call would do as one transaction. */
module Tasks {
  import opened Common

  datatype Task = Task(
    userId: int,
    title: string,
    description: string,
    status: string,
    dueDate: Option<int>,
    createdAt: int,
    updatedAt: int)

  /** The rows of tasks by primary key. */
  type Table = map<int, Task>

  predicate ValidStatus(status: string) { status == "pending" || status == "in_progress" || status == "done" }

  /** A request to the service. */
  datatype Op =
    | Create(userId: int, title: string, description: string, dueDate: Option<int>)
    | Get(userId: int, id: int)
    | Update(userId: int, id: int, title: string, description: string, status: string, dueDate: Option<int>)
    | Delete(userId: int, id: int)

  datatype Answer = Got(id: int, task: Task) | Deleted | Refused(error: Error)

  /** The four columns that UPDATE sets, and updated_at. */
  function Edited(t: Task, op: Op, now: int): Task
    requires op.Update?
  {
    t.(title := op.title, description := op.description, status := op.status, dueDate := op.dueDate, updatedAt := now)
  }

  function NewTask(op: Op, now: int): Task
    requires op.Create?
  {
    Task(op.userId, op.title, op.description, "pending", op.dueDate, now, now)
  }

  /** Find, check and write in one step; id is the one a new row would get. */
  function Atomic(rows: Table, op: Op, id: int, now: int): (Table, Answer) {
    if op.Create? then (rows[id := NewTask(op, now)], Got(id, NewTask(op, now)))
    else if op.id !in rows then (rows, Refused(NotFound))
    else if rows[op.id].userId != op.userId then (rows, Refused(Forbidden))
    else match op
      case Get(_, k) => (rows, Got(k, rows[k]))
      case Update(_, k, _, _, status, _) =>
        if !ValidStatus(status) then (rows, Refused(Validation))
        else (rows[k := Edited(rows[k], op, now)], Got(k, Edited(rows[k], op, now)))
      case Delete(_, k) => (rows - {k}, Deleted)
  }

  /** A step for user u leaves the rows of everyone else alone, gives u no row
      but its own, and never changes who owns a row or when it was created. */
  ghost predicate Isolated(before: Table, after: Table, u: int) {
    && (forall id :: id in before && before[id].userId != u ==> id in after && after[id] == before[id])
    && (forall id :: id in after && (id !in before || after[id] != before[id]) ==> after[id].userId == u)
    && (forall id :: id in before && id in after ==>
          after[id].userId == before[id].userId && after[id].createdAt == before[id].createdAt)
  }

  ghost predicate StatusesValid(rows: Table) { forall id :: id in rows ==> ValidStatus(rows[id].status) }

  lemma AtomicIsolated(rows: Table, op: Op, id: int, now: int)
    requires id !in rows && StatusesValid(rows)
    ensures Isolated(rows, Atomic(rows, op, id, now).0, op.userId) && StatusesValid(Atomic(rows, op, id, now).0)
  {
  }
}
