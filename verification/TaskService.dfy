/** The task repository and service as objects, one call at a time. */
module TaskService {
  import opened Common
  import opened Tasks
  import opened TaskListing

  class TaskRepository {
    var rows: Table
    var nextId: int

    ghost predicate Valid() reads this { forall id :: id in rows ==> id < nextId }

    constructor ()
      ensures Valid() && rows == map[]
    {
      rows, nextId := map[], 1;
    }

    method Create(t: Task, now: int) returns (id: int)
      requires Valid()
      modifies this
      ensures Valid() && id == old(nextId) && id !in old(rows)
      ensures rows == old(rows)[id := t.(createdAt := now, updatedAt := now)]
    {
      id := nextId;
      nextId := nextId + 1;
      rows := rows[id := t.(createdAt := now, updatedAt := now)];
    }

    method FindByID(id: int) returns (r: Result<Task>)
      ensures r == if id in rows then Ok(rows[id]) else Err(NotFound)
    {
      if id in rows { r := Ok(rows[id]); } else { r := Err(NotFound); }
    }

    /** Sets title, description, status and due_date of the row, and updated_at. */
    method Update(id: int, t: Task, now: int) returns (r: Result<Task>)
      requires Valid()
      modifies this
      ensures Valid() && nextId == old(nextId)
      ensures id !in old(rows) ==> r == Err(NotFound) && rows == old(rows)
      ensures id in old(rows) ==>
                && r == Ok(t.(updatedAt := now))
                && var was := old(rows)[id];
                   rows == old(rows)[id := t.(userId := was.userId, createdAt := was.createdAt, updatedAt := now)]
    {
      if id !in rows { return Err(NotFound); }
      var row := rows[id];
      row := row.(title := t.title, description := t.description, status := t.status, dueDate := t.dueDate);
      rows := rows[id := row.(updatedAt := now)];
      r := Ok(t.(updatedAt := now));
    }

    method Delete(id: int) returns (ok: bool)
      requires Valid()
      modifies this
      ensures Valid() && nextId == old(nextId)
      ensures ok == (id in old(rows)) && rows == old(rows) - {id}
    {
      ok := id in rows;
      rows := rows - {id};
    }

    /** The count, and the page that LIMIT and OFFSET cut out of the order that
        the database chose. */
    method ListByUser(userId: int, status: string, limit: nat, offset: nat, order: seq<int>)
        returns (tasks: seq<(int, Task)>, total: nat)
      requires IsListing(rows, Matching(rows, userId, status), order)
      ensures total == |Matching(rows, userId, status)|
      ensures var page := Slice(order, limit, offset);
              |tasks| == |page| && forall i :: 0 <= i < |tasks| ==> tasks[i] == (page[i], rows[page[i]])
      ensures forall i :: 0 <= i < |tasks| ==>
                tasks[i].1.userId == userId && (status == "" || tasks[i].1.status == status)
    {
      total := |Matching(rows, userId, status)|;
      tasks := [];
      var page := Slice(order, limit, offset);
      for i := 0 to |page|
        invariant |tasks| == i
        invariant forall j :: 0 <= j < i ==> tasks[j] == (page[j], rows[page[j]])
      {
        tasks := tasks + [(page[i], rows[page[i]])];
      }
    }
  }

  class TaskService {
    const repo: TaskRepository

    constructor (repo: TaskRepository)
      ensures this.repo == repo
    {
      this.repo := repo;
    }

    /** The new row starts as pending. */
    method Create(userId: int, title: string, description: string, dueDate: Option<int>, now: int) returns (id: int)
      requires repo.Valid()
      modifies repo
      ensures repo.Valid() && id == old(repo.nextId) && id !in old(repo.rows)
      ensures id in repo.rows
      ensures (repo.rows, Got(id, repo.rows[id]))
              == Atomic(old(repo.rows), Op.Create(userId, title, description, dueDate), id, now)
    {
      id := repo.Create(Task(userId, title, description, "pending", dueDate, 0, 0), now);
    }

    /** The row if it exists and belongs to the user; otherwise nothing of it. */
    method Get(userId: int, id: int) returns (r: Result<Task>)
      ensures r.Ok? <==> id in repo.rows && repo.rows[id].userId == userId
      ensures r.Ok? ==> r.value == repo.rows[id]
      ensures r == Err(NotFound) <==> id !in repo.rows
      ensures r == Err(Forbidden) <==> id in repo.rows && repo.rows[id].userId != userId
      ensures match r
              case Ok(t) => Atomic(repo.rows, Op.Get(userId, id), 0, 0) == (repo.rows, Got(id, t))
              case Err(e) => Atomic(repo.rows, Op.Get(userId, id), 0, 0) == (repo.rows, Refused(e))
    {
      r := repo.FindByID(id);
      if r.Ok? && r.value.userId != userId { r := Err(Forbidden); }
    }

    method Update(userId: int, id: int, title: string, description: string, status: string, dueDate: Option<int>,
                  now: int)
        returns (r: Result<Task>)
      requires repo.Valid()
      modifies repo
      ensures repo.Valid() && repo.nextId == old(repo.nextId)
      ensures (repo.rows, if r.Ok? then Got(id, r.value) else Refused(r.error))
              == Atomic(old(repo.rows), Op.Update(userId, id, title, description, status, dueDate), 0, now)
    {
      r := Get(userId, id);
      if r.Err? { return; }
      if !ValidStatus(status) { return Err(Validation); }
      var task := r.value.(title := title, description := description, status := status, dueDate := dueDate);
      r := repo.Update(id, task, now);
    }

    method Delete(userId: int, id: int) returns (answer: Answer)
      requires repo.Valid()
      modifies repo
      ensures repo.Valid() && repo.nextId == old(repo.nextId)
      ensures (repo.rows, answer) == Atomic(old(repo.rows), Op.Delete(userId, id), 0, 0)
    {
      var r := Get(userId, id);
      if r.Err? { return Refused(r.error); }
      var ok := repo.Delete(id);
      answer := if ok then Deleted else Refused(NotFound);
    }

    /** The page under the clamped limit and offset, which are returned with it. */
    method List(userId: int, status: string, limit: int, offset: int, order: seq<int>)
        returns (tasks: seq<(int, Task)>, total: nat, effectiveLimit: nat, effectiveOffset: nat)
      requires IsListing(repo.rows, Matching(repo.rows, userId, status), order)
      ensures effectiveLimit == EffectiveLimit(limit) && effectiveOffset == if offset < 0 then 0 else offset
      ensures total == |order| == |Matching(repo.rows, userId, status)|
      ensures var page := Slice(order, effectiveLimit, effectiveOffset);
              |tasks| == |page| && forall i :: 0 <= i < |tasks| ==> tasks[i] == (page[i], repo.rows[page[i]])
      ensures |tasks| <= effectiveLimit && forall i :: 0 <= i < |tasks| ==>
                tasks[i].1.userId == userId && (status == "" || tasks[i].1.status == status)
    {
      var l := limit;
      if l <= 0 { l := DEFAULT_PAGE_LIMIT; }
      if l > MAX_PAGE_LIMIT { l := MAX_PAGE_LIMIT; }
      var o := offset;
      if o < 0 { o := 0; }
      effectiveLimit, effectiveOffset := l, o;
      tasks, total := repo.ListByUser(userId, status, effectiveLimit, effectiveOffset, order);
    }
  }
}
