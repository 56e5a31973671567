/** The seed command: a rotating window of five templates per user, skipping the
    titles that the user is seen to have. Every statement may fail. */
module Seeder {
  import opened Common
  import opened Tasks
  import opened TaskListing
  import opened TaskService

  datatype Template = Template(title: string, description: string, status: string, dueInDays: Option<int>)

  const TEMPLATES: seq<Template> := [
    Template("Set up CI pipeline", "Configure GitHub Actions for lint/test/build", "done", None),
    Template("Write API documentation", "Document all endpoints in the OpenAPI spec", "done", None),
    Template("Add refresh token rotation", "Implement OAuth2-style rotation with reuse detection",
             "in_progress", Some(2)),
    Template("Review pull request #42", "Review the distributed tracing PR", "pending", Some(1)),
    Template("Fix flaky integration test", "TestTaskRepository_ListByUser occasionally times out under load",
             "pending", Some(5)),
    Template("Plan Q3 roadmap", "Draft the roadmap doc for next quarter", "pending", Some(14)),
    Template("Upgrade Postgres to v16", "Test compatibility and plan a migration window", "in_progress", Some(7)),
    Template("Onboard new team member", "Walk through architecture and local dev setup", "done", None),
    Template("Investigate 500s on /api/v1/tasks", "Spiked briefly during last night's deploy", "done", None),
    Template("Buy birthday gift", "Something not work-related, for once", "pending", Some(3))
  ]

  const PER_USER := 5

  /** The rotating window of templates for the user at this offset. */
  function WindowAt(offset: nat): seq<Template> {
    seq(PER_USER, i requires 0 <= i => TEMPLATES[(offset + i) % |TEMPLATES|])
  }

  lemma TitlesDiffer(i: nat, j: nat)
    requires i < |TEMPLATES| && j < |TEMPLATES| && i != j
    ensures TEMPLATES[i].title != TEMPLATES[j].title
  {
    Initials();
  }

  /** The first letters of the titles. */
  lemma Initials()
    ensures |TEMPLATES| == 10
    ensures forall k :: 0 <= k < 10 ==> |TEMPLATES[k].title| > 0 && TEMPLATES[k].title[0] == "SWARFPUOIB"[k]
  {
  }

  /** Different titles, and statuses that the service accepts. */
  ghost predicate Sound(window: seq<Template>) {
    && (forall i, j :: 0 <= i < j < |window| ==> window[i].title != window[j].title)
    && (forall i :: 0 <= i < |window| ==> ValidStatus(window[i].status))
  }

  lemma StatusesAreValid()
    ensures forall k :: 0 <= k < |TEMPLATES| ==> ValidStatus(TEMPLATES[k].status)
  {
    assert |TEMPLATES| == 10;
  }

  /** Every window is sound: five templates in a row have different titles. */
  lemma WindowSound(offset: nat)
    ensures Sound(WindowAt(offset))
  {
    var window := WindowAt(offset);
    StatusesAreValid();
    forall i, j | 0 <= i < j < PER_USER ensures window[i].title != window[j].title {
      Positions(offset, i, j);
      TitlesDiffer((offset + i) % |TEMPLATES|, (offset + j) % |TEMPLATES|);
    }
  }

  /** Two places of a window show different templates. */
  lemma Positions(offset: nat, i: nat, j: nat)
    requires i < j < PER_USER
    ensures |TEMPLATES| == 10 && (offset + i) % 10 != (offset + j) % 10
  {
  }

  /** A call to the service does its work; fails without having done it; or has
      done it but is reported as failed. */
  datatype Fate = Done | Failed | Lost

  /** The fate of the Create and of the Update in one round of the loop. */
  datatype Round = Round(create: Fate, update: Fate)

  type Rounds = nat -> Round

  /** The round leaves a row behind. */
  predicate Inserts(r: Round) { !r.create.Failed? }

  /** No Create of the first n rounds fails or is reported as failed. */
  ghost predicate Smooth(rounds: Rounds, n: nat) {
    forall i: nat :: i < n ==> rounds(i).create.Done?
  }

  /** The windows rotate: the one at offset 0 is the first half of the templates, each
      next one drops the first template and appends the one after the last, and after
      ten they come again. */
  lemma WindowsRotate(offset: nat)
    ensures WindowAt(0) == TEMPLATES[..5] && |WindowAt(offset)| == 5
    ensures WindowAt(offset)[1..] == WindowAt(offset + 1)[..4]
    ensures WindowAt(offset + 10) == WindowAt(offset)
  {
    assert |TEMPLATES| == 10;
  }

  /** Users at neighbouring offsets share exactly four templates. */
  lemma NeighboursShareFour(offset: nat)
    ensures |TitlesOf(WindowAt(offset), 5) * TitlesOf(WindowAt(offset + 1), 5)| == 4
  {
    WindowSound(offset + 1);
    WindowsRotate(offset);
    var here, next := WindowAt(offset), WindowAt(offset + 1);
    FirstIsGone(offset, here, next);
    ShareFour(here, next);
  }

  lemma FirstIsGone(offset: nat, here: seq<Template>, next: seq<Template>)
    requires here == WindowAt(offset) && next == WindowAt(offset + 1)
    ensures forall i :: 0 <= i < 5 ==> here[0].title != next[i].title
  {
    forall i | 0 <= i < 5 ensures here[0].title != next[i].title { FirstIsNot(offset, i); }
  }

  lemma FirstIsNot(offset: nat, i: nat)
    requires i < 5
    ensures WindowAt(offset)[0].title != WindowAt(offset + 1)[i].title
  {
    var p, q := offset % 10, (offset + 1 + i) % 10;
    ZeroAndNext(offset, i);
    TitlesDiffer(p, q);
    assert WindowAt(offset)[0] == TEMPLATES[p] && WindowAt(offset + 1)[i] == TEMPLATES[q];
  }

  lemma ShareFour(here: seq<Template>, next: seq<Template>)
    requires |here| == |next| == 5 && Sound(next) && here[1..] == next[..4]
    requires forall i :: 0 <= i < 5 ==> here[0].title != next[i].title
    ensures |TitlesOf(here, 5) * TitlesOf(next, 5)| == 4
  {
    TitlesCount(next, 4);
    forall i | 0 <= i < 4 ensures next[i].title == here[i + 1].title {
      assert next[..4][i] == here[1..][i];
    }
    forall title | title in TitlesOf(here, 5) * TitlesOf(next, 5) ensures title in TitlesOf(next, 4) {
      var i :| 0 <= i < 5 && here[i].title == title;
      if i > 0 { assert next[i - 1].title == title; }
    }
    assert TitlesOf(here, 5) * TitlesOf(next, 5) == TitlesOf(next, 4);
  }

  lemma ZeroAndNext(offset: nat, i: nat)
    requires i < 5
    ensures |TEMPLATES| == 10 && offset % 10 != (offset + 1 + i) % 10
  {
  }

  lemma {:induction false} TitlesCount(window: seq<Template>, n: nat)
    requires Sound(window) && n <= |window|
    ensures |TitlesOf(window, n)| == n
  {
    if n == 0 {
      assert TitlesOf(window, 0) == {};
    } else {
      TitlesCount(window, n - 1);
      assert TitlesOf(window, n) == TitlesOf(window, n - 1) + {window[n - 1].title};
    }
  }

  /** The titles of the first n templates of a window. */
  function TitlesOf(window: seq<Template>, n: nat): set<string>
    requires n <= |window|
  {
    set i | 0 <= i < n :: window[i].title
  }

  /** The titles that the first n rounds insert. */
  function Missing(window: seq<Template>, seen: set<string>, rounds: Rounds, n: nat): set<string>
    requires n <= |window|
  {
    set i: nat | i < n && window[i].title !in seen && Inserts(rounds(i)) :: window[i].title
  }

  /** The first n rounds that are counted as created: title not seen, no error. */
  function Created(window: seq<Template>, seen: set<string>, rounds: Rounds, n: nat): nat
    requires n <= |window|
  {
    if n == 0 then 0 else
    Created(window, seen, rounds, n - 1)
    + if window[n - 1].title !in seen && rounds(n - 1).create.Done? then 1 else 0
  }

  /** The first n rounds that are counted as skipped. */
  function Skipped(window: seq<Template>, seen: set<string>, n: nat): nat
    requires n <= |window|
  {
    if n == 0 then 0 else Skipped(window, seen, n - 1) + if window[n - 1].title in seen then 1 else 0
  }

  lemma MissingKept(window: seq<Template>, seen: set<string>, rounds: Rounds, n: nat)
    requires n < |window| && (window[n].title in seen || !Inserts(rounds(n)))
    ensures Missing(window, seen, rounds, n + 1) == Missing(window, seen, rounds, n)
  {
  }

  lemma MissingGrows(window: seq<Template>, seen: set<string>, rounds: Rounds, n: nat)
    requires n < |window| && Sound(window) && window[n].title !in seen && Inserts(rounds(n))
    ensures Missing(window, seen, rounds, n + 1) == Missing(window, seen, rounds, n) + {window[n].title}
    ensures window[n].title !in Missing(window, seen, rounds, n)
  {
  }

  /** The titles of a user's tasks. */
  function Titles(rows: Table, userId: int): set<string> {
    set id | id in rows && rows[id].userId == userId :: rows[id].title
  }

  /** The titles among the newest hundred tasks of a listing: what the seeder sees
      when the listing does not fail. */
  function Seen(rows: Table, order: seq<int>): set<string>
    requires forall i :: 0 <= i < |order| ==> order[i] in rows
  {
    set i | 0 <= i < Cap(MAX_PAGE_LIMIT, |order|) :: rows[order[i]].title
  }

  /** A task starts as pending; the Update that follows is skipped for a pending
      template and after a Create that is reported as failed. */
  function StatusAfter(tmpl: Template, r: Round): string {
    if r.create.Done? && !r.update.Failed? then tmpl.status else "pending"
  }

  /** Row t is what a round makes of a template for user u. */
  predicate MadeFrom(t: Task, u: int, tmpl: Template, r: Round) {
    && t.userId == u && t.title == tmpl.title && t.description == tmpl.description && t.status == StatusAfter(tmpl, r)
    && (t.dueDate.Some? <==> tmpl.dueInDays.Some?)
  }

  predicate MadeFromSome(t: Task, u: int, window: seq<Template>, rounds: Rounds) {
    exists k: nat :: k < |window| && MadeFrom(t, u, window[k], rounds(k))
  }

  /** The title got a row that was not there before. */
  ghost predicate Added(rows: Table, rows': Table, title: string) {
    exists id :: id in rows' && id !in rows && rows'[id].title == title
  }

  /** The rows are kept, and the new ones have the missing titles, one row each. */
  ghost predicate AddsOnly(rows: Table, rows': Table, u: int, window: seq<Template>, rounds: Rounds,
                           missing: set<string>) {
    && (forall id :: id in rows ==> id in rows' && rows'[id] == rows[id])
    && (forall id :: id in rows' && id !in rows ==>
          rows'[id].title in missing && MadeFromSome(rows'[id], u, window, rounds))
    && (forall i, j :: i in rows' && j in rows' && i !in rows && j !in rows && rows'[i].title == rows'[j].title
          ==> i == j)
    && (forall title :: title in missing ==> Added(rows, rows', title))
  }

  /** What the first n rounds of the loop do: the titles of the window that were
      not seen and whose Create did not fail get one new row each. */
  ghost predicate Seeded(rows: Table, seen: set<string>, u: int, window: seq<Template>, rounds: Rounds, n: nat,
                         rows': Table, created: nat, skipped: nat)
    requires n <= |window|
  {
    && AddsOnly(rows, rows', u, window, rounds, Missing(window, seen, rounds, n))
    && created == Created(window, seen, rounds, n) && skipped == Skipped(window, seen, n)
  }

  lemma SeededNone(rows: Table, seen: set<string>, u: int, window: seq<Template>, rounds: Rounds)
    ensures Seeded(rows, seen, u, window, rounds, 0, rows, 0, 0)
  {
    assert Missing(window, seen, rounds, 0) == {};
  }

  /** A round that leaves no row. */
  lemma SeededSame(rows: Table, seen: set<string>, u: int, window: seq<Template>, rounds: Rounds, n: nat,
                   rows': Table, created: nat, skipped: nat)
    requires n < |window| && Seeded(rows, seen, u, window, rounds, n, rows', created, skipped)
    requires window[n].title in seen || !Inserts(rounds(n))
    ensures Seeded(rows, seen, u, window, rounds, n + 1, rows',
                   created, if window[n].title in seen then skipped + 1 else skipped)
  {
    MissingKept(window, seen, rounds, n);
  }

  lemma AddOne(rows: Table, rows': Table, u: int, window: seq<Template>, rounds: Rounds, missing: set<string>,
               id: int, t: Task)
    requires AddsOnly(rows, rows', u, window, rounds, missing) && id !in rows'
    requires MadeFromSome(t, u, window, rounds) && t.title !in missing
    ensures AddsOnly(rows, rows'[id := t], u, window, rounds, missing + {t.title})
  {
    var after := rows'[id := t];
    forall title | title in missing + {t.title} ensures Added(rows, after, title) {
      if title == t.title {
        assert after[id].title == title;
      } else {
        assert Added(rows, rows', title);
        var i :| i in rows' && i !in rows && rows'[i].title == title;
        assert after[i].title == title;
      }
    }
  }

  /** A round that leaves a row. */
  lemma SeededCreate(rows: Table, seen: set<string>, u: int, window: seq<Template>, rounds: Rounds, n: nat,
                     rows': Table, created: nat, skipped: nat, id: int, t: Task)
    requires n < |window| && Sound(window) && Seeded(rows, seen, u, window, rounds, n, rows', created, skipped)
    requires window[n].title !in seen && Inserts(rounds(n)) && id !in rows' && MadeFrom(t, u, window[n], rounds(n))
    ensures Seeded(rows, seen, u, window, rounds, n + 1, rows'[id := t],
                   if rounds(n).create.Done? then created + 1 else created, skipped)
  {
    MissingGrows(window, seen, rounds, n);
    assert MadeFromSome(t, u, window, rounds);
    AddOne(rows, rows', u, window, rounds, Missing(window, seen, rounds, n), id, t);
  }

  // ---------------------------------------------------------- the command

  /** The titles of the listed tasks. */
  method CollectTitles(existing: seq<(int, Task)>) returns (titles: set<string>)
    ensures titles == set j | 0 <= j < |existing| :: existing[j].1.title
  {
    titles := {};
    for i := 0 to |existing|
      invariant titles == set j | 0 <= j < i :: existing[j].1.title
    {
      titles := titles + {existing[i].1.title};
    }
  }

  /** One round that creates: the service starts the task as pending and is then
      asked for the template's status; made says that the round counts. */
  method SeedOne(service: TaskService, u: int, tmpl: Template, r: Round, createdAt: int, updatedAt: int,
                 due: int -> int)
      returns (made: bool, ghost id: int)
    requires service.repo.Valid() && ValidStatus(tmpl.status)
    modifies service.repo
    ensures service.repo.Valid() && made == r.create.Done?
    ensures !Inserts(r) ==> service.repo.rows == old(service.repo.rows)
    ensures Inserts(r) ==>
              && id !in old(service.repo.rows) && id in service.repo.rows
              && service.repo.rows == old(service.repo.rows)[id := service.repo.rows[id]]
              && MadeFrom(service.repo.rows[id], u, tmpl, r) && service.repo.rows[id].createdAt == createdAt
              && (tmpl.dueInDays.Some? ==> service.repo.rows[id].dueDate == Some(due(tmpl.dueInDays.value)))
  {
    var dueDate := if tmpl.dueInDays.Some? then Some(due(tmpl.dueInDays.value)) else None;
    if r.create.Failed? { return false, 0; }
    var task := service.Create(u, tmpl.title, tmpl.description, dueDate, createdAt);
    id := task;
    if r.create.Lost? { return false, id; }
    if tmpl.status != "pending" && !r.update.Failed? {
      var _ := service.Update(u, task, tmpl.title, tmpl.description, tmpl.status, dueDate, updatedAt);
    }
    made := true;
  }

  /** One round of the loop: skip a title that was seen, create any other. */
  method SeedRound(service: TaskService, u: int, window: seq<Template>, titles: set<string>, rounds: Rounds, n: nat,
                   clock: nat -> int, due: (nat, int) -> int,
                   ghost before: Table, created: nat, skipped: nat)
      returns (created': nat, skipped': nat)
    requires service.repo.Valid() && n < |window| && Sound(window)
    requires Seeded(before, titles, u, window, rounds, n, service.repo.rows, created, skipped)
    modifies service.repo
    ensures service.repo.Valid()
    ensures Seeded(before, titles, u, window, rounds, n + 1, service.repo.rows, created', skipped')
  {
    ghost var rows := service.repo.rows;
    created', skipped' := created, skipped;
    if window[n].title in titles {
      skipped' := skipped + 1;
      SeededSame(before, titles, u, window, rounds, n, rows, created, skipped);
    } else {
      var made, id :=
        SeedOne(service, u, window[n], rounds(n), clock(2 * n), clock(2 * n + 1), days => due(n, days));
      if made { created' := created + 1; }
      if Inserts(rounds(n)) {
        SeededCreate(before, titles, u, window, rounds, n, rows, created, skipped, id, service.repo.rows[id]);
      } else {
        SeededSame(before, titles, u, window, rounds, n, rows, created, skipped);
      }
    }
  }

  /** The loop over a window. */
  method SeedWindow(service: TaskService, u: int, window: seq<Template>, titles: set<string>, rounds: Rounds,
                    clock: nat -> int, due: (nat, int) -> int)
      returns (created: nat, skipped: nat)
    requires service.repo.Valid() && Sound(window)
    modifies service.repo
    ensures service.repo.Valid()
    ensures Seeded(old(service.repo.rows), titles, u, window, rounds, |window|, service.repo.rows, created, skipped)
  {
    ghost var before := service.repo.rows;
    created, skipped := 0, 0;
    SeededNone(before, titles, u, window, rounds);
    for n := 0 to |window|
      invariant service.repo.Valid()
      invariant Seeded(before, titles, u, window, rounds, n, service.repo.rows, created, skipped)
    {
      created, skipped := SeedRound(service, u, window, titles, rounds, n, clock, due, before, created, skipped);
    }
  }

  /** One run of the command for user u: order is how the database lists the user's
      tasks, and listed says whether List succeeds. When it fails nothing is seen. */
  ghost predicate IsSeedRun(rows: Table, order: seq<int>, listed: bool, u: int, window: seq<Template>, rounds: Rounds,
                            rows': Table, created: nat, skipped: nat)
  {
    && IsListing(rows, Matching(rows, u, ""), order)
    && Seeded(rows, if listed then Seen(rows, order) else {}, u, window, rounds, |window|, rows', created, skipped)
  }

  /** seedTasksForUser; clock gives the readings of the database clock, and
      due(n, days) the date so many days from round n. */
  method SeedTasksForUser(service: TaskService, u: int, offset: nat, order: seq<int>, listed: bool, rounds: Rounds,
                          clock: nat -> int, due: (nat, int) -> int)
      returns (created: nat, skipped: nat)
    requires service.repo.Valid() && IsListing(service.repo.rows, Matching(service.repo.rows, u, ""), order)
    modifies service.repo
    ensures service.repo.Valid()
    ensures IsSeedRun(old(service.repo.rows), order, listed, u, WindowAt(offset), rounds,
                      service.repo.rows, created, skipped)
  {
    var existing := [];
    if listed {
      var tasks, _, _, _ := service.List(u, "", 100, 0, order);
      existing := tasks;
    }
    var titles := CollectTitles(existing);
    assert titles == if listed then Seen(service.repo.rows, order) else {};
    WindowSound(offset);
    created, skipped := SeedWindow(service, u, WindowAt(offset), titles, rounds, clock, due);
  }

  // ------------------------------------------------ what a run leaves behind

  /** The first n rounds whose Create fails or is reported as failed. */
  function Troubled(window: seq<Template>, seen: set<string>, rounds: Rounds, n: nat): nat
    requires n <= |window|
  {
    if n == 0 then 0 else
    Troubled(window, seen, rounds, n - 1)
    + if window[n - 1].title !in seen && !rounds(n - 1).create.Done? then 1 else 0
  }

  /** Every round is counted as created or as skipped, or its Create went wrong; when
      none did, as many rows were created as are counted. */
  lemma {:induction false} CountsAddUp(window: seq<Template>, seen: set<string>, rounds: Rounds, n: nat)
    requires n <= |window|
    ensures Created(window, seen, rounds, n) + Skipped(window, seen, n) + Troubled(window, seen, rounds, n) == n
    ensures Smooth(rounds, n) ==> Troubled(window, seen, rounds, n) == 0
    ensures Sound(window) && Smooth(rounds, n) ==>
              Created(window, seen, rounds, n) == |Missing(window, seen, rounds, n)|
  {
    if n == 0 {
      assert Missing(window, seen, rounds, 0) == {};
    } else {
      CountsAddUp(window, seen, rounds, n - 1);
      if Sound(window) && Smooth(rounds, n) {
        if window[n - 1].title in seen {
          MissingKept(window, seen, rounds, n - 1);
        } else {
          MissingGrows(window, seen, rounds, n - 1);
        }
      }
    }
  }

  lemma {:induction false} AllSeen(window: seq<Template>, seen: set<string>, rounds: Rounds, n: nat)
    requires n <= |window| && TitlesOf(window, |window|) <= seen
    ensures Created(window, seen, rounds, n) == 0 && Skipped(window, seen, n) == n
  {
    if n > 0 {
      assert window[n - 1].title in TitlesOf(window, |window|);
      AllSeen(window, seen, rounds, n - 1);
    }
  }

  /** After a run the user has a title of the window if and only if the user had it
      before, or its Create did not fail. */
  lemma WindowPresent(rows: Table, order: seq<int>, listed: bool, u: int, window: seq<Template>, rounds: Rounds,
                      rows': Table, created: nat, skipped: nat, i: nat)
    requires IsSeedRun(rows, order, listed, u, window, rounds, rows', created, skipped)
    requires Sound(window) && i < |window|
    ensures window[i].title in Titles(rows', u) <==> window[i].title in Titles(rows, u) || Inserts(rounds(i))
  {
    var title, seen := window[i].title, if listed then Seen(rows, order) else {};
    if title in Titles(rows, u) {
      var id :| id in rows && rows[id].userId == u && rows[id].title == title;
      assert rows'[id].title == title;
    } else {
      NotSeen(rows, order, u, title);
      if Inserts(rounds(i)) {
        assert title in Missing(window, seen, rounds, |window|) && Added(rows, rows', title);
        var id :| id in rows' && id !in rows && rows'[id].title == title;
        assert MadeFromSome(rows'[id], u, window, rounds);
      } else {
        assert title !in Missing(window, seen, rounds, |window|);
        forall id | id in rows' && rows'[id].userId == u ensures rows'[id].title != title {
          if id in rows { assert rows'[id] == rows[id] && rows[id].title in Titles(rows, u); }
        }
      }
    }
  }

  /** What the user does not have is not seen. */
  lemma NotSeen(rows: Table, order: seq<int>, u: int, title: string)
    requires IsListing(rows, Matching(rows, u, ""), order) && title !in Titles(rows, u)
    ensures title !in Seen(rows, order)
  {
    forall i | 0 <= i < Cap(MAX_PAGE_LIMIT, |order|) ensures rows[order[i]].title != title {
      var id := order[i];
      assert id in Matching(rows, u, "");
      assert rows[id].title in Titles(rows, u);
    }
  }

  /** With at most a hundred tasks the seeder sees all of them. */
  lemma SeesAll(rows: Table, u: int, order: seq<int>)
    requires IsListing(rows, Matching(rows, u, ""), order) && |order| <= MAX_PAGE_LIMIT
    ensures Seen(rows, order) == Titles(rows, u)
  {
    ListingComplete(rows, Matching(rows, u, ""), order);
    forall title | title in Titles(rows, u) ensures title in Seen(rows, order) {
      var id :| id in rows && rows[id].userId == u && rows[id].title == title;
      assert id in Elems(order);
      var i :| 0 <= i < |order| && order[i] == id;
    }
    forall title | title in Seen(rows, order) ensures title in Titles(rows, u) {
      var i :| 0 <= i < Cap(MAX_PAGE_LIMIT, |order|) && rows[order[i]].title == title;
    }
  }

  /** The same ids, each with the same row. */
  ghost predicate SameRows(a: Table, b: Table) {
    && (forall id :: id in a ==> id in b && b[id] == a[id])
    && (forall id :: id in b ==> id in a)
  }

  /** After a run in which no Create failed, whatever else did, a second run whose
      List succeeds creates nothing and changes nothing on at most a hundred tasks. */
  lemma SeedIdempotent(rows: Table, order: seq<int>, listed: bool, u: int, window: seq<Template>, rounds: Rounds,
                       rows1: Table, created: nat, skipped: nat,
                       order1: seq<int>, rounds1: Rounds, rows2: Table, created2: nat, skipped2: nat)
    requires Sound(window) && Smooth(rounds, |window|)
    requires IsSeedRun(rows, order, listed, u, window, rounds, rows1, created, skipped)
    requires IsSeedRun(rows1, order1, true, u, window, rounds1, rows2, created2, skipped2)
    requires |order1| <= MAX_PAGE_LIMIT
    ensures created + skipped == |window| && created2 == 0 && skipped2 == |window| && SameRows(rows1, rows2)
  {
    var seen := Seen(rows1, order1);
    forall title | title in TitlesOf(window, |window|) ensures title in Titles(rows1, u) {
      var i :| 0 <= i < |window| && window[i].title == title;
      WindowPresent(rows, order, listed, u, window, rounds, rows1, created, skipped, i);
    }
    SeesAll(rows1, u, order1);
    assert TitlesOf(window, |window|) <= seen;
    AllSeen(window, seen, rounds1, |window|);
    CountsAddUp(window, if listed then Seen(rows, order) else {}, rounds, |window|);
    forall i | 0 <= i < |window| ensures window[i].title in seen {
      assert window[i].title in TitlesOf(window, |window|);
    }
    assert Missing(window, seen, rounds1, |window|) == {};
  }

  /** Row t says what the template says. */
  predicate Follows(t: Task, u: int, tmpl: Template) {
    && t.userId == u && t.title == tmpl.title && t.description == tmpl.description && t.status == tmpl.status
    && (t.dueDate.Some? <==> tmpl.dueInDays.Some?)
  }

  /** After a run in which nothing failed, every new row says what its template says,
      its status included. */
  lemma NewRowsFollow(rows: Table, order: seq<int>, listed: bool, u: int, window: seq<Template>, rounds: Rounds,
                      rows': Table, created: nat, skipped: nat, id: int)
    requires IsSeedRun(rows, order, listed, u, window, rounds, rows', created, skipped)
    requires forall i: nat :: i < |window| ==> rounds(i) == Round(Done, Done)
    requires id in rows' && id !in rows
    ensures exists i: nat :: i < |window| && Follows(rows'[id], u, window[i])
  {
    assert MadeFromSome(rows'[id], u, window, rounds);
    var i: nat :| i < |window| && MadeFrom(rows'[id], u, window[i], rounds(i));
    assert Follows(rows'[id], u, window[i]);
  }

  // ------------------------------------------------------------- duplicates

  /** The user had a task of the same title as one of the new rows. */
  ghost predicate Duplicated(rows: Table, u: int, rows': Table) {
    exists i, j :: i in rows && j in rows' && j !in rows && rows[i].userId == u && rows[i].title == rows'[j].title
  }

  /** Round i inserts a title that the user has and the seeder does not see. */
  ghost predicate Hidden(rows: Table, seen: set<string>, u: int, window: seq<Template>, rounds: Rounds, i: nat) {
    i < |window| && window[i].title in Titles(rows, u) && window[i].title !in seen && Inserts(rounds(i))
  }

  /** A run repeats a title of the user exactly when some round inserts a title that
      is there but not seen. */
  lemma DuplicatesIff(rows: Table, order: seq<int>, listed: bool, u: int, window: seq<Template>, rounds: Rounds,
                      rows': Table, created: nat, skipped: nat)
    requires IsSeedRun(rows, order, listed, u, window, rounds, rows', created, skipped)
    ensures var seen := if listed then Seen(rows, order) else {};
            Duplicated(rows, u, rows') <==> exists i: nat :: Hidden(rows, seen, u, window, rounds, i)
  {
    var seen := if listed then Seen(rows, order) else {};
    if k: nat :| Hidden(rows, seen, u, window, rounds, k) {
      var title := window[k].title;
      var i :| i in rows && rows[i].userId == u && rows[i].title == title;
      assert title in Missing(window, seen, rounds, |window|) && Added(rows, rows', title);
      var j :| j in rows' && j !in rows && rows'[j].title == title;
      assert rows[i].title == rows'[j].title;
    }
    if Duplicated(rows, u, rows') {
      var i, j :| i in rows && j in rows' && j !in rows && rows[i].userId == u && rows[i].title == rows'[j].title;
      assert rows'[j].title in Missing(window, seen, rounds, |window|);
      var k: nat :| k < |window| && window[k].title !in seen && Inserts(rounds(k)) && window[k].title == rows'[j].title;
      assert Hidden(rows, seen, u, window, rounds, k);
    }
  }

  /** The user had this title and got a second task of it. */
  ghost predicate Repeated(rows: Table, u: int, rows': Table, title: string) {
    title in Titles(rows, u) && Added(rows, rows', title)
  }

  /** Title by title: a run repeats a title of the window exactly when it is there,
      is not seen, and its Create does not fail. */
  lemma RepeatedIff(rows: Table, order: seq<int>, listed: bool, u: int, window: seq<Template>, rounds: Rounds,
                    rows': Table, created: nat, skipped: nat, i: nat)
    requires IsSeedRun(rows, order, listed, u, window, rounds, rows', created, skipped)
    requires Sound(window) && i < |window|
    ensures var seen := if listed then Seen(rows, order) else {};
            Repeated(rows, u, rows', window[i].title) <==> Hidden(rows, seen, u, window, rounds, i)
  {
    var title, seen := window[i].title, if listed then Seen(rows, order) else {};
    assert title in Missing(window, seen, rounds, |window|) <==> title !in seen && Inserts(rounds(i));
    assert Added(rows, rows', title) <==> title in Missing(window, seen, rounds, |window|);
  }

  /** With at most a hundred tasks to begin with and a List that succeeds, no title
      is created twice, whatever else fails. */
  lemma NoTitleTwice(rows: Table, order: seq<int>, u: int, window: seq<Template>, rounds: Rounds,
                     rows': Table, created: nat, skipped: nat)
    requires IsSeedRun(rows, order, true, u, window, rounds, rows', created, skipped) && |order| <= MAX_PAGE_LIMIT
    ensures !Duplicated(rows, u, rows')
  {
    SeesAll(rows, u, order);
    DuplicatesIff(rows, order, true, u, window, rounds, rows', created, skipped);
  }

  /** Task x of user u has this title. */
  predicate IsTitled(rows: Table, u: int, title: string, x: int) {
    x in rows && rows[x].userId == u && rows[x].title == title
  }

  /** The tasks of u with another title that are newer than the newest of this title
      or of the same age. */
  ghost function Ahead(rows: Table, u: int, title: string): set<int> {
    set id | id in Matching(rows, u, "") && rows[id].title != title
             && forall x :: IsTitled(rows, u, title, x) ==> rows[x].createdAt <= rows[id].createdAt
  }

  /** The tasks of u that are strictly newer than every one of this title. */
  ghost function Newer(rows: Table, u: int, title: string): set<int> {
    set id | id in Matching(rows, u, "")
             && forall x :: IsTitled(rows, u, title, x) ==> rows[x].createdAt < rows[id].createdAt
  }

  lemma SomeTitled(rows: Table, u: int, title: string) returns (x: int)
    requires title in Titles(rows, u)
    ensures IsTitled(rows, u, title, x)
  {
    x :| x in rows && rows[x].userId == u && rows[x].title == title;
  }

  /** A task of a title that a listing does not show stands behind the first hundred. */
  lemma Position(rows: Table, order: seq<int>, u: int, title: string, x: int) returns (q: nat)
    requires IsListing(rows, Matching(rows, u, ""), order)
    requires IsTitled(rows, u, title, x) && title !in Seen(rows, order)
    ensures MAX_PAGE_LIMIT <= q < |order| && order[q] == x
  {
    ListingComplete(rows, Matching(rows, u, ""), order);
    assert x in Elems(order);
    q :| 0 <= q < |order| && order[q] == x;
    forall i | 0 <= i < Cap(MAX_PAGE_LIMIT, |order|) ensures rows[order[i]].title in Seen(rows, order) {}
  }

  /** If a listing does not show a title of the user, a hundred tasks are ahead of it. */
  lemma UnseenIsBehind(rows: Table, order: seq<int>, u: int, title: string)
    requires IsListing(rows, Matching(rows, u, ""), order)
    requires title in Titles(rows, u) && title !in Seen(rows, order)
    ensures |Ahead(rows, u, title)| >= MAX_PAGE_LIMIT
  {
    var x := SomeTitled(rows, u, title);
    var q := Position(rows, order, u, title, x);
    var front := order[..MAX_PAGE_LIMIT];
    forall i | 0 <= i < MAX_PAGE_LIMIT ensures front[i] in Ahead(rows, u, title) {
      assert front[i] == order[i] && rows[order[i]].title in Seen(rows, order);
      forall y | IsTitled(rows, u, title, y) ensures rows[y].createdAt <= rows[front[i]].createdAt {
        var p := Position(rows, order, u, title, y);
      }
    }
    ElemsSize(front);
    SubsetSize(Elems(front), Ahead(rows, u, title));
  }

  /** If a hundred tasks are ahead of a title, some listing does not show it. */
  lemma BehindUnseen(rows: Table, u: int, title: string) returns (order: seq<int>)
    requires title in Titles(rows, u) && |Ahead(rows, u, title)| >= MAX_PAGE_LIMIT
    ensures IsListing(rows, Matching(rows, u, ""), order) && title !in Seen(rows, order)
  {
    var ids, ahead := Matching(rows, u, ""), Ahead(rows, u, title);
    var o := ListingExists(rows, ahead);
    var p := ListingExists(rows, ids - ahead);
    forall x, y | x in ahead && y in ids - ahead ensures rows[x].createdAt >= rows[y].createdAt {
      if rows[y].title == title {
        assert IsTitled(rows, u, title, y);
      } else {
        var z :| IsTitled(rows, u, title, z) && rows[z].createdAt > rows[y].createdAt;
      }
    }
    ListingAppend(rows, ahead, o, ids - ahead, p);
    assert ahead + (ids - ahead) == ids;
    order := o + p;
    forall i | 0 <= i < Cap(MAX_PAGE_LIMIT, |order|) ensures rows[order[i]].title != title {
      assert order[i] == o[i] && o[i] in ahead;
    }
  }

  /** Some id is not in use. */
  lemma FreshId(rows: Table) returns (id: int)
    ensures id !in rows
  {
    var candidates := seq(|rows.Keys| + 1, i => i);
    ElemsSize(candidates);
    if forall i :: 0 <= i < |candidates| ==> candidates[i] in rows {
      forall x | x in Elems(candidates) ensures x in rows.Keys {}
      SubsetSize(Elems(candidates), rows.Keys);
      assert false;
    }
    var i :| 0 <= i < |candidates| && candidates[i] !in rows;
    id := candidates[i];
  }

  /** Some run takes place for every table, view of it and fate of the statements. */
  lemma {:induction false} RunExists(rows: Table, seen: set<string>, u: int, window: seq<Template>, rounds: Rounds,
                                     n: nat)
      returns (rows': Table, created: nat, skipped: nat)
    requires n <= |window| && Sound(window)
    ensures Seeded(rows, seen, u, window, rounds, n, rows', created, skipped)
    decreases n
  {
    if n == 0 {
      rows', created, skipped := rows, 0, 0;
      SeededNone(rows, seen, u, window, rounds);
    } else {
      rows', created, skipped := RunExists(rows, seen, u, window, rounds, n - 1);
      var tmpl, r := window[n - 1], rounds(n - 1);
      if tmpl.title in seen || !Inserts(r) {
        SeededSame(rows, seen, u, window, rounds, n - 1, rows', created, skipped);
        if tmpl.title in seen { skipped := skipped + 1; }
      } else {
        var id := FreshId(rows');
        var due := if tmpl.dueInDays.Some? then Some(0) else None;
        var t := Task(u, tmpl.title, tmpl.description, StatusAfter(tmpl, r), due, 0, 0);
        SeededCreate(rows, seen, u, window, rounds, n - 1, rows', created, skipped, id, t);
        rows' := rows'[id := t];
        if r.create.Done? { created := created + 1; }
      }
    }
  }

  /** No run whose List succeeds repeats a title of the user, in whatever order the
      database lists the tasks and whatever else fails. */
  ghost predicate NeverDuplicates(rows: Table, u: int, window: seq<Template>) {
    forall order, rounds, rows', created, skipped ::
      IsSeedRun(rows, order, true, u, window, rounds, rows', created, skipped) ==> !Duplicated(rows, u, rows')
  }

  /** Seeding is safe to repeat exactly when fewer than a hundred tasks are ahead of
      every title of the window that the user has: strictly newer than the newest
      task of that title, or of its age and with another title. */
  lemma NeverDuplicatesIff(rows: Table, u: int, window: seq<Template>)
    requires Sound(window)
    ensures NeverDuplicates(rows, u, window) <==>
            forall i :: 0 <= i < |window| && window[i].title in Titles(rows, u) ==>
              |Ahead(rows, u, window[i].title)| < MAX_PAGE_LIMIT
  {
    if i: nat :|
         i < |window| && window[i].title in Titles(rows, u) && |Ahead(rows, u, window[i].title)| >= MAX_PAGE_LIMIT {
      var order := BehindUnseen(rows, u, window[i].title);
      var seen, rounds := Seen(rows, order), (k: nat) => Round(Done, Done);
      var rows', created, skipped := RunExists(rows, seen, u, window, rounds, |window|);
      assert IsSeedRun(rows, order, true, u, window, rounds, rows', created, skipped);
      assert Hidden(rows, seen, u, window, rounds, i);
      DuplicatesIff(rows, order, true, u, window, rounds, rows', created, skipped);
    } else {
      forall order, rounds, rows', created, skipped |
          IsSeedRun(rows, order, true, u, window, rounds, rows', created, skipped)
        ensures !Duplicated(rows, u, rows')
      {
        DuplicatesIff(rows, order, true, u, window, rounds, rows', created, skipped);
        if i: nat :| Hidden(rows, Seen(rows, order), u, window, rounds, i) {
          UnseenIsBehind(rows, order, u, window[i].title);
        }
      }
    }
  }

  /** Every run in which nothing fails gives the user a second task of this title. */
  ghost predicate AlwaysRepeats(rows: Table, u: int, window: seq<Template>, title: string) {
    forall order, rounds, rows', created, skipped ::
      IsSeedRun(rows, order, true, u, window, rounds, rows', created, skipped) && Smooth(rounds, |window|) ==>
        Added(rows, rows', title)
  }

  /** With a hundred strictly newer tasks no listing shows the title. */
  lemma NewerHide(rows: Table, order: seq<int>, u: int, title: string)
    requires IsListing(rows, Matching(rows, u, ""), order) && |Newer(rows, u, title)| >= MAX_PAGE_LIMIT
    ensures title !in Seen(rows, order)
  {
    if title in Seen(rows, order) {
      var j :| 0 <= j < Cap(MAX_PAGE_LIMIT, |order|) && rows[order[j]].title == title;
      assert order[j] in Matching(rows, u, "") && IsTitled(rows, u, title, order[j]);
      forall x | x in Newer(rows, u, title) ensures x in Elems(order[..j]) {
        NewerFirst(rows, Matching(rows, u, ""), order, x, j);
      }
      ElemsSize(order[..j]);
      SubsetSize(Newer(rows, u, title), Elems(order[..j]));
    }
  }

  /** The newest task of a title is not older than any task that is not newer. */
  lemma NewestTitled(rows: Table, u: int, title: string) returns (x: int)
    requires title in Titles(rows, u)
    ensures IsTitled(rows, u, title, x) && x !in Newer(rows, u, title)
    ensures forall z :: z in Matching(rows, u, "") && z !in Newer(rows, u, title) ==>
            rows[z].createdAt <= rows[x].createdAt
  {
    var titled := set id | id in Matching(rows, u, "") && rows[id].title == title;
    var y := SomeTitled(rows, u, title);
    assert y in titled;
    x := Newest(rows, titled);
    forall z | IsTitled(rows, u, title, z) ensures rows[z].createdAt <= rows[x].createdAt {
      assert z in titled;
    }
  }

  /** With fewer some listing shows it. */
  lemma FewNewerShow(rows: Table, u: int, title: string) returns (order: seq<int>)
    requires title in Titles(rows, u) && |Newer(rows, u, title)| < MAX_PAGE_LIMIT
    ensures IsListing(rows, Matching(rows, u, ""), order) && title in Seen(rows, order)
  {
    var ids, newer := Matching(rows, u, ""), Newer(rows, u, title);
    var x := NewestTitled(rows, u, title);
    order := ListingVia(rows, ids, newer, x);
    assert rows[order[|newer|]].title == title;
  }

  /** Every fault-free run repeats a title of the user exactly when a hundred of the
      user's tasks are strictly newer than every task of that title. */
  lemma AlwaysRepeatsIff(rows: Table, u: int, window: seq<Template>, i: nat)
    requires Sound(window) && i < |window| && window[i].title in Titles(rows, u)
    ensures AlwaysRepeats(rows, u, window, window[i].title) <==> |Newer(rows, u, window[i].title)| >= MAX_PAGE_LIMIT
  {
    var title := window[i].title;
    if |Newer(rows, u, title)| >= MAX_PAGE_LIMIT {
      forall order, rounds, rows', created, skipped |
          IsSeedRun(rows, order, true, u, window, rounds, rows', created, skipped) && Smooth(rounds, |window|)
        ensures Added(rows, rows', title)
      {
        NewerHide(rows, order, u, title);
        assert title in Missing(window, Seen(rows, order), rounds, |window|);
      }
    } else {
      var order := FewNewerShow(rows, u, title);
      var seen, rounds := Seen(rows, order), (k: nat) => Round(Done, Done);
      var rows', created, skipped := RunExists(rows, seen, u, window, rounds, |window|);
      assert IsSeedRun(rows, order, true, u, window, rounds, rows', created, skipped);
      assert title !in Missing(window, seen, rounds, |window|);
      assert !Added(rows, rows', title);
    }
  }

  /** One old task of a title and a hundred newer ones. */
  function Crowd(u: int, title: string): Table {
    var ids := Elems(seq(MAX_PAGE_LIMIT + 1, k => k));
    map j | j in ids ::
      Task(u, if j == 0 then title else title + "'", "", "pending", None, j, j)
  }

  /** Such tables exist: for every title of a window there is one on which every
      fault-free run repeats it. */
  lemma CrowdRepeats(u: int, window: seq<Template>, i: nat)
    requires Sound(window) && i < |window|
    ensures window[i].title in Titles(Crowd(u, window[i].title), u)
    ensures AlwaysRepeats(Crowd(u, window[i].title), u, window, window[i].title)
  {
    var title := window[i].title;
    var rows := Crowd(u, title);
    assert seq(MAX_PAGE_LIMIT + 1, k => k)[0] == 0 && rows[0].title == title;
    CrowdIsNewer(u, title);
    AlwaysRepeatsIff(rows, u, window, i);
  }

  lemma CrowdIsNewer(u: int, title: string)
    ensures |Newer(Crowd(u, title), u, title)| >= MAX_PAGE_LIMIT
  {
    var rows, newer := Crowd(u, title), seq(MAX_PAGE_LIMIT, j => j + 1);
    forall j | 0 <= j < |newer| ensures newer[j] in Newer(rows, u, title) {
      assert seq(MAX_PAGE_LIMIT + 1, k => k)[j + 1] == newer[j];
      assert forall x :: IsTitled(rows, u, title, x) ==> x == 0;
    }
    ElemsSize(newer);
    SubsetSize(Elems(newer), Newer(rows, u, title));
  }
}
