/**
 * src/db/taskRepository.ts: the `tasks` table and the queries on it.
 */
module TaskRepository {
  import opened Wrappers
  import opened Records
  import opened Tables
  import opened Sql

  function TaskStamp(t: Task): int {
    t.createdAt
  }

  function TaskKey(t: Task): int {
    t.id
  }

  /** `WHERE user_id = $1` */
  function TaskOwnedBy(userId: Id): Task -> bool {
    (t: Task) => t.userId == userId
  }

  /** `WHERE id = $1 AND user_id = $2` */
  function TaskIdentifiedBy(id: Id, userId: Id): Task -> bool {
    (t: Task) => t.id == id && t.userId == userId
  }

  /** The rows a `DELETE ... WHERE id = $1 AND user_id = $2` leaves. */
  function TaskOtherThan(id: Id, userId: Id): Task -> bool {
    (t: Task) => !(t.id == id && t.userId == userId)
  }

  /** The text the `status` column stores. */
  function StatusText(s: TaskStatus): string {
    match s
    case Pending => "pending"
    case InProgress => "in_progress"
    case Done => "done"
  }

  /** Reading the `status` column back. */
  function ParseStatus(text: string): Option<TaskStatus> {
    if text == "pending" then Some(Pending)
    else if text == "in_progress" then Some(InProgress)
    else if text == "done" then Some(Done)
    else None
  }

  /** The column stores each status under its own text, and only those texts. */
  lemma StatusRoundTrip(s: TaskStatus, text: string)
    ensures ParseStatus(StatusText(s)) == Some(s)
    ensures ParseStatus(text) == Some(s) <==> text == StatusText(s)
  {
  }

  function TextOrNull(s: Option<string>): SqlValue {
    if s.Some? then SqlText(s.value) else SqlNull
  }

  function TimeOrNull(t: Option<Timestamp>): SqlValue {
    if t.Some? then SqlTime(t.value) else SqlNull
  }

  /** The SET entries `updateTask` asks for, in the order it pushes them. */
  function TaskChanges(title: Option<string>, description: Option<Option<string>>,
                       dueDate: Option<Option<Timestamp>>, status: Option<TaskStatus>): seq<Assign> {
    TitleChange(title) + DescriptionChange(description) + DueDateChange(dueDate) + StatusChange(status)
  }

  function TitleChange(title: Option<string>): seq<Assign> {
    if title.Some? then [Assign("title", SqlText(title.value))] else []
  }

  function DescriptionChange(description: Option<Option<string>>): seq<Assign> {
    if description.Some? then [Assign("description", TextOrNull(description.value))] else []
  }

  function DueDateChange(dueDate: Option<Option<Timestamp>>): seq<Assign> {
    if dueDate.Some? then [Assign("due_date", TimeOrNull(dueDate.value))] else []
  }

  function StatusChange(status: Option<TaskStatus>): seq<Assign> {
    if status.Some? then [Assign("status", SqlText(StatusText(status.value)))] else []
  }

  /** Assignments the `tasks` table accepts, each column with a value of its type. */
  predicate TaskAssignable(changes: seq<Assign>) {
    forall i :: 0 <= i < |changes| ==>
      (changes[i].column == "title" && changes[i].value.SqlText?)
      || (changes[i].column == "description" && (changes[i].value.SqlText? || changes[i].value.SqlNull?))
      || (changes[i].column == "due_date" && (changes[i].value.SqlTime? || changes[i].value.SqlNull?))
      || (changes[i].column == "status" && changes[i].value.SqlText? && ParseStatus(changes[i].value.text).Some?)
  }

  /** The row after the server performs the assignments in order. */
  function ApplyTaskChanges(t: Task, changes: seq<Assign>): (r: Task)
    requires TaskAssignable(changes)
    ensures r.id == t.id && r.userId == t.userId && r.createdAt == t.createdAt && r.updatedAt == t.updatedAt
    decreases |changes|
  {
    if changes == [] then t
    else
      var a := changes[0];
      var t' :=
        if a.column == "title" then t.(title := a.value.text)
        else if a.column == "description" then t.(description := if a.value.SqlText? then Some(a.value.text) else None)
        else if a.column == "due_date" then t.(dueDate := if a.value.SqlTime? then Some(a.value.time) else None)
        else t.(status := ParseStatus(a.value.text).value);
      ApplyTaskChanges(t', changes[1..])
  }

  /** What `updateTask` is meant to do to a task's fields: take each supplied one, keep the others. */
  function Revised(t: Task, title: Option<string>, description: Option<Option<string>>,
                   dueDate: Option<Option<Timestamp>>, status: Option<TaskStatus>): Task {
    t.(title := title.GetOr(t.title), description := description.GetOr(t.description),
       dueDate := dueDate.GetOr(t.dueDate), status := status.GetOr(t.status))
  }

  /** Assignments in sequence: the second list applies to the row the first one leaves. */
  lemma {:induction false} ApplyAppend(t: Task, a: seq<Assign>, b: seq<Assign>)
    requires TaskAssignable(a) && TaskAssignable(b)
    ensures TaskAssignable(a + b)
    ensures ApplyTaskChanges(t, a + b) == ApplyTaskChanges(ApplyTaskChanges(t, a), b)
    decreases |a|
  {
    assert TaskAssignable(a + b) by {
      forall i | 0 <= i < |a + b| ensures (a + b)[i] == if i < |a| then a[i] else b[i - |a|] {
      }
    }
    if a != [] {
      assert TaskAssignable(a[1..]) by {
        forall i | 0 <= i < |a[1..]| ensures a[1..][i] == a[i + 1] {
        }
      }
      assert (a + b)[1..] == a[1..] + b;
      assert (a + b)[0] == a[0];
      var a0 := a[0];
      var t' :=
        if a0.column == "title" then t.(title := a0.value.text)
        else if a0.column == "description" then t.(description := if a0.value.SqlText? then Some(a0.value.text) else None)
        else if a0.column == "due_date" then t.(dueDate := if a0.value.SqlTime? then Some(a0.value.time) else None)
        else t.(status := ParseStatus(a0.value.text).value);
      ApplyAppend(t', a[1..], b);
      assert ApplyTaskChanges(t, a + b) == ApplyTaskChanges(t', a[1..] + b);
      assert ApplyTaskChanges(t, a) == ApplyTaskChanges(t', a[1..]);
    } else {
      assert a + b == b;
    }
  }

  /** The requested SET entries change exactly the supplied fields. */
  lemma TaskChangesMeaning(t: Task, title: Option<string>, description: Option<Option<string>>,
                           dueDate: Option<Option<Timestamp>>, status: Option<TaskStatus>)
    ensures TaskAssignable(TaskChanges(title, description, dueDate, status))
    ensures ApplyTaskChanges(t, TaskChanges(title, description, dueDate, status)) == Revised(t, title, description, dueDate, status)
  {
    var c1, c2, c3, c4 := TitleChange(title), DescriptionChange(description), DueDateChange(dueDate), StatusChange(status);
    StatusRoundTrip(status.GetOr(Pending), "");
    var t1 := t.(title := title.GetOr(t.title));
    var t2 := t1.(description := description.GetOr(t.description));
    var t3 := t2.(dueDate := dueDate.GetOr(t.dueDate));
    var t4 := t3.(status := status.GetOr(t.status));
    assert ApplyTaskChanges(t, c1) == t1 by {
      if title.Some? { assert ApplyTaskChanges(t, c1) == ApplyTaskChanges(t1, []); }
    }
    assert ApplyTaskChanges(t1, c2) == t2 by {
      if description.Some? { assert ApplyTaskChanges(t1, c2) == ApplyTaskChanges(t2, []); }
    }
    assert ApplyTaskChanges(t2, c3) == t3 by {
      if dueDate.Some? { assert ApplyTaskChanges(t2, c3) == ApplyTaskChanges(t3, []); }
    }
    assert ApplyTaskChanges(t3, c4) == t4 by {
      if status.Some? { assert ApplyTaskChanges(t3, c4) == ApplyTaskChanges(t4, []); }
    }
    ApplyAppend(t, c1, c2);
    ApplyAppend(t, c1 + c2, c3);
    ApplyAppend(t, c1 + c2 + c3, c4);
  }

  /**
   * The SET list of `updateTask`, grown one push at a time: the i-th entry names the i-th
   * supplied column with placeholder `$i`, and values[i - 1] holds its value.
   */
  method BuildTaskSet(title: Option<string>, description: Option<Option<string>>,
                      dueDate: Option<Option<Timestamp>>, status: Option<TaskStatus>)
    returns (fields: seq<string>, values: seq<SqlValue>)
    ensures Numbered(fields, TaskChanges(title, description, dueDate, status), 1)
    ensures values == Values(TaskChanges(title, description, dueDate, status))
  {
    fields, values := [], [];
    fields, values := PushChange(fields, values, [], TitleChange(title));
    fields, values := PushChange(fields, values, TitleChange(title), DescriptionChange(description));
    fields, values := PushChange(fields, values, TitleChange(title) + DescriptionChange(description), DueDateChange(dueDate));
    fields, values := PushChange(fields, values, TitleChange(title) + DescriptionChange(description) + DueDateChange(dueDate),
                                 StatusChange(status));
  }

  /** Every column the task SET list can name is a plain column name. */
  lemma TaskColumnsNamed(changes: seq<Assign>)
    requires TaskAssignable(changes)
    ensures forall i :: 0 <= i < |changes| ==> IsColumnName(changes[i].column)
  {
    assert IsColumnName("title") && IsColumnName("description") && IsColumnName("due_date") && IsColumnName("status");
  }

  class TaskTable {
    var tasks: seq<Task>
    var nextId: Id
    var clock: Timestamp
    /** The `status` column default, set by a migration outside this model. */
    const initialStatus: TaskStatus

    /** Ids are unique and ascending, rows stored in creation order, no stamp after the clock. */
    ghost predicate Valid()
      reads this
    {
      && (forall t :: t in tasks ==> t.id < nextId && t.createdAt <= t.updatedAt <= clock)
      && Ascending(tasks, TaskKey)
      && Chronological(tasks, TaskStamp)
    }

    constructor (now: Timestamp, initialStatus: TaskStatus)
      ensures Valid() && tasks == [] && clock == now && this.initialStatus == initialStatus
    {
      tasks, nextId, clock := [], 0, now;
      this.initialStatus := initialStatus;
    }

    /** Time passes on the database server; its clock never goes back. */
    method AdvanceClock(now: Timestamp)
      requires Valid() && clock <= now
      modifies this`clock
      ensures Valid() && clock == now
    {
      clock := now;
    }

    /**
     * `INSERT INTO tasks (user_id, title, description, due_date) VALUES ($1, $2, $3, $4)
     * RETURNING *`, with an absent description or due date stored as NULL.
     */
    method CreateTask(userId: Id, title: string, description: Option<Option<string>>,
                      dueDate: Option<Option<Timestamp>>) returns (t: Task)
      requires Valid()
      modifies this`tasks, this`nextId
      ensures Valid()
      ensures t == Task(old(nextId), userId, title, OrNull(description), OrNull(dueDate), initialStatus, clock, clock)
      ensures tasks == old(tasks) + [t] && nextId == old(nextId) + 1
    {
      t := Task(nextId, userId, title, OrNull(description), OrNull(dueDate), initialStatus, clock, clock);
      tasks := tasks + [t];
      nextId := nextId + 1;
    }

    /** `SELECT * FROM tasks WHERE user_id = $1 ORDER BY created_at DESC` */
    method ListTasksForUser(userId: Id) returns (r: seq<Task>)
      requires Valid()
      ensures r == Reverse(Filter(tasks, TaskOwnedBy(userId)))
      ensures forall i :: 0 <= i < |r| ==> r[i] in tasks && r[i].userId == userId
      ensures forall i :: 0 <= i < |tasks| && tasks[i].userId == userId ==> tasks[i] in r
      ensures NewestFirst(r, TaskStamp)
    {
      SelectNewestFirst(tasks, TaskOwnedBy(userId), TaskStamp);
      r := Reverse(Filter(tasks, TaskOwnedBy(userId)));
    }

    /** `SELECT * FROM tasks WHERE id = $1 AND user_id = $2`: null unless both match. */
    method FindTaskById(id: Id, userId: Id) returns (r: Option<Task>)
      requires Valid()
      ensures r.Some? ==> r.value in tasks && r.value.id == id && r.value.userId == userId
      ensures r.None? <==> forall i :: 0 <= i < |tasks| ==> !(tasks[i].id == id && tasks[i].userId == userId)
      ensures r == Find(tasks, TaskIdentifiedBy(id, userId))
    {
      r := Find(tasks, TaskIdentifiedBy(id, userId));
    }

    /**
     * The server running `UPDATE tasks SET <fields>, updated_at = NOW() WHERE id = $idParam AND
     * user_id = $userParam RETURNING *` with `values` bound.
     */
    method ExecuteUpdate(fields: seq<string>, values: seq<SqlValue>, idParam: nat, userParam: nat)
      returns (r: Option<Task>)
      requires Valid()
      requires 1 <= idParam <= |values| && values[idParam - 1].SqlId?
      requires 1 <= userParam <= |values| && values[userParam - 1].SqlId?
      requires Bind(fields, values).Some? && TaskAssignable(Bind(fields, values).value)
      modifies this`tasks
      ensures Valid()
      ensures match IndexWhere(old(tasks), TaskIdentifiedBy(values[idParam - 1].id, values[userParam - 1].id))
        case None => r.None? && tasks == old(tasks)
        case Some(i) =>
          var t := ApplyTaskChanges(old(tasks)[i], Bind(fields, values).value).(updatedAt := clock);
          r == Some(t) && tasks == old(tasks)[i := t]
    {
      var changes := Bind(fields, values).value;
      match IndexWhere(tasks, TaskIdentifiedBy(values[idParam - 1].id, values[userParam - 1].id)) {
        case None =>
          r := None;
        case Some(i) =>
          assert tasks[i] in tasks;
          var t := ApplyTaskChanges(tasks[i], changes).(updatedAt := clock);
          tasks := tasks[i := t];
          r := Some(t);
      }
    }

    /**
     * `updateTask`: with no field supplied, the owned task unchanged (updated_at untouched);
     * otherwise the owned task with exactly the supplied fields replaced and updated_at set to
     * the clock; None when no owned task has that id.
     */
    method UpdateTask(id: Id, userId: Id, title: Option<string>, description: Option<Option<string>>,
                      dueDate: Option<Option<Timestamp>>, status: Option<TaskStatus>) returns (r: Option<Task>)
      requires Valid()
      modifies this`tasks
      ensures Valid()
      ensures match IndexWhere(old(tasks), TaskIdentifiedBy(id, userId))
        case None => r.None? && tasks == old(tasks)
        case Some(i) =>
          var t := if title.None? && description.None? && dueDate.None? && status.None? then old(tasks)[i]
                   else Revised(old(tasks)[i], title, description, dueDate, status).(updatedAt := clock);
          r == Some(t) && tasks == old(tasks)[i := t]
    {
      var fields, values := BuildTaskSet(title, description, dueDate, status);
      if |fields| == 0 {
        r := FindTaskById(id, userId);
        return;
      }
      TaskChangesMeaning(Task(0, 0, "", None, None, Pending, 0, 0), title, description, dueDate, status);
      TaskColumnsNamed(TaskChanges(title, description, dueDate, status));
      BindWithOwner(fields, TaskChanges(title, description, dueDate, status), values, id, userId);
      values := values + [SqlId(id), SqlId(userId)];
      r := ExecuteUpdate(fields, values, |fields| + 1, |fields| + 2);
      match IndexWhere(old(tasks), TaskIdentifiedBy(id, userId)) {
        case None =>
        case Some(i) => TaskChangesMeaning(old(tasks)[i], title, description, dueDate, status);
      }
    }

    /** `DELETE FROM tasks WHERE id = $1 AND user_id = $2`, true iff a row went. */
    method DeleteTask(id: Id, userId: Id) returns (removed: bool)
      requires Valid()
      modifies this`tasks
      ensures Valid()
      ensures tasks == Filter(old(tasks), TaskOtherThan(id, userId))
      ensures removed <==> exists i :: 0 <= i < |old(tasks)| && old(tasks)[i].id == id && old(tasks)[i].userId == userId
      ensures forall i :: 0 <= i < |tasks| ==> !(tasks[i].id == id && tasks[i].userId == userId)
    {
      var keep := TaskOtherThan(id, userId);
      FilterShrinks(tasks, keep);
      FilterSpec(tasks, keep);
      FilterChronological(tasks, keep, TaskStamp);
      FilterAscending(tasks, keep, TaskKey);
      assert forall i :: 0 <= i < |tasks| ==> (!keep(tasks[i]) <==> tasks[i].id == id && tasks[i].userId == userId);
      removed := |Filter(tasks, keep)| < |tasks|;
      tasks := Filter(tasks, keep);
    }
  }
}
