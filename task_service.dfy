/**
 * src/services/taskService.ts: the tasks table seen by a user, with 404 for what they do not own.
 */
module TaskService {
  import opened Wrappers
  import opened Records
  import opened Tables
  import opened Errors
  import opened TaskRepository

  const TaskNotFound := AppError("Task not found", 404)

  /** `createTaskForUser`: description and due date passed through, null when absent. */
  method CreateTaskForUser(table: TaskTable, userId: Id, title: string, description: Option<Option<string>>,
                           dueDate: Option<Option<Timestamp>>) returns (t: Task)
    requires table.Valid()
    modifies table`tasks, table`nextId
    ensures table.Valid()
    ensures t.userId == userId && t.title == title
    ensures t.description == OrNull(description) && t.dueDate == OrNull(dueDate)
    ensures t.status == table.initialStatus && t.createdAt == t.updatedAt == table.clock
    ensures table.tasks == old(table.tasks) + [t]
  {
    t := table.CreateTask(userId, title, Some(OrNull(description)), Some(OrNull(dueDate)));
  }

  /** `listUserTasks`: the repository's list, unchanged. */
  method ListUserTasks(table: TaskTable, userId: Id) returns (r: seq<Task>)
    requires table.Valid()
    ensures r == Reverse(Filter(table.tasks, TaskOwnedBy(userId)))
    ensures forall i :: 0 <= i < |r| ==> r[i] in table.tasks && r[i].userId == userId
    ensures NewestFirst(r, TaskStamp)
  {
    r := table.ListTasksForUser(userId);
  }

  /** `getTaskForUser`: the task when the user owns it, 404 when it is absent or someone else's. */
  method GetTaskForUser(table: TaskTable, id: Id, userId: Id) returns (r: Result<Task>)
    requires table.Valid()
    ensures r.Ok? <==> exists i :: 0 <= i < |table.tasks| && table.tasks[i].id == id && table.tasks[i].userId == userId
    ensures r.Ok? ==> r.value in table.tasks && r.value.id == id && r.value.userId == userId
    ensures r.Fail? ==> r.error == TaskNotFound
  {
    var task := table.FindTaskById(id, userId);
    if task.None? {
      return Fail(TaskNotFound);
    }
    return Ok(task.value);
  }

  /**
   * `updateTaskForUser`: 404 exactly when the repository finds no owned task; otherwise the
   * updated task, which carries every supplied field (a status set to 'done' reads back 'done'),
   * keeps every other field, has updated_at set to now when some field was supplied, and
   * replaces the stored row while every other row stays as it was.
   */
  method UpdateTaskForUser(table: TaskTable, id: Id, userId: Id, title: Option<string>,
                           description: Option<Option<string>>, dueDate: Option<Option<Timestamp>>,
                           status: Option<TaskStatus>) returns (r: Result<Task>)
    requires table.Valid()
    modifies table`tasks
    ensures table.Valid()
    ensures r.Fail? <==> IndexWhere(old(table.tasks), TaskIdentifiedBy(id, userId)).None?
    ensures r.Fail? ==> r.error == TaskNotFound && table.tasks == old(table.tasks)
    ensures r.Ok? ==>
      && r.value.id == id && r.value.userId == userId && r.value in table.tasks
      && (title.Some? ==> r.value.title == title.value)
      && (description.Some? ==> r.value.description == description.value)
      && (dueDate.Some? ==> r.value.dueDate == dueDate.value)
      && (status.Some? ==> r.value.status == status.value)
    ensures match IndexWhere(old(table.tasks), TaskIdentifiedBy(id, userId))
      case None => true
      case Some(i) =>
        var t := if title.None? && description.None? && dueDate.None? && status.None? then old(table.tasks)[i]
                 else Revised(old(table.tasks)[i], title, description, dueDate, status).(updatedAt := table.clock);
        r == Ok(t) && table.tasks == old(table.tasks)[i := t]
  {
    var updated := table.UpdateTask(id, userId, title, description, dueDate, status);
    if updated.None? {
      return Fail(TaskNotFound);
    }
    var i := IndexWhere(old(table.tasks), TaskIdentifiedBy(id, userId)).value;
    assert table.tasks[i] == updated.value;
    return Ok(updated.value);
  }

  /**
   * `deleteTaskForUser`: 404 when nothing was deleted; otherwise exactly that row is gone and
   * every other row is kept in order; afterwards no task with that id belongs to the user, so
   * `getTaskForUser` fails 404.
   */
  method DeleteTaskForUser(table: TaskTable, id: Id, userId: Id) returns (r: Result<()>)
    requires table.Valid()
    modifies table`tasks
    ensures table.Valid()
    ensures r.Fail? <==> forall i :: 0 <= i < |old(table.tasks)| ==> !(old(table.tasks)[i].id == id && old(table.tasks)[i].userId == userId)
    ensures r.Fail? ==> r.error == TaskNotFound && table.tasks == old(table.tasks)
    ensures table.tasks == Filter(old(table.tasks), TaskOtherThan(id, userId))
    ensures Find(table.tasks, TaskIdentifiedBy(id, userId)).None?
  {
    var deleted := table.DeleteTask(id, userId);
    if !deleted {
      FilterAll(old(table.tasks), TaskOtherThan(id, userId));
      return Fail(TaskNotFound);
    }
    return Ok(());
  }
}
