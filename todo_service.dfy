/**
 * src/services/todoService.ts: validation and 404 translation on top of the todos table.
 */
module TodoService {
  import opened Records
  import opened Tables
  import opened Text
  import opened Errors
  import opened TodoRepository

  const TitleRequired := AppError("Title is required", 400)
  const TodoNotFound := AppError("Todo not found", 404)

  /**
   * `createTodoForUser`: a title that is blank once trimmed fails 400 and stores nothing;
   * otherwise the trimmed title is stored for the user, whose list grows by that one todo.
   */
  method CreateTodoForUser(table: TodoTable, userId: Id, title: string) returns (r: Result<Todo>)
    requires table.Valid()
    modifies table`todos, table`nextId
    ensures table.Valid()
    ensures IsBlank(title) ==> r == Fail(TitleRequired) && table.todos == old(table.todos)
    ensures !IsBlank(title) ==>
      && r.Ok? && r.value.title == Trim(title) && r.value.userId == userId
      && table.todos == old(table.todos) + [r.value]
      && Filter(table.todos, TodoOwnedBy(userId)) == Filter(old(table.todos), TodoOwnedBy(userId)) + [r.value]
  {
    TrimBlank(title);
    if Trim(title) == "" {
      return Fail(TitleRequired);
    }
    var todo := table.CreateTodo(userId, Trim(title));
    return Ok(todo);
  }

  /** `listUserTodos`: the repository's list, unchanged. */
  method ListUserTodos(table: TodoTable, userId: Id) returns (r: seq<Todo>)
    requires table.Valid()
    ensures r == Reverse(Filter(table.todos, TodoOwnedBy(userId)))
    ensures forall i :: 0 <= i < |r| ==> r[i] in table.todos && r[i].userId == userId
    ensures NewestFirst(r, TodoStamp)
  {
    r := table.ListTodosForUser(userId);
  }

  /**
   * `deleteTodoForUser`: 404 when no todo of the user has that id; otherwise exactly that row is
   * gone, every other row is kept in order, and the user's list no longer shows it.
   */
  method DeleteTodoForUser(table: TodoTable, userId: Id, todoId: Id) returns (r: Result<()>)
    requires table.Valid()
    modifies table`todos
    ensures table.Valid()
    ensures r.Fail? <==> forall i :: 0 <= i < |old(table.todos)| ==> !(old(table.todos)[i].id == todoId && old(table.todos)[i].userId == userId)
    ensures r.Fail? ==> r.error == TodoNotFound && table.todos == old(table.todos)
    ensures table.todos == Filter(old(table.todos), TodoOtherThan(todoId, userId))
    ensures forall t <- Reverse(Filter(table.todos, TodoOwnedBy(userId))) :: t.id != todoId
  {
    var removed := table.DeleteTodo(todoId, userId);
    FilterSpec(table.todos, TodoOwnedBy(userId));
    if !removed {
      FilterAll(old(table.todos), TodoOtherThan(todoId, userId));
      return Fail(TodoNotFound);
    }
    return Ok(());
  }
}
