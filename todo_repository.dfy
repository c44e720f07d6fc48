/**
 * src/db/todoRepository.ts: the `todos` table and the queries on it.
 */
module TodoRepository {
  import opened Records
  import opened Tables

  function TodoStamp(t: Todo): int {
    t.createdAt
  }

  function TodoKey(t: Todo): int {
    t.id
  }

  /** `WHERE user_id = $1` */
  function TodoOwnedBy(userId: Id): Todo -> bool {
    (t: Todo) => t.userId == userId
  }

  /** The rows a `DELETE ... WHERE id = $1 AND user_id = $2` leaves. */
  function TodoOtherThan(id: Id, userId: Id): Todo -> bool {
    (t: Todo) => !(t.id == id && t.userId == userId)
  }

  /** A new row joins its owner's rows, at the end, and no one else's. */
  lemma AppendOwners(todos: seq<Todo>, t: Todo)
    ensures Filter(todos + [t], TodoOwnedBy(t.userId)) == Filter(todos, TodoOwnedBy(t.userId)) + [t]
    ensures forall other :: other != t.userId ==> Filter(todos + [t], TodoOwnedBy(other)) == Filter(todos, TodoOwnedBy(other))
  {
    FilterAppend(todos, t, TodoOwnedBy(t.userId));
    forall other | other != t.userId
      ensures Filter(todos + [t], TodoOwnedBy(other)) == Filter(todos, TodoOwnedBy(other))
    {
      FilterAppend(todos, t, TodoOwnedBy(other));
    }
  }

  class TodoTable {
    var todos: seq<Todo>
    var nextId: Id
    var clock: Timestamp

    /** Ids are unique and ascending, rows are stored in creation order. */
    ghost predicate Valid()
      reads this
    {
      && (forall t :: t in todos ==> t.id < nextId && t.createdAt <= clock)
      && Ascending(todos, TodoKey)
      && Chronological(todos, TodoStamp)
    }

    constructor (now: Timestamp)
      ensures Valid() && todos == [] && clock == now
    {
      todos, nextId, clock := [], 0, now;
    }

    /** Time passes on the database server; its clock never goes back. */
    method AdvanceClock(now: Timestamp)
      requires Valid() && clock <= now
      modifies this`clock
      ensures Valid() && clock == now
    {
      clock := now;
    }

    /**
     * `INSERT INTO todos (user_id, title) VALUES ($1, $2) RETURNING ...`: the new todo carries the
     * given owner and title, and joins that owner's rows (and no one else's).
     */
    method CreateTodo(userId: Id, title: string) returns (t: Todo)
      requires Valid()
      modifies this`todos, this`nextId
      ensures Valid()
      ensures t == Todo(old(nextId), userId, title, clock)
      ensures todos == old(todos) + [t] && nextId == old(nextId) + 1
      ensures Filter(todos, TodoOwnedBy(userId)) == Filter(old(todos), TodoOwnedBy(userId)) + [t]
      ensures forall other :: other != userId ==> Filter(todos, TodoOwnedBy(other)) == Filter(old(todos), TodoOwnedBy(other))
    {
      t := Todo(nextId, userId, title, clock);
      AppendOwners(todos, t);
      AppendAscending(todos, t, TodoKey);
      AppendChronological(todos, t, TodoStamp);
      todos := todos + [t];
      nextId := nextId + 1;
    }

    /** `SELECT ... FROM todos WHERE user_id = $1 ORDER BY created_at DESC` */
    method ListTodosForUser(userId: Id) returns (r: seq<Todo>)
      requires Valid()
      ensures r == Reverse(Filter(todos, TodoOwnedBy(userId)))
      ensures forall i :: 0 <= i < |r| ==> r[i] in todos && r[i].userId == userId
      ensures forall i :: 0 <= i < |todos| && todos[i].userId == userId ==> todos[i] in r
      ensures NewestFirst(r, TodoStamp)
    {
      SelectNewestFirst(todos, TodoOwnedBy(userId), TodoStamp);
      r := Reverse(Filter(todos, TodoOwnedBy(userId)));
    }

    /**
     * `DELETE FROM todos WHERE id = $1 AND user_id = $2`: only a row matching both goes, and the
     * result is true iff one did.
     */
    method DeleteTodo(id: Id, userId: Id) returns (removed: bool)
      requires Valid()
      modifies this`todos
      ensures Valid()
      ensures todos == Filter(old(todos), TodoOtherThan(id, userId))
      ensures removed <==> exists i :: 0 <= i < |old(todos)| && old(todos)[i].id == id && old(todos)[i].userId == userId
      ensures forall i :: 0 <= i < |todos| ==> !(todos[i].id == id && todos[i].userId == userId)
    {
      var keep := TodoOtherThan(id, userId);
      FilterShrinks(todos, keep);
      FilterSpec(todos, keep);
      FilterChronological(todos, keep, TodoStamp);
      FilterAscending(todos, keep, TodoKey);
      assert forall i :: 0 <= i < |todos| ==> (!keep(todos[i]) <==> todos[i].id == id && todos[i].userId == userId);
      removed := |Filter(todos, keep)| < |todos|;
      todos := Filter(todos, keep);
    }
  }
}
