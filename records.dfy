/** The stored entities (src/types.ts and the row types of the repositories). */
module Records {
  import opened Wrappers
  import opened Calendar

  /** Database identifiers (uuids in the database), drawn from a per-table counter here. */
  type Id = nat

  /** A reading of the database server's clock (`NOW()`), in seconds since 1970-01-01 UTC. */
  type Timestamp = int

  /** `created_at::date`: the calendar day of a timestamp, the session time zone taken as UTC. */
  function DayOfTimestamp(t: Timestamp): Day {
    t / 86400
  }

  datatype User = User(id: Id, email: string, name: string, passwordHash: string, createdAt: Timestamp)

  datatype Todo = Todo(id: Id, userId: Id, title: string, createdAt: Timestamp)

  datatype Habit = Habit(id: Id, userId: Id, name: string, description: Option<string>, createdAt: Timestamp)

  /** One check-in: whether habit `habitId` was completed on `entryDate`. */
  datatype HabitEntry = HabitEntry(id: Id, habitId: Id, entryDate: Day, completed: bool, createdAt: Timestamp)

  /** The values of the `status` column (`'pending' | 'in_progress' | 'done'`). */
  datatype TaskStatus = Pending | InProgress | Done

  datatype Task = Task(
    id: Id, userId: Id, title: string, description: Option<string>, dueDate: Option<Timestamp>,
    status: TaskStatus, createdAt: Timestamp, updatedAt: Timestamp)
}
