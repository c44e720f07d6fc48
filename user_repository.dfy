/**
 * src/db/userRepository.ts: the `users` table and the queries on it.
 */
module UserRepository {
  import opened Wrappers
  import opened Records
  import opened Tables

  /** A row of `users` as the driver returns it (`DBUserRow`). */
  datatype UserRow = UserRow(id: Id, email: string, name: string, password_hash: string, created_at: Timestamp)

  /** `mapRowToUser`: each column becomes the field of the same meaning. */
  function MapRowToUser(row: UserRow): User {
    User(row.id, row.email, row.name, row.password_hash, row.created_at)
  }

  /** The row a user is stored as. */
  function UserToRow(u: User): UserRow {
    UserRow(u.id, u.email, u.name, u.passwordHash, u.createdAt)
  }

  /** `mapRowToUser` loses nothing: it is a bijection between rows and users. */
  lemma MapRowToUserRoundTrip(row: UserRow, u: User)
    ensures UserToRow(MapRowToUser(row)) == row
    ensures MapRowToUser(UserToRow(u)) == u
    ensures MapRowToUser(row) == u <==> row == UserToRow(u)
  {
  }

  function RowKey(row: UserRow): int {
    row.id
  }

  /** `WHERE email = $1` */
  function RowWithEmail(email: string): UserRow -> bool {
    (row: UserRow) => row.email == email
  }

  /** `WHERE id = $1` */
  function RowWithId(id: Id): UserRow -> bool {
    (row: UserRow) => row.id == id
  }

  /** At most one account per email address. */
  ghost predicate EmailsUnique(rows: seq<UserRow>) {
    forall i, j :: 0 <= i < j < |rows| ==> rows[i].email != rows[j].email
  }

  /** `result.rowCount === 0 ? null : mapRowToUser(result.rows[0])` */
  function FirstUser(rows: seq<UserRow>, keep: UserRow -> bool): (r: Option<User>)
    ensures r.None? <==> forall i :: 0 <= i < |rows| ==> !keep(rows[i])
    ensures r.Some? ==> exists i :: 0 <= i < |rows| && keep(rows[i]) && r.value == MapRowToUser(rows[i])
  {
    match Find(rows, keep)
    case None => None
    case Some(row) => Some(MapRowToUser(row))
  }

  /** When only one row satisfies `keep`, the lookup maps exactly that row. */
  lemma FirstUserOfUnique(rows: seq<UserRow>, keep: UserRow -> bool, i: nat)
    requires i < |rows| && keep(rows[i])
    requires forall j :: 0 <= j < |rows| && keep(rows[j]) ==> j == i
    ensures FirstUser(rows, keep) == Some(MapRowToUser(rows[i]))
  {
    var k := IndexWhere(rows, keep);
    assert k == Some(i);
  }

  class UserTable {
    var rows: seq<UserRow>
    var nextId: Id
    var clock: Timestamp

    /** Ids are unique, ascending and below the counter; `email` is a unique column. */
    ghost predicate Valid()
      reads this
    {
      && (forall row :: row in rows ==> row.id < nextId && row.created_at <= clock)
      && Ascending(rows, RowKey)
      && EmailsUnique(rows)
    }

    constructor (now: Timestamp)
      ensures Valid() && rows == [] && clock == now
    {
      rows, nextId, clock := [], 0, now;
    }

    /** Time passes on the database server; its clock never goes back. */
    method AdvanceClock(now: Timestamp)
      requires Valid() && clock <= now
      modifies this`clock
      ensures Valid() && clock == now
    {
      clock := now;
    }

    /**
     * `INSERT INTO users (email, password_hash, name) VALUES ($1, $2, $3) RETURNING ...`: the
     * returned user has exactly the given email, hash and name, and a fresh id. The unique
     * constraint on `email` refuses a second row with a stored email, so callers insert only
     * an email no row has.
     */
    method CreateUser(email: string, passwordHash: string, name: string) returns (u: User)
      requires Valid()
      requires forall row <- rows :: row.email != email
      modifies this`rows, this`nextId
      ensures Valid()
      ensures u.email == email && u.passwordHash == passwordHash && u.name == name
      ensures u.id == old(nextId) && u.createdAt == clock
      ensures forall row :: row in old(rows) ==> row.id != u.id
      ensures rows == old(rows) + [UserToRow(u)] && nextId == old(nextId) + 1
    {
      var row := UserRow(nextId, email, name, passwordHash, clock);
      rows := rows + [row];
      nextId := nextId + 1;
      u := MapRowToUser(row);
    }

    /** `SELECT ... FROM users WHERE email = $1`: null when no user has that email. */
    method FindUserByEmail(email: string) returns (r: Option<User>)
      requires Valid()
      ensures r.None? <==> forall i :: 0 <= i < |rows| ==> rows[i].email != email
      ensures r.Some? ==> r.value.email == email && UserToRow(r.value) in rows
      ensures r.Some? ==>
        forall i :: 0 <= i < |rows| && rows[i].email == email ==> r.value == MapRowToUser(rows[i])
    {
      r := FirstUser(rows, RowWithEmail(email));
      if r.Some? {
        var k :| 0 <= k < |rows| && RowWithEmail(email)(rows[k]) && r.value == MapRowToUser(rows[k]);
        MapRowToUserRoundTrip(rows[k], r.value);
        forall i | 0 <= i < |rows| && rows[i].email == email ensures r.value == MapRowToUser(rows[i]) {
          FirstUserOfUnique(rows, RowWithEmail(email), i);
        }
      }
    }

    /** `SELECT ... FROM users WHERE id = $1`: null when absent, otherwise that user. */
    method FindUserById(id: Id) returns (r: Option<User>)
      requires Valid()
      ensures r.None? <==> forall i :: 0 <= i < |rows| ==> rows[i].id != id
      ensures r.Some? ==> r.value.id == id && UserToRow(r.value) in rows
      ensures forall i :: 0 <= i < |rows| && rows[i].id == id ==> r == Some(MapRowToUser(rows[i]))
    {
      r := FirstUser(rows, RowWithId(id));
      if r.Some? {
        var k :| 0 <= k < |rows| && RowWithId(id)(rows[k]) && r.value == MapRowToUser(rows[k]);
        MapRowToUserRoundTrip(rows[k], r.value);
      }
      forall i | 0 <= i < |rows| && rows[i].id == id ensures r == Some(MapRowToUser(rows[i])) {
        forall j | 0 <= j < |rows| && rows[j].id == id ensures j == i {
          AscendingDistinct(rows, RowKey, i, j);
        }
        FirstUserOfUnique(rows, RowWithId(id), i);
      }
    }
  }
}
