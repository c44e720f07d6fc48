/**
 * src/db/habitRepository.ts: the `habits` and `habit_entries` tables and the queries on them.
 */
module HabitRepository {
  import opened Wrappers
  import opened Calendar
  import opened Records
  import opened Tables
  import opened Sql

  function HabitStamp(h: Habit): int {
    h.createdAt
  }

  function HabitKey(h: Habit): int {
    h.id
  }

  /** `WHERE user_id = $1` */
  function HabitOwnedBy(userId: Id): Habit -> bool {
    (h: Habit) => h.userId == userId
  }

  /** `WHERE id = $1` */
  function HabitWithId(id: Id): Habit -> bool {
    (h: Habit) => h.id == id
  }

  /** `WHERE id = $1 AND user_id = $2` */
  function HabitIdentifiedBy(id: Id, userId: Id): Habit -> bool {
    (h: Habit) => h.id == id && h.userId == userId
  }

  /** The rows a `DELETE ... WHERE id = $1 AND user_id = $2` leaves. */
  function HabitOtherThan(id: Id, userId: Id): Habit -> bool {
    (h: Habit) => !(h.id == id && h.userId == userId)
  }

  /** The key of the UNIQUE (habit_id, entry_date) constraint of `habit_entries`. */
  type EntryKey = (Id, Day)

  /** Every stored entry sits under its own (habit_id, entry_date). */
  predicate WellKeyed(entries: map<EntryKey, HabitEntry>) {
    forall k :: k in entries ==> entries[k].habitId == k.0 && entries[k].entryDate == k.1
  }

  /**
   * `INSERT INTO habit_entries ... ON CONFLICT (habit_id, entry_date) DO UPDATE SET
   * completed = EXCLUDED.completed, created_at = NOW()`: afterwards there is exactly one entry
   * for the pair, it carries `completed`, it keeps its id when it already existed, and no other
   * entry changes.
   */
  function UpsertEntry(entries: map<EntryKey, HabitEntry>, habitId: Id, day: Day, completed: bool,
                       freshId: Id, now: Timestamp): (r: map<EntryKey, HabitEntry>)
    ensures (habitId, day) in r && r[(habitId, day)].completed == completed
    ensures r[(habitId, day)].habitId == habitId && r[(habitId, day)].entryDate == day
    ensures r[(habitId, day)].createdAt == now
    ensures r[(habitId, day)].id == if (habitId, day) in entries then entries[(habitId, day)].id else freshId
    ensures forall k :: k != (habitId, day) ==> (k in r <==> k in entries) && (k in entries ==> r[k] == entries[k])
    ensures WellKeyed(entries) ==> WellKeyed(r)
  {
    var key := (habitId, day);
    var id := if key in entries then entries[key].id else freshId;
    entries[key := HabitEntry(id, habitId, day, completed, now)]
  }

  /**
   * Upserting the same (habit, date, completed) twice leaves the state one upsert leaves, apart
   * from the refreshed `created_at`: the operation is idempotent.
   */
  lemma UpsertIdempotent(entries: map<EntryKey, HabitEntry>, habitId: Id, day: Day, completed: bool,
                         id1: Id, id2: Id, t1: Timestamp, t2: Timestamp)
    ensures UpsertEntry(UpsertEntry(entries, habitId, day, completed, id1, t1), habitId, day, completed, id2, t2)
         == UpsertEntry(entries, habitId, day, completed, id1, t2)
  {
  }

  /** Of two upserts on the same (habit, date), the last one's `completed` wins. */
  lemma UpsertLastWins(entries: map<EntryKey, HabitEntry>, habitId: Id, day: Day, c1: bool, c2: bool,
                       id1: Id, id2: Id, t1: Timestamp, t2: Timestamp)
    ensures UpsertEntry(UpsertEntry(entries, habitId, day, c1, id1, t1), habitId, day, c2, id2, t2)
         == UpsertEntry(entries, habitId, day, c2, id1, t2)
  {
  }

  /**
   * `DELETE FROM habit_entries WHERE habit_id = $1 AND created_at::date = $2::date`: exactly the
   * habit's entries created on `day` go.
   */
  function RemoveCreatedOn(entries: map<EntryKey, HabitEntry>, habitId: Id, day: Day): (r: map<EntryKey, HabitEntry>)
    ensures forall k :: k in r <==> k in entries && !(k.0 == habitId && DayOfTimestamp(entries[k].createdAt) == day)
    ensures forall k :: k in r ==> r[k] == entries[k]
  {
    map k | k in entries && !(k.0 == habitId && DayOfTimestamp(entries[k].createdAt) == day) :: entries[k]
  }

  /**
   * `SELECT ... WHERE habit_id = $1 AND entry_date BETWEEN $2 AND $3 ORDER BY entry_date DESC`,
   * gathered day by day from `end` down to `start`.
   */
  function EntriesInRange(entries: map<EntryKey, HabitEntry>, habitId: Id, start: Day, end: Day): seq<HabitEntry>
    decreases end - start
  {
    if end < start then []
    else (if (habitId, end) in entries then [entries[(habitId, end)]] else [])
         + EntriesInRange(entries, habitId, start, end - 1)
  }

  /**
   * The range read returns only the habit's entries dated within [start, end], every one of
   * them, in strictly descending date order.
   */
  lemma EntriesInRangeSpec(entries: map<EntryKey, HabitEntry>, habitId: Id, start: Day, end: Day)
    requires WellKeyed(entries)
    ensures forall e <- EntriesInRange(entries, habitId, start, end) ::
      e.habitId == habitId && start <= e.entryDate <= end
      && (habitId, e.entryDate) in entries && entries[(habitId, e.entryDate)] == e
    ensures forall d :: start <= d <= end && (habitId, d) in entries ==>
      entries[(habitId, d)] in EntriesInRange(entries, habitId, start, end)
    ensures DatesDescending(EntriesInRange(entries, habitId, start, end))
  {
    EntriesInRangeSound(entries, habitId, start, end);
    EntriesInRangeComplete(entries, habitId, start, end);
    EntriesInRangeDescending(entries, habitId, start, end);
  }

  /** Every entry the range read returns is the habit's entry for a date within [start, end]. */
  lemma {:induction false} EntriesInRangeSound(entries: map<EntryKey, HabitEntry>, habitId: Id, start: Day, end: Day)
    requires WellKeyed(entries)
    ensures forall e <- EntriesInRange(entries, habitId, start, end) ::
      e.habitId == habitId && start <= e.entryDate <= end
      && (habitId, e.entryDate) in entries && entries[(habitId, e.entryDate)] == e
    decreases end - start
  {
    if start <= end {
      EntriesInRangeSound(entries, habitId, start, end - 1);
      var head := if (habitId, end) in entries then [entries[(habitId, end)]] else [];
      var rest := EntriesInRange(entries, habitId, start, end - 1);
      var r := head + rest;
      assert r == EntriesInRange(entries, habitId, start, end);
      forall e <- r
        ensures e.habitId == habitId && start <= e.entryDate <= end
        ensures (habitId, e.entryDate) in entries && entries[(habitId, e.entryDate)] == e
      {
        if e !in rest {
          var key := (habitId, end);
          assert key in entries && e == entries[key];
        }
      }
    }
  }

  /** Every entry of the habit dated within [start, end] is returned. */
  lemma {:induction false} EntriesInRangeComplete(entries: map<EntryKey, HabitEntry>, habitId: Id, start: Day, end: Day)
    ensures forall d :: start <= d <= end && (habitId, d) in entries ==>
      entries[(habitId, d)] in EntriesInRange(entries, habitId, start, end)
    decreases end - start
  {
    if start <= end {
      EntriesInRangeComplete(entries, habitId, start, end - 1);
      var head := if (habitId, end) in entries then [entries[(habitId, end)]] else [];
      var rest := EntriesInRange(entries, habitId, start, end - 1);
      var r := head + rest;
      assert r == EntriesInRange(entries, habitId, start, end);
      forall d | start <= d <= end && (habitId, d) in entries ensures entries[(habitId, d)] in r {
        if d < end {
          assert entries[(habitId, d)] in rest;
        }
      }
    }
  }

  /** The range read lists its entries newest date first, no date twice. */
  lemma {:induction false} EntriesInRangeDescending(entries: map<EntryKey, HabitEntry>, habitId: Id, start: Day, end: Day)
    requires WellKeyed(entries)
    ensures DatesDescending(EntriesInRange(entries, habitId, start, end))
    decreases end - start
  {
    if start <= end {
      EntriesInRangeDescending(entries, habitId, start, end - 1);
      EntriesInRangeSound(entries, habitId, start, end - 1);
      var head := if (habitId, end) in entries then [entries[(habitId, end)]] else [];
      var rest := EntriesInRange(entries, habitId, start, end - 1);
      var r := head + rest;
      assert r == EntriesInRange(entries, habitId, start, end);
      forall i, j | 0 <= i < j < |r| ensures r[i].entryDate > r[j].entryDate {
        assert r[j] == rest[j - |head|];
        assert r[j] in rest;
        if i >= |head| {
          assert r[i] == rest[i - |head|];
        }
      }
    }
  }

  /** Entry dates strictly decrease along `s`: `ORDER BY entry_date DESC` on a unique date. */
  predicate DatesDescending(s: seq<HabitEntry>) {
    forall i, j :: 0 <= i < j < |s| ==> s[i].entryDate > s[j].entryDate
  }

  /** The SET entries `updateHabit` asks for, in the order it pushes them. */
  function HabitChanges(name: Option<string>, description: Option<Option<string>>): seq<Assign> {
    NameChange(name) + DescriptionChange(description)
  }

  function NameChange(name: Option<string>): seq<Assign> {
    if name.Some? then [Assign("name", SqlText(name.value))] else []
  }

  function DescriptionChange(description: Option<Option<string>>): seq<Assign> {
    if description.Some? then [Assign("description", TextOrNull(description.value))] else []
  }

  /** A nullable text parameter. */
  function TextOrNull(s: Option<string>): SqlValue {
    if s.Some? then SqlText(s.value) else SqlNull
  }

  /** Assignments the `habits` table accepts: `name` takes text, `description` text or NULL. */
  predicate HabitAssignable(changes: seq<Assign>) {
    forall i :: 0 <= i < |changes| ==>
      (changes[i].column == "name" && changes[i].value.SqlText?)
      || (changes[i].column == "description" && (changes[i].value.SqlText? || changes[i].value.SqlNull?))
  }

  /** The row after the server performs the assignments in order. */
  function ApplyHabitChanges(h: Habit, changes: seq<Assign>): (r: Habit)
    requires HabitAssignable(changes)
    ensures r.id == h.id && r.userId == h.userId && r.createdAt == h.createdAt
    decreases |changes|
  {
    if changes == [] then h
    else
      var a := changes[0];
      var h' := if a.column == "name" then h.(name := a.value.text)
                else h.(description := if a.value.SqlText? then Some(a.value.text) else None);
      ApplyHabitChanges(h', changes[1..])
  }

  /** What `updateHabit` is meant to do to a habit: take each supplied field, keep the others. */
  function Revised(h: Habit, name: Option<string>, description: Option<Option<string>>): Habit {
    h.(name := name.GetOr(h.name), description := description.GetOr(h.description))
  }

  /** The requested SET entries change exactly the supplied fields. */
  lemma HabitChangesMeaning(h: Habit, name: Option<string>, description: Option<Option<string>>)
    ensures HabitAssignable(HabitChanges(name, description))
    ensures ApplyHabitChanges(h, HabitChanges(name, description)) == Revised(h, name, description)
  {
    var changes := HabitChanges(name, description);
    var c1, c2 := NameChange(name), DescriptionChange(description);
    var h1 := h.(name := name.GetOr(h.name));
    assert HabitAssignable(c2);
    assert ApplyHabitChanges(h1, c2) == Revised(h, name, description) by {
      if description.Some? {
        assert ApplyHabitChanges(h1, c2) == ApplyHabitChanges(Revised(h, name, description), []);
      }
    }
    if name.Some? {
      assert changes[0] == Assign("name", SqlText(name.value)) && changes[1..] == c2;
      assert ApplyHabitChanges(h, changes) == ApplyHabitChanges(h1, c2);
    } else {
      assert changes == c2;
    }
  }

  /**
   * The SET list of `updateHabit`, grown one push at a time: the i-th entry names the i-th
   * supplied column with placeholder `$i`, and values[i - 1] holds its value.
   */
  method BuildHabitSet(name: Option<string>, description: Option<Option<string>>)
    returns (fields: seq<string>, values: seq<SqlValue>)
    ensures Numbered(fields, HabitChanges(name, description), 1)
    ensures values == Values(HabitChanges(name, description))
  {
    fields, values := [], [];
    fields, values := PushChange(fields, values, [], NameChange(name));
    fields, values := PushChange(fields, values, NameChange(name), DescriptionChange(description));
  }

  /** Every column the habit SET list can name is a plain column name. */
  lemma HabitColumnsNamed(changes: seq<Assign>)
    requires HabitAssignable(changes)
    ensures forall i :: 0 <= i < |changes| ==> IsColumnName(changes[i].column)
  {
    assert IsColumnName("name") && IsColumnName("description");
  }

  class HabitTable {
    var habits: seq<Habit>
    var entries: map<EntryKey, HabitEntry>
    var nextId: Id
    var clock: Timestamp

    /** Ids are unique and ascending, rows are stored in creation order, entries under their keys. */
    ghost predicate Valid()
      reads this
    {
      && (forall h :: h in habits ==> h.id < nextId && h.createdAt <= clock)
      && Ascending(habits, HabitKey)
      && Chronological(habits, HabitStamp)
      && WellKeyed(entries)
    }

    constructor (now: Timestamp)
      ensures Valid() && habits == [] && entries == map[] && clock == now
    {
      habits, entries, nextId, clock := [], map[], 0, now;
    }

    /** Time passes on the database server; its clock never goes back. */
    method AdvanceClock(now: Timestamp)
      requires Valid() && clock <= now
      modifies this`clock
      ensures Valid() && clock == now
    {
      clock := now;
    }

    /** Two rows with the same id are the same row. */
    lemma IdsUnique(i: nat, j: nat)
      requires Valid() && i < |habits| && j < |habits| && habits[i].id == habits[j].id
      ensures i == j
    {
    }

    /** `INSERT INTO habits (user_id, name, description) VALUES ($1, $2, $3) RETURNING ...` */
    method CreateHabit(userId: Id, name: string, description: Option<Option<string>>) returns (h: Habit)
      requires Valid()
      modifies this`habits, this`nextId
      ensures Valid()
      ensures h == Habit(old(nextId), userId, name, OrNull(description), clock)
      ensures habits == old(habits) + [h] && nextId == old(nextId) + 1
    {
      h := Habit(nextId, userId, name, OrNull(description), clock);
      habits := habits + [h];
      nextId := nextId + 1;
    }

    /** `SELECT ... FROM habits WHERE user_id = $1 ORDER BY created_at DESC` */
    method ListHabitsForUser(userId: Id) returns (r: seq<Habit>)
      requires Valid()
      ensures r == Reverse(Filter(habits, HabitOwnedBy(userId)))
      ensures forall i :: 0 <= i < |r| ==> r[i] in habits && r[i].userId == userId
      ensures forall i :: 0 <= i < |habits| && habits[i].userId == userId ==> habits[i] in r
      ensures NewestFirst(r, HabitStamp)
    {
      var owned := Filter(habits, HabitOwnedBy(userId));
      FilterSpec(habits, HabitOwnedBy(userId));
      FilterChronological(habits, HabitOwnedBy(userId), HabitStamp);
      ReverseNewestFirst(owned, HabitStamp);
      r := Reverse(owned);
      forall i | 0 <= i < |habits| && habits[i].userId == userId ensures habits[i] in r {
        assert HabitOwnedBy(userId)(habits[i]);
        ReverseContains(owned, habits[i]);
      }
    }

    /** `SELECT ... FROM habits WHERE id = $1`: not scoped to an owner. */
    method FindHabitById(id: Id) returns (r: Option<Habit>)
      requires Valid()
      ensures r.Some? ==> r.value in habits && r.value.id == id
      ensures r.None? <==> forall i :: 0 <= i < |habits| ==> habits[i].id != id
    {
      r := Find(habits, HabitWithId(id));
    }

    /** `DELETE FROM habits WHERE id = $1 AND user_id = $2`, true iff a row went. */
    method DeleteHabit(id: Id, userId: Id) returns (removed: bool)
      requires Valid()
      modifies this`habits
      ensures Valid()
      ensures habits == Filter(old(habits), HabitOtherThan(id, userId))
      ensures removed <==> exists i :: 0 <= i < |old(habits)| && old(habits)[i].id == id && old(habits)[i].userId == userId
      ensures forall i :: 0 <= i < |habits| ==> !(habits[i].id == id && habits[i].userId == userId)
    {
      var keep := HabitOtherThan(id, userId);
      FilterShrinks(habits, keep);
      FilterSpec(habits, keep);
      FilterChronological(habits, keep, HabitStamp);
      FilterAscending(habits, keep, HabitKey);
      assert forall i :: 0 <= i < |habits| ==> (!keep(habits[i]) <==> habits[i].id == id && habits[i].userId == userId);
      assert (exists i :: 0 <= i < |habits| && !keep(habits[i]))
         <==> exists i :: 0 <= i < |habits| && habits[i].id == id && habits[i].userId == userId;
      removed := |Filter(habits, keep)| < |habits|;
      habits := Filter(habits, keep);
    }

    /** `upsertHabitEntry`: `completed` defaults to true. */
    method UpsertHabitEntry(habitId: Id, entryDate: Day, completed: Option<bool>) returns (e: HabitEntry)
      requires Valid()
      modifies this`entries, this`nextId
      ensures Valid()
      ensures entries == UpsertEntry(old(entries), habitId, entryDate, completed.GetOr(true), old(nextId), clock)
      ensures e == entries[(habitId, entryDate)] && nextId == old(nextId) + 1
    {
      entries := UpsertEntry(entries, habitId, entryDate, completed.GetOr(true), nextId, clock);
      e := entries[(habitId, entryDate)];
      nextId := nextId + 1;
    }

    /** `DELETE FROM habit_entries WHERE habit_id = $1 AND entry_date = $2::date`, true iff a row went. */
    method RemoveHabitEntry(habitId: Id, entryDate: Day) returns (removed: bool)
      requires Valid()
      modifies this`entries
      ensures Valid()
      ensures removed <==> (habitId, entryDate) in old(entries)
      ensures entries == old(entries) - {(habitId, entryDate)}
      ensures (habitId, entryDate) !in entries
    {
      removed := (habitId, entryDate) in entries;
      entries := entries - {(habitId, entryDate)};
    }

    /** `DELETE ... WHERE habit_id = $1 AND created_at::date = $2::date`, true iff a row went. */
    method RemoveHabitEntryByCreatedDate(habitId: Id, createdDate: Day) returns (removed: bool)
      requires Valid()
      modifies this`entries
      ensures Valid()
      ensures entries == RemoveCreatedOn(old(entries), habitId, createdDate)
      ensures removed <==> exists k :: k in old(entries) && k.0 == habitId && DayOfTimestamp(old(entries)[k].createdAt) == createdDate
    {
      var after := RemoveCreatedOn(entries, habitId, createdDate);
      removed := exists k :: k in entries && k.0 == habitId && DayOfTimestamp(entries[k].createdAt) == createdDate;
      entries := after;
    }

    /** `listHabitEntriesForRange`: the habit's entries dated start..end, latest first. */
    method ListHabitEntriesForRange(habitId: Id, start: Day, end: Day) returns (r: seq<HabitEntry>)
      requires Valid()
      ensures r == EntriesInRange(entries, habitId, start, end)
      ensures forall e <- r :: e.habitId == habitId && start <= e.entryDate <= end && e in entries.Values
      ensures forall d :: start <= d <= end && (habitId, d) in entries ==> entries[(habitId, d)] in r
      ensures DatesDescending(r)
    {
      r := EntriesInRange(entries, habitId, start, end);
      EntriesInRangeSpec(entries, habitId, start, end);
    }

    /**
     * The server running `UPDATE habits SET <fields> WHERE id = $idParam AND user_id = $userParam
     * RETURNING ...` with `values` bound: the matching row takes the assignments.
     */
    method ExecuteUpdate(fields: seq<string>, values: seq<SqlValue>, idParam: nat, userParam: nat)
      returns (r: Option<Habit>)
      requires Valid()
      requires 1 <= idParam <= |values| && values[idParam - 1].SqlId?
      requires 1 <= userParam <= |values| && values[userParam - 1].SqlId?
      requires Bind(fields, values).Some? && HabitAssignable(Bind(fields, values).value)
      modifies this`habits
      ensures Valid()
      ensures match IndexWhere(old(habits), HabitIdentifiedBy(values[idParam - 1].id, values[userParam - 1].id))
        case None => r.None? && habits == old(habits)
        case Some(i) =>
          var h := ApplyHabitChanges(old(habits)[i], Bind(fields, values).value);
          r == Some(h) && habits == old(habits)[i := h]
    {
      var changes := Bind(fields, values).value;
      match IndexWhere(habits, HabitIdentifiedBy(values[idParam - 1].id, values[userParam - 1].id)) {
        case None =>
          r := None;
        case Some(i) =>
          var h := ApplyHabitChanges(habits[i], changes);
          habits := habits[i := h];
          r := Some(h);
      }
    }

    /**
     * `updateHabit`: with no field supplied, the habit itself when `userId` owns it; otherwise the
     * owned habit with exactly the supplied fields replaced; None when no owned habit has that id.
     */
    method UpdateHabit(habitId: Id, userId: Id, name: Option<string>, description: Option<Option<string>>)
      returns (r: Option<Habit>)
      requires Valid()
      modifies this`habits
      ensures Valid()
      ensures match IndexWhere(old(habits), HabitIdentifiedBy(habitId, userId))
        case None => r.None? && habits == old(habits)
        case Some(i) =>
          var h := Revised(old(habits)[i], name, description);
          r == Some(h) && habits == old(habits)[i := h]
    {
      var fields, values := BuildHabitSet(name, description);
      if |fields| == 0 {
        var habit := FindHabitById(habitId);
        if habit.None? || habit.value.userId != userId {
          return None;
        }
        return habit;
      }
      HabitChangesMeaning(Habit(0, 0, "", None, 0), name, description);
      HabitColumnsNamed(HabitChanges(name, description));
      BindWithOwner(fields, HabitChanges(name, description), values, habitId, userId);
      values := values + [SqlId(habitId), SqlId(userId)];
      r := ExecuteUpdate(fields, values, |fields| + 1, |fields| + 2);
      match IndexWhere(old(habits), HabitIdentifiedBy(habitId, userId)) {
        case None =>
        case Some(i) => HabitChangesMeaning(old(habits)[i], name, description);
      }
    }
  }
}
