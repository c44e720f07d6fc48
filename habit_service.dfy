/**
 * src/services/habitService.ts: ownership checks, validation and check-ins on top of the habits
 * tables. `new Date(text)` together with the server's `::date` cast is the parameter
 * `parseDate` (None for an invalid date); `new Date()` is the parameter `today`; the text a
 * stored date is returned as is the parameter `dateText`.
 */
module HabitService {
  import opened Wrappers
  import opened Calendar
  import opened Records
  import opened Tables
  import opened Text
  import opened Errors
  import opened HabitRepository

  const DefaultRangeDays := 14

  const NameRequired := AppError("Name is required", 400)
  const HabitNotFound := AppError("Habit not found", 404)
  const InvalidDate := AppError("Invalid date provided", 400)
  const CheckInNotFound := AppError("Habit check-in not found", 404)

  /** One check-in as the list returns it. */
  datatype EntryView = EntryView(date: string, completed: bool)

  /** `HabitWithEntries`: the habit's own fields plus its check-ins in the window. */
  datatype HabitWithEntries = HabitWithEntries(habit: Habit, entries: seq<EntryView>)

  /** Some habit has this id and belongs to this user. */
  ghost predicate Owns(habits: seq<Habit>, habitId: Id, userId: Id) {
    exists i :: 0 <= i < |habits| && habits[i].id == habitId && habits[i].userId == userId
  }

  /**
   * `createHabitForUser`: a name that is blank once trimmed fails 400 and stores nothing;
   * otherwise the trimmed name is stored with the description, null when absent.
   */
  method CreateHabitForUser(table: HabitTable, userId: Id, name: string, description: Option<Option<string>>)
    returns (r: Result<Habit>)
    requires table.Valid()
    modifies table`habits, table`nextId
    ensures table.Valid()
    ensures IsBlank(name) ==> r == Fail(NameRequired) && table.habits == old(table.habits)
    ensures !IsBlank(name) ==>
      && r.Ok? && r.value.name == Trim(name) && r.value.userId == userId
      && r.value.description == OrNull(description)
      && table.habits == old(table.habits) + [r.value]
  {
    TrimBlank(name);
    if Trim(name) == "" {
      return Fail(NameRequired);
    }
    var habit := table.CreateHabit(userId, Trim(name), Some(OrNull(description)));
    return Ok(habit);
  }

  /**
   * `ensureHabitBelongsToUser`: the habit when the user owns it; the same 404 "Habit not found"
   * whether no habit has the id or another user owns it.
   */
  method EnsureHabitBelongsToUser(table: HabitTable, habitId: Id, userId: Id) returns (r: Result<Habit>)
    requires table.Valid()
    ensures r.Ok? <==> Owns(table.habits, habitId, userId)
    ensures r.Ok? ==> r.value in table.habits && r.value.id == habitId && r.value.userId == userId
    ensures (forall i :: 0 <= i < |table.habits| ==> table.habits[i].id != habitId) ==> r == Fail(HabitNotFound)
    ensures (exists i :: 0 <= i < |table.habits| && table.habits[i].id == habitId && table.habits[i].userId != userId)
            ==> r == Fail(HabitNotFound)
  {
    var habit := table.FindHabitById(habitId);
    if habit.None? || habit.value.userId != userId {
      return Fail(HabitNotFound);
    }
    return Ok(habit.value);
  }

  /**
   * `deleteHabitForUser`: 404 unless the caller owns the habit, with nothing removed; otherwise
   * the habit is gone.
   */
  method DeleteHabitForUser(table: HabitTable, userId: Id, habitId: Id) returns (r: Result<()>)
    requires table.Valid()
    modifies table`habits
    ensures table.Valid()
    ensures r.Ok? <==> Owns(old(table.habits), habitId, userId)
    ensures r.Fail? ==> r.error == HabitNotFound && table.habits == old(table.habits)
    ensures r.Ok? ==> table.habits == Filter(old(table.habits), HabitOtherThan(habitId, userId))
    ensures forall i :: 0 <= i < |table.habits| ==> table.habits[i].id != habitId || table.habits[i].userId != userId
  {
    var owned := EnsureHabitBelongsToUser(table, habitId, userId);
    if owned.Fail? {
      FilterAll(table.habits, HabitOtherThan(habitId, userId));
      return Fail(owned.error);
    }
    var removed := table.DeleteHabit(habitId, userId);
    if !removed {
      return Fail(HabitNotFound);
    }
    return Ok(());
  }

  /** The first day of the `days`-day window ending `today` (`setDate(getDate() - days + 1)`). */
  function WindowStart(days: Option<int>, today: Day): Day {
    today - days.GetOr(DefaultRangeDays) + 1
  }

  /**
   * The window holds exactly `days` days ending today when `days` is positive, 14 when it is
   * absent, and no day at all otherwise.
   */
  lemma WindowLength(days: Option<int>, today: Day)
    ensures days.None? ==> today - WindowStart(days, today) + 1 == 14
    ensures days.Some? && days.value >= 1 ==> today - WindowStart(days, today) + 1 == days.value
    ensures days.Some? && days.value <= 0 ==> WindowStart(days, today) > today
  {
  }

  /** The `{date, completed}` view of stored entries, in their order. */
  function Views(entries: seq<HabitEntry>, dateText: Day -> string): (r: seq<EntryView>)
    ensures |r| == |entries|
    ensures forall i :: 0 <= i < |r| ==> r[i] == EntryView(dateText(entries[i].entryDate), entries[i].completed)
  {
    seq(|entries|, i requires 0 <= i < |entries| => EntryView(dateText(entries[i].entryDate), entries[i].completed))
  }

  /**
   * `listHabitsWithEntries`: one item per habit of the user, in the order `listHabitsForUser`
   * gives, each carrying the habit unchanged and its check-ins dated within the window ending
   * today, latest first. The per-habit reads, concurrent in the source, run one after another.
   */
  method ListHabitsWithEntries(table: HabitTable, userId: Id, days: Option<int>, today: Day, dateText: Day -> string)
    returns (r: seq<HabitWithEntries>)
    requires table.Valid()
    ensures var habits := Reverse(Filter(table.habits, HabitOwnedBy(userId)));
      && |r| == |habits|
      && forall i :: 0 <= i < |r| ==>
           r[i] == HabitWithEntries(habits[i], Views(EntriesInRange(table.entries, habits[i].id, WindowStart(days, today), today), dateText))
    ensures forall i :: 0 <= i < |r| ==> r[i].habit in table.habits && r[i].habit.userId == userId
  {
    var habits := table.ListHabitsForUser(userId);
    var start := WindowStart(days, today);
    r := [];
    for k := 0 to |habits|
      invariant |r| == k
      invariant forall i :: 0 <= i < k ==>
        r[i] == HabitWithEntries(habits[i], Views(EntriesInRange(table.entries, habits[i].id, start, today), dateText))
    {
      var entries := table.ListHabitEntriesForRange(habits[k].id, start, today);
      r := r + [HabitWithEntries(habits[k], Views(entries, dateText))];
    }
  }

  /** The check-in date a request names: today when none is given or it is empty (falsy). */
  function RequestedDay(date: Option<string>, today: Day, parseDate: string -> Option<Day>): Option<Day> {
    if date.None? || date.value == "" then Some(today) else parseDate(date.value)
  }

  /**
   * `markHabitCompletion`: ownership first (404, even for an invalid date), then the date (400),
   * then the upsert with `completed` defaulting to true and the date to today.
   */
  method MarkHabitCompletion(table: HabitTable, habitId: Id, userId: Id, date: Option<string>,
                             completed: Option<bool>, today: Day, parseDate: string -> Option<Day>)
    returns (r: Result<()>)
    requires table.Valid()
    modifies table`entries, table`nextId
    ensures table.Valid()
    ensures !Owns(table.habits, habitId, userId) ==> r == Fail(HabitNotFound) && table.entries == old(table.entries)
    ensures Owns(table.habits, habitId, userId) && RequestedDay(date, today, parseDate).None? ==>
      r == Fail(InvalidDate) && table.entries == old(table.entries)
    ensures Owns(table.habits, habitId, userId) && RequestedDay(date, today, parseDate).Some? ==>
      && r.Ok?
      && table.entries == UpsertEntry(old(table.entries), habitId, RequestedDay(date, today, parseDate).value,
                                      completed.GetOr(true), old(table.nextId), table.clock)
  {
    var owned := EnsureHabitBelongsToUser(table, habitId, userId);
    if owned.Fail? {
      return Fail(owned.error);
    }
    var entryDate := RequestedDay(date, today, parseDate);
    if entryDate.None? {
      return Fail(InvalidDate);
    }
    var _ := table.UpsertHabitEntry(habitId, entryDate.value, Some(completed.GetOr(true)));
    return Ok(());
  }

  /**
   * `clearHabitCompletion`: ownership first (404), then the date (400); then the check-in is
   * removed, and when there was none the call fails 404 "Habit check-in not found".
   */
  method ClearHabitCompletion(table: HabitTable, habitId: Id, userId: Id, date: string,
                              parseDate: string -> Option<Day>) returns (r: Result<()>)
    requires table.Valid()
    modifies table`entries
    ensures table.Valid()
    ensures !Owns(table.habits, habitId, userId) ==> r == Fail(HabitNotFound) && table.entries == old(table.entries)
    ensures Owns(table.habits, habitId, userId) && parseDate(date).None? ==>
      r == Fail(InvalidDate) && table.entries == old(table.entries)
    ensures Owns(table.habits, habitId, userId) && parseDate(date).Some? ==>
      && (r.Ok? <==> (habitId, parseDate(date).value) in old(table.entries))
      && (r.Fail? ==> r.error == CheckInNotFound)
      && table.entries == old(table.entries) - {(habitId, parseDate(date).value)}
  {
    var owned := EnsureHabitBelongsToUser(table, habitId, userId);
    if owned.Fail? {
      return Fail(owned.error);
    }
    var entryDate := parseDate(date);
    if entryDate.None? {
      return Fail(InvalidDate);
    }
    var removed := table.RemoveHabitEntry(habitId, entryDate.value);
    if !removed {
      return Fail(CheckInNotFound);
    }
    return Ok(());
  }

  /**
   * Marking then listing: a check-in marked for an owned habit on a day inside the window shows
   * up in that habit's list with the requested completion.
   */
  lemma MarkedEntryListed(entries: map<EntryKey, HabitEntry>, habitId: Id, day: Day, completed: bool,
                          freshId: Id, now: Timestamp, start: Day, end: Day)
    requires WellKeyed(entries) && start <= day <= end
    ensures var after := UpsertEntry(entries, habitId, day, completed, freshId, now);
      exists e <- EntriesInRange(after, habitId, start, end) :: e.entryDate == day && e.completed == completed
  {
    var after := UpsertEntry(entries, habitId, day, completed, freshId, now);
    EntriesInRangeSpec(after, habitId, start, end);
    assert after[(habitId, day)] in EntriesInRange(after, habitId, start, end);
  }
}
