/**
 * The state of the habit dashboard in frontend/src/screens/DashboardPage.tsx: the habits loaded
 * for the selected week, the week start, the weekly completion counts, and the optimistic update
 * a click on a habit's day makes before the check-in request goes out. A week day is its
 * `YYYY-MM-DD` text, as the page compares them.
 */
module Dashboard {
  import opened Wrappers
  import opened Calendar
  import opened Tables
  import opened DashboardDates

  /** One check-in as the API returns it. */
  datatype EntryDTO = EntryDTO(date: string, completed: bool)

  /** A habit with its check-ins in the loaded range. */
  datatype HabitDTO = HabitDTO(id: string, name: string, description: Option<string>, createdAt: string, entries: seq<EntryDTO>)

  /** `habit.entries.some((entry) => entry.date === date && entry.completed)` */
  predicate DoneOn(h: HabitDTO, date: string) {
    exists e <- h.entries :: e.date == date && e.completed
  }

  function DoneOnDay(date: string): HabitDTO -> bool {
    (h: HabitDTO) => DoneOn(h, date)
  }

  function DoneBy(h: HabitDTO): string -> bool {
    (date: string) => DoneOn(h, date)
  }

  /** `completedForDay`: how many habits have a completed check-in on the day. */
  function CompletedOn(habits: seq<HabitDTO>, date: string): (r: nat)
    ensures r <= |habits|
  {
    |Filter(habits, DoneOnDay(date))|
  }

  /** The per-habit `weeklyCount`: on how many of the week's days the habit was done. */
  function WeeklyCount(h: HabitDTO, days: seq<string>): (r: nat)
    ensures r <= |days|
  {
    |Filter(days, DoneBy(h))|
  }

  /** A habit done on every day of the week scores the whole week, one done on none scores 0. */
  lemma WeeklyCountExtremes(h: HabitDTO, days: seq<string>)
    ensures WeeklyCount(h, days) == |days| <==> forall i :: 0 <= i < |days| ==> DoneOn(h, days[i])
    ensures WeeklyCount(h, days) == 0 <==> forall i :: 0 <= i < |days| ==> !DoneOn(h, days[i])
  {
    FilterShrinks(days, DoneBy(h));
    FilterSpec(days, DoneBy(h));
    var done := Filter(days, DoneBy(h));
    if WeeklyCount(h, days) != 0 {
      assert DoneOn(h, done[0]) && done[0] in days;
    }
  }

  /** The day counts of the first days of the week, added up. */
  function SumCounts(habits: seq<HabitDTO>, days: seq<string>): nat {
    if days == [] then 0
    else SumCounts(habits, days[..|days| - 1]) + CompletedOn(habits, days[|days| - 1])
  }

  /** The weekly counts of the habits, added up. */
  function SumWeekly(habits: seq<HabitDTO>, days: seq<string>): nat {
    if habits == [] then 0
    else SumWeekly(habits[..|habits| - 1], days) + WeeklyCount(habits[|habits| - 1], days)
  }

  /** No more completions than habit-day slots. */
  lemma {:induction false} SumCountsBound(habits: seq<HabitDTO>, days: seq<string>)
    ensures SumCounts(habits, days) <= |habits| * |days|
  {
    if days != [] {
      var prefix := days[..|days| - 1];
      SumCountsBound(habits, prefix);
      assert |habits| * |prefix| + |habits| == |habits| * |days|;
    }
  }

  /** One more day adds, to the habits' weekly counts, the number of habits done that day. */
  lemma {:induction false} SumWeeklyAppendDay(habits: seq<HabitDTO>, days: seq<string>, d: string)
    ensures SumWeekly(habits, days + [d]) == SumWeekly(habits, days) + CompletedOn(habits, d)
  {
    if habits != [] {
      var init, h := habits[..|habits| - 1], habits[|habits| - 1];
      var bit := if DoneOn(h, d) then 1 else 0;
      SumWeeklyAppendDay(init, days, d);
      assert WeeklyCount(h, days + [d]) == WeeklyCount(h, days) + bit by {
        WeeklyCountAppend(h, days, d);
      }
      assert CompletedOn(habits, d) == CompletedOn(init, d) + bit by {
        assert habits == init + [h];
        CompletedOnAppend(init, h, d);
      }
      assert SumWeekly(habits, days + [d]) == SumWeekly(init, days + [d]) + WeeklyCount(h, days + [d]);
      assert SumWeekly(habits, days) == SumWeekly(init, days) + WeeklyCount(h, days);
    }
  }

  /** One more day adds one to a habit's weekly count exactly when the habit was done that day. */
  lemma WeeklyCountAppend(h: HabitDTO, days: seq<string>, d: string)
    ensures WeeklyCount(h, days + [d]) == WeeklyCount(h, days) + if DoneOn(h, d) then 1 else 0
  {
    FilterAppend(days, d, DoneBy(h));
  }

  /** One more habit adds one to a day's count exactly when that habit was done on the day. */
  lemma CompletedOnAppend(habits: seq<HabitDTO>, h: HabitDTO, d: string)
    ensures CompletedOn(habits + [h], d) == CompletedOn(habits, d) + if DoneOn(h, d) then 1 else 0
  {
    FilterAppend(habits, h, DoneOnDay(d));
  }

  /**
   * The completed slots of the week counted day by day equal those counted habit by habit:
   * the day counts and the weekly counts add up to the same total.
   */
  lemma {:induction false} CountsAgree(habits: seq<HabitDTO>, days: seq<string>)
    ensures SumCounts(habits, days) == SumWeekly(habits, days)
  {
    if days == [] {
      EmptyWeek(habits);
    } else {
      var prefix, d := days[..|days| - 1], days[|days| - 1];
      CountsAgree(habits, prefix);
      assert days == prefix + [d];
      SumWeeklyAppendDay(habits, prefix, d);
    }
  }

  /** Over no days, every habit's weekly count is 0. */
  lemma {:induction false} EmptyWeek(habits: seq<HabitDTO>)
    ensures SumWeekly(habits, []) == 0
  {
    if habits != [] {
      EmptyWeek(habits[..|habits| - 1]);
    }
  }

  /** The running total after day `k` is the total before it plus that day's count. */
  lemma SumCountsStep(habits: seq<HabitDTO>, days: seq<string>, k: nat)
    requires k < |days|
    ensures SumCounts(habits, days[..k + 1]) == SumCounts(habits, days[..k]) + CompletedOn(habits, days[k])
  {
    assert days[..k + 1][..k] == days[..k];
  }

  /** One day of `dailyBreakdown`; the weekday label and the percentage are not modelled. */
  datatype DayStat = DayStat(day: string, count: nat)

  /** Each day with its count. */
  function Breakdown(habits: seq<HabitDTO>, days: seq<string>): seq<DayStat> {
    seq(|days|, i requires 0 <= i < |days| => DayStat(days[i], CompletedOn(habits, days[i])))
  }

  lemma BreakdownStep(habits: seq<HabitDTO>, days: seq<string>, k: nat)
    requires k < |days|
    ensures Breakdown(habits, days[..k + 1]) == Breakdown(habits, days[..k]) + [DayStat(days[k], CompletedOn(habits, days[k]))]
  {
    var a, b := Breakdown(habits, days[..k + 1]), Breakdown(habits, days[..k]) + [DayStat(days[k], CompletedOn(habits, days[k]))];
    assert |a| == |b|;
    forall i | 0 <= i < |a| ensures a[i] == b[i] {
      if i < k {
        assert days[..k + 1][i] == days[..k][i];
      }
    }
  }

  /**
   * `weeklyStats`: the slots of the week, the completed ones added up day by day while the
   * breakdown is built, and the count of each day.
   */
  method WeeklyStats(habits: seq<HabitDTO>, weekDays: seq<string>)
    returns (totalSlots: nat, completedSlots: nat, dailyBreakdown: seq<DayStat>)
    ensures totalSlots == |habits| * |weekDays|
    ensures |dailyBreakdown| == |weekDays|
    ensures forall i :: 0 <= i < |weekDays| ==>
      dailyBreakdown[i].day == weekDays[i] && dailyBreakdown[i].count == CompletedOn(habits, weekDays[i])
    ensures completedSlots == SumCounts(habits, weekDays) == SumWeekly(habits, weekDays)
    ensures completedSlots <= totalSlots
  {
    totalSlots := |habits| * |weekDays|;
    completedSlots := 0;
    dailyBreakdown := [];
    for k := 0 to |weekDays|
      invariant dailyBreakdown == Breakdown(habits, weekDays[..k])
      invariant completedSlots == SumCounts(habits, weekDays[..k])
    {
      var completedForDay := |Filter(habits, DoneOnDay(weekDays[k]))|;
      SumCountsStep(habits, weekDays, k);
      BreakdownStep(habits, weekDays, k);
      completedSlots := completedSlots + completedForDay;
      dailyBreakdown := dailyBreakdown + [DayStat(weekDays[k], completedForDay)];
    }
    assert weekDays[..|weekDays|] == weekDays;
    CountsAgree(habits, weekDays);
    SumCountsBound(habits, weekDays);
  }

  function OtherDate(date: string): EntryDTO -> bool {
    (e: EntryDTO) => e.date != date
  }

  /** The entries of the clicked habit after the click: the date's entries dropped, then one completed entry added back unless the day was done. */
  function ToggleEntries(entries: seq<EntryDTO>, date: string, isCompleted: bool): seq<EntryDTO> {
    var withoutDate := Filter(entries, OtherDate(date));
    if isCompleted then withoutDate else withoutDate + [EntryDTO(date, true)]
  }

  function ToggleItem(item: HabitDTO, habitId: string, date: string, isCompleted: bool): HabitDTO {
    if item.id != habitId then item else item.(entries := ToggleEntries(item.entries, date, isCompleted))
  }

  /**
   * `handleToggleHabitDay`'s update of the habit list: whether the day was done is read from
   * the clicked habit, then every item with its id gets its entries toggled.
   */
  function ToggleHabits(prev: seq<HabitDTO>, habit: HabitDTO, date: string): seq<HabitDTO> {
    var isCompleted := DoneOn(habit, date);
    seq(|prev|, i requires 0 <= i < |prev| => ToggleItem(prev[i], habit.id, date, isCompleted))
  }

  /**
   * The toggle of one item's entries: the date ends up with no entry when it was done and with
   * exactly one completed entry otherwise, and the entries for every other date stay as they were.
   */
  lemma ToggleEntriesSpec(entries: seq<EntryDTO>, date: string, isCompleted: bool)
    ensures var r := ToggleEntries(entries, date, isCompleted);
      && (isCompleted ==> forall e <- r :: e.date != date)
      && (!isCompleted ==> r[|r| - 1] == EntryDTO(date, true) && forall e <- r[..|r| - 1] :: e.date != date)
      && (forall d :: d != date ==> Filter(r, SameDate(d)) == Filter(entries, SameDate(d)))
  {
    var withoutDate := Filter(entries, OtherDate(date));
    FilterSpec(entries, OtherDate(date));
    var r := ToggleEntries(entries, date, isCompleted);
    forall d | d != date ensures Filter(r, SameDate(d)) == Filter(entries, SameDate(d)) {
      FilterOfOtherDate(entries, date, d);
      if !isCompleted {
        FilterAppend(withoutDate, EntryDTO(date, true), SameDate(d));
      }
    }
    if !isCompleted {
      assert r[..|r| - 1] == withoutDate;
    }
  }

  function SameDate(date: string): EntryDTO -> bool {
    (e: EntryDTO) => e.date == date
  }

  /** Dropping the entries of one date keeps the entries of every other date. */
  lemma {:induction false} FilterOfOtherDate(entries: seq<EntryDTO>, date: string, d: string)
    requires d != date
    ensures Filter(Filter(entries, OtherDate(date)), SameDate(d)) == Filter(entries, SameDate(d))
  {
    if entries != [] {
      var x, rest := entries[0], entries[1..];
      FilterOfOtherDate(rest, date, d);
      var w := Filter(entries, OtherDate(date));
      var wRest := Filter(rest, OtherDate(date));
      if x.date != date {
        assert w == [x] + wRest;
        assert w[1..] == wRest;
      } else {
        assert w == wRest;
        assert !SameDate(d)(x);
      }
    }
  }

  /**
   * The toggle changes only the items with the clicked habit's id; for those, the day is done
   * afterwards exactly when it was not done on the clicked habit, and the check-ins of every
   * other date are unchanged.
   */
  lemma ToggleSpec(prev: seq<HabitDTO>, habit: HabitDTO, date: string)
    ensures |ToggleHabits(prev, habit, date)| == |prev|
    ensures forall i :: 0 <= i < |prev| && prev[i].id != habit.id ==> ToggleHabits(prev, habit, date)[i] == prev[i]
    ensures forall i :: 0 <= i < |prev| && prev[i].id == habit.id ==>
      var item := ToggleHabits(prev, habit, date)[i];
      && item == prev[i].(entries := item.entries)
      && (DoneOn(item, date) <==> !DoneOn(habit, date))
      && forall d :: d != date ==> Filter(item.entries, SameDate(d)) == Filter(prev[i].entries, SameDate(d))
  {
    var isCompleted := DoneOn(habit, date);
    forall i | 0 <= i < |prev| && prev[i].id == habit.id
      ensures var item := ToggleHabits(prev, habit, date)[i];
        && item == prev[i].(entries := item.entries)
        && (DoneOn(item, date) <==> !DoneOn(habit, date))
        && forall d :: d != date ==> Filter(item.entries, SameDate(d)) == Filter(prev[i].entries, SameDate(d))
    {
      var item := ToggleHabits(prev, habit, date)[i];
      assert item.entries == ToggleEntries(prev[i].entries, date, isCompleted);
      ToggleEntriesSpec(prev[i].entries, date, isCompleted);
      if !isCompleted {
        assert item.entries[|item.entries| - 1] in item.entries;
      } else {
        assert forall e <- item.entries :: e.date != date;
      }
    }
  }

  /** The check-in request a click sends after the optimistic update. */
  datatype CheckInRequest = ClearHabit(habitId: string, date: string) | MarkHabit(habitId: string, date: string, completed: bool)

  /** What the page holds: the loaded habits and the Monday of the week on show. */
  class DashboardState {
    var habits: seq<HabitDTO>
    var selectedWeekStart: string

    /** The page opens on the current week, `today` standing for `new Date()`. */
    constructor (today: Day)
      ensures habits == [] && selectedWeekStart == FormatLocalDate(MondayOnOrBefore(today))
    {
      habits := [];
      var start := StartOfWeek(today);
      selectedWeekStart := FormatLocalDate(start);
    }

    /** `weekDays` of the selected week. */
    function Week(): seq<string>
      reads this
    {
      WeekDays(selectedWeekStart)
    }

    /** `goToPreviousWeek` */
    method GoToPreviousWeek()
      modifies this`selectedWeekStart
      ensures selectedWeekStart == PreviousWeek(old(selectedWeekStart))
    {
      var start := ParseLocalDate(selectedWeekStart);
      var moved: Option<Day> := None;
      if start.Some? {
        var day := AddDays(start.value, -7);
        moved := Some(day);
      }
      assert moved == Shift(start, -7);
      selectedWeekStart := FormatDate(moved);
    }

    /** `goToNextWeek` */
    method GoToNextWeek()
      modifies this`selectedWeekStart
      ensures selectedWeekStart == NextWeek(old(selectedWeekStart))
    {
      var start := ParseLocalDate(selectedWeekStart);
      var moved: Option<Day> := None;
      if start.Some? {
        var day := AddDays(start.value, 7);
        moved := Some(day);
      }
      assert moved == Shift(start, 7);
      selectedWeekStart := FormatDate(moved);
    }

    /** `goToCurrentWeek`: back to the week holding `today`. */
    method GoToCurrentWeek(today: Day)
      modifies this`selectedWeekStart
      ensures selectedWeekStart == FormatLocalDate(MondayOnOrBefore(today))
    {
      var start := StartOfWeek(today);
      selectedWeekStart := FormatLocalDate(start);
    }

    /**
     * `handleToggleHabitDay`: the optimistic update of the list, and the request that follows
     * it, clearing the check-in when the day was done and marking it completed otherwise.
     */
    method ToggleHabitDay(habit: HabitDTO, date: string) returns (request: CheckInRequest)
      modifies this`habits
      ensures habits == ToggleHabits(old(habits), habit, date)
      ensures request == if DoneOn(habit, date) then ClearHabit(habit.id, date) else MarkHabit(habit.id, date, true)
    {
      var isCompleted := DoneOn(habit, date);
      habits := seq(|habits|, i requires 0 <= i < |habits| reads this => ToggleItem(habits[i], habit.id, date, isCompleted));
      request := if isCompleted then ClearHabit(habit.id, date) else MarkHabit(habit.id, date, true);
    }
  }
}
