/**
 * The calendar helpers of frontend/src/screens/DashboardPage.tsx: `YYYY-MM-DD` text of a local
 * date (the calendar-date extended format of section 4.1.2.2 of ISO 8601:2004), reading it
 * back through `new Date(year, monthIndex, day)`, moving a date by days, the Monday that starts
 * its week, the seven days of a week and week-by-week navigation. A `Date` is its local day
 * number; an invalid date (`Invalid Date`) is None.
 */
module DashboardDates {
  import opened Wrappers
  import opened Decimal
  import opened Text
  import opened Calendar

  /** `formatLocalDate`: year, then month and day padded to two digits, joined with '-'. */
  function FormatLocalDate(n: Day): string {
    var c := ToCivil(n);
    IntText(c.year) + "-" + PadStart2(NatText(c.month)) + "-" + PadStart2(NatText(c.day))
  }

  /** What `formatLocalDate` gives for a valid date, and for an invalid one ("NaN-NaN-NaN"). */
  function FormatDate(d: Option<Day>): string {
    if d.Some? then FormatLocalDate(d.value) else "NaN-NaN-NaN"
  }

  /** `Number(text)` for the texts modelled: trimmed decimal digits (empty is 0); anything else NaN. */
  function JsNumber(text: string): Option<int> {
    var t := Trim(text);
    if AllDigits(t) then Some(DigitsValue(t)) else None
  }

  /** `new Date(y, ...)` reads a year from 0 to 99 as 1900 to 1999. */
  function FullYear(y: int): int {
    if 0 <= y <= 99 then 1900 + y else y
  }

  /**
   * `parseLocalDate`: the first three '-'-separated fields as numbers, a missing month or day
   * taken as 1, fed to `new Date(year, month - 1, day)`, which rolls over out-of-range months
   * and days. A field that is not a number makes the date invalid.
   */
  function ParseLocalDate(value: string): Option<Day> {
    var parts := Split(value, '-');
    LocalDate(JsNumber(parts[0]),
              if |parts| >= 2 then JsNumber(parts[1]) else Some(1),
              if |parts| >= 3 then JsNumber(parts[2]) else Some(1))
  }

  /** `new Date(year, month - 1, day)`, invalid when any of the three is NaN. */
  function LocalDate(year: Option<int>, month: Option<int>, day: Option<int>): Option<Day> {
    if year.None? || month.None? || day.None? then None
    else Some(MakeDay(FullYear(year.value), month.value - 1, day.value))
  }

  /** `Number` reads a run of decimal digits as its value. */
  lemma NumberOfDigits(s: string)
    requires AllDigits(s)
    ensures JsNumber(s) == Some(DigitsValue(s)) && '-' !in s
  {
    TrimOfTrimmed(s);
  }

  /** Three '-'-free pieces joined with '-' split back into those pieces. */
  lemma SplitThree(a: string, b: string, c: string)
    requires '-' !in a && '-' !in b && '-' !in c
    ensures Split(a + "-" + b + "-" + c, '-') == [a, b, c]
  {
    assert a + "-" + b + "-" + c == a + ['-'] + (b + ['-'] + c);
    SplitFirst(a, '-', b + ['-'] + c);
    SplitFirst(b, '-', c);
  }

  /** A text split into three fields parses to the date those fields' numbers give. */
  lemma ParseOfParts(value: string, y: string, m: string, d: string)
    requires Split(value, '-') == [y, m, d]
    ensures ParseLocalDate(value) == LocalDate(JsNumber(y), JsNumber(m), JsNumber(d))
  {
  }

  /** Three runs of digits joined with '-' are read as year, month and day. */
  lemma ParseDigitFields(y: string, m: string, d: string)
    requires AllDigits(y) && AllDigits(m) && AllDigits(d)
    ensures ParseLocalDate(y + "-" + m + "-" + d)
         == LocalDate(Some(DigitsValue(y)), Some(DigitsValue(m)), Some(DigitsValue(d)))
  {
    NumberOfDigits(y);
    NumberOfDigits(m);
    NumberOfDigits(d);
    SplitThree(y, m, d);
    ParseOfParts(y + "-" + m + "-" + d, y, m, d);
  }

  /** Reading back a formatted date gives the same day, for years from 100 on. */
  lemma ParseOfFormat(n: Day)
    requires YearOf(n) >= 100
    ensures ParseLocalDate(FormatLocalDate(n)) == Some(n)
  {
    var c := ToCivil(n);
    var y, mm, dd := NatText(c.year), PadStart2(NatText(c.month)), PadStart2(NatText(c.day));
    assert FormatLocalDate(n) == y + "-" + mm + "-" + dd;
    TwoDigitText(c.month);
    TwoDigitText(c.day);
    ValueOfText(c.year);
    ParseDigitFields(y, mm, dd);
    LocalDateOfCivil(c);
  }

  /** `new Date(year, month - 1, day)` of a valid date from year 100 on is that date's day. */
  lemma LocalDateOfCivil(c: Civil)
    requires ValidCivil(c) && c.year >= 100
    ensures LocalDate(Some(c.year), Some(c.month), Some(c.day)) == Some(FromCivil(c))
  {
    MakeDayOfCivil(c);
  }

  /** `YYYY-MM-DD` naming a real calendar date, the year from 1000 to 9999. */
  predicate IsIsoDate(s: string) {
    && |s| == 10 && s[4] == '-' && s[7] == '-' && s[0] != '0'
    && AllDigits(s[..4]) && AllDigits(s[5..7]) && AllDigits(s[8..])
    && ValidCivil(Civil(DigitsValue(s[..4]), DigitsValue(s[5..7]), DigitsValue(s[8..])))
  }

  /** The calendar date an ISO date text names. */
  function IsoCivil(s: string): Civil
    requires IsIsoDate(s)
  {
    Civil(DigitsValue(s[..4]), DigitsValue(s[5..7]), DigitsValue(s[8..]))
  }

  /** An ISO date reads as the day it names, and formatting that day writes the same text. */
  lemma FormatOfParse(s: string)
    requires IsIsoDate(s)
    ensures ParseLocalDate(s) == Some(FromCivil(IsoCivil(s)))
    ensures YearOf(FromCivil(IsoCivil(s))) >= 1000
    ensures FormatLocalDate(FromCivil(IsoCivil(s))) == s
  {
    var c := IsoCivil(s);
    var n := FromCivil(c);
    IsoParse(s);
    IsoFields(s);
    CivilRoundTrip(c);
    assert ToCivil(n) == c;
    assert IntText(c.year) == s[..4];
    assert FormatLocalDate(n) == s[..4] + "-" + s[5..7] + "-" + s[8..];
    IsoPieces(s);
  }

  /** A ten-character text with '-' at positions 4 and 7 is its three fields joined with '-'. */
  lemma IsoPieces(s: string)
    requires |s| == 10 && s[4] == '-' && s[7] == '-'
    ensures s == s[..4] + "-" + s[5..7] + "-" + s[8..]
  {
    var t := s[..4] + "-" + s[5..7] + "-" + s[8..];
    assert |t| == 10;
    forall i | 0 <= i < 10 ensures t[i] == s[i] {
      if i < 4 {
      } else if i == 4 {
      } else if i < 7 {
        assert t[i] == s[5..7][i - 5];
      } else if i == 7 {
      } else {
        assert t[i] == s[8..][i - 8];
      }
    }
  }

  /** An ISO date reads as the day it names. */
  lemma IsoParse(s: string)
    requires IsIsoDate(s)
    ensures ParseLocalDate(s) == Some(FromCivil(IsoCivil(s)))
  {
    var y, mm, dd := s[..4], s[5..7], s[8..];
    IsoPieces(s);
    var c := IsoCivil(s);
    ParseDigitFields(y, mm, dd);
    assert s[..4][0] == s[0];
    FourDigitsValue(y);
    LocalDateOfCivil(c);
  }

  /** The fields of an ISO date are what `formatLocalDate` writes for their values. */
  lemma IsoFields(s: string)
    requires IsIsoDate(s)
    ensures 1000 <= IsoCivil(s).year
    ensures NatText(IsoCivil(s).year) == s[..4]
    ensures PadStart2(NatText(IsoCivil(s).month)) == s[5..7]
    ensures PadStart2(NatText(IsoCivil(s).day)) == s[8..]
  {
    assert s[..4][0] == s[0];
    FourDigitsValue(s[..4]);
    TextOfValue(s[..4]);
    TwoDigitsRoundTrip(s[5..7]);
    TwoDigitsRoundTrip(s[8..]);
  }

  /** A `Date` whose day of month `setDate` changes in place. */
  class Date {
    var day: Day

    constructor (day: Day)
      ensures this.day == day
    {
      this.day := day;
    }

    /** `getDate()`: the day of the month. */
    function GetDate(): (r: int)
      reads this
      ensures 1 <= r <= 31
    {
      ToCivil(day).day
    }

    /** `getMonth()`: the month counted from 0. */
    function GetMonth(): (r: int)
      reads this
      ensures 0 <= r <= 11
    {
      ToCivil(day).month - 1
    }

    function GetFullYear(): int
      reads this
    {
      ToCivil(day).year
    }

    /** `getDay()`: 0 for Sunday to 6 for Saturday. */
    function GetDay(): (r: int)
      reads this
      ensures 0 <= r < 7
    {
      Weekday(day)
    }

    /**
     * `setDate(date)`: MakeDay of the same year and month with day of month `date`, which
     * moves the day by `date - getDate()` days, rolling over month and year ends.
     */
    method SetDate(date: int)
      modifies this
      ensures day == old(day) + (date - old(GetDate()))
    {
      var c := ToCivil(day);
      MakeDayInYear(c.year, c.month - 1, date);
      day := MakeDay(GetFullYear(), GetMonth(), date);
    }
  }

  /** `addDays`: a clone moved by `amount` days with `setDate(getDate() + amount)`. */
  method AddDays(date: Day, amount: int) returns (r: Day)
    ensures r == date + amount
  {
    var clone := new Date(date);
    clone.SetDate(clone.GetDate() + amount);
    r := clone.day;
  }

  /** The Monday on or before a day, counted independently of `startOfWeek`. */
  function MondayOnOrBefore(n: Day): Day {
    n - (Weekday(n) + 6) % 7
  }

  /** It is a Monday, at most six days back. */
  lemma MondayOnOrBeforeSpec(n: Day)
    ensures Weekday(MondayOnOrBefore(n)) == 1
    ensures MondayOnOrBefore(n) <= n < MondayOnOrBefore(n) + 7
  {
  }

  /**
   * `startOfWeek`: the Monday on or before the date (a Sunday goes back six days). The time of
   * day it clears is not part of a day number.
   */
  method StartOfWeek(date: Day) returns (r: Day)
    ensures r == MondayOnOrBefore(date)
    ensures Weekday(r) == 1 && r <= date < r + 7
    ensures Weekday(date) == 0 ==> r == date - 6
  {
    var clone := new Date(date);
    var day := clone.GetDay();
    var diff := if day == 0 then -6 else 1 - day;
    clone.SetDate(clone.GetDate() + diff);
    r := clone.day;
    MondayOffset(date);
    MondayOnOrBeforeSpec(date);
  }

  /** The Monday on or before a day is six days back from a Sunday and `1 - getDay()` days away otherwise. */
  lemma MondayOffset(n: Day)
    ensures MondayOnOrBefore(n) == n + if Weekday(n) == 0 then -6 else 1 - Weekday(n)
  {
    var w := Weekday(n);
    if w == 0 {
      assert (w + 6) % 7 == 6;
    } else {
      assert (w + 6) % 7 == w - 1;
    }
  }

  /** `addDays` on a possibly invalid date: an invalid date stays invalid. */
  function Shift(d: Option<Day>, amount: int): Option<Day> {
    if d.Some? then Some(d.value + amount) else None
  }

  /** `weekDays`: the seven dates from the selected week start on, as `YYYY-MM-DD`. */
  function WeekDays(selectedWeekStart: string): seq<string> {
    var start := ParseLocalDate(selectedWeekStart);
    seq(7, i requires 0 <= i < 7 => WeekDay(start, i))
  }

  /** `formatLocalDate(addDays(startDate, index))` */
  function WeekDay(start: Option<Day>, index: int): string {
    FormatDate(Shift(start, index))
  }

  /**
   * For a week start given as an ISO date: seven days, the first of them the week start, each
   * the day after the one before.
   */
  lemma WeekDaysSpec(s: string)
    requires IsIsoDate(s)
    ensures |WeekDays(s)| == 7 && WeekDays(s)[0] == s
    ensures forall i :: 0 <= i < 7 ==> ParseLocalDate(WeekDays(s)[i]) == Some(FromCivil(IsoCivil(s)) + i)
  {
    forall i | 0 <= i < 7 ensures ParseLocalDate(WeekDays(s)[i]) == Some(FromCivil(IsoCivil(s)) + i) {
      WeekDayReads(s, i);
    }
    WeekDayAt(s, 0);
    FormatOfParse(s);
  }

  /** Day `i` of the week is the week start moved by `i` days. */
  lemma WeekDayAt(s: string, i: int)
    requires IsIsoDate(s) && 0 <= i < 7
    ensures WeekDays(s)[i] == FormatLocalDate(FromCivil(IsoCivil(s)) + i)
  {
    assert WeekDays(s)[i] == WeekDay(ParseLocalDate(s), i);
    IsoParse(s);
  }

  /** Day `i` of the week reads back as the week start plus `i`. */
  lemma WeekDayReads(s: string, i: int)
    requires IsIsoDate(s) && 0 <= i < 7
    ensures ParseLocalDate(WeekDays(s)[i]) == Some(FromCivil(IsoCivil(s)) + i)
  {
    WeekDayAt(s, i);
    FormatOfParse(s);
    var n := FromCivil(IsoCivil(s));
    ReadShifted(n, n + i);
  }

  /** `goToPreviousWeek`'s update of the selected week start. */
  function PreviousWeek(selectedWeekStart: string): string {
    FormatDate(Shift(ParseLocalDate(selectedWeekStart), -7))
  }

  /** `goToNextWeek`'s update of the selected week start. */
  function NextWeek(selectedWeekStart: string): string {
    FormatDate(Shift(ParseLocalDate(selectedWeekStart), 7))
  }

  /**
   * From an ISO week start each step moves exactly seven days, and the next week of the
   * previous week (or the previous of the next) is the week started from.
   */
  lemma WeekNavigation(s: string)
    requires IsIsoDate(s)
    ensures ParseLocalDate(PreviousWeek(s)) == Some(FromCivil(IsoCivil(s)) - 7)
    ensures ParseLocalDate(NextWeek(s)) == Some(FromCivil(IsoCivil(s)) + 7)
    ensures NextWeek(PreviousWeek(s)) == s && PreviousWeek(NextWeek(s)) == s
  {
    FormatOfParse(s);
    var n := FromCivil(IsoCivil(s));
    assert PreviousWeek(s) == FormatLocalDate(n - 7);
    assert NextWeek(s) == FormatLocalDate(n + 7);
    ReadShifted(n, n - 7);
    ReadShifted(n, n + 7);
    assert NextWeek(PreviousWeek(s)) == FormatLocalDate(n);
    assert PreviousWeek(NextWeek(s)) == FormatLocalDate(n);
  }

  /** A day at most a week away from a day of year 1000 or later reads back from its text. */
  lemma ReadShifted(n: Day, m: Day)
    requires YearOf(n) >= 1000 && n - 7 <= m <= n + 7
    ensures ParseLocalDate(FormatLocalDate(m)) == Some(m)
  {
    if m < n {
      YearOfEarlier(n, n - m);
    } else {
      YearMonotone(n, m);
    }
    ParseOfFormat(m);
  }

}
