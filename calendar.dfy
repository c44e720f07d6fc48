/**
 * Calendar days as the dashboard's JavaScript `Date` objects see them: a local day number
 * (time of day is not modelled), its proleptic Gregorian year, month and day of month, the
 * day of the week, and ECMAScript's MakeDay, which `new Date(y, m, d)` and `setDate` use.
 */
module Calendar {

  /** A local calendar day, counted from Thursday 1 January 1970, which is day 0. */
  type Day = int

  /** A year, month (1..12) and day of month. */
  datatype Civil = Civil(year: int, month: int, day: int)

  predicate IsLeapYear(y: int) {
    y % 4 == 0 && (y % 100 != 0 || y % 400 == 0)
  }

  function DaysInYear(y: int): int {
    if IsLeapYear(y) then 366 else 365
  }

  function DaysInMonth(y: int, m: int): int
    requires 1 <= m <= 12
  {
    if m == 2 then (if IsLeapYear(y) then 29 else 28)
    else if m == 4 || m == 6 || m == 9 || m == 11 then 30
    else 31
  }

  /** Days of year `y` before the first of month `m`; month 13 gives the length of the year. */
  function DaysBeforeMonth(y: int, m: int): int
    requires 1 <= m <= 13
  {
    var leap := if IsLeapYear(y) then 1 else 0;
    if m <= 2 then [0, 0, 31][m]
    else [0, 0, 31, 59, 90, 120, 151, 181, 212, 243, 273, 304, 334, 365][m] + leap
  }

  lemma MonthLengths(y: int)
    ensures forall m :: 1 <= m <= 12 ==> DaysBeforeMonth(y, m + 1) == DaysBeforeMonth(y, m) + DaysInMonth(y, m)
    ensures DaysBeforeMonth(y, 13) == DaysInYear(y)
  {
  }

  predicate ValidCivil(c: Civil) {
    1 <= c.month <= 12 && 1 <= c.day <= DaysInMonth(c.year, c.month)
  }

  /** The day number of 1 January of year `y`. */
  function YearStart(y: int): Day
    decreases if y < 1970 then 1970 - y else y - 1970
  {
    if y == 1970 then 0
    else if y > 1970 then YearStart(y - 1) + DaysInYear(y - 1)
    else YearStart(y + 1) - DaysInYear(y)
  }

  lemma YearStartStep(y: int)
    ensures YearStart(y + 1) == YearStart(y) + DaysInYear(y)
  {
  }

  /** Later years start later: at least a year's worth of days after the earlier one's end. */
  lemma {:induction false} YearStartMonotone(a: int, b: int)
    requires a < b
    ensures YearStart(a + 1) <= YearStart(b)
    ensures YearStart(a) + 365 * (b - a) <= YearStart(b)
    decreases b - a
  {
    YearStartStep(a);
    if a + 1 < b {
      YearStartMonotone(a + 1, b);
    }
  }

  /** The year containing day `n`, searched for from the guess `y`. */
  function FindYear(n: Day, y: int): (r: int)
    ensures YearStart(r) <= n < YearStart(r + 1)
    decreases (if YearStart(y) <= n then 0 else 1), (if YearStart(y) <= n then n - YearStart(y) else YearStart(y) - n)
  {
    YearStartStep(y);
    YearStartStep(y - 1);
    if n < YearStart(y) then FindYear(n, y - 1)
    else if n >= YearStart(y + 1) then FindYear(n, y + 1)
    else y
  }

  /** The month of year `y` whose days include the `offset`-th day of the year, searched from month `m`. */
  function FindMonth(y: int, offset: int, m: int): (r: int)
    requires 1 <= m <= 12 && DaysBeforeMonth(y, m) <= offset < DaysInYear(y)
    ensures m <= r <= 12 && DaysBeforeMonth(y, r) <= offset < DaysBeforeMonth(y, r + 1)
    decreases 12 - m
  {
    if offset < DaysBeforeMonth(y, m + 1) then m else FindMonth(y, offset, m + 1)
  }

  /** Day number of a year, month and day of month. */
  function FromCivil(c: Civil): Day
    requires 1 <= c.month <= 12
  {
    YearStart(c.year) + DaysBeforeMonth(c.year, c.month) + c.day - 1
  }

  /** The year, month and day of month of a day number. */
  function ToCivil(n: Day): (c: Civil)
    ensures ValidCivil(c) && FromCivil(c) == n
  {
    var y := FindYear(n, 1970);
    var offset := n - YearStart(y);
    MonthLengths(y);
    var m := FindMonth(y, offset, 1);
    Civil(y, m, offset - DaysBeforeMonth(y, m) + 1)
  }

  /** The only year whose days contain day `n`. */
  lemma YearUnique(n: Day, y1: int, y2: int)
    requires YearStart(y1) <= n < YearStart(y1 + 1)
    requires YearStart(y2) <= n < YearStart(y2 + 1)
    ensures y1 == y2
  {
    if y1 < y2 {
      YearStartMonotone(y1, y2);
    } else if y2 < y1 {
      YearStartMonotone(y2, y1);
    }
  }

  lemma {:induction false} DaysBeforeMonthMonotone(y: int, a: int, b: int)
    requires 1 <= a <= b <= 13
    ensures DaysBeforeMonth(y, a) <= DaysBeforeMonth(y, b)
    decreases b - a
  {
    if a < b {
      MonthLengths(y);
      DaysBeforeMonthMonotone(y, a + 1, b);
    }
  }

  /** The only month of year `y` whose days contain the `offset`-th day of the year. */
  lemma MonthUnique(y: int, offset: int, m1: int, m2: int)
    requires 1 <= m1 <= 12 && DaysBeforeMonth(y, m1) <= offset < DaysBeforeMonth(y, m1 + 1)
    requires 1 <= m2 <= 12 && DaysBeforeMonth(y, m2) <= offset < DaysBeforeMonth(y, m2 + 1)
    ensures m1 == m2
  {
    if m1 < m2 {
      DaysBeforeMonthMonotone(y, m1 + 1, m2);
    } else if m2 < m1 {
      DaysBeforeMonthMonotone(y, m2 + 1, m1);
    }
  }

  /** Every valid date has its own day number, and converting it back gives the date. */
  lemma CivilRoundTrip(c: Civil)
    requires ValidCivil(c)
    ensures ToCivil(FromCivil(c)) == c
  {
    var n := FromCivil(c);
    var d := ToCivil(n);
    MonthLengths(c.year);
    YearStartStep(c.year);
    DaysBeforeMonthMonotone(c.year, c.month + 1, 13);
    YearUnique(n, c.year, d.year);
    var offset := n - YearStart(c.year);
    MonthUnique(c.year, offset, c.month, d.month);
  }

  /** The day of the week as `getDay()` numbers it: 0 for Sunday, 1 for Monday, ..., 6 for Saturday. */
  function Weekday(n: Day): int {
    (n + 4) % 7
  }

  /**
   * ECMAScript's MakeDay(year, month, date), month counted from 0: out-of-range months and days
   * roll over into the neighbouring months and years.
   */
  function MakeDay(year: int, monthIndex: int, date: int): Day {
    var ym := year + monthIndex / 12;
    var mn := monthIndex % 12;
    YearStart(ym) + DaysBeforeMonth(ym, mn + 1) + date - 1
  }

  /** MakeDay of a valid date is that date's day number. */
  lemma MakeDayOfCivil(c: Civil)
    requires ValidCivil(c)
    ensures MakeDay(c.year, c.month - 1, c.day) == FromCivil(c)
  {
    MakeDayInYear(c.year, c.month - 1, c.day);
  }

  /** For a month index from 0 to 11, MakeDay counts from the first of that month of that year. */
  lemma MakeDayInYear(year: int, monthIndex: int, date: int)
    requires 0 <= monthIndex <= 11
    ensures MakeDay(year, monthIndex, date) == YearStart(year) + DaysBeforeMonth(year, monthIndex + 1) + date - 1
  {
    assert monthIndex / 12 == 0 && monthIndex % 12 == monthIndex;
  }

  /** Moving the day of month by `k` with MakeDay moves the day number by exactly `k`. */
  lemma MakeDayShift(n: Day, k: int)
    ensures var c := ToCivil(n); MakeDay(c.year, c.month - 1, c.day + k) == n + k
  {
    var c := ToCivil(n);
    MakeDayInYear(c.year, c.month - 1, c.day + k);
  }

  /** The year of a day, as `getFullYear()` reports it. */
  function YearOf(n: Day): int {
    ToCivil(n).year
  }

  /** Day `n` lies in the year YearOf reports. */
  lemma YearBounds(n: Day)
    ensures YearStart(YearOf(n)) <= n < YearStart(YearOf(n) + 1)
  {
    assert YearOf(n) == FindYear(n, 1970);
  }

  /** Later days never lie in earlier years. */
  lemma YearMonotone(n: Day, m: Day)
    requires n <= m
    ensures YearOf(n) <= YearOf(m)
  {
    YearBounds(n);
    YearBounds(m);
    YearsOrdered(YearOf(n), YearOf(m), n, m);
  }

  lemma YearsOrdered(a: int, b: int, n: Day, m: Day)
    requires YearStart(a) <= n < YearStart(a + 1) && YearStart(b) <= m < YearStart(b + 1)
    requires n <= m
    ensures a <= b
  {
    if b < a {
      YearStartMonotone(b, a);
    }
  }

  /** Going back at most 365 days goes back at most one year. */
  lemma YearOfEarlier(n: Day, k: int)
    requires 0 <= k <= 365
    ensures YearOf(n - k) >= YearOf(n) - 1
  {
    YearBounds(n - k);
    YearBounds(n);
    YearsClose(YearOf(n - k), YearOf(n), n - k, n);
  }

  lemma YearsClose(a: int, b: int, n: Day, m: Day)
    requires YearStart(a) <= n < YearStart(a + 1) && YearStart(b) <= m < YearStart(b + 1)
    requires m - 365 <= n
    ensures a >= b - 1
  {
    if a < b - 1 {
      YearStartMonotone(a, b - 1);
      YearStartStep(b - 1);
    }
  }
}
