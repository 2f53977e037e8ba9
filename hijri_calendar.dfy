/** The month grid of src/utils/hijriCalendar.ts: `getMonthCalendar` pads a
    Gregorian month out to whole Sunday-first weeks, and `gregorianToHijri`
    labels each day with its Hijri date as reported by `moment-hijri`. */
module HijriCalendar {
  import Gregorian
  import opened Wrappers

  /** The three readings of `moment-hijri` the file uses: `iYear()`,
      `iMonth()` (0-based) and `iDate()`. The library itself is not part of
      the model; the grid is proved for every choice of these functions. */
  datatype HijriLibrary = HijriLibrary(
    iYear: Gregorian.Date -> int,
    iMonth: Gregorian.Date -> int,
    iDate: Gregorian.Date -> int)

  /** A Hijri date as this file builds it. `monthName` is `None` where the
      name lookup falls outside the table (`undefined` in the source). */
  datatype HijriDate = HijriDate(year: int, month: int, day: int, monthName: Option<string>)

  /** One cell of the grid. */
  datatype CalendarDay = CalendarDay(
    gregorianDate: Gregorian.Date, hijriDate: HijriDate, isCurrentMonth: bool)

  /** `HIJRI_MONTHS`, the names this file uses. */
  const HijriMonths: seq<string> := ["Muharram", "Safar", "Rabi' al-Awwal", "Rabi' al-Thani",
    "Jumada al-Awwal", "Jumada al-Thani", "Rajab", "Sha'ban",
    "Ramadan", "Shawwal", "Dhul-Qi'dah", "Dhul-Hijjah"]

  /** `HIJRI_MONTHS[month - 1]`, `undefined` outside 1..12. */
  function MonthName(month: int): (r: Option<string>)
    ensures r.Some? <==> 1 <= month <= 12
  {
    if 1 <= month <= 12 then Some(HijriMonths[month - 1]) else None
  }

  /** No two months share a name, so the name identifies the month. */
  lemma MonthNameInjective(a: int, b: int)
    requires MonthName(a).Some? && MonthName(a) == MonthName(b)
    ensures a == b
  {
  }

  /** `gregorianToHijri(date)`: the 0-based `iMonth()` is shifted to 1-based
      before the name is looked up. */
  function GregorianToHijri(lib: HijriLibrary, d: Gregorian.Date): (h: HijriDate)
    ensures h.year == lib.iYear(d) && h.day == lib.iDate(d)
    ensures h.month - 1 == lib.iMonth(d)
    ensures h.monthName.Some? <==> 0 <= lib.iMonth(d) < 12
  {
    var month := lib.iMonth(d) + 1;
    HijriDate(lib.iYear(d), month, lib.iDate(d), MonthName(month))
  }

  /** A date whose library month is in range gets the name of that month,
      and a name read off a cell tells the month back. */
  lemma GregorianToHijriName(lib: HijriLibrary, d: Gregorian.Date, month: int)
    requires GregorianToHijri(lib, d).monthName == MonthName(month)
    requires 1 <= month <= 12
    ensures lib.iMonth(d) == month - 1
  {
    MonthNameInjective(month, GregorianToHijri(lib, d).month);
  }

  // ------------------------------------------------------------ the grid

  /** The year `new Date(year, …)` uses: 0..99 stand for 1900..1999. */
  function FullYear(year: int): int {
    if 0 <= year <= 99 then 1900 + year else year
  }

  /** The year and 1-based month of `new Date(year, month - 1)`: a month
      outside 1..12 carries over into the neighbouring years. */
  function BaseMonth(year: int, month: int): (r: (int, int))
    ensures 1 <= r.1 <= 12
    ensures 12 * r.0 + r.1 == 12 * FullYear(year) + month
  {
    (FullYear(year) + (month - 1) / 12, (month - 1) % 12 + 1)
  }

  /** A month in 1..12 is taken as it is: the parameter is 1-based. */
  lemma BaseMonthInRange(year: int, month: int)
    requires 1 <= month <= 12
    ensures BaseMonth(year, month) == (FullYear(year), month)
  {
  }

  /** `startOfMonth(baseDate)` and `endOfMonth(baseDate)`. */
  function MonthStart(y: int, m: int): (d: Gregorian.Date)
    requires 1 <= m <= 12
    ensures Gregorian.Valid(d)
  {
    Gregorian.Date(y, m, 1)
  }

  function MonthEnd(y: int, m: int): (d: Gregorian.Date)
    requires 1 <= m <= 12
    ensures Gregorian.Valid(d)
    ensures Gregorian.DayNumber(d) == Gregorian.DayNumber(MonthStart(y, m)) + Gregorian.DaysInMonth(y, m) - 1
  {
    Gregorian.Date(y, m, Gregorian.DaysInMonth(y, m))
  }

  /** `calendarStart`: the Sunday on or before the first of the month. */
  function GridStart(y: int, m: int): (d: Gregorian.Date)
    requires 1 <= m <= 12
    ensures Gregorian.Valid(d) && Gregorian.Weekday(d) == 0
    ensures Gregorian.DayNumber(d) <= Gregorian.DayNumber(MonthStart(y, m)) < Gregorian.DayNumber(d) + 7
  {
    Gregorian.StartOfWeek(MonthStart(y, m))
  }

  /** `calendarEnd`: the Saturday on or after the last day of the month. */
  function GridEnd(y: int, m: int): (d: Gregorian.Date)
    requires 1 <= m <= 12
    ensures Gregorian.Valid(d) && Gregorian.Weekday(d) == 6
    ensures Gregorian.DayNumber(MonthEnd(y, m)) <= Gregorian.DayNumber(d) < Gregorian.DayNumber(MonthEnd(y, m)) + 7
  {
    Gregorian.EndOfWeek(MonthEnd(y, m))
  }

  /** The days of the grid: every day from `GridStart` to `GridEnd`, in order. */
  function GridDays(y: int, m: int): (days: seq<Gregorian.Date>)
    requires 1 <= m <= 12
    ensures |days| == Gregorian.DayNumber(GridEnd(y, m)) - Gregorian.DayNumber(GridStart(y, m)) + 1
    ensures forall i :: 0 <= i < |days| ==>
              Gregorian.Valid(days[i]) && Gregorian.DayNumber(days[i]) == Gregorian.DayNumber(GridStart(y, m)) + i
  {
    Gregorian.EachDayOfInterval(GridStart(y, m), GridEnd(y, m))
  }

  /** `getMonthCalendar(year, month)`. */
  function GetMonthCalendar(lib: HijriLibrary, year: int, month: int): (cells: seq<CalendarDay>)
    ensures var (y, m) := BaseMonth(year, month);
            && |cells| == |GridDays(y, m)|
            && forall i :: 0 <= i < |cells| ==>
                 && cells[i].gregorianDate == GridDays(y, m)[i]
                 && cells[i].hijriDate == GregorianToHijri(lib, cells[i].gregorianDate)
                 && (cells[i].isCurrentMonth <==> cells[i].gregorianDate.month == m)
  {
    var (y, m) := BaseMonth(year, month);
    var days := GridDays(y, m);
    seq(|days|, i requires 0 <= i < |days| =>
      CalendarDay(days[i], GregorianToHijri(lib, days[i]), days[i].month == m))
  }

  /** The grid is whole weeks: between four and six of them. */
  lemma GridIsWholeWeeks(y: int, m: int)
    requires 1 <= m <= 12
    ensures |GridDays(y, m)| % 7 == 0 && 28 <= |GridDays(y, m)| <= 42
  {
    Gregorian.WholeWeeks(GridStart(y, m), MonthStart(y, m), MonthEnd(y, m), GridEnd(y, m), |GridDays(y, m)|);
  }

  /** The first cell is a Sunday and the last a Saturday. */
  lemma GridEndsOfWeek(y: int, m: int)
    requires 1 <= m <= 12
    ensures Gregorian.SundayToSaturday(GridDays(y, m))
  {
    GridIsWholeWeeks(y, m);
    GridWeekdays(y, m);
    Gregorian.WeekRunEnds(GridDays(y, m));
  }

  /** Every cell's weekday is its column. */
  lemma GridWeekdays(y: int, m: int)
    requires 1 <= m <= 12
    ensures Gregorian.WeekdaysFromSunday(GridDays(y, m))
  {
    forall i | 0 <= i < |GridDays(y, m)|
      ensures Gregorian.Valid(GridDays(y, m)[i]) && Gregorian.Weekday(GridDays(y, m)[i]) == i % 7
    {
      GridColumns(y, m, i);
    }
  }

  /** Cell `i` falls on weekday `i % 7`: the grid is laid out in
      Sunday-first rows of seven. */
  lemma GridColumns(y: int, m: int, i: int)
    requires 1 <= m <= 12
    requires 0 <= i < |GridDays(y, m)|
    ensures Gregorian.Weekday(GridDays(y, m)[i]) == i % 7
  {
    Gregorian.WeekdayAfterSunday(GridStart(y, m), GridDays(y, m)[i], i);
  }

  /** The number of padding days before the first of the month. */
  function Lead(y: int, m: int): (k: int)
    requires 1 <= m <= 12
    ensures 0 <= k < 7
  {
    Gregorian.DayNumber(MonthStart(y, m)) - Gregorian.DayNumber(GridStart(y, m))
  }

  /** Every day of the month appears, once and in order, right after the
      leading padding. */
  lemma MonthDaysInOrder(y: int, m: int)
    requires 1 <= m <= 12
    ensures var days, k, n := GridDays(y, m), Lead(y, m), Gregorian.DaysInMonth(y, m);
            && k + n <= |days|
            && forall j :: k <= j < k + n ==> days[j] == Gregorian.Date(y, m, j - k + 1)
  {
    var days, k, n := GridDays(y, m), Lead(y, m), Gregorian.DaysInMonth(y, m);
    forall j | k <= j < k + n
      ensures days[j] == Gregorian.Date(y, m, j - k + 1)
    {
      var d := Gregorian.Date(y, m, j - k + 1);
      assert Gregorian.DayNumber(d) == Gregorian.DayNumber(days[j]);
      Gregorian.DayNumberInjective(d, days[j]);
    }
  }

  /** The padding cells belong to the neighbouring months. */
  lemma PaddingIsOutsideMonth(y: int, m: int, i: int)
    requires 1 <= m <= 12
    requires 0 <= i < |GridDays(y, m)|
    requires !(Lead(y, m) <= i < Lead(y, m) + Gregorian.DaysInMonth(y, m))
    ensures GridDays(y, m)[i].month != m
  {
    var days, k, n := GridDays(y, m), Lead(y, m), Gregorian.DaysInMonth(y, m);
    if i < k {
      var j := k - i;
      Gregorian.BackFromFirst(y, m, j);
      Gregorian.DayNumberInjective(Gregorian.Back(MonthStart(y, m), j), days[i]);
    } else {
      var j := i - (k + n) + 1;
      Gregorian.ForwardFromLast(y, m, j);
      Gregorian.DayNumberInjective(Gregorian.Forward(MonthEnd(y, m), j), days[i]);
    }
  }

  /** A cell is flagged as in the current month exactly when it lies in the
      run of the month's own days; the comparison ignores the year, but the
      padding never reaches the same month of another year. */
  lemma CurrentMonthCells(lib: HijriLibrary, year: int, month: int, i: int)
    requires 0 <= i < |GetMonthCalendar(lib, year, month)|
    ensures var (y, m) := BaseMonth(year, month);
            GetMonthCalendar(lib, year, month)[i].isCurrentMonth
            <==> Lead(y, m) <= i < Lead(y, m) + Gregorian.DaysInMonth(y, m)
  {
    var (y, m) := BaseMonth(year, month);
    if Lead(y, m) <= i < Lead(y, m) + Gregorian.DaysInMonth(y, m) {
      MonthDaysInOrder(y, m);
    } else {
      PaddingIsOutsideMonth(y, m, i);
    }
  }
}
