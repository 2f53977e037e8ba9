/** The proleptic Gregorian calendar on which the month grid is built: the
    part of `Date` and of the `date-fns` helpers (`startOfMonth`,
    `endOfMonth`, `startOfWeek`, `endOfWeek`, `eachDayOfInterval`) that the
    grid uses, re-stated over civil (year, month, day) triples. */
module Gregorian {

  /** A calendar date; `month` is 1-based (January is 1), as in the text of an ISO date. */
  datatype Date = Date(year: int, month: int, day: int)

  predicate IsLeapYear(y: int) {
    y % 4 == 0 && (y % 100 != 0 || y % 400 == 0)
  }

  function DaysInMonth(y: int, m: int): (r: int)
    requires 1 <= m <= 12
    ensures 28 <= r <= 31
    ensures r == 29 <==> m == 2 && IsLeapYear(y)
  {
    if m == 2 then (if IsLeapYear(y) then 29 else 28)
    else if m == 4 || m == 6 || m == 9 || m == 11 then 30
    else 31
  }

  predicate Valid(d: Date) {
    1 <= d.month <= 12 && 1 <= d.day <= DaysInMonth(d.year, d.month)
  }

  function DaysInYear(y: int): int {
    if IsLeapYear(y) then 366 else 365
  }

  /** Days from 0001-01-01 to the first of January of year `y`, counted year by year. */
  function DaysBeforeYear(y: int): int
    decreases if y >= 1 then y - 1 else 1 - y
  {
    if y == 1 then 0
    else if y > 1 then DaysBeforeYear(y - 1) + DaysInYear(y - 1)
    else DaysBeforeYear(y + 1) - DaysInYear(y)
  }

  /** The year-by-year count agrees with the usual closed form (365 days a
      year plus one for every leap year before `y`). */
  lemma {:induction false} DaysBeforeYearClosedForm(y: int)
    ensures DaysBeforeYear(y) == 365 * (y - 1) + (y - 1) / 4 - (y - 1) / 100 + (y - 1) / 400
    decreases if y >= 1 then y - 1 else 1 - y
  {
    if y > 1 {
      DaysBeforeYearClosedForm(y - 1);
      LeapYearCount(y - 1);
    } else if y < 1 {
      DaysBeforeYearClosedForm(y + 1);
      LeapYearCount(y);
    }
  }

  /** Year `x` adds one day to the closed form exactly when it is a leap year. */
  lemma LeapYearCount(x: int)
    ensures (x / 4 - (x - 1) / 4) - (x / 100 - (x - 1) / 100) + (x / 400 - (x - 1) / 400)
            == DaysInYear(x) - 365
  {
    DivStep(x, 4);
    DivStep(x, 100);
    DivStep(x, 400);
    DivisibilityChain(x);
  }

  lemma DivisibilityChain(x: int)
    ensures x % 400 == 0 ==> x % 100 == 0
    ensures x % 100 == 0 ==> x % 4 == 0
  {
    if x % 400 == 0 {
      assert x == 400 * (x / 400);
    }
    if x % 100 == 0 {
      assert x == 100 * (x / 100);
    }
  }

  /** Days from the first of January of year `y` to the first of month `m`. */
  function DaysBeforeMonth(y: int, m: int): int
    requires 1 <= m <= 12
  {
    (match m
     case 1 => 0 case 2 => 31 case 3 => 59 case 4 => 90
     case 5 => 120 case 6 => 151 case 7 => 181 case 8 => 212
     case 9 => 243 case 10 => 273 case 11 => 304 case _ => 334)
    + (if m > 2 && IsLeapYear(y) then 1 else 0)
  }

  /** The number of days from 0001-01-01 (day 0) to `d`; negative before it. */
  function DayNumber(d: Date): int
    requires Valid(d)
  {
    DaysBeforeYear(d.year) + DaysBeforeMonth(d.year, d.month) + d.day - 1
  }

  /** A year holds 366 days when it is a leap year and 365 otherwise. */
  lemma YearLength(y: int)
    ensures DaysBeforeYear(y + 1) - DaysBeforeYear(y) == if IsLeapYear(y) then 366 else 365
  {
  }

  /** Dividing by `k`, `x` and `x - 1` have the same quotient unless `k` divides `x`. */
  lemma DivStep(x: int, k: int)
    requires k == 4 || k == 100 || k == 400
    ensures x / k - (x - 1) / k == if x % k == 0 then 1 else 0
  {
  }

  /** Each month begins where the previous one ended. */
  lemma MonthLength(y: int, m: int)
    requires 1 <= m <= 12
    ensures m < 12 ==> DaysBeforeMonth(y, m + 1) == DaysBeforeMonth(y, m) + DaysInMonth(y, m)
    ensures m == 12 ==> DaysBeforeYear(y + 1) == DaysBeforeYear(y) + DaysBeforeMonth(y, m) + DaysInMonth(y, m)
  {
    YearLength(y);
  }

  // ------------------------------------------------------- moving by days

  /** The following day. */
  function Next(d: Date): (r: Date)
    requires Valid(d)
    ensures Valid(r) && DayNumber(r) == DayNumber(d) + 1
  {
    MonthLength(d.year, d.month);
    if d.day < DaysInMonth(d.year, d.month) then Date(d.year, d.month, d.day + 1)
    else if d.month < 12 then Date(d.year, d.month + 1, 1)
    else Date(d.year + 1, 1, 1)
  }

  /** The preceding day. */
  function Prev(d: Date): (r: Date)
    requires Valid(d)
    ensures Valid(r) && DayNumber(r) == DayNumber(d) - 1
  {
    if d.day > 1 then Date(d.year, d.month, d.day - 1)
    else if d.month > 1 then
      MonthLength(d.year, d.month - 1);
      Date(d.year, d.month - 1, DaysInMonth(d.year, d.month - 1))
    else
      MonthLength(d.year - 1, 12);
      Date(d.year - 1, 12, 31)
  }

  /** `k` days later. */
  function Forward(d: Date, k: nat): (r: Date)
    requires Valid(d)
    ensures Valid(r) && DayNumber(r) == DayNumber(d) + k
    decreases k
  {
    if k == 0 then d else Forward(Next(d), k - 1)
  }

  /** `k` days earlier. */
  function Back(d: Date, k: nat): (r: Date)
    requires Valid(d)
    ensures Valid(r) && DayNumber(r) == DayNumber(d) - k
    decreases k
  {
    if k == 0 then d else Back(Prev(d), k - 1)
  }

  // ------------------------------------------------ order and uniqueness

  /** Chronological order on dates, compared field by field. */
  predicate Before(a: Date, b: Date) {
    a.year < b.year
    || (a.year == b.year && a.month < b.month)
    || (a.year == b.year && a.month == b.month && a.day < b.day)
  }

  lemma DayNumberWithinYear(d: Date)
    requires Valid(d)
    ensures DaysBeforeYear(d.year) <= DayNumber(d) < DaysBeforeYear(d.year + 1)
  {
    YearLength(d.year);
  }

  lemma {:induction false} YearsAreOrdered(y1: int, y2: int)
    requires y1 < y2
    ensures DaysBeforeYear(y1 + 1) <= DaysBeforeYear(y2)
    decreases y2 - y1
  {
    if y1 + 1 < y2 {
      YearsAreOrdered(y1 + 1, y2);
      YearLength(y1 + 1);
    }
  }

  lemma MonthsAreOrdered(y: int, m1: int, m2: int)
    requires 1 <= m1 < m2 <= 12
    ensures DaysBeforeMonth(y, m1) + DaysInMonth(y, m1) <= DaysBeforeMonth(y, m2)
  {
  }

  /** The day number orders dates chronologically. */
  lemma DayNumberMonotone(a: Date, b: Date)
    requires Valid(a) && Valid(b)
    ensures Before(a, b) <==> DayNumber(a) < DayNumber(b)
  {
    if a.year < b.year {
      DayNumberWithinYear(a);
      DayNumberWithinYear(b);
      YearsAreOrdered(a.year, b.year);
    } else if b.year < a.year {
      DayNumberWithinYear(a);
      DayNumberWithinYear(b);
      YearsAreOrdered(b.year, a.year);
    } else if a.month < b.month {
      MonthsAreOrdered(a.year, a.month, b.month);
    } else if b.month < a.month {
      MonthsAreOrdered(a.year, b.month, a.month);
    }
  }

  /** Distinct dates have distinct day numbers. */
  lemma DayNumberInjective(a: Date, b: Date)
    requires Valid(a) && Valid(b) && DayNumber(a) == DayNumber(b)
    ensures a == b
  {
    DayNumberMonotone(a, b);
    DayNumberMonotone(b, a);
  }

  // --------------------------------------------------------------- weeks

  /** `getDay()`: 0 for Sunday through 6 for Saturday (0001-01-01 was a Monday). */
  function Weekday(d: Date): (r: int)
    requires Valid(d)
    ensures 0 <= r < 7
  {
    (DayNumber(d) + 1) % 7
  }

  /** Weekday 0 is a real Sunday: 2024-01-07 was a Sunday and 2024-01-01 a
      Monday, and a day is a Sunday exactly when it lies a whole number of
      weeks from 2024-01-07. */
  lemma SundayAnchor(d: Date)
    requires Valid(d)
    ensures Weekday(Date(2024, 1, 7)) == 0 && Weekday(Date(2024, 1, 1)) == 1
    ensures Weekday(d) == 0 <==> (DayNumber(d) - DayNumber(Date(2024, 1, 7))) % 7 == 0
  {
    AnchorDayNumbers();
    SundayIffWholeWeeks(DayNumber(d), DayNumber(Date(2024, 1, 7)));
  }

  lemma AnchorDayNumbers()
    ensures DayNumber(Date(2024, 1, 1)) == 7 * 105556 - 7
    ensures DayNumber(Date(2024, 1, 7)) == 7 * 105556 - 1
  {
    DaysBeforeYearClosedForm(2024);
  }

  /** Remainder 0 after one more day exactly when a whole number of weeks
      from a day that has it. */
  lemma SundayIffWholeWeeks(x: int, anchor: int)
    requires anchor == 7 * 105556 - 1
    ensures (x + 1) % 7 == 0 <==> (x - anchor) % 7 == 0
  {
    assert x - anchor == (x + 1) - 7 * 105556;
  }

  /** Weekdays advance by one, cyclically, from one day to the next. */
  lemma WeekdayNext(d: Date)
    requires Valid(d)
    ensures Weekday(Next(d)) == (Weekday(d) + 1) % 7
  {
    ModStep(DayNumber(d) + 1, 1);
  }

  /** Day `i` of the run falls on weekday `i % 7`: the run is laid out in
      rows of seven starting on a Sunday. */
  predicate WeekdaysFromSunday(days: seq<Date>) {
    forall i :: 0 <= i < |days| ==> Valid(days[i]) && Weekday(days[i]) == i % 7
  }

  /** The run starts on a Sunday and ends on a Saturday. */
  predicate SundayToSaturday(days: seq<Date>) {
    && |days| > 0
    && Valid(days[0]) && Weekday(days[0]) == 0
    && Valid(days[|days| - 1]) && Weekday(days[|days| - 1]) == 6
  }

  /** A run of whole weeks laid out from column 0 starts on a Sunday and
      ends on a Saturday. */
  lemma WeekRunEnds(days: seq<Date>)
    requires |days| >= 7 && |days| % 7 == 0
    requires WeekdaysFromSunday(days)
    ensures SundayToSaturday(days)
  {
    var n := |days|;
    LastOfWholeWeeks(n);
    assert Weekday(days[0]) == 0 % 7;
    assert Weekday(days[n - 1]) == (n - 1) % 7;
  }

  /** The last index of a run of whole weeks is in column 6. */
  lemma LastOfWholeWeeks(n: int)
    requires n >= 7 && n % 7 == 0
    ensures (n - 1) % 7 == 6
  {
    assert n - 1 == 7 * (n / 7 - 1) + 6;
  }

  /** `i` days after a Sunday falls on weekday `i % 7`. */
  lemma WeekdayAfterSunday(a: Date, b: Date, i: int)
    requires Valid(a) && Valid(b) && Weekday(a) == 0
    requires i >= 0 && DayNumber(b) == DayNumber(a) + i
    ensures Weekday(b) == i % 7
  {
    WholeWeeksThenDays(DayNumber(a) + 1, i);
  }

  /** Whole weeks and then `i` more days leave the remainder of `i`. */
  lemma WholeWeeksThenDays(n: int, i: int)
    requires n % 7 == 0
    ensures (n + i) % 7 == i % 7
  {
    assert n + i == 7 * (n / 7) + i;
  }

  /** Adding `k` to `x` adds `k` to its remainder modulo 7, cyclically. */
  lemma ModStep(x: int, k: int)
    ensures (x + k) % 7 == (x % 7 + k) % 7
  {
  }

  /** `startOfWeek(d, { weekStartsOn: 0 })`: the Sunday on or before `d`. */
  function StartOfWeek(d: Date): (r: Date)
    requires Valid(d)
    ensures Valid(r) && Weekday(r) == 0
    ensures DayNumber(r) <= DayNumber(d) < DayNumber(r) + 7
  {
    var n := DayNumber(d) + 1;
    var r := Back(d, n % 7);
    RoundDown(n);
    assert DayNumber(r) + 1 == n - n % 7;
    r
  }

  /** `endOfWeek(d, { weekStartsOn: 0 })`: the Saturday on or after `d`. */
  function EndOfWeek(d: Date): (r: Date)
    requires Valid(d)
    ensures Valid(r) && Weekday(r) == 6
    ensures DayNumber(r) - 7 < DayNumber(d) <= DayNumber(r)
  {
    var k := 6 - (DayNumber(d) + 1) % 7;
    var r := Forward(d, k);
    ReachesSaturday(d, k, r);
    r
  }

  /** Going forward by six minus the weekday reaches a Saturday, fewer than
      seven days ahead. */
  lemma ReachesSaturday(d: Date, k: int, r: Date)
    requires Valid(d) && Valid(r)
    requires k == 6 - (DayNumber(d) + 1) % 7 && DayNumber(r) == DayNumber(d) + k
    ensures Weekday(r) == 6 && DayNumber(r) - 7 < DayNumber(d) <= DayNumber(r)
  {
    RoundUp(DayNumber(d) + 1, k);
  }

  /** Going back by the remainder reaches a multiple of 7. */
  lemma RoundDown(n: int)
    ensures 0 <= n % 7 < 7 && (n - n % 7) % 7 == 0
  {
    assert n - n % 7 == 7 * (n / 7);
  }

  /** Going forward by six minus the remainder reaches remainder 6. */
  lemma RoundUp(n: int, k: int)
    requires k == 6 - n % 7
    ensures 0 <= k < 7 && (n + k) % 7 == 6
  {
    assert n + (6 - n % 7) == 7 * (n / 7) + 6;
  }

  /** From the Sunday on or before the first day of a month to the Saturday
      on or after its last day is a whole number of weeks, four to six. */
  lemma WholeWeeks(a: Date, first: Date, last: Date, b: Date, span: int)
    requires Valid(a) && Valid(b) && Weekday(a) == 0 && Weekday(b) == 6
    requires Valid(first) && Valid(last)
    requires DayNumber(a) <= DayNumber(first) < DayNumber(a) + 7
    requires DayNumber(last) <= DayNumber(b) < DayNumber(last) + 7
    requires 28 <= DayNumber(last) - DayNumber(first) + 1 <= 31
    requires span == DayNumber(b) - DayNumber(a) + 1
    ensures span % 7 == 0 && 28 <= span <= 42
  {
    var x, y := DayNumber(a) + 1, DayNumber(b) + 1;
    assert x % 7 == 0 && y % 7 == 6;
    SpanOfWeeks(x, y, DayNumber(first) + 1, DayNumber(last) + 1);
  }

  lemma SpanOfWeeks(x: int, y: int, f: int, l: int)
    requires x % 7 == 0 && y % 7 == 6
    requires x <= f < x + 7 && l <= y < l + 7 && 28 <= l - f + 1 <= 31
    ensures (y - x + 1) % 7 == 0 && 28 <= y - x + 1 <= 42
  {
    var q := y / 7 - x / 7 + 1;
    assert y - x + 1 == 7 * q;
  }

  /** `n` consecutive days from `start`: `eachDayOfInterval` once the length is known. */
  function DaysFrom(start: Date, n: nat): (r: seq<Date>)
    requires Valid(start)
    ensures |r| == n
    ensures forall i :: 0 <= i < n ==> Valid(r[i]) && DayNumber(r[i]) == DayNumber(start) + i
    decreases n
  {
    if n == 0 then [] else [start] + DaysFrom(Next(start), n - 1)
  }

  /** `eachDayOfInterval({ start, end })`: every day from `start` to `end`, inclusive. */
  function EachDayOfInterval(start: Date, end: Date): (r: seq<Date>)
    requires Valid(start) && Valid(end)
    ensures |r| == if DayNumber(end) < DayNumber(start) then 0 else DayNumber(end) - DayNumber(start) + 1
    ensures forall i :: 0 <= i < |r| ==> Valid(r[i]) && DayNumber(r[i]) == DayNumber(start) + i
  {
    if DayNumber(end) < DayNumber(start) then []
    else DaysFrom(start, DayNumber(end) - DayNumber(start) + 1)
  }

  /** The days just before the first of a month are the last days of the previous month. */
  lemma {:induction false} BackFromFirst(y: int, m: int, j: nat)
    requires 1 <= m <= 12 && 1 <= j <= 28
    ensures var (py, pm) := if m == 1 then (y - 1, 12) else (y, m - 1);
            Back(Date(y, m, 1), j) == Date(py, pm, DaysInMonth(py, pm) - j + 1)
  {
    if j > 1 {
      BackFromFirst(y, m, j - 1);
      BackSplit(Date(y, m, 1), j - 1);
    }
  }

  /** The days just after the last of a month are the first days of the next month. */
  lemma {:induction false} ForwardFromLast(y: int, m: int, j: nat)
    requires 1 <= m <= 12 && 1 <= j <= 28
    ensures var (ny, nm) := if m == 12 then (y + 1, 1) else (y, m + 1);
            Forward(Date(y, m, DaysInMonth(y, m)), j) == Date(ny, nm, j)
  {
    if j > 1 {
      ForwardFromLast(y, m, j - 1);
      ForwardSplit(Date(y, m, DaysInMonth(y, m)), j - 1);
    }
  }

  lemma {:induction false} BackSplit(d: Date, k: nat)
    requires Valid(d)
    ensures Back(d, k + 1) == Prev(Back(d, k))
    decreases k
  {
    if k > 0 {
      BackSplit(Prev(d), k - 1);
    }
  }

  lemma {:induction false} ForwardSplit(d: Date, k: nat)
    requires Valid(d)
    ensures Forward(d, k + 1) == Next(Forward(d, k))
    decreases k
  {
    if k > 0 {
      ForwardSplit(Next(d), k - 1);
    }
  }
}
