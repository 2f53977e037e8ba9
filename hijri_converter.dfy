/** `gregorianToHijri` of src/utils/hijriConverter.ts: a Gregorian date is
    turned into a Julian Day Number by the Fliegel–Van Flandern formula and
    that number into a date of the tabular ("Kuwaiti") Islamic calendar, which
    is rendered as "<day> <month name> <year>". Every division in the source is
    `Math.floor` by a positive constant, which is what Dafny's `/` computes. */
module HijriConverter {
  import Gregorian
  import Text

  /** What the function reads from its `Date` argument: the local calendar
      fields (`getFullYear`, `getMonth`, which is 0-based, and `getDate`) and,
      to show that they play no part, the time of day. */
  datatype LocalDateTime = LocalDateTime(
    fullYear: int, monthIndex: int, date: int,
    hours: int, minutes: int, seconds: int, milliseconds: int)

  /** Every `Date` has a real calendar day. */
  predicate IsCalendarDay(t: LocalDateTime) {
    Gregorian.Valid(Gregorian.Date(t.fullYear, t.monthIndex + 1, t.date))
  }

  /** A date of the tabular Islamic calendar. */
  datatype HijriDate = HijriDate(year: int, month: int, day: int)

  // ---------------------------------------------- Gregorian -> Julian Day

  /** `Math.floor((gMonth - 14) / 12)`: the floor, not the truncation the
      published formula assumes, so January gives -2 and every other month -1. */
  function MonthShift(gMonth: int): (r: int)
    requires 1 <= gMonth <= 12
    ensures r == if gMonth == 1 then -2 else -1
  {
    (gMonth - 14) / 12
  }

  /** The day number `jd` exactly as the source computes it. */
  function JulianDayAsWritten(gYear: int, gMonth: int, gDay: int): int
    requires 1 <= gMonth <= 12
  {
    var a := MonthShift(gMonth);
    1461 * (gYear + 4800 + a) / 4 + 367 * (gMonth - 2 - 12 * a) / 12
      - 3 * ((gYear + 4900 + a) / 100) / 4 + gDay - 32075
  }

  /** The same formula with the shift the published algorithm intends
      (-1 for January and February, 0 otherwise): the Julian Day Number. */
  function JulianDay(gYear: int, gMonth: int, gDay: int): int
    requires 1 <= gMonth <= 12
  {
    var a := if gMonth <= 2 then -1 else 0;
    1461 * (gYear + 4800 + a) / 4 + 367 * (gMonth - 2 - 12 * a) / 12
      - 3 * ((gYear + 4900 + a) / 100) / 4 + gDay - 32075
  }

  /** Within a month, the next day has the next day number: `gDay` enters
      the formula only as a final addend. */
  lemma JulianDayAsWrittenWithinMonth(gYear: int, gMonth: int, gDay: int)
    requires 1 <= gMonth <= 12
    ensures JulianDayAsWritten(gYear, gMonth, gDay + 1) == JulianDayAsWritten(gYear, gMonth, gDay) + 1
  {
  }

  /** `floor(3 * floor((z + 4900) / 100) / 4)`, the century correction of the
      formula, is the Gregorian count of skipped leap days. */
  lemma CenturyTerm(z: int)
    ensures 3 * ((z + 4900) / 100) / 4 == 36 + z / 100 - z / 400
  {
    var c := z / 100;
    assert (z + 4900) / 100 == c + 49;
    assert z == 400 * (z / 400) + z % 400;
    assert c / 4 == z / 400;
  }

  /** The corrected formula counts days exactly: it is the proleptic Gregorian
      day number shifted so that 0001-01-01 is Julian Day 1721426. */
  lemma JulianDayCountsDays(d: Gregorian.Date)
    requires Gregorian.Valid(d)
    ensures JulianDay(d.year, d.month, d.day) == Gregorian.DayNumber(d) + 1721426
  {
    var y, m := d.year, d.month;
    Gregorian.DaysBeforeYearClosedForm(y);
    MonthTerm(y, m);
    if m <= 2 {
      YearTermEarly(y);
    } else {
      YearTermLate(y);
    }
  }

  /** The month term `floor(367 * (gMonth - 2 - 12 * a) / 12)` is the number
      of days before the month (leap day left out), plus a constant. */
  lemma MonthTerm(y: int, m: int)
    requires 1 <= m <= 12
    ensures var a := if m <= 2 then -1 else 0;
            367 * (m - 2 - 12 * a) / 12
            == Gregorian.DaysBeforeMonth(y, m) - (if m > 2 && Gregorian.IsLeapYear(y) then 1 else 0)
               + (if m <= 2 then 336 else -29)
  {
  }

  /** The year and century terms for January and February count the days
      before the year. */
  lemma YearTermEarly(y: int)
    ensures 1461 * (y + 4799) / 4 - 3 * ((y + 4899) / 100) / 4
            == 365 * (y - 1) + (y - 1) / 4 - (y - 1) / 100 + (y - 1) / 400 + 1753164
  {
    CenturyTerm(y - 1);
    assert 1461 * (y + 4799) / 4 == 365 * (y + 4799) + (y - 1) / 4 + 1200;
  }

  /** The same for March to December, where the year's own leap day has passed. */
  lemma YearTermLate(y: int)
    ensures 1461 * (y + 4800) / 4 - 3 * ((y + 4900) / 100) / 4
            == 365 * (y - 1) + (y - 1) / 4 - (y - 1) / 100 + (y - 1) / 400 + 1753164 + 365
               + (if Gregorian.IsLeapYear(y) then 1 else 0)
  {
    CenturyTerm(y);
    Gregorian.LeapYearCount(y);
    assert 1461 * (y + 4800) / 4 == 365 * (y + 4800) + y / 4 + 1200;
  }

  /** The corrected day number moves forward by one from every day to the
      next, across month and year ends too. */
  lemma JulianDayNext(d: Gregorian.Date)
    requires Gregorian.Valid(d)
    ensures var n := Gregorian.Next(d);
            JulianDay(n.year, n.month, n.day) == JulianDay(d.year, d.month, d.day) + 1
  {
    JulianDayCountsDays(d);
    JulianDayCountsDays(Gregorian.Next(d));
  }

  /** How far the source's day number is from the Julian Day Number: exact
      in February, one or two days ahead in every other month. */
  lemma JulianDayAsWrittenOffset(d: Gregorian.Date)
    requires Gregorian.Valid(d)
    ensures JulianDayAsWritten(d.year, d.month, d.day) - JulianDay(d.year, d.month, d.day)
            == if d.month == 2 then 0
               else if d.month == 1 then (if Gregorian.IsLeapYear(d.year - 1) then 1 else 2)
               else (if Gregorian.IsLeapYear(d.year) then 1 else 2)
  {
    if d.month == 1 {
      OffsetInJanuary(d.year, d.day);
    } else if d.month > 2 {
      OffsetAfterFebruary(d.year, d.month, d.day);
    }
  }

  lemma OffsetInJanuary(y: int, day: int)
    ensures JulianDayAsWritten(y, 1, day) - JulianDay(y, 1, day)
            == if Gregorian.IsLeapYear(y - 1) then 1 else 2
  {
    JanuaryTerms(y, day);
    Gregorian.LeapYearCount(y - 1);
  }

  /** January's offset in terms of the leap days counted up to the year
      before. */
  lemma JanuaryTerms(y: int, day: int)
    ensures JulianDayAsWritten(y, 1, day) - JulianDay(y, 1, day)
            == 2 - (((y - 1) / 4 - (y - 2) / 4) - ((y - 1) / 100 - (y - 2) / 100) + ((y - 1) / 400 - (y - 2) / 400))
  {
    CenturyTerm(y - 2);
    CenturyTerm(y - 1);
    assert MonthShift(1) == -2;
    assert 1461 * (y + 4798) / 4 == 365 * (y + 4798) + (y - 2) / 4 + 1200;
    assert 1461 * (y + 4799) / 4 == 365 * (y + 4799) + (y - 1) / 4 + 1200;
  }

  lemma OffsetAfterFebruary(y: int, m: int, day: int)
    requires 3 <= m <= 12
    ensures JulianDayAsWritten(y, m, day) - JulianDay(y, m, day)
            == if Gregorian.IsLeapYear(y) then 1 else 2
  {
    LateTerms(y, m, day);
    Gregorian.LeapYearCount(y);
  }

  /** The offset from March on, in terms of the leap days counted up to the
      year itself. */
  lemma LateTerms(y: int, m: int, day: int)
    requires 3 <= m <= 12
    ensures JulianDayAsWritten(y, m, day) - JulianDay(y, m, day)
            == 2 - ((y / 4 - (y - 1) / 4) - (y / 100 - (y - 1) / 100) + (y / 400 - (y - 1) / 400))
  {
    CenturyTerm(y - 1);
    CenturyTerm(y);
    assert 1461 * (y + 4799) / 4 == 365 * (y + 4799) + (y + 4799) / 4;
    assert 1461 * (y + 4800) / 4 == 365 * (y + 4800) + (y + 4800) / 4;
    assert 367 * (m + 10) / 12 == 367 * (m - 2) / 12 + 367;
  }


  /** As written, the last day of January never gets a smaller day number
      than the first of February that follows it: the two share a Hijri date
      or come out in reverse order. */
  lemma JulianDayAsWrittenNotMonotone(y: int)
    ensures JulianDayAsWritten(y, 1, 31) >= JulianDayAsWritten(y, 2, 1)
  {
    JulianDayAsWrittenOffset(Gregorian.Date(y, 1, 31));
    JulianDayAsWrittenOffset(Gregorian.Date(y, 2, 1));
    JulianDayNext(Gregorian.Date(y, 1, 31));
  }

  /** The concrete case: 2024-01-31 gets 2460343, the day after it 2460342. */
  lemma JulianDayAsWrittenExample()
    ensures JulianDayAsWritten(2024, 1, 31) == 2460343
    ensures JulianDayAsWritten(2024, 2, 1) == 2460342
    ensures JulianDay(2024, 1, 31) == 2460341
  {
    assert MonthShift(1) == -2 && MonthShift(2) == -1;
    assert 1461 * 6822 / 4 == 2491735 && 1461 * 6823 / 4 == 2492100;
    assert 367 * 23 / 12 == 703 && 367 * 12 / 12 == 367 && 367 * 11 / 12 == 336;
    assert 3 * (6922 / 100) / 4 == 51 && 3 * (6923 / 100) / 4 == 51;
  }

  // ------------------------------------------------ Julian Day -> Hijri

  /** `n`: the number of whole 30-year cycles of 10631 days before the date
      (counted from the epoch one cycle back, as the source does). */
  function Cycles(jd: int): (n: int)
    ensures var l := jd - 1948440 + 10632;
            10631 * n <= l - 1 < 10631 * (n + 1)
  {
    (jd - 1948440 + 10632 - 1) / 10631
  }

  /** `l2`: the day within the cycle, shifted by 354. */
  function DayOfCycle(jd: int): (l2: int)
    ensures 355 <= l2 <= 10985
  {
    var l := jd - 1948440 + 10632;
    l - 10631 * Cycles(jd) + 354
  }

  /** `j`: the year within the 30-year cycle. */
  function YearOfCycle(l2: int): (j: int)
    requires 355 <= l2 <= 10985
    ensures 1 <= j <= 30
    ensures j <= 15 <==> l2 < 5670
  {
    (10985 - l2) / 5316 * (50 * l2 / 17719) + l2 / 5670 * (43 * l2 / 15238)
  }

  /** `l3`: the day within the year, shifted by 29. */
  function DayOfYear(l2: int, j: int): (l3: int)
    requires 355 <= l2 <= 10985 && j == YearOfCycle(l2)
    ensures 30 <= l3 <= 384
  {
    if j <= 15 then
      assert (30 - j) / 15 == 1 && j / 16 == 0;
      DayOfYearEarly(l2, j);
      l2 - (30 - j) / 15 * (17719 * j / 50) - j / 16 * (15238 * j / 43) + 29
    else
      assert (30 - j) / 15 == 0 && j / 16 == 1;
      DayOfYearLate(l2, j);
      l2 - (30 - j) / 15 * (17719 * j / 50) - j / 16 * (15238 * j / 43) + 29
  }

  /** In the first half of the cycle `j = floor(50 * l2 / 17719)`, and since
      17719 and 50 are coprime the remainder `l2 - floor(17719 * j / 50)`
      lies in 1..355. */
  lemma DayOfYearEarly(l2: int, j: int)
    requires 355 <= l2 < 5670 && j == 50 * l2 / 17719
    ensures 1 <= l2 - 17719 * j / 50 <= 355
  {
    assert 17719 * j <= 50 * l2 < 17719 * (j + 1);
    assert 1 <= j <= 15;
  }

  /** In the second half `j = floor(43 * l2 / 15238)`; 15238 and 43 are coprime. */
  lemma DayOfYearLate(l2: int, j: int)
    requires 5670 <= l2 <= 10985 && j == 43 * l2 / 15238
    ensures 1 <= l2 - 15238 * j / 43 <= 355
  {
    assert 15238 * j <= 43 * l2 < 15238 * (j + 1);
    assert 16 <= j <= 30;
  }

  /** The tabular Islamic date of a day number: `hMonth`, `hDay`, `hYear`. */
  function HijriFromJulianDay(jd: int): (h: HijriDate)
    ensures 1 <= h.month <= 12
    ensures 1 <= h.day <= 30
    ensures 30 * (Cycles(jd) - 1) + 1 <= h.year <= 30 * Cycles(jd)
    ensures h.year == 30 * Cycles(jd) + YearOfCycle(DayOfCycle(jd)) - 30
  {
    var n := Cycles(jd);
    var l2 := DayOfCycle(jd);
    var j := YearOfCycle(l2);
    var l3 := DayOfYear(l2, j);
    var hMonth := 24 * l3 / 709;
    MonthOfYear(l3, hMonth);
    var hDay := l3 - 709 * hMonth / 24;
    HijriDate(30 * n + j - 30, hMonth, hDay)
  }

  /** `hMonth = floor(24 * l3 / 709)` lies in 1..12 and, 709 and 24 being
      coprime, `l3 - floor(709 * hMonth / 24)` lies in 1..30. */
  lemma MonthOfYear(l3: int, hMonth: int)
    requires 30 <= l3 <= 384 && hMonth == 24 * l3 / 709
    ensures 1 <= hMonth <= 12
    ensures 1 <= l3 - 709 * hMonth / 24 <= 30
  {
    assert 709 * hMonth <= 24 * l3 < 709 * (hMonth + 1);
  }

  // ------------------------------------------------------------- output

  /** `hijriMonths`, the names this file uses. */
  const HijriMonths: seq<string> := ["Muharram", "Safar", "Rabi I", "Rabi II", "Jumada I",
    "Jumada II", "Rajab", "Sha'ban", "Ramadan", "Shawwal", "Dhu al-Qi'dah", "Dhu al-Hijjah"]

  /** `${hDay} ${hijriMonths[hMonth - 1]} ${hYear}`. */
  function Format(h: HijriDate): (s: string)
    requires 1 <= h.month <= 12
  {
    Text.IntToString(h.day) + " " + HijriMonths[h.month - 1] + " " + Text.IntToString(h.year)
  }

  /** `gregorianToHijri(date)` as written. */
  function GregorianToHijri(t: LocalDateTime): (s: string)
    requires IsCalendarDay(t)
    ensures var h := HijriFromJulianDay(JulianDayAsWritten(t.fullYear, t.monthIndex + 1, t.date));
            FirstWord(s) == Text.IntToString(h.day) && LastWord(s) == Text.IntToString(h.year)
  {
    var h := HijriFromJulianDay(JulianDayAsWritten(t.fullYear, t.monthIndex + 1, t.date));
    FormatWords(h);
    Format(h)
  }

  /** The conversion with the intended Julian Day Number: the Hijri date is
      taken from the date's count of days, so consecutive days are read off
      consecutive days of the tabular calendar. */
  function GregorianToHijriCorrected(t: LocalDateTime): (s: string)
    requires IsCalendarDay(t)
    ensures var d := Gregorian.Date(t.fullYear, t.monthIndex + 1, t.date);
            s == Format(HijriFromJulianDay(Gregorian.DayNumber(d) + 1721426))
  {
    JulianDayCountsDays(Gregorian.Date(t.fullYear, t.monthIndex + 1, t.date));
    Format(HijriFromJulianDay(JulianDay(t.fullYear, t.monthIndex + 1, t.date)))
  }

  /** Only the calendar fields of the `Date` are read: the time of day does
      not change the result. */
  lemma OnlyCalendarFieldsMatter(t: LocalDateTime, u: LocalDateTime)
    requires IsCalendarDay(t)
    requires t.fullYear == u.fullYear && t.monthIndex == u.monthIndex && t.date == u.date
    ensures IsCalendarDay(u) && GregorianToHijri(t) == GregorianToHijri(u)
  {
    var h := HijriFromJulianDay(JulianDayAsWritten(t.fullYear, t.monthIndex + 1, t.date));
    assert GregorianToHijri(t) == Format(h);
    assert GregorianToHijri(u) == Format(h);
  }

  /** The text up to the first space. */
  function FirstWord(s: string): (w: string)
    ensures |w| <= |s| && w == s[..|w|] && ' ' !in w
    ensures |w| < |s| ==> s[|w|] == ' '
  {
    if s == [] || s[0] == ' ' then [] else [s[0]] + FirstWord(s[1..])
  }

  /** The text after the last space. */
  function LastWord(s: string): (w: string)
    ensures |w| <= |s| && w == s[|s| - |w|..] && ' ' !in w
    ensures |w| < |s| ==> s[|s| - |w| - 1] == ' '
  {
    if s == [] || s[|s| - 1] == ' ' then [] else LastWord(s[..|s| - 1]) + [s[|s| - 1]]
  }

  /** The rendered text starts with the day and ends with the year, each
      delimited by a space, so both can be read back. */
  lemma FormatWords(h: HijriDate)
    requires 1 <= h.month <= 12
    ensures FirstWord(Format(h)) == Text.IntToString(h.day)
    ensures LastWord(Format(h)) == Text.IntToString(h.year)
  {
    var d, y := Text.IntToString(h.day), Text.IntToString(h.year);
    var name := HijriMonths[h.month - 1];
    Text.IntToStringHasNoSpace(h.day);
    Text.IntToStringHasNoSpace(h.year);
    assert Format(h) == d + " " + (name + " " + y);
    FirstWordOf(d, name + " " + y);
    assert Format(h) == (d + " " + name) + " " + y;
    LastWordOf(d + " " + name, y);
  }

  /** A word followed by a space is the first word. */
  lemma FirstWordOf(a: string, rest: string)
    requires ' ' !in a
    ensures FirstWord(a + " " + rest) == a
  {
    var s := a + " " + rest;
    assert s[..|a|] == a && s[|a|] == ' ';
    WordBoundary(a, s);
  }

  /** A word preceded by a space is the last word. */
  lemma LastWordOf(rest: string, b: string)
    requires ' ' !in b
    ensures LastWord(rest + " " + b) == b
  {
    var s := rest + " " + b;
    assert s[|s| - |b|..] == b && s[|s| - |b| - 1] == ' ';
    WordBoundaryEnd(s, b);
  }

  lemma {:induction false} WordBoundary(a: string, s: string)
    requires ' ' !in a && |a| < |s| && s[..|a|] == a && s[|a|] == ' '
    ensures FirstWord(s) == a
  {
    if a != [] {
      assert s[1..][..|a| - 1] == a[1..];
      WordBoundary(a[1..], s[1..]);
    }
  }

  lemma {:induction false} WordBoundaryEnd(s: string, b: string)
    requires ' ' !in b && |b| < |s| && s[|s| - |b|..] == b && s[|s| - |b| - 1] == ' '
    ensures LastWord(s) == b
  {
    if b != [] {
      var t := s[..|s| - 1];
      assert t[|t| - (|b| - 1)..] == b[..|b| - 1];
      WordBoundaryEnd(t, b[..|b| - 1]);
    }
  }
}
