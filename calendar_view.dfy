/** The `Calendar` component of src/components/Calendar.tsx: a header row of
    weekday names, then one `DateCell` per grid day holding the scheduled
    blocks dated that day.

    A cell's `dateString` (`toISOString().split('T')[0]`) is modelled by the
    day number of its date, which is also how blocks are dated. */
module CalendarView {
  import Gregorian
  import HijriCalendar
  import Storage
  import Seqs

  /** The header of the grid. */
  const WeekDays: seq<string> := ["Sun", "Mon", "Tue", "Wed", "Thu", "Fri", "Sat"]

  /** The properties one `DateCell` receives. */
  datatype DateCellProps = DateCellProps(
    date: Gregorian.Date, dateString: int, sessions: seq<Storage.ScheduledBlock>, isCurrentMonth: bool)

  /** Every `Date` is a real calendar day. */
  predicate ValidDays(days: seq<HijriCalendar.CalendarDay>) {
    forall i :: 0 <= i < |days| ==> Gregorian.Valid(days[i].gregorianDate)
  }

  /** `schedule.filter(s => s.date === dateString)`. */
  function SessionsOn(schedule: seq<Storage.ScheduledBlock>, dateString: int): seq<Storage.ScheduledBlock> {
    Seqs.Filter(schedule, (s: Storage.ScheduledBlock) => s.date == dateString)
  }

  /** The cell built for one day. */
  function CellFor(day: HijriCalendar.CalendarDay, schedule: seq<Storage.ScheduledBlock>): DateCellProps
    requires Gregorian.Valid(day.gregorianDate)
  {
    var key := Gregorian.DayNumber(day.gregorianDate);
    DateCellProps(day.gregorianDate, key, SessionsOn(schedule, key), day.isCurrentMonth)
  }

  /** `days.map(day => <DateCell …/>)`: one cell per day, in the same order,
      each with its own date and `isCurrentMonth` flag. */
  function Cells(days: seq<HijriCalendar.CalendarDay>, schedule: seq<Storage.ScheduledBlock>): (cells: seq<DateCellProps>)
    requires ValidDays(days)
    ensures |cells| == |days|
    ensures forall i :: 0 <= i < |days| ==>
              && cells[i].date == days[i].gregorianDate
              && cells[i].isCurrentMonth == days[i].isCurrentMonth
              && cells[i].dateString == Gregorian.DayNumber(days[i].gregorianDate)
  {
    seq(|days|, i requires 0 <= i < |days| => CellFor(days[i], schedule))
  }

  /** A cell holds exactly the blocks dated on its day, each as often as it
      is stored. */
  lemma CellSessionsExact(days: seq<HijriCalendar.CalendarDay>, schedule: seq<Storage.ScheduledBlock>,
                          i: int, s: Storage.ScheduledBlock)
    requires ValidDays(days) && 0 <= i < |days|
    ensures var cell := Cells(days, schedule)[i];
            && (s in cell.sessions <==> s in schedule && s.date == cell.dateString)
            && (s.date == cell.dateString ==> multiset(cell.sessions)[s] == multiset(schedule)[s])
  {
    var key := Gregorian.DayNumber(days[i].gregorianDate);
    var p := (x: Storage.ScheduledBlock) => x.date == key;
    Seqs.FilterIn(schedule, p, s);
    Seqs.FilterCount(schedule, p, s);
  }

  /** Within a cell the blocks keep their stored order: the blocks of an
      earlier part of the schedule come first. */
  lemma CellSessionsInOrder(days: seq<HijriCalendar.CalendarDay>, earlier: seq<Storage.ScheduledBlock>,
                            later: seq<Storage.ScheduledBlock>, i: int)
    requires ValidDays(days) && 0 <= i < |days|
    ensures Cells(days, earlier + later)[i].sessions
            == Cells(days, earlier)[i].sessions + Cells(days, later)[i].sessions
  {
    var key := Gregorian.DayNumber(days[i].gregorianDate);
    Seqs.FilterAppend(earlier, later, (x: Storage.ScheduledBlock) => x.date == key);
  }

  /** A block dated on no day of the grid is shown nowhere. */
  lemma UnmatchedNotRendered(days: seq<HijriCalendar.CalendarDay>, schedule: seq<Storage.ScheduledBlock>,
                             s: Storage.ScheduledBlock)
    requires ValidDays(days)
    requires forall i :: 0 <= i < |days| ==> Gregorian.DayNumber(days[i].gregorianDate) != s.date
    ensures forall i :: 0 <= i < |days| ==> s !in Cells(days, schedule)[i].sessions
  {
    forall i | 0 <= i < |days| ensures s !in Cells(days, schedule)[i].sessions {
      CellSessionsExact(days, schedule, i, s);
    }
  }

  // ------------------------------------------------- on the month grid

  /** The days of a month grid are real days. */
  lemma GridDaysValid(lib: HijriCalendar.HijriLibrary, year: int, month: int)
    ensures ValidDays(HijriCalendar.GetMonthCalendar(lib, year, month))
  {
  }

  /** On the month grid a block appears in at most one cell, since the grid's
      days are all different. */
  lemma AtMostOneCell(lib: HijriCalendar.HijriLibrary, year: int, month: int,
                      schedule: seq<Storage.ScheduledBlock>, s: Storage.ScheduledBlock, i: int, j: int)
    requires var days := HijriCalendar.GetMonthCalendar(lib, year, month);
             0 <= i < |days| && 0 <= j < |days| && ValidDays(days)
    requires var cells := Cells(HijriCalendar.GetMonthCalendar(lib, year, month), schedule);
             s in cells[i].sessions && s in cells[j].sessions
    ensures i == j
  {
    var days := HijriCalendar.GetMonthCalendar(lib, year, month);
    CellSessionsExact(days, schedule, i, s);
    CellSessionsExact(days, schedule, j, s);
  }

  /** The header names line up with the grid: the cell in column `i % 7`
      falls on weekday `i % 7`, so the header above it, `WeekDays[i % 7]`,
      names its weekday (weekday 0 being a real Sunday, by
      `Gregorian.SundayAnchor`). */
  lemma ColumnsMatchHeader(lib: HijriCalendar.HijriLibrary, year: int, month: int, i: int)
    requires 0 <= i < |HijriCalendar.GetMonthCalendar(lib, year, month)|
    ensures var d := HijriCalendar.GetMonthCalendar(lib, year, month)[i].gregorianDate;
            Gregorian.Valid(d) && Gregorian.Weekday(d) == i % 7 && WeekDays[Gregorian.Weekday(d)] == WeekDays[i % 7]
  {
    var (y, m) := HijriCalendar.BaseMonth(year, month);
    HijriCalendar.GridColumns(y, m, i);
  }
}
