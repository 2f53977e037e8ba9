/** The `Schedule` page of src/pages/Schedule.tsx: a month cursor that the
    arrows move, the month grid built for it, and the drop handler that
    schedules a book dragged from the sidebar onto a day.

    The page keeps its own copies of the stored books and schedule; the
    store is the `Storage.Store` it reads them from and writes through. */
module SchedulePage {
  import opened Wrappers
  import Gregorian
  import HijriCalendar
  import Storage

  /** `currentHijriMonth`. */
  datatype MonthCursor = MonthCursor(year: int, month: int)

  /** The months counted from month 1 of year 0: consecutive months have
      consecutive indices. */
  function MonthIndex(c: MonthCursor): int {
    12 * c.year + c.month - 1
  }

  predicate InRange(c: MonthCursor) {
    1 <= c.month <= 12
  }

  /** `handleNextMonth`'s update: the following month, rolling over into the
      next year after month 12. */
  function NextMonth(c: MonthCursor): (r: MonthCursor)
    ensures MonthIndex(r) == MonthIndex(c) + 1
    ensures InRange(c) ==> InRange(r)
  {
    if c.month == 12 then MonthCursor(c.year + 1, 1) else MonthCursor(c.year, c.month + 1)
  }

  /** `handlePrevMonth`'s update: the preceding month, rolling back into the
      previous year before month 1. */
  function PrevMonth(c: MonthCursor): (r: MonthCursor)
    ensures MonthIndex(r) == MonthIndex(c) - 1
    ensures InRange(c) ==> InRange(r)
  {
    if c.month == 1 then MonthCursor(c.year - 1, 12) else MonthCursor(c.year, c.month - 1)
  }

  /** A cursor in range is determined by its index. */
  lemma MonthIndexInjective(a: MonthCursor, b: MonthCursor)
    requires InRange(a) && InRange(b) && MonthIndex(a) == MonthIndex(b)
    ensures a == b
  {
  }

  /** The two arrows undo each other. */
  lemma PrevUndoesNext(c: MonthCursor)
    requires InRange(c)
    ensures PrevMonth(NextMonth(c)) == c && NextMonth(PrevMonth(c)) == c
  {
    MonthIndexInjective(PrevMonth(NextMonth(c)), c);
    MonthIndexInjective(NextMonth(PrevMonth(c)), c);
  }

  /** Twelve presses per year forward reach the same month that many
      years later. */
  lemma StepsByYears(c: MonthCursor, years: nat)
    requires InRange(c)
    ensures Steps(c, 12 * years) == MonthCursor(c.year + years, c.month)
  {
    var n := 12 * years;
    StepsIndex(c, n);
    MonthIndexInjective(Steps(c, n), MonthCursor(c.year + years, c.month));
  }

  /** `n` presses of the next-month arrow. */
  function Steps(c: MonthCursor, n: nat): MonthCursor
    decreases n
  {
    if n == 0 then c else NextMonth(Steps(c, n - 1))
  }

  lemma {:induction false} StepsIndex(c: MonthCursor, n: nat)
    ensures MonthIndex(Steps(c, n)) == MonthIndex(c) + n
    ensures InRange(c) ==> InRange(Steps(c, n))
    decreases n
  {
    if n > 0 {
      StepsIndex(c, n - 1);
    }
  }

  // ------------------------------------------------------- drag and drop

  /** What is being dragged: a book card from the sidebar (its data is
      `{ book }`) or a study block already on the calendar (`{ session }`). */
  datatype DragSource = BookCard(book: Storage.Book) | SessionCard(session: Storage.ScheduledBlock)

  /** The day cell the item is dropped on; its data is `{ date: dateString }`. */
  datatype DropTarget = DropTarget(date: Option<int>)

  datatype DragEndEvent = DragEndEvent(active: DragSource, over: Option<DropTarget>)

  /** The book and start day `handleDragEnd` schedules, if any: there must be
      a cell to drop on, the dragged item must carry a book and the
      cell a date. */
  function DropDecision(e: DragEndEvent): (r: Option<(Storage.Book, int)>)
    ensures r.Some? <==> e.over.Some? && e.active.BookCard? && e.over.value.date.Some?
    ensures r.Some? ==> r.value.0 == e.active.book && Some(r.value.1) == e.over.value.date
  {
    match e.over
    case None => None
    case Some(target) =>
      match (e.active, target.date)
      case (BookCard(book), Some(date)) => Some((book, date))
      case _ => None
  }

  /** Dropping a study block that is already scheduled does nothing. */
  lemma SessionDropIgnored(session: Storage.ScheduledBlock, over: Option<DropTarget>)
    ensures DropDecision(DragEndEvent(SessionCard(session), over)) == None
  {
  }

  // ------------------------------------------------------------ the page

  /** `calendarDays[0]?.hijriDate.monthName || ''`: the name shown in the
      header, taken from the first cell of the grid. */
  function HeaderMonthName(days: seq<HijriCalendar.CalendarDay>): (name: string)
    ensures |days| == 0 || days[0].hijriDate.monthName.None? ==> name == ""
    ensures |days| > 0 && days[0].hijriDate.monthName.Some? ==> name == days[0].hijriDate.monthName.value
  {
    if |days| == 0 then ""
    else match days[0].hijriDate.monthName
      case None => ""
      case Some(n) => n
  }

  /** The header names the Hijri month of the grid's leading Sunday, which
      lies before the first of the month whenever the month does not start
      on a Sunday. */
  lemma HeaderNamesFirstCell(lib: HijriCalendar.HijriLibrary, c: MonthCursor)
    requires InRange(c)
    ensures var first := HijriCalendar.GridStart(HijriCalendar.FullYear(c.year), c.month);
            var k := lib.iMonth(first);
            HeaderMonthName(HijriCalendar.GetMonthCalendar(lib, c.year, c.month))
            == if 0 <= k < 12 then HijriCalendar.HijriMonths[k] else ""
  {
    var y := HijriCalendar.FullYear(c.year);
    HijriCalendar.BaseMonthInRange(c.year, c.month);
    HijriCalendar.GridEndsOfWeek(y, c.month);
    var days := HijriCalendar.GridDays(y, c.month);
    Gregorian.DayNumberInjective(days[0], HijriCalendar.GridStart(y, c.month));
  }

  /** The grid shown for the cursor is built from the cursor's numbers taken
      as a Gregorian year and month: its current-month cells are the days of
      Gregorian month `c.month` of year `c.year` (of 1900 + `c.year` for
      `c.year` in 0..99). */
  lemma GridUsesCursorAsGregorian(lib: HijriCalendar.HijriLibrary, c: MonthCursor, i: int)
    requires InRange(c)
    requires 0 <= i < |HijriCalendar.GetMonthCalendar(lib, c.year, c.month)|
    requires HijriCalendar.GetMonthCalendar(lib, c.year, c.month)[i].isCurrentMonth
    ensures var d := HijriCalendar.GetMonthCalendar(lib, c.year, c.month)[i].gregorianDate;
            d.year == HijriCalendar.FullYear(c.year) && d.month == c.month
  {
    var y := HijriCalendar.FullYear(c.year);
    HijriCalendar.BaseMonthInRange(c.year, c.month);
    HijriCalendar.CurrentMonthCells(lib, c.year, c.month, i);
    HijriCalendar.MonthDaysInOrder(y, c.month);
  }

  class Schedule {
    var books: seq<Storage.Book>
    var schedule: seq<Storage.ScheduledBlock>
    var cursor: MonthCursor
    var calendarDays: seq<HijriCalendar.CalendarDay>
    const store: Storage.Store
    const lib: HijriCalendar.HijriLibrary

    /** The grid on screen is always the one for the cursor. */
    predicate Valid()
      reads this
    {
      calendarDays == HijriCalendar.GetMonthCalendar(lib, cursor.year, cursor.month)
    }

    /** The page once mounted: the cursor starts at today's Hijri month, the
        books and schedule are read from the store and the grid is built. */
    constructor (store: Storage.Store, lib: HijriCalendar.HijriLibrary, today: Gregorian.Date)
      ensures this.store == store && this.lib == lib
      ensures cursor == MonthCursor(lib.iYear(today), lib.iMonth(today) + 1)
      ensures books == store.books && schedule == store.schedule
      ensures Valid()
    {
      this.store := store;
      this.lib := lib;
      var h := HijriCalendar.GregorianToHijri(lib, today);
      cursor := MonthCursor(h.year, h.month);
      books := store.books;
      schedule := store.schedule;
      calendarDays := [];
      new;
      ShowMonth();
    }

    /** The effect that rebuilds the grid after the cursor moves. */
    method ShowMonth()
      modifies this
      ensures Valid()
      ensures cursor == old(cursor) && books == old(books) && schedule == old(schedule)
    {
      calendarDays := HijriCalendar.GetMonthCalendar(lib, cursor.year, cursor.month);
    }

    /** `handleNextMonth`, followed by the grid effect. */
    method HandleNextMonth()
      modifies this
      ensures cursor == NextMonth(old(cursor)) && Valid()
      ensures books == old(books) && schedule == old(schedule)
    {
      cursor := NextMonth(cursor);
      ShowMonth();
    }

    /** `handlePrevMonth`, followed by the grid effect. */
    method HandlePrevMonth()
      modifies this
      ensures cursor == PrevMonth(old(cursor)) && Valid()
      ensures books == old(books) && schedule == old(schedule)
    {
      cursor := PrevMonth(cursor);
      ShowMonth();
    }

    /** `handleDragEnd`: a book dropped on a day is scheduled from that day
        on, replacing its earlier blocks, and the page re-reads the stored
        schedule; any other drop changes nothing. */
    method HandleDragEnd(e: DragEndEvent)
      modifies this, store
      ensures cursor == old(cursor) && calendarDays == old(calendarDays) && books == old(books)
      ensures store.books == old(store.books)
      ensures DropDecision(e).Some? ==>
                var (book, date) := DropDecision(e).value;
                store.schedule == Storage.Rescheduled(old(store.schedule), book, date)
                && schedule == store.schedule
      ensures DropDecision(e).None? ==> store.schedule == old(store.schedule) && schedule == old(schedule)
    {
      match DropDecision(e)
      case None =>
      case Some((book, date)) =>
        var newBlocks := store.ScheduleBook(book, date);
        schedule := store.schedule;
    }
  }
}
