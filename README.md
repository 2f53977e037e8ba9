# Study planner: a Dafny model of its scheduling, calendar and access rules

The study planner is a React front end. A student adds a book with a page
range and a number of days. The book is then dragged onto a day of a month
calendar, and the app splits its pages into one reading block per day. The
calendar is laid out as whole Sunday-first weeks of a Gregorian month, with
each day labelled by its Hijri date. Around this sit a sign-up form, an admin
page that manages users, and routes guarded by the signed-in user's role.

This project models the logic behind those screens and proves what it
promises:

- `HijriConverter`: the arithmetic Gregorian-to-Hijri converter. It computes a
  Julian Day Number, then a date of the tabular ("Kuwaiti") Islamic calendar,
  and renders "day month-name year".
- `Gregorian`: a proleptic Gregorian calendar (leap years, month lengths, day
  numbers, weekdays, week starts and ends, runs of days). It stands in for the
  `date-fns` helpers the month grid is built with.
- `HijriCalendar`: `getMonthCalendar`, the grid of whole weeks around a month
  with its `isCurrentMonth` flags. Also `gregorianToHijri` over an abstract
  `moment-hijri`.
- `Storage`: the stored books and schedule. Covers `addBook` and
  `scheduleBook`, which splits a book into `duration` daily blocks of
  `ceil(totalPages / duration)` pages and replaces the book's earlier blocks.
- `SchedulePage`: the month cursor and its arrows, the drop rule, the header
  month name, and the page object that ties them to the store.
- `CalendarView`: one cell per grid day, each holding the blocks dated on
  that day.
- `BookPage`: the page total, the pages-per-day hint, the summary box, and the
  submitted book record.
- `BookSidebar`: the case-insensitive title search and its cards.
- `AdminPage` and `AddUserModal`: the user list, with unique TR numbers, add
  and delete, and the modal's checks and reset.
- `SignupPage`: the five-digit TR number rule, the check order, and the
  error-message precedence for every possible server answer.
- `Auth`, `AppRoutes` and `ProtectedRoute`: the current user read from
  storage, logout, the route guards and the route table.
- `Seqs` and `Text` hold the sequence filter and the string operations
  (case mapping, `includes`, `trim`, `split`/`join`, number rendering) that
  the pages use.

Dates inside the app are ISO `YYYY-MM-DD` strings. They are modelled by the
date's day number (`Gregorian.DayNumber`), which is one-to-one on real dates
(`Gregorian.DayNumberInjective`).

## Model

| member | source | states |
|---|---|---|
| `Gregorian.DaysInMonth` | src/utils/hijriCalendar.ts:133-134 | A month has 28 to 31 days, and 29 exactly for February of a leap year. |
| `Gregorian.Next` | src/utils/hijriCalendar.ts:138 | The following day is a real date whose day number is one more. |
| `Gregorian.DayNumberMonotone` | src/utils/hijriCalendar.ts:138 | One date is before another exactly when its day number is smaller. |
| `Gregorian.DayNumberInjective` | src/utils/hijriCalendar.ts:138 | Distinct real dates have distinct day numbers. |
| `Gregorian.Weekday` | src/utils/hijriCalendar.ts:135-136 | `getDay()` lies in 0..6, with Sunday as 0. |
| `Gregorian.SundayAnchor` | src/utils/hijriCalendar.ts:135-136 | Weekday 0 is a real Sunday: 2024-01-07 gets 0 and 2024-01-01 gets 1, and a day gets 0 exactly when it lies a whole number of weeks from 2024-01-07. |
| `Gregorian.WeekdayNext` | src/utils/hijriCalendar.ts:135-136 | The next day's weekday is one more, modulo 7. |
| `Gregorian.WeekRunEnds` | src/utils/hijriCalendar.ts:135-138 | A run of whole weeks laid out from column 0 starts on a Sunday and ends on a Saturday. |
| `Gregorian.WeekdayAfterSunday` | src/utils/hijriCalendar.ts:135-138 | The day `i` days after a Sunday falls on weekday `i mod 7`. |
| `Gregorian.StartOfWeek` | src/utils/hijriCalendar.ts:135 | `startOfWeek` with weeks from Sunday gives the Sunday on or before the date, fewer than 7 days back. |
| `Gregorian.EndOfWeek` | src/utils/hijriCalendar.ts:136 | `endOfWeek` gives the Saturday on or after the date, fewer than 7 days ahead. |
| `Gregorian.EachDayOfInterval` | src/utils/hijriCalendar.ts:138 | Every day from start to end inclusive, in order, each one day after the previous; empty when the end comes first. |
| `HijriConverter.MonthShift` | src/utils/hijriConverter.ts:5 | The floored `(gMonth - 14) / 12` is -2 for January and -1 for every other month. |
| `HijriConverter.JulianDayAsWrittenWithinMonth` | src/utils/hijriConverter.ts:5 | Within a month, one more day of the month adds exactly one to `jd`. |
| `HijriConverter.JulianDayCountsDays` | src/utils/hijriConverter.ts:5 | With the intended shift, the formula gives the date's day count plus 1721426 for every real date. |
| `HijriConverter.JulianDayNext` | src/utils/hijriConverter.ts:5 | With the intended shift, consecutive dates get consecutive Julian Day Numbers, across month and year ends too. |
| `HijriConverter.JulianDayAsWrittenOffset` | src/utils/hijriConverter.ts:5 | The source's `jd` equals the Julian Day Number in February. It is 1 or 2 days ahead in January and from March on, by whether the previous or current year is a leap year. |
| `HijriConverter.JulianDayAsWrittenNotMonotone` | src/utils/hijriConverter.ts:5 | In every year the source gives 31 January a `jd` at least that of 1 February. |
| `HijriConverter.JulianDayAsWrittenExample` | src/utils/hijriConverter.ts:5 | For 2024 the source gives 2460343 for 31 January and 2460342 for 1 February, where the Julian Day Number of 31 January is 2460341. |
| `HijriConverter.Cycles` | src/utils/hijriConverter.ts:6-7 | `n` counts the whole 10631-day, 30-year cycles before `l - 1`. |
| `HijriConverter.DayOfCycle` | src/utils/hijriConverter.ts:8 | `l2` lies in 355..10985. |
| `HijriConverter.YearOfCycle` | src/utils/hijriConverter.ts:9 | `j` is a year of the cycle, 1..30, and it is in the first half exactly when `l2 < 5670`. |
| `HijriConverter.DayOfYear` | src/utils/hijriConverter.ts:10 | `l3` lies in 30..384. |
| `HijriConverter.MonthOfYear` | src/utils/hijriConverter.ts:11-12 | `hMonth` lies in 1..12 and `hDay` in 1..30. |
| `HijriConverter.HijriFromJulianDay` | src/utils/hijriConverter.ts:6-13 | The month is 1..12, so the name lookup stays in the table. The day is 1..30. The year is `30n + j - 30`, with `j` the year within the cycle (`YearOfCycle`, 1..30), so it lies within the `n`-th cycle. |
| `HijriConverter.GregorianToHijri` | src/utils/hijriConverter.ts:1-16 | The output starts with the Hijri day and ends with the Hijri year of the source's `jd`, each as a space-free word. |
| `HijriConverter.FormatWords` | src/utils/hijriConverter.ts:14-15 | The first word of the rendering is the day and the last word is the year. |
| `HijriConverter.OnlyCalendarFieldsMatter` | src/utils/hijriConverter.ts:2-4 | Two `Date`s with the same year, month and day give the same string, whatever their time of day. |
| `HijriConverter.GregorianToHijriCorrected` | src/utils/hijriConverter.ts:5-15 | With the intended shift, the Hijri date is read from the date's day count plus 1721426. |
| `HijriCalendar.MonthName` | src/utils/hijriCalendar.ts:110-114 | A name exists exactly for months 1..12. |
| `HijriCalendar.MonthNameInjective` | src/utils/hijriCalendar.ts:110-114 | Different months have different names. |
| `HijriCalendar.GregorianToHijri` | src/utils/hijriCalendar.ts:119-127 | Year and day are the library's `iYear` and `iDate`; month is `iMonth() + 1`; a month name exists exactly when `iMonth()` is in 0..11. |
| `HijriCalendar.GregorianToHijriName` | src/utils/hijriCalendar.ts:122-126 | A month name determines the library's `iMonth()`. |
| `HijriCalendar.BaseMonth` | src/utils/hijriCalendar.ts:132 | `new Date(year, month - 1)` names a month 1..12 that is `month` months into the full year, carrying across years. |
| `HijriCalendar.BaseMonthInRange` | src/utils/hijriCalendar.ts:132 | A month in 1..12 is used as given, since the parameter is 1-based. |
| `HijriCalendar.MonthEnd` | src/utils/hijriCalendar.ts:133-134 | The month's last day is `DaysInMonth - 1` days after its first. |
| `HijriCalendar.GridStart` | src/utils/hijriCalendar.ts:135 | The first cell is a Sunday on or before the 1st, fewer than 7 days before it. |
| `HijriCalendar.GridEnd` | src/utils/hijriCalendar.ts:136 | The last cell is a Saturday on or after the month's last day, fewer than 7 days after it. |
| `HijriCalendar.GridDays` | src/utils/hijriCalendar.ts:138 | The grid days run from `GridStart` to `GridEnd`, each one day after the previous. |
| `HijriCalendar.GetMonthCalendar` | src/utils/hijriCalendar.ts:130-145 | One cell per grid day, in order. Each cell's Hijri date is `gregorianToHijri` of its day, and `isCurrentMonth` holds exactly when its month equals the requested one. |
| `HijriCalendar.GridIsWholeWeeks` | src/utils/hijriCalendar.ts:133-138 | The number of cells is a multiple of 7 between 28 and 42. |
| `HijriCalendar.GridEndsOfWeek` | src/utils/hijriCalendar.ts:133-138 | The grid is non-empty, its first cell a Sunday and its last a Saturday. |
| `HijriCalendar.GridWeekdays` | src/utils/hijriCalendar.ts:133-138 | Every cell of the grid is a real day whose weekday is its column, cell `i` falling in column `i mod 7`. |
| `HijriCalendar.GridColumns` | src/utils/hijriCalendar.ts:135-138 | Cell `i` falls on weekday `i mod 7`. |
| `HijriCalendar.Lead` | src/utils/hijriCalendar.ts:133-135 | Fewer than 7 padding days come before the 1st. |
| `HijriCalendar.MonthDaysInOrder` | src/utils/hijriCalendar.ts:132-138 | Every day of the month appears right after the padding, in order, so each appears once. |
| `HijriCalendar.PaddingIsOutsideMonth` | src/utils/hijriCalendar.ts:133-138 | A cell outside the run of the month's days belongs to another month. |
| `HijriCalendar.CurrentMonthCells` | src/utils/hijriCalendar.ts:143 | `isCurrentMonth` holds exactly on the run of the month's own days; the year-blind comparison never matches padding. |
| `Storage.PagesPerDay` | src/utils/storage.ts:25 | `pagesPerDay` is the ceiling of `totalPages / duration`: the least `p` with `duration * p >= totalPages`. |
| `Storage.Store.constructor` | src/utils/storage.ts:4-19 | With nothing stored, the books and the schedule are empty. |
| `Storage.Store.AddBook` | src/utils/storage.ts:11-15 | The book is appended; the other books and the schedule are unchanged. |
| `Storage.Store.ScheduleBook` | src/utils/storage.ts:23-47 | The loop returns exactly `Plan(book, startDate)`. The stored schedule becomes the other books' blocks, in their old order, followed by the new blocks; the books are unchanged. |
| `Storage.PlanShape` | src/utils/storage.ts:27-39 | There are `duration` blocks (none when duration is not positive). Block `d` has bookId `book.id`, is dated `d` days after the start, has dayNumber `d + 1` and id `${book.id}-${d}`. |
| `Storage.PlanPages` | src/utils/storage.ts:30-31 | Block `d` starts `d * pagesPerDay` pages in. It never ends past the book's last page, and it is a full `pagesPerDay` pages unless cut at that page. |
| `Storage.PlanContiguous` | src/utils/storage.ts:30-31 | Consecutive blocks start exactly `pagesPerDay` apart. A block not cut at the book's end finishes one page before the next starts. |
| `Storage.TrailingEmptyBlock` | src/utils/storage.ts:25-31 | Ten pages over six days gives two a day, and day 6 is pages 11 to 10: a trailing block can be empty. |
| `Storage.BlockOfPageBounds` | src/utils/storage.ts:25-31 | Every page of a consistent book falls within the page span of one day below `duration`. |
| `Storage.PlanCoversEachPageOnce` | src/utils/storage.ts:25-39 | When `totalPages` counts the page range, each page lies in the block of exactly one day. |
| `Storage.EarlierBlock` | src/utils/storage.ts:30-31 | Blocks of earlier days end before the page. |
| `Storage.LaterBlock` | src/utils/storage.ts:30-31 | Blocks of later days start after the page. |
| `Storage.PlanIdsDistinct` | src/utils/storage.ts:33 | The new blocks have pairwise distinct ids. |
| `Storage.OtherBooksKept` | src/utils/storage.ts:43 | The filter keeps exactly the blocks of other books, each as often as before. |
| `Storage.RescheduledOwnBlocks` | src/utils/storage.ts:43-45 | After scheduling, the book's blocks in the stored schedule are exactly the new plan. |
| `Storage.RescheduledOtherBooks` | src/utils/storage.ts:43-45 | Another book's blocks are the same sequence before and after. |
| `Storage.RescheduleReplaces` | src/utils/storage.ts:43-45 | Scheduling a book twice leaves what scheduling it once at the second date leaves. |
| `SchedulePage.NextMonth` | src/pages/Schedule.tsx:58-71 | The next month is one month later and stays in 1..12, rolling into the next year after month 12. |
| `SchedulePage.PrevMonth` | src/pages/Schedule.tsx:44-57 | The previous month is one month earlier and stays in 1..12, rolling back a year before month 1. |
| `SchedulePage.MonthIndexInjective` | src/pages/Schedule.tsx:44-71 | A cursor with month in 1..12 is determined by its month count. |
| `SchedulePage.PrevUndoesNext` | src/pages/Schedule.tsx:44-71 | Previous after next, and next after previous, give back the cursor. |
| `SchedulePage.StepsIndex` | src/pages/Schedule.tsx:58-71 | `n` presses of the next arrow move the cursor `n` months on and keep it in range. |
| `SchedulePage.StepsByYears` | src/pages/Schedule.tsx:58-71 | Twelve presses per year reach the same month that many years on. |
| `SchedulePage.DropDecision` | src/pages/Schedule.tsx:36-42 | A book is scheduled exactly when there is a drop target with a date and the dragged item carries a book; then it is that book from that date. |
| `SchedulePage.SessionDropIgnored` | src/pages/Schedule.tsx:37-42 | Dragging a study block, whose data has no book, schedules nothing. |
| `SchedulePage.HeaderMonthName` | src/pages/Schedule.tsx:86 | The header is the first cell's Hijri month name, or '' when there are no cells or no name. |
| `SchedulePage.HeaderNamesFirstCell` | src/pages/Schedule.tsx:86 | On a month grid the header names the Hijri month of the grid's first Sunday, or is '' when the library's month is outside the table. |
| `SchedulePage.GridUsesCursorAsGregorian` | src/pages/Schedule.tsx:28 | The grid shown for the Hijri cursor has as current-month cells the days of the Gregorian month with the cursor's numbers. |
| `SchedulePage.Schedule.constructor` | src/pages/Schedule.tsx:13-30 | The cursor starts at today's Hijri year and month, the books and schedule are read from the store, and the grid matches the cursor. |
| `SchedulePage.Schedule.ShowMonth` | src/pages/Schedule.tsx:27-30 | The grid is rebuilt for the cursor; nothing else changes. |
| `SchedulePage.Schedule.HandleNextMonth` | src/pages/Schedule.tsx:58-71 | The cursor moves to `NextMonth` and the grid follows it. |
| `SchedulePage.Schedule.HandlePrevMonth` | src/pages/Schedule.tsx:44-57 | The cursor moves to `PrevMonth` and the grid follows it. |
| `SchedulePage.Schedule.HandleDragEnd` | src/pages/Schedule.tsx:31-43 | On a valid drop the stored schedule is rescheduled for the book from the target date and the page re-reads it. Any other drop changes nothing. |
| `CalendarView.Cells` | src/components/Calendar.tsx:44-56 | One cell per day, in order, with that day's date, its date string and its `isCurrentMonth` copied. |
| `CalendarView.CellSessionsExact` | src/components/Calendar.tsx:45-46 | A cell holds exactly the stored blocks dated on its day, each as often as it is stored. |
| `CalendarView.CellSessionsInOrder` | src/components/Calendar.tsx:46 | Within a cell, blocks keep their order in the schedule. |
| `CalendarView.UnmatchedNotRendered` | src/components/Calendar.tsx:44-46 | A block dated on no day of the grid is shown in no cell. |
| `CalendarView.AtMostOneCell` | src/components/Calendar.tsx:44-46 | On a month grid a block appears in at most one cell. |
| `CalendarView.ColumnsMatchHeader` | src/components/Calendar.tsx:36-44 | The cell in column `i mod 7` of the seven-column grid falls on weekday `i mod 7`, so the header above it, `weekDays[i mod 7]`, is the name of that cell's weekday. With `Gregorian.SundayAnchor`, the "Sun" column holds real Sundays. |
| `BookPage.TotalPages` | src/pages/Book.tsx:12 | The total is never negative. It is 0 when either page field is empty, and otherwise `max(0, to - from + 1)`. |
| `BookPage.CeilDiv` | src/pages/Book.tsx:64 | `Math.ceil(total / duration)` as the integer within one `duration` step of the total, for either sign of `duration`. |
| `BookPage.HintFor` | src/pages/Book.tsx:64 | The hint is unbounded (`Infinity`) exactly for a duration of 0, and an empty duration counts as 1. Any other typed duration, negative ones included, gets the ceiling of the page count divided by it, stated by the ceiling's bounds for either sign. |
| `BookPage.SummaryOf` | src/pages/Book.tsx:58-66 | The summary box is shown exactly when the total is positive. It shows that total and the pages-per-day hint `HintFor` gives for it: unbounded for a duration of 0, the total itself for an empty duration, and otherwise the ceiling of the total divided by the duration, for either sign. |
| `BookPage.SubmittedBook` | src/pages/Book.tsx:15-22 | The record carries the clock's text as id, the title, the parsed fields and the computed total. |
| `BookPage.SubmittedIdsDistinct` | src/pages/Book.tsx:16 | Books submitted at different times get different ids. |
| `BookPage.HintMatchesSchedule` | src/pages/Book.tsx:58-64 | For an ordered range the hint shows the `pagesPerDay` the scheduler will use. |
| `BookPage.SubmittedBookCovered` | src/pages/Book.tsx:15-23 | Once scheduled, each page of an ordered range is read on exactly one day. |
| `BookPage.BackwardsRangeSchedulesNothing` | src/pages/Book.tsx:12-22 | A range with `pageTo < pageFrom` passes the form and gets total 0, and every scheduled block is then empty. |
| `BookPage.BookForm.constructor` | src/pages/Book.tsx:7-10 | All fields start empty. |
| `BookPage.BookForm.HandleSubmit` | src/pages/Book.tsx:13-25 | The submitted book is appended to the stored books, the schedule is unchanged, and the page goes to /schedule. |
| `BookSidebar.FilteredBooks` | src/components/BookSidebar.tsx:144-146 | The result is no longer than the stored list. |
| `BookSidebar.FilteredIff` | src/components/BookSidebar.tsx:144-146 | A book is listed exactly when it is stored and the lower-cased search occurs in its lower-cased title. |
| `BookSidebar.EmptySearchListsAll` | src/components/BookSidebar.tsx:144-146 | An empty search lists every book, in order. |
| `BookSidebar.SearchIgnoresCase` | src/components/BookSidebar.tsx:145 | Upper- or lower-casing the search text leaves the list unchanged. |
| `BookSidebar.TypingNarrows` | src/components/BookSidebar.tsx:144-146 | Typing more characters only removes books from the list. |
| `BookSidebar.Render` | src/components/BookSidebar.tsx:103-107 | "No books found" exactly when nothing is listed. Otherwise there is one card per listed book, in order, with the book's id and the book as drag data. |
| `BookSidebar.NoBooksNoCards` | src/components/BookSidebar.tsx:162-163 | With no stored books the sidebar shows "No books found" for any search. |
| `AdminPage.Without` | src/pages/Admin.tsx:35 | Deleting never lengthens the list. |
| `AdminPage.InitialUsersDistinct` | src/pages/Admin.tsx:9-18 | The initial three users have distinct TR numbers. |
| `AdminPage.AppendKeepsDistinct` | src/pages/Admin.tsx:23-30 | Appending a user whose TR number is not taken keeps TR numbers distinct. |
| `AdminPage.WithoutIff` | src/pages/Admin.tsx:35 | After a delete, a user remains exactly when it was there and has another TR number. |
| `AdminPage.WithoutRemovesTr` | src/pages/Admin.tsx:35 | After a delete, no user has the deleted TR number. |
| `AdminPage.WithoutKeepsDistinct` | src/pages/Admin.tsx:35 | Deleting keeps TR numbers distinct. |
| `AdminPage.DeleteUndoesAdd` | src/pages/Admin.tsx:23-35 | Deleting a freshly added TR number gives back the earlier list. |
| `AdminPage.Admin.constructor` | src/pages/Admin.tsx:9-20 | The page starts with the three initial users, an empty TR field and the student role, with TR numbers distinct. |
| `AdminPage.Admin.HandleAddUser` | src/pages/Admin.tsx:21-32 | The scan alerts exactly when the TR number is taken, leaving everything unchanged. Otherwise it appends the user with the selected role, clears the TR field and keeps the role. TR numbers stay distinct. |
| `AdminPage.Admin.HandleDeleteUser` | src/pages/Admin.tsx:33-37 | A confirmed delete filters out that TR number; an unconfirmed one changes nothing. TR numbers stay distinct. |
| `AddUserModal.Decide` | src/components/AddUserModal.tsx:23-32 | "TR Number is required" exactly for a blank TR number. "Password is required" exactly for a non-blank TR number with a blank password. Otherwise the untrimmed fields and role are handed on. |
| `AddUserModal.TrCheckedFirst` | src/components/AddUserModal.tsx:23-30 | With both fields blank only the TR number error is shown. |
| `AddUserModal.UntrimmedTrAccepted` | src/components/AddUserModal.tsx:32 | A TR number with a leading space is handed on as typed. |
| `AddUserModal.Modal.constructor` | src/components/AddUserModal.tsx:15-18 | The fields start as '', '' and student. |
| `AddUserModal.Modal.HandleSubmit` | src/components/AddUserModal.tsx:20-37 | The outcome is `Decide` of the fields. An accepted user resets them to '', '' and student; a rejection leaves them unchanged. |
| `AddUserModal.Render` | src/components/AddUserModal.tsx:39 | Nothing is shown exactly when the modal is closed. |
| `SignupPage.DigitsThenEndIff` | src/pages/Signup.tsx:13 | Matching `n` digits then the end accepts exactly the texts of `n` characters, all 0-9. |
| `SignupPage.ValidTrNumberIff` | src/pages/Signup.tsx:13 | A TR number is valid exactly when it has five characters, all 0-9. |
| `SignupPage.PaddedNumbersAccepted` | src/pages/Signup.tsx:13 | Every five-digit string, leading zeros included, is accepted. |
| `SignupPage.FirstMessage` | src/pages/Signup.tsx:42-43 | `list?.[0]` counts only when present and non-empty. |
| `SignupPage.ErrorMessage` | src/pages/Signup.tsx:41-44 | The message is the first TR number error, else the first general error, else the default text. It is never empty. |
| `SignupPage.TrNumberErrorFirst` | src/pages/Signup.tsx:41-44 | A TR number error wins over a general one. |
| `SignupPage.Submit` | src/pages/Signup.tsx:16-55 | An invalid TR number or mismatched passwords give their error and send nothing. A request goes out exactly when both checks pass, and carries the three fields. Only an accepted sign-up navigates to /login, with a success toast. A rejection shows `ErrorMessage` of its body. An unreadable error body or an unreachable server shows that error's message. |
| `SignupPage.TrCheckedFirst` | src/pages/Signup.tsx:18-25 | The TR number is checked before the passwords. |
| `SignupPage.Signup.constructor` | src/pages/Signup.tsx:8-11 | The fields start empty and not loading. |
| `SignupPage.Signup.HandleSubmit` | src/pages/Signup.tsx:16-55 | The outcome is `Submit` of the fields. `loading` is set exactly when a request goes out, and is clear afterwards on every path. |
| `Auth.PayloadSegment` | src/utils/auth.ts:15 | The segment holds no '.' (or is "undefined" when the token has no second part). |
| `Auth.PayloadOfThreeParts` | src/utils/auth.ts:15 | For a header.payload.signature token the segment is the payload. |
| `Auth.DecodeToken` | src/utils/auth.ts:13-21 | `null` exactly when decoding throws or yields `null`; otherwise the payload's `tr_number`. |
| `Auth.GetCurrentUser` | src/utils/auth.ts:25-36 | No user exactly when the token or role is missing or empty. A found user has the stored role and the payload's `tr_number`. The call throws when the payload cannot be decoded or is `null`. |
| `Auth.UndecodableTokenRaises` | src/utils/auth.ts:13-36 | With a token and a role stored, `getCurrentUser` throws exactly where `decodeToken` gives `null`, and otherwise agrees with it. |
| `Auth.AdminFromStoredRole` | src/utils/auth.ts:34-40 | A found user is an admin exactly when the stored role is "admin". |
| `Auth.Session.constructor` | src/utils/auth.ts:26-27 | The session reads the given storage. |
| `Auth.Session.Logout` | src/utils/auth.ts:22-24 | Only the token is removed, the stored role stays, and afterwards no decoder finds a user. |
| `Auth.LoggedOutHasNoUser` | src/utils/auth.ts:22-28 | Without a token, `getCurrentUser` gives no user whatever else is stored. |
| `AppRoutes.ProtectedRoute` | src/App.tsx:92-107 | No user redirects to /login whatever `adminOnly` is. A non-admin at an admin-only route goes to /schedule. Children render exactly for a user who is allowed, and the guard throws exactly when reading the user throws. |
| `AppRoutes.TrimTrailingSlashes` | src/App.tsx:113-117 | A route's pattern accepts any number of trailing slashes after its path. The result is a prefix of the path, keeps its first character, and only slashes are dropped. |
| `AppRoutes.RoutePath` | src/App.tsx:113-117 | Routes match without regard to ASCII case and with trailing slashes, and an empty path counts as /. The compared path starts with the path's first character, lower-cased. |
| `AppRoutes.Route` | src/App.tsx:113-117 | After case folding and dropping trailing slashes, /login is unguarded and / redirects to /schedule. Any path matching none of the five routes renders nothing. |
| `AppRoutes.RoutePathOfCanonical` | src/App.tsx:113-117 | A lower-case path without a trailing slash is compared as written. |
| `AppRoutes.MatchIgnoresCaseAndTrailingSlash` | src/App.tsx:113-117 | Upper-casing a path and adding a trailing slash changes neither what it matches nor what it renders, so "/SCHEDULE/" shows what "/schedule" shows. |
| `AppRoutes.GuardedPagesShown` | src/App.tsx:113-117 | The schedule and book pages are shown exactly on paths matching /schedule and /book, to any signed-in user. The admin page is shown exactly on paths matching /admin, to an admin only. |
| `AppRoutes.RedirectTargets` | src/App.tsx:101-117 | The two redirect targets lead to the login page and to the schedule page behind the plain guard. |
| `AppRoutes.RedirectsSettle` | src/App.tsx:99-117 | Following redirects never loops: after at most two, every path settles. A signed-out visitor of any path matching a guarded route or / lands on the login page. |
| `AppRoutes.NonAdminLandsOnSchedule` | src/App.tsx:103-116 | A signed-in non-admin who asks for /admin ends on the schedule page. |
| `ProtectedRoute.AdminRoute` | src/components/ProtectedRoute.tsx:4-12 | Children render exactly for a found admin. Everyone else is sent to "/", unless reading the user throws. |
| `ProtectedRoute.AgreesWithAdminOnlyGuard` | src/components/ProtectedRoute.tsx:7-11 | It admits and rejects the same users as the admin-only `ProtectedRoute`. |
| `ProtectedRoute.RejectedVisitorsLand` | src/components/ProtectedRoute.tsx:7-9 | A rejected visitor who follows "/" ends on the schedule page when signed in, and on the login page otherwise. |
| `Text.ContainsIff` | src/components/BookSidebar.tsx:145 | `includes` holds exactly when the needle occurs at some position. |
| `Text.LowerAfterUpper` | src/components/BookSidebar.tsx:145 | Lower-casing after upper-casing is lower-casing. |
| `Text.TrimEmptyIff` | src/components/AddUserModal.tsx:23-27 | `trim()` gives '' exactly for strings made only of white space. |
| `Text.IntToStringInjective` | src/pages/Book.tsx:16 | Distinct numbers render as distinct strings. |
| `Text.NatToStringRoundTrip` | src/utils/hijriConverter.ts:15 | Reading a rendered number's digits back gives the number. |
| `Text.SplitJoin` | src/utils/auth.ts:15 | Splitting a join of separator-free parts gives back the parts. |
| `Text.JoinSplit` | src/utils/auth.ts:15 | Joining the parts of a split gives back the text. |
| `Seqs.FilterIn` | src/components/Calendar.tsx:46 | `filter` keeps an element exactly when it occurs and satisfies the test. |
| `Seqs.FilterAppend` | src/components/Calendar.tsx:46 | Filtering a concatenation concatenates the filtered parts, so order is kept. |
| `Seqs.FilterCount` | src/components/Calendar.tsx:46 | A kept element occurs as often as before, and a dropped one not at all. |

## Left out

- Time zones: `new Date(startDate)`, `setDate`, `toISOString` and `toLocaleDateString` are taken to agree on the local calendar day. Dates are day numbers and ISO date strings are those day numbers.
- `moment-hijri` is a parameter (`HijriCalendar.HijriLibrary`): `iYear`, `iMonth` and `iDate` are arbitrary functions of the date, and every grid property holds for all of them. The library's own calendar is not modelled.
- `date-fns` is replaced by the `Gregorian` module's own proleptic calendar rather than modelled call by call.
- `localStorage` with `JSON.stringify`/`JSON.parse` is modelled as `Storage.Store`'s sequence fields and `Auth.Session`'s string map, so encoding is assumed to round-trip. Stored JSON that fails to parse is not modelled.
- `atob`, `JSON.parse` of a token payload and reading its `tr_number` field are an arbitrary function (`Auth.Decoder`). Base64 and JSON are not modelled.
- The sign-up `fetch`, `response.json()` and their failures are a parameter (`SignupPage.Response`); the network is not modelled. An error body that parses to `null`, or whose `tr_number` is a string rather than a list, is not modelled.
- `Date.now()` is the parameter `now` of `BookPage.BookForm.HandleSubmit`; `navigate`, `toast`, `alert` and `confirm` become results or parameters.
- `parseInt` is modelled on integer text only. `NaN` from non-numeric text and the browser's number inputs (`min="1"`, `required`) become the precondition `Submittable` of `BookPage.BookForm.HandleSubmit`. `Math.ceil(total / 0)` is the `Unbounded` hint.
- `BookPage.BookForm.HandleSubmit`: requires the title and the three numbers to be present and at least 1, as the form's `required` and `min="1"` attributes enforce, so the handler is not modelled on input the browser blocks.
- `AdminPage.Admin.HandleAddUser`: requires a non-empty TR field, as the input's `required` attribute enforces.
- `AppRoutes.Route` takes the path after percent-decoding, which the router does before matching. The decoding itself is not modelled.
- `SignupPage.Signup.HandleSubmit`: requires `loading` to be clear, as the disabled submit button enforces (src/pages/Signup.tsx:106). The interleaving of a second submission during the `await` is not modelled.
- `Text.ToLower`/`Text.ToUpper` map only ASCII letters. Unicode case mapping is not modelled, so `BookSidebar.SearchIgnoresCase` is about ASCII case.
- `SchedulePage.Schedule.constructor` folds the mount effect that reads the books and schedule (src/pages/Schedule.tsx:23-26) and the first grid build into construction. React's rendering and batching are not modelled.
- The header's month name is taken from whatever grid is shown. `SchedulePage.GridUsesCursorAsGregorian` records that the grid is built from the Hijri cursor read as a Gregorian year and month (src/pages/Schedule.tsx:28). The model keeps that behaviour rather than changing it.
- PDF export (src/pages/Schedule.tsx:72-85), the `console.log` in `getMonthCalendar`, the commented-out floating-point converter in src/utils/hijriCalendar.ts and the login page are not modelled. They are canvas, PDF, console, dead code or network work.
- Presentation components (DateCell, StudyBlock, BookBlock, Navbar, Layout, PageHeader), the `dnd-kit` hooks, JSX and CSS are left out. The props the logic hands them (cells, cards, views) are modelled.
- `HijriConverter.GregorianToHijri` is stated by its first and last words rather than the full string; the full string is `Format` of the computed date. Nothing else in the app calls this converter, so the corrected version is not wired into other modules.

## Findings

| source | as written | input that shows it | evidently intended | confidence | as-written member | corrected member |
|---|---|---|---|---|---|---|
| src/utils/hijriConverter.ts:5 | `Math.floor((gMonth - 14) / 12)` floors, giving -2 for January and -1 for February to December. The Fliegel–Van Flandern formula needs truncation: -1 for January and February, 0 otherwise. So `jd` is 1 or 2 days ahead outside February and stalls or goes backwards from January 31 to February 1: it goes backwards when the previous year is not a leap year, and stalls (both days get the same `jd`) after a leap year. | 2024-01-31 gives `jd` 2460343 and 2024-02-01 gives 2460342; the Julian Day Number of 2024-01-31 is 2460341 | the Julian Day Number, one more per day, so each Gregorian day maps to the right tabular Hijri day | high (proved; not executed) | `HijriConverter.JulianDayAsWrittenNotMonotone` | `HijriConverter.GregorianToHijriCorrected` |
