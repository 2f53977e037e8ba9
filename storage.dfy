/** src/utils/storage.ts: the stored books and study schedule, `addBook`, and
    `scheduleBook`, which splits a book's pages into one block per day and
    replaces the book's earlier blocks with them.

    `localStorage` with its JSON encoding is modelled as two sequence fields
    of a `Store` object. A date (`YYYY-MM-DD`) is modelled by its day number,
    so "the day after" is "plus one". */
module Storage {
  import Text
  import Seqs

  /** The book record of src/types/index.ts. */
  datatype Book = Book(
    id: string, title: string, pageFrom: int, pageTo: int, duration: int, totalPages: int)

  /** One day's reading of one book; `dayNumber` is 1-based. */
  datatype ScheduledBlock = ScheduledBlock(
    id: string, bookId: string, date: int, pageFrom: int, pageTo: int, dayNumber: int)

  function Min(a: int, b: int): int {
    if a <= b then a else b
  }

  /** `Math.ceil(book.totalPages / book.duration)` for a positive duration: the
      fewest pages a day that get through the book in `duration` days. */
  function PagesPerDay(book: Book): (p: int)
    requires book.duration > 0
    ensures book.duration * (p - 1) < book.totalPages <= book.duration * p
  {
    var q := (-book.totalPages) / book.duration;
    assert -book.totalPages == book.duration * q + (-book.totalPages) % book.duration;
    -q
  }

  /** `${book.id}-${day}`. */
  function BlockId(bookId: string, day: nat): string {
    bookId + "-" + Text.NatToString(day)
  }

  /** The block the loop builds for day `day` (counted from 0). */
  function BlockOn(book: Book, startDate: int, day: nat): ScheduledBlock
    requires book.duration > 0
  {
    var perDay := PagesPerDay(book);
    var pageFrom := book.pageFrom + day * perDay;
    ScheduledBlock(BlockId(book.id, day), book.id, startDate + day,
                   pageFrom, Min(pageFrom + perDay - 1, book.pageTo), day + 1)
  }

  /** The blocks `scheduleBook` returns: one per day of the duration, none when
      the duration is not positive. */
  function Plan(book: Book, startDate: int): seq<ScheduledBlock> {
    if book.duration <= 0 then []
    else seq(book.duration, d requires 0 <= d < book.duration => BlockOn(book, startDate, d))
  }

  /** `schedule.filter(b => b.bookId !== bookId)`. */
  function OtherBooks(schedule: seq<ScheduledBlock>, bookId: string): seq<ScheduledBlock> {
    Seqs.Filter(schedule, (b: ScheduledBlock) => b.bookId != bookId)
  }

  /** The stored schedule after `scheduleBook(book, startDate)`. */
  function Rescheduled(schedule: seq<ScheduledBlock>, book: Book, startDate: int): seq<ScheduledBlock> {
    OtherBooks(schedule, book.id) + Plan(book, startDate)
  }

  /** What `localStorage` holds under the books and schedule keys. */
  class Store {
    var books: seq<Book>
    var schedule: seq<ScheduledBlock>

    /** Nothing stored yet: `getBooks()` and `getSchedule()` give `[]`. */
    constructor ()
      ensures books == [] && schedule == []
    {
      books := [];
      schedule := [];
    }

    /** `addBook(book)`: append and save. */
    method AddBook(book: Book)
      modifies this
      ensures books == old(books) + [book]
      ensures schedule == old(schedule)
    {
      books := books + [book];
    }

    /** `scheduleBook(book, startDate)`. */
    method ScheduleBook(book: Book, startDate: int) returns (newBlocks: seq<ScheduledBlock>)
      modifies this
      ensures newBlocks == Plan(book, startDate)
      ensures schedule == Rescheduled(old(schedule), book, startDate)
      ensures books == old(books)
    {
      var current := schedule;
      // Math.ceil(totalPages / 0) is Infinity, but the loop then runs no day
      var perDay := if book.duration > 0 then PagesPerDay(book) else 0;
      newBlocks := [];
      var day := 0;
      while day < book.duration
        invariant 0 <= day && (book.duration > 0 ==> day <= book.duration)
        invariant book.duration > 0 || day == 0
        invariant |newBlocks| == day
        invariant forall d :: 0 <= d < day ==> newBlocks[d] == BlockOn(book, startDate, d)
      {
        var pageFrom := book.pageFrom + day * perDay;
        var pageTo := Min(pageFrom + perDay - 1, book.pageTo);
        newBlocks := newBlocks + [ScheduledBlock(BlockId(book.id, day), book.id, startDate + day,
                                                 pageFrom, pageTo, day + 1)];
        day := day + 1;
      }
      assert book.duration <= 0 ==> newBlocks == [];
      var filtered := OtherBooks(current, book.id);
      schedule := filtered + newBlocks;
    }
  }

  // ------------------------------------------------------------ the plan

  /** One block per day; block `d` belongs to the book, is dated `d` days after
      the start, is day `d + 1` of the plan and has id `${book.id}-${d}`. */
  lemma PlanShape(book: Book, startDate: int)
    ensures |Plan(book, startDate)| == if book.duration > 0 then book.duration else 0
    ensures forall d :: 0 <= d < |Plan(book, startDate)| ==>
              var b := Plan(book, startDate)[d];
              b.bookId == book.id && b.date == startDate + d && b.dayNumber == d + 1
              && b.id == book.id + "-" + Text.NatToString(d)
  {
  }

  /** Block `d` starts `d * pagesPerDay` pages in and never ends past the
      book's last page. */
  lemma PlanPages(book: Book, startDate: int, d: int)
    requires book.duration > 0 && 0 <= d < book.duration
    ensures var b := Plan(book, startDate)[d];
            b.pageFrom == book.pageFrom + d * PagesPerDay(book)
            && b.pageTo <= book.pageTo
            && b.pageTo <= b.pageFrom + PagesPerDay(book) - 1
            && (b.pageTo == book.pageTo || b.pageTo == b.pageFrom + PagesPerDay(book) - 1)
  {
  }

  /** Consecutive blocks start exactly `pagesPerDay` apart, and a block that
      is not cut short by the book's end finishes just before the next one. */
  lemma PlanContiguous(book: Book, startDate: int, d: int)
    requires book.duration > 0 && 0 <= d < book.duration - 1
    ensures var p, b, c := PagesPerDay(book), Plan(book, startDate)[d], Plan(book, startDate)[d + 1];
            c.pageFrom == b.pageFrom + p
            && (b.pageTo < book.pageTo ==> b.pageTo + 1 == c.pageFrom)
  {
    var p := PagesPerDay(book);
    assert book.pageFrom + (d + 1) * p == book.pageFrom + d * p + p;
  }

  /** No guard stops a trailing block from being empty: ten pages over six
      days gives two pages a day, and day 6 is pages 11 to 10. */
  lemma TrailingEmptyBlock()
    ensures var book := Book("b", "t", 1, 10, 6, 10);
            var b := Plan(book, 0)[5];
            PagesPerDay(book) == 2 && b.pageFrom == 11 && b.pageTo == 10 && b.dayNumber == 6
  {
    var book := Book("b", "t", 1, 10, 6, 10);
    assert PagesPerDay(book) == 2;
  }

  /** The block holding page `p`, counted from 0. */
  function BlockOfPage(book: Book, p: int): int
    requires book.duration > 0 && book.totalPages > 0
  {
    PagesPerDayPositive(book);
    (p - book.pageFrom) / PagesPerDay(book)
  }

  /** A book with pages to read gets at least one page a day. */
  lemma PagesPerDayPositive(book: Book)
    requires book.duration > 0 && book.totalPages > 0
    ensures PagesPerDay(book) > 0
  {
    var per := PagesPerDay(book);
    if per <= 0 {
      MulMonotone(per, 0, book.duration);
    }
  }

  /** Page `p` lies in block `BlockOfPage(book, p)`, which is a day of the plan. */
  lemma BlockOfPageBounds(book: Book, p: int)
    requires book.duration > 0 && book.totalPages == book.pageTo - book.pageFrom + 1 > 0
    requires book.pageFrom <= p <= book.pageTo
    ensures PagesPerDay(book) > 0
    ensures var k, per := BlockOfPage(book, p), PagesPerDay(book);
            0 <= k < book.duration
            && book.pageFrom + k * per <= p < book.pageFrom + k * per + per
  {
    PagesPerDayPositive(book);
    var per := PagesPerDay(book);
    var k := BlockOfPage(book, p);
    var off := p - book.pageFrom;
    assert off == per * k + off % per;
    if k >= book.duration {
      MulMonotone(book.duration, k, per);
      assert false;
    }
  }

  /** When `totalPages` counts the pages from `pageFrom` to `pageTo`, every
      page of the book is read on exactly one day: the day `BlockOfPage`. */
  lemma PlanCoversEachPageOnce(book: Book, startDate: int, p: int, d: int)
    requires book.duration > 0 && book.totalPages == book.pageTo - book.pageFrom + 1 > 0
    requires book.pageFrom <= p <= book.pageTo && 0 <= d < book.duration
    ensures PagesPerDay(book) > 0
    ensures var b := Plan(book, startDate)[d];
            b.pageFrom <= p <= b.pageTo <==> d == BlockOfPage(book, p)
  {
    BlockOfPageBounds(book, p);
    var k := BlockOfPage(book, p);
    if d < k {
      EarlierBlock(book, startDate, p, d);
    } else if d > k {
      LaterBlock(book, startDate, p, d);
    }
  }

  lemma EarlierBlock(book: Book, startDate: int, p: int, d: int)
    requires book.duration > 0 && book.totalPages == book.pageTo - book.pageFrom + 1 > 0
    requires book.pageFrom <= p <= book.pageTo && 0 <= d < book.duration && d < BlockOfPage(book, p)
    ensures Plan(book, startDate)[d].pageTo < p
  {
    BlockOfPageBounds(book, p);
    var per, k := PagesPerDay(book), BlockOfPage(book, p);
    MulMonotone(d + 1, k, per);
    assert (d + 1) * per == d * per + per;
  }

  lemma LaterBlock(book: Book, startDate: int, p: int, d: int)
    requires book.duration > 0 && book.totalPages == book.pageTo - book.pageFrom + 1 > 0
    requires book.pageFrom <= p <= book.pageTo && BlockOfPage(book, p) < d < book.duration
    ensures p < Plan(book, startDate)[d].pageFrom
  {
    BlockOfPageBounds(book, p);
    var per, k := PagesPerDay(book), BlockOfPage(book, p);
    MulMonotone(k + 1, d, per);
    assert (k + 1) * per == k * per + per;
  }

  lemma MulMonotone(a: int, b: int, c: int)
    requires a <= b && c >= 0
    ensures a * c <= b * c
  {
  }

  /** Block ids are distinct within a plan. */
  lemma PlanIdsDistinct(book: Book, startDate: int, d: int, e: int)
    requires 0 <= d < e < |Plan(book, startDate)|
    ensures Plan(book, startDate)[d].id != Plan(book, startDate)[e].id
  {
    var prefix := book.id + "-";
    var sd, se := Text.NatToString(d), Text.NatToString(e);
    if prefix + sd == prefix + se {
      assert sd == (prefix + sd)[|prefix|..];
      assert se == (prefix + se)[|prefix|..];
      Text.NatToStringRoundTrip(d);
      Text.NatToStringRoundTrip(e);
    }
  }

  // -------------------------------------------------- replacing by book

  /** The book's own blocks all go; the other books' blocks stay, in order. */
  lemma OtherBooksKept(schedule: seq<ScheduledBlock>, bookId: string, b: ScheduledBlock)
    ensures b in OtherBooks(schedule, bookId) <==> b in schedule && b.bookId != bookId
    ensures b.bookId != bookId ==>
              multiset(OtherBooks(schedule, bookId))[b] == multiset(schedule)[b]
  {
    Seqs.FilterIn(schedule, (x: ScheduledBlock) => x.bookId != bookId, b);
    Seqs.FilterCount(schedule, (x: ScheduledBlock) => x.bookId != bookId, b);
  }

  /** After scheduling, the book's blocks in the stored schedule are exactly
      the new plan. */
  lemma RescheduledOwnBlocks(schedule: seq<ScheduledBlock>, book: Book, startDate: int)
    ensures Seqs.Filter(Rescheduled(schedule, book, startDate), (x: ScheduledBlock) => x.bookId == book.id)
            == Plan(book, startDate)
  {
    var mine := (x: ScheduledBlock) => x.bookId == book.id;
    var others := OtherBooks(schedule, book.id);
    Seqs.FilterAppend(others, Plan(book, startDate), mine);
    forall i | 0 <= i < |others| ensures !mine(others[i]) {
      assert others[i] in others;
    }
    Seqs.FilterNone(others, mine);
    Seqs.FilterAll(Plan(book, startDate), mine);
  }

  /** Blocks of every other book are untouched: same blocks, same order. */
  lemma RescheduledOtherBooks(schedule: seq<ScheduledBlock>, book: Book, startDate: int, otherId: string)
    requires otherId != book.id
    ensures Seqs.Filter(Rescheduled(schedule, book, startDate), (x: ScheduledBlock) => x.bookId == otherId)
            == Seqs.Filter(schedule, (x: ScheduledBlock) => x.bookId == otherId)
  {
    var theirs := (x: ScheduledBlock) => x.bookId == otherId;
    var notMine := (x: ScheduledBlock) => x.bookId != book.id;
    Seqs.FilterAppend(OtherBooks(schedule, book.id), Plan(book, startDate), theirs);
    Seqs.FilterNone(Plan(book, startDate), theirs);
    FilterOfFilter(schedule, notMine, theirs);
  }

  /** Filtering by `q` after `p` is filtering by `q` alone when `q` implies `p`. */
  lemma {:induction false} FilterOfFilter<T>(s: seq<T>, p: T -> bool, q: T -> bool)
    requires forall x :: q(x) ==> p(x)
    ensures Seqs.Filter(Seqs.Filter(s, p), q) == Seqs.Filter(s, q)
  {
    if s != [] {
      FilterOfFilter(s[1..], p, q);
      var head := if p(s[0]) then [s[0]] else [];
      Seqs.FilterAppend(head, Seqs.Filter(s[1..], p), q);
    }
  }

  /** Scheduling the same book twice keeps only the second run's blocks. */
  lemma RescheduleReplaces(schedule: seq<ScheduledBlock>, book: Book, first: int, second: int)
    ensures Rescheduled(Rescheduled(schedule, book, first), book, second)
            == Rescheduled(schedule, book, second)
  {
    var notMine := (x: ScheduledBlock) => x.bookId != book.id;
    var others := OtherBooks(schedule, book.id);
    calc {
      OtherBooks(others + Plan(book, first), book.id);
      { Seqs.FilterAppend(others, Plan(book, first), notMine); }
      Seqs.Filter(others, notMine) + Seqs.Filter(Plan(book, first), notMine);
      { Seqs.FilterNone(Plan(book, first), notMine); }
      Seqs.Filter(others, notMine);
      { FilterOfFilter(schedule, notMine, notMine); }
      others;
    }
  }
}
