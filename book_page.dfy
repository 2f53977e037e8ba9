/** The `Book` page of src/pages/Book.tsx: a form for a book's title, page
    range and reading duration, a live summary of the page count and the
    pages to read per day, and the submission that stores the book.

    A numeric field holds what `parseInt` makes of the input's text: nothing
    while the input is empty, otherwise a whole number. */
module BookPage {
  import opened Wrappers
  import Text
  import Storage

  datatype NumField = Blank | Value(n: int)

  /** `pageFrom && pageTo ? Math.max(0, to - from + 1) : 0`: the number of
      pages from `from` to `to`, counting both, and 0 while a field is empty
      or the range runs backwards. */
  function TotalPages(from: NumField, to: NumField): (t: int)
    ensures t >= 0
    ensures from.Blank? || to.Blank? ==> t == 0
    ensures from.Value? && to.Value? ==>
              (t > 0 <==> from.n <= to.n) && (from.n <= to.n ==> from.n + t - 1 == to.n)
  {
    if from.Value? && to.Value? then
      var count := to.n - from.n + 1;
      if count > 0 then count else 0
    else 0
  }

  /** `Math.ceil(t / d)` for a non-zero `d`. */
  function CeilDiv(t: int, d: int): (q: int)
    requires d != 0
    ensures d > 0 ==> d * (q - 1) < t <= d * q
    ensures d < 0 ==> d * q <= t < d * (q - 1)
  {
    if d > 0 then -((-t) / d) else -(t / (-d))
  }

  /** The "pages per day" hint: a number, or `Infinity` for a duration of 0. */
  datatype Hint = PerDay(pages: int) | Unbounded

  /** `Math.ceil(totalPages / parseInt(duration || '1'))`: an empty duration
      counts as one day, and a duration typed as 0 or below still gets a
      hint, since `min="1"` only blocks the submission. For a negative
      duration the ceiling is that of a negative quotient. */
  function HintFor(total: int, duration: NumField): (h: Hint)
    ensures h.Unbounded? <==> duration == Value(0)
    ensures duration.Blank? ==> h == PerDay(total)
    ensures duration.Value? && duration.n > 0
            ==> h.PerDay? && duration.n * (h.pages - 1) < total <= duration.n * h.pages
    ensures duration.Value? && duration.n < 0
            ==> h.PerDay? && duration.n * h.pages <= total < duration.n * (h.pages - 1)
  {
    var days := match duration case Blank => 1 case Value(n) => n;
    if days == 0 then Unbounded else PerDay(CeilDiv(total, days))
  }

  datatype Summary = Summary(totalPages: int, hint: Hint)

  /** The summary box, shown only while the page count is positive. */
  function SummaryOf(from: NumField, to: NumField, duration: NumField): (s: Option<Summary>)
    ensures s.Some? <==> TotalPages(from, to) > 0
    ensures s.Some? ==> s.value.totalPages == TotalPages(from, to)
    ensures s.Some? ==> s.value.hint == HintFor(TotalPages(from, to), duration)
  {
    var total := TotalPages(from, to);
    if total > 0 then Some(Summary(total, HintFor(total, duration))) else None
  }

  /** The book `handleSubmit` builds; its id is `Date.now()` in decimal. */
  function SubmittedBook(title: string, from: int, to: int, duration: int, now: int): (b: Storage.Book)
    ensures b.id == Text.IntToString(now) && b.title == title
    ensures b.pageFrom == from && b.pageTo == to && b.duration == duration
    ensures b.totalPages == TotalPages(Value(from), Value(to))
  {
    Storage.Book(Text.IntToString(now), title, from, to, duration, TotalPages(Value(from), Value(to)))
  }

  /** Books submitted at different instants get different ids. */
  lemma SubmittedIdsDistinct(t1: string, f1: int, to1: int, d1: int, now1: int,
                             t2: string, f2: int, to2: int, d2: int, now2: int)
    requires now1 != now2
    ensures SubmittedBook(t1, f1, to1, d1, now1).id != SubmittedBook(t2, f2, to2, d2, now2).id
  {
    if Text.IntToString(now1) == Text.IntToString(now2) {
      Text.IntToStringInjective(now1, now2);
    }
  }

  /** The hint the form shows is the number of pages the schedule gives
      each day. */
  lemma HintMatchesSchedule(title: string, from: int, to: int, duration: int, now: int)
    requires duration >= 1 && from <= to
    ensures var s := SummaryOf(Value(from), Value(to), Value(duration));
            s.Some? && s.value.hint == PerDay(Storage.PagesPerDay(SubmittedBook(title, from, to, duration, now)))
  {
    var b := SubmittedBook(title, from, to, duration, now);
    var h := HintFor(b.totalPages, Value(duration));
    var p := Storage.PagesPerDay(b);
    assert h.PerDay?;
    CeilUnique(b.totalPages, duration, h.pages, p);
  }

  /** Two whole numbers that both satisfy the ceiling's bounds are equal. */
  lemma CeilUnique(t: int, d: int, q1: int, q2: int)
    requires d > 0
    requires d * (q1 - 1) < t <= d * q1 && d * (q2 - 1) < t <= d * q2
    ensures q1 == q2
  {
    if q1 < q2 {
      Storage.MulMonotone(q1, q2 - 1, d);
    } else if q2 < q1 {
      Storage.MulMonotone(q2, q1 - 1, d);
    }
  }

  /** A submitted book with its range in order is read in full: each page of
      the range falls in exactly one day's block. */
  lemma SubmittedBookCovered(title: string, from: int, to: int, duration: int, now: int,
                             startDate: int, p: int, d: int)
    requires 1 <= from <= p <= to && duration >= 1 && 0 <= d < duration
    ensures var book := SubmittedBook(title, from, to, duration, now);
            var b := Storage.Plan(book, startDate)[d];
            b.pageFrom <= p <= b.pageTo <==> d == Storage.BlockOfPage(book, p)
  {
    Storage.PlanCoversEachPageOnce(SubmittedBook(title, from, to, duration, now), startDate, p, d);
  }

  /** A backwards range passes the form's checks but gets a page count of 0,
      and then every scheduled block is empty. */
  lemma BackwardsRangeSchedulesNothing(title: string, from: int, to: int, duration: int, now: int,
                                       startDate: int, d: int)
    requires to < from && duration >= 1 && 0 <= d < duration
    ensures var b := Storage.Plan(SubmittedBook(title, from, to, duration, now), startDate)[d];
            b.pageTo < b.pageFrom
  {
    var book := SubmittedBook(title, from, to, duration, now);
    var p := Storage.PagesPerDay(book);
    assert book.totalPages == 0;
    CeilUnique(0, duration, p, 0);
    Storage.PlanPages(book, startDate, d);
  }

  class BookForm {
    var title: string
    var pageFrom: NumField
    var pageTo: NumField
    var duration: NumField

    /** A fresh form: every input empty. */
    constructor ()
      ensures title == "" && pageFrom == Blank && pageTo == Blank && duration == Blank
    {
      title := "";
      pageFrom := Blank;
      pageTo := Blank;
      duration := Blank;
    }

    /** What the browser checks before it lets the form submit: the title is
        not empty and each number is given and at least 1. */
    predicate Submittable()
      reads this
    {
      && title != ""
      && pageFrom.Value? && pageFrom.n >= 1
      && pageTo.Value? && pageTo.n >= 1
      && duration.Value? && duration.n >= 1
    }

    /** `handleSubmit`: the book is appended to the stored books, the
        schedule is left alone and the page moves on to the schedule. */
    method HandleSubmit(store: Storage.Store, now: int) returns (navigateTo: string)
      requires Submittable()
      modifies store
      ensures store.books == old(store.books) + [SubmittedBook(title, pageFrom.n, pageTo.n, duration.n, now)]
      ensures store.schedule == old(store.schedule)
      ensures navigateTo == "/schedule"
    {
      store.AddBook(SubmittedBook(title, pageFrom.n, pageTo.n, duration.n, now));
      navigateTo := "/schedule";
    }
  }
}
