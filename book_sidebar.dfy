/** The sidebar of src/components/BookSidebar.tsx: the stored books, narrowed
    by a case-insensitive search on the title, each shown as a draggable card
    whose drag data is the book itself. */
module BookSidebar {
  import Text
  import Seqs
  import Storage

  /** `book.title.toLowerCase().includes(search.toLowerCase())`. */
  predicate Matches(book: Storage.Book, search: string) {
    Text.Contains(Text.ToLower(book.title), Text.ToLower(search))
  }

  /** `filteredBooks`. */
  function FilteredBooks(books: seq<Storage.Book>, search: string): (r: seq<Storage.Book>)
    ensures |r| <= |books|
  {
    Seqs.Filter(books, (b: Storage.Book) => Matches(b, search))
  }

  /** A book is listed exactly when it is stored and the lower-cased search
      text occurs somewhere in its lower-cased title. */
  lemma FilteredIff(books: seq<Storage.Book>, search: string, b: Storage.Book)
    ensures b in FilteredBooks(books, search)
            <==> b in books && exists i :: Text.OccursAt(Text.ToLower(b.title), Text.ToLower(search), i)
  {
    Seqs.FilterIn(books, (x: Storage.Book) => Matches(x, search), b);
    Text.ContainsIff(Text.ToLower(b.title), Text.ToLower(search));
  }

  /** With an empty search box every book is listed, in stored order. */
  lemma EmptySearchListsAll(books: seq<Storage.Book>)
    ensures FilteredBooks(books, "") == books
  {
    forall i | 0 <= i < |books| ensures Matches(books[i], "") {
      assert Text.StartsWith(Text.ToLower(books[i].title), Text.ToLower(""));
    }
    Seqs.FilterAll(books, (x: Storage.Book) => Matches(x, ""));
  }

  /** The case of the search text does not matter. */
  lemma SearchIgnoresCase(books: seq<Storage.Book>, search: string)
    ensures FilteredBooks(books, Text.ToUpper(search)) == FilteredBooks(books, search)
    ensures FilteredBooks(books, Text.ToLower(search)) == FilteredBooks(books, search)
  {
    Text.LowerAfterUpper(search);
    Text.LowerIdempotent(search);
    Seqs.FilterCongruent(books, (x: Storage.Book) => Matches(x, Text.ToUpper(search)),
                         (x: Storage.Book) => Matches(x, search));
    Seqs.FilterCongruent(books, (x: Storage.Book) => Matches(x, Text.ToLower(search)),
                         (x: Storage.Book) => Matches(x, search));
  }

  /** Typing more characters never brings a book back: every book listed for
      `search + more` is listed for `search`. */
  lemma TypingNarrows(books: seq<Storage.Book>, search: string, more: string, b: Storage.Book)
    requires b in FilteredBooks(books, search + more)
    ensures b in FilteredBooks(books, search)
  {
    var h, ls, lm := Text.ToLower(b.title), Text.ToLower(search), Text.ToLower(more);
    assert Text.ToLower(search + more) == ls + lm;
    FilteredIff(books, search + more, b);
    FilteredIff(books, search, b);
    var i :| Text.OccursAt(h, ls + lm, i);
    assert h[i..i + |ls|] == (ls + lm)[..|ls|] == ls;
    assert Text.OccursAt(h, ls, i);
  }

  /** One draggable card: its id and drag data come from the book. */
  datatype Card = Card(id: string, data: Storage.Book)

  /** What the list area shows. */
  datatype View = NoBooksFound | Cards(cards: seq<Card>)

  /** The list area: a "No books found" line, or one card per listed book. */
  function Render(books: seq<Storage.Book>, search: string): (v: View)
    ensures v.NoBooksFound? <==> FilteredBooks(books, search) == []
    ensures v.Cards? ==> |v.cards| == |FilteredBooks(books, search)|
                         && forall i :: 0 <= i < |v.cards| ==>
                              v.cards[i].data == FilteredBooks(books, search)[i]
                              && v.cards[i].id == v.cards[i].data.id
  {
    var shown := FilteredBooks(books, search);
    if |shown| == 0 then NoBooksFound
    else Cards(seq(|shown|, i requires 0 <= i < |shown| => Card(shown[i].id, shown[i])))
  }

  /** No stored books means the "No books found" line whatever the search. */
  lemma NoBooksNoCards(search: string)
    ensures Render([], search) == NoBooksFound
  {
  }
}
