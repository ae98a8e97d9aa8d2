/** The reader component's data and navigation state as values, and the state
    transitions that its click handlers and its two load reactions perform.
    The class in book_buttons.dfy holds the same five cells as mutable fields
    and proves each of its handlers equal to the transition defined here. */
module Navigation {

  datatype Option<T> = None | Some(value: T)

  /** Image metadata of a page; the reader only hands `file` to the image element. */
  datatype Image = Image(id: int, file: string, width: int, height: int)

  datatype Page = Page(id: int, pageIndex: int, image: Image)

  /** A book knows its chapters only by id, listed in reading order. */
  datatype Book = Book(id: int, title: string, chapterIds: seq<int>)

  /** The five state cells of the component. `selectedChapter` is an index
      into the selected book's `chapterIds`, not a chapter id; `pages` are the
      pages of the chapter loaded last and `currentPageIndex` indexes them. */
  datatype ReaderState = ReaderState(
    books: seq<Book>,
    selectedBook: Option<Book>,
    selectedChapter: Option<nat>,
    pages: seq<Page>,
    currentPageIndex: int)

  /** The state the component is mounted with. */
  function Initial(): (s: ReaderState)
    ensures s.books == [] && s.pages == []
    ensures s.selectedBook.None? && s.selectedChapter.None?
    ensures s.currentPageIndex == 0
  {
    ReaderState([], None, None, [], 0)
  }

  // ----- Invariants -----

  /** A chapter is only ever selected together with a book. */
  predicate ChapterHasBook(s: ReaderState)
  {
    s.selectedChapter.Some? ==> s.selectedBook.Some?
  }

  /** The selected chapter index names a chapter of the selected book; the one
      exception is index 0 of a book that has no chapters at all, which both
      the books-loaded reaction and a book click can select. */
  predicate ChapterInRange(s: ReaderState)
  {
    ChapterHasBook(s) &&
    (s.selectedChapter.Some? ==>
      s.selectedChapter.value == 0 || s.selectedChapter.value < |s.selectedBook.value.chapterIds|)
  }

  /** The page index names a loaded page; with no pages loaded it is 0, or -1
      after a backward chapter crossing (the length of no pages, minus one). */
  predicate PageInRange(s: ReaderState)
  {
    0 <= s.currentPageIndex < |s.pages| || (s.pages == [] && -1 <= s.currentPageIndex <= 0)
  }

  predicate Valid(s: ReaderState)
  {
    ChapterInRange(s) && PageInRange(s)
  }

  // ----- Transitions -----

  /** The book list arrived: it replaces `books`, and a non-empty list also
      selects its first book at chapter index 0. */
  function AfterBooksLoaded(s: ReaderState, data: seq<Book>): (r: ReaderState)
    ensures r.books == data
    ensures r.pages == s.pages && r.currentPageIndex == s.currentPageIndex
    ensures |data| > 0 ==> r.selectedBook == Some(data[0]) && r.selectedChapter == Some(0)
    ensures data == [] ==> r.selectedBook == s.selectedBook && r.selectedChapter == s.selectedChapter
    ensures Valid(s) ==> Valid(r)
  {
    if |data| > 0 then
      s.(books := data, selectedBook := Some(data[0]), selectedChapter := Some(0))
    else
      s.(books := data)
  }

  /** A click on a book's button selects it at its first chapter and first
      page; the pages of the previous selection stay until the new ones load.
      Whatever the state before, the state after satisfies the invariant. */
  function AfterBookClick(s: ReaderState, book: Book): (r: ReaderState)
    ensures r.selectedBook == Some(book) && r.selectedChapter == Some(0) && r.currentPageIndex == 0
    ensures r.books == s.books && r.pages == s.pages
    ensures Valid(r)
  {
    s.(selectedBook := Some(book), selectedChapter := Some(0), currentPageIndex := 0)
  }

  /** A click on a chapter's button selects that chapter index and nothing else;
      the page index is reset only when that chapter's pages arrive. */
  function AfterChapterClick(s: ReaderState, index: nat): (r: ReaderState)
    ensures r.selectedChapter == Some(index)
    ensures r.books == s.books && r.selectedBook == s.selectedBook
    ensures r.pages == s.pages && r.currentPageIndex == s.currentPageIndex
    ensures Valid(s) && s.selectedBook.Some? && index < |s.selectedBook.value.chapterIds| ==> Valid(r)
  {
    s.(selectedChapter := Some(index))
  }

  /** What `nextPage` needs to run without dereferencing a missing book: the
      chapter test reads the selected book only after the page test failed
      and a chapter is selected. */
  predicate NextPageSafe(s: ReaderState)
    ensures ChapterHasBook(s) ==> NextPageSafe(s)
  {
    s.currentPageIndex < |s.pages| - 1 || s.selectedChapter.None? || s.selectedBook.Some?
  }

  /** `nextPage`: the next page of the loaded chapter, else the first page of
      the next chapter of the book, else nothing. It never touches the book
      list, the selected book or the loaded pages. */
  function AfterNextPage(s: ReaderState): (r: ReaderState)
    requires NextPageSafe(s)
    ensures r.books == s.books && r.selectedBook == s.selectedBook && r.pages == s.pages
    ensures r.selectedChapter.Some? <==> s.selectedChapter.Some?
    ensures Valid(s) ==> Valid(r)
  {
    if s.currentPageIndex < |s.pages| - 1 then
      s.(currentPageIndex := s.currentPageIndex + 1)
    else if s.selectedChapter.Some? && s.selectedChapter.value < |s.selectedBook.value.chapterIds| - 1 then
      s.(selectedChapter := Some(s.selectedChapter.value + 1), currentPageIndex := 0)
    else
      s
  }

  /** `previousPage`: the previous page of the loaded chapter, else the
      previous chapter of the book with the page index set from the pages
      still loaded (those of the chapter being left), else nothing. */
  function AfterPreviousPage(s: ReaderState): (r: ReaderState)
    ensures r.books == s.books && r.selectedBook == s.selectedBook && r.pages == s.pages
    ensures r.selectedChapter.Some? <==> s.selectedChapter.Some?
    ensures Valid(s) ==> Valid(r)
  {
    if s.currentPageIndex > 0 then
      s.(currentPageIndex := s.currentPageIndex - 1)
    else if s.selectedChapter.Some? && s.selectedChapter.value > 0 then
      s.(selectedChapter := Some(s.selectedChapter.value - 1), currentPageIndex := |s.pages| - 1)
    else
      s
  }

  /** A click on the image at horizontal offset `offsetX` of an image
      `clientWidth` wide: the left half (`offsetX < clientWidth / 2`, written
      without division) goes forward, the right half goes back. */
  function AfterImageClick(s: ReaderState, offsetX: int, clientWidth: int): (r: ReaderState)
    requires 2 * offsetX < clientWidth ==> NextPageSafe(s)
    ensures r.books == s.books && r.selectedBook == s.selectedBook && r.pages == s.pages
    ensures Valid(s) ==> Valid(r)
  {
    if 2 * offsetX < clientWidth then AfterNextPage(s) else AfterPreviousPage(s)
  }

  /** What the pages reaction requests for the current selection: nothing
      unless both a book and a chapter index are selected, the id at that
      index otherwise; an index past the end of the book's chapter list reads
      `undefined`, and that is what gets requested. */
  datatype ChapterFetch = NoFetch | FetchChapter(chapterId: int) | FetchUndefined

  function RequestedFetch(s: ReaderState): (f: ChapterFetch)
    ensures f.NoFetch? <==> s.selectedBook.None? || s.selectedChapter.None?
    ensures f.FetchChapter? ==>
      s.selectedChapter.value < |s.selectedBook.value.chapterIds| &&
      f.chapterId == s.selectedBook.value.chapterIds[s.selectedChapter.value]
    ensures Valid(s) && f.FetchUndefined? ==> s.selectedBook.value.chapterIds == []
  {
    if s.selectedBook.None? || s.selectedChapter.None? then NoFetch
    else if s.selectedChapter.value < |s.selectedBook.value.chapterIds| then
      FetchChapter(s.selectedBook.value.chapterIds[s.selectedChapter.value])
    else FetchUndefined
  }

  /** A chapter's pages arrived: they replace the loaded pages and the page
      index goes back to 0, whichever transition caused the load. */
  function AfterPagesLoaded(s: ReaderState, pages: seq<Page>): (r: ReaderState)
    ensures r.pages == pages && r.currentPageIndex == 0
    ensures r.books == s.books && r.selectedBook == s.selectedBook && r.selectedChapter == s.selectedChapter
    ensures ChapterInRange(s) ==> Valid(r)
  {
    s.(pages := pages, currentPageIndex := 0)
  }

  // ----- Event traces -----

  /** Everything that can happen to the component: the two loads arriving (or
      failing, which changes nothing) and the three kinds of click. */
  datatype Event =
    | BooksLoaded(data: seq<Book>)
    | BooksLoadFailed
    | BookClick(book: Book)
    | ChapterClick(index: nat)
    | ImageClick(offsetX: int, clientWidth: int)
    | PagesLoaded(pages: seq<Page>)
    | PagesLoadFailed

  /** When each event can occur: a book button exists for each loaded book, a
      chapter button for each chapter of the selected book, the image only
      while a book, a chapter and some pages are there, and a page load only
      answers a request, which needs a selected book and chapter. */
  predicate Enabled(s: ReaderState, e: Event)
    ensures e.ImageClick? && Enabled(s, e) ==> NextPageSafe(s)
    ensures e.PagesLoaded? ==> (Enabled(s, e) <==> !RequestedFetch(s).NoFetch?)
  {
    match e
    case BooksLoaded(_) => true
    case BooksLoadFailed => true
    case BookClick(b) => b in s.books
    case ChapterClick(i) => s.selectedBook.Some? && i < |s.selectedBook.value.chapterIds|
    case ImageClick(_, _) =>
      s.selectedBook.Some? && |s.selectedBook.value.chapterIds| > 0 &&
      s.selectedChapter.Some? && |s.pages| > 0
    case PagesLoaded(_) => s.selectedBook.Some? && s.selectedChapter.Some?
    case PagesLoadFailed => true
  }

  function Step(s: ReaderState, e: Event): (r: ReaderState)
    requires Enabled(s, e)
    ensures Valid(s) ==> Valid(r)
  {
    match e
    case BooksLoaded(data) => AfterBooksLoaded(s, data)
    case BooksLoadFailed => s
    case BookClick(b) => AfterBookClick(s, b)
    case ChapterClick(i) => AfterChapterClick(s, i)
    case ImageClick(x, w) => AfterImageClick(s, x, w)
    case PagesLoaded(ps) => AfterPagesLoaded(s, ps)
    case PagesLoadFailed => s
  }

  /** Every event of `events` can occur in the state the earlier ones lead to. */
  predicate Admissible(s: ReaderState, events: seq<Event>)
    decreases |events|
  {
    events == [] || (Enabled(s, events[0]) && Admissible(Step(s, events[0]), events[1..]))
  }

  function Run(s: ReaderState, events: seq<Event>): ReaderState
    requires Admissible(s, events)
    decreases |events|
  {
    if events == [] then s else Run(Step(s, events[0]), events[1..])
  }
}
