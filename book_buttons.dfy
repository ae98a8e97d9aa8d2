/** The reader component as an object: its five state cells are fields that
    the handlers update in place, and each handler is proved to perform the
    transition of the same name in module Navigation. */
module BookButtons {
  import opened Navigation

  class Reader {
    var books: seq<Book>
    var selectedBook: Option<Book>
    var selectedChapter: Option<nat>
    var pages: seq<Page>
    var currentPageIndex: int

    /** The state cells as one value. */
    function State(): ReaderState
      reads this
    {
      ReaderState(books, selectedBook, selectedChapter, pages, currentPageIndex)
    }

    /** Mounting: no books, no selection, no pages, page index 0. */
    constructor ()
      ensures State() == Initial()
      ensures Valid(State())
    {
      books := [];
      selectedBook := None;
      selectedChapter := None;
      pages := [];
      currentPageIndex := 0;
    }

    /** The book list arrived. */
    method BooksLoaded(data: seq<Book>)
      modifies this
      ensures State() == AfterBooksLoaded(old(State()), data)
    {
      books := data;
      if |data| > 0 {
        selectedBook := Some(data[0]);
        selectedChapter := Some(0);
      }
    }

    method HandleBookClick(book: Book)
      modifies this
      ensures State() == AfterBookClick(old(State()), book)
    {
      selectedBook := Some(book);
      selectedChapter := Some(0);
      currentPageIndex := 0;
    }

    method HandleChapterClick(index: nat)
      modifies this
      ensures State() == AfterChapterClick(old(State()), index)
    {
      selectedChapter := Some(index);
    }

    /** The chapter the pages reaction asks the server for, read off the
      current selection. */
    method ChapterToFetch() returns (f: ChapterFetch)
      ensures f == RequestedFetch(State())
    {
      match selectedBook
      case None =>
        f := NoFetch;
      case Some(book) =>
        match selectedChapter
        case None =>
          f := NoFetch;
        case Some(c) =>
          if c < |book.chapterIds| {
            f := FetchChapter(book.chapterIds[c]);
          } else {
            f := FetchUndefined;
          }
    }

    /** The requested chapter's pages arrived. */
    method PagesLoaded(newPages: seq<Page>)
      modifies this
      ensures State() == AfterPagesLoaded(old(State()), newPages)
    {
      pages := newPages;
      currentPageIndex := 0;
    }

    method NextPage()
      requires NextPageSafe(State())
      modifies this
      ensures State() == AfterNextPage(old(State()))
    {
      if currentPageIndex < |pages| - 1 {
        currentPageIndex := currentPageIndex + 1;
      } else if selectedChapter.Some? && selectedChapter.value < |selectedBook.value.chapterIds| - 1 {
        var nextChapter := selectedChapter.value + 1;
        selectedChapter := Some(nextChapter);
        currentPageIndex := 0;
      }
    }

    method PreviousPage()
      modifies this
      ensures State() == AfterPreviousPage(old(State()))
    {
      if currentPageIndex > 0 {
        currentPageIndex := currentPageIndex - 1;
      } else if selectedChapter.Some? && selectedChapter.value > 0 {
        var previousChapter := selectedChapter.value - 1;
        selectedChapter := Some(previousChapter);
        currentPageIndex := |pages| - 1;
      }
    }

    /** A click at `offsetX` on the image, `clientWidth` wide. */
    method HandleImageClick(offsetX: int, clientWidth: int)
      requires 2 * offsetX < clientWidth ==> NextPageSafe(State())
      modifies this
      ensures State() == AfterImageClick(old(State()), offsetX, clientWidth)
    {
      if 2 * offsetX < clientWidth {
        NextPage();
      } else {
        PreviousPage();
      }
    }
  }
}
