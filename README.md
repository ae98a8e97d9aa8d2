# Book reader navigation, in Dafny

A model of the navigation state machine of a small web comic/book reader. The
reader component keeps five state cells: the list of books, the selected book,
the selected chapter (an index into the book's list of chapter ids), the pages
of the chapter loaded last, and the index of the page shown. Clicks on a book
button, a chapter button or the image change them. So do two load
reactions: the book list arriving at start-up and a chapter's pages arriving
after the selection changed.

- `navigation.dfy` (module `Navigation`) holds the data model as datatypes
  (`Book`, `Page`, `Image`, `ReaderState`) and one function per transition
  (`AfterBookClick`, `AfterNextPage`, …). It also holds the invariant `Valid`:
  both indices in range. The events the component reacts to, with the
  condition under which each can occur (`Enabled`), are there too, and `Run`
  plays a sequence of them.
- `book_buttons.dfy` (module `BookButtons`) holds the component itself: class
  `Reader`, whose fields are the five state cells. Each handler is a method
  that updates them in place, and each is proved to perform the transition of
  the same name. `HandleImageClick` calls `NextPage` or `PreviousPage`, as the
  component does.
- `navigation_properties.dfy` (module `NavigationProperties`) states what the
  navigation does. It covers each branch of the two paging steps and the
  no-op at either end. It shows the indices staying in range, and what a
  chapter crossing followed by a load leaves. It covers what repeated
  clicking reaches, the fact that every reachable state is valid, and the
  two-chapter example.

Where the code does something other than what its comments or the expected
reader behaviour suggest, the model follows the code:

- Going back from the first page of a chapter selects the previous chapter.
  It sets the page index to the last index of the pages *still loaded*, which
  are those of the chapter being left. When the previous chapter's pages
  arrive, the load resets the index to 0. The reader therefore ends on the
  first page of the previous chapter, although the comments at `previousPage`
  (reader/src/BookButtons.tsx:100 and :103) say it should end on the last
  page (`BackwardCrossingThenLoadStartsAtFirstPage`, `TwoChapterBackward`).
- The code has no guard against a late answer for a chapter that is no longer
  selected. Every arriving page list replaces the loaded pages
  (`AfterPagesLoaded` takes no chapter id).
- `nextPage` reads the selected book's chapter list without a null check. The
  model makes the exact demand explicit as `NextPageSafe`. That demand is:
  the page test succeeds, or no chapter is selected, or a book is selected.
  Every reachable state meets it, because a chapter is never selected without
  a book (`ChapterHasBook`).

Click positions are integers (`offsetX`, `clientWidth`). The test "left of
the middle" is written `2 * offsetX < clientWidth`, and clicks on the left
half go forward.

## Model

| member | source | states |
|---|---|---|
| `Navigation.Initial` | reader/src/BookButtons.tsx:21-25 | the component starts with no books, no pages, no book or chapter selected, and page index 0 |
| `Navigation.AfterBooksLoaded` | reader/src/BookButtons.tsx:33-37 | the list replaces `books`; a non-empty list selects its first book at chapter 0, an empty one leaves the selection alone; pages and page index untouched; keeps `Valid` |
| `Navigation.AfterBookClick` | reader/src/BookButtons.tsx:46-50 | selects the book at chapter 0 and page index 0, leaves books and pages unchanged, and the result is always `Valid` |
| `Navigation.AfterChapterClick` | reader/src/BookButtons.tsx:70-72 | only the chapter index changes; `Valid` is kept when the index is one of the selected book's chapters |
| `Navigation.AfterNextPage` | reader/src/BookButtons.tsx:85-94 | never changes books, selected book or pages; a chapter stays selected iff one was; keeps `Valid` |
| `Navigation.AfterPreviousPage` | reader/src/BookButtons.tsx:96-105 | never changes books, selected book or pages; a chapter stays selected iff one was; keeps `Valid` |
| `Navigation.AfterImageClick` | reader/src/BookButtons.tsx:74-83 | a click never changes books, selected book or pages, and keeps `Valid`; needs the book only for a left-half click |
| `Navigation.NextPageSafe` | reader/src/BookButtons.tsx:86-88 | the exact condition under which line 88 does not dereference a missing book; every state with a chapter tied to a book meets it |
| `Navigation.Enabled` | reader/src/BookButtons.tsx:54-178 | when each event can occur: book buttons for the loaded books (121-124), chapter buttons for the selected book's chapters (140-147), the image with a book, chapter and pages (140, 163-178), a page load iff the reaction of line 54 makes a request; an enabled image click meets `NextPageSafe` |
| `Navigation.RequestedFetch` | reader/src/BookButtons.tsx:54-57 | a request is made iff a book and a chapter are selected; the id requested is the selected chapter's; in a valid state `undefined` is requested only for a book with no chapters |
| `Navigation.AfterPagesLoaded` | reader/src/BookButtons.tsx:59-60 | the arriving pages replace `pages` and the index becomes 0, selection untouched; the result is valid whenever the chapter index was in range |
| `Navigation.Step` | reader/src/BookButtons.tsx:33-105 | every event that can occur keeps `Valid` |
| `BookButtons.Reader.constructor` | reader/src/BookButtons.tsx:21-25 | the fields start as `Initial()`, which is valid |
| `BookButtons.Reader.BooksLoaded` | reader/src/BookButtons.tsx:33-37 | updates the fields exactly as `AfterBooksLoaded` |
| `BookButtons.Reader.HandleBookClick` | reader/src/BookButtons.tsx:46-50 | updates the fields exactly as `AfterBookClick` |
| `BookButtons.Reader.HandleChapterClick` | reader/src/BookButtons.tsx:70-72 | updates the fields exactly as `AfterChapterClick` |
| `BookButtons.Reader.ChapterToFetch` | reader/src/BookButtons.tsx:54-56 | returns the request `RequestedFetch` describes, changing nothing |
| `BookButtons.Reader.PagesLoaded` | reader/src/BookButtons.tsx:59-60 | updates the fields exactly as `AfterPagesLoaded` |
| `BookButtons.Reader.NextPage` | reader/src/BookButtons.tsx:85-94 | updates the fields exactly as `AfterNextPage`, requiring only what line 88 dereferences |
| `BookButtons.Reader.PreviousPage` | reader/src/BookButtons.tsx:96-105 | updates the fields exactly as `AfterPreviousPage` |
| `BookButtons.Reader.HandleImageClick` | reader/src/BookButtons.tsx:74-83 | updates the fields exactly as `AfterImageClick`, by calling `NextPage` or `PreviousPage` |
| `NavigationProperties.InitialValid` | reader/src/BookButtons.tsx:21-25 | the initial state satisfies the invariant |
| `NavigationProperties.NextPageWithinChapter` | reader/src/BookButtons.tsx:86-87 | before the last loaded page, next page adds exactly 1 to the page index and changes nothing else |
| `NavigationProperties.NextPageCrossesChapter` | reader/src/BookButtons.tsx:88-92 | on the last page with a later chapter, next page selects chapter + 1 at page index 0, pages unchanged |
| `NavigationProperties.NextPageAtEndIsNoOp` | reader/src/BookButtons.tsx:85-94 | on the last page of the last chapter next page changes nothing |
| `NavigationProperties.PreviousPageWithinChapter` | reader/src/BookButtons.tsx:97-98 | after the first page, previous page subtracts exactly 1 from the page index and changes nothing else |
| `NavigationProperties.PreviousPageCrossesChapter` | reader/src/BookButtons.tsx:99-103 | on the first page of a later chapter, previous page selects chapter - 1 with page index = length of the still-loaded pages - 1 |
| `NavigationProperties.PreviousPageAtStartIsNoOp` | reader/src/BookButtons.tsx:96-105 | on the first page of chapter 0 previous page changes nothing |
| `NavigationProperties.PagingKeepsIndicesInRange` | reader/src/BookButtons.tsx:85-105 | with pages loaded and both indices in range, next and previous page keep both in range |
| `NavigationProperties.BackwardCrossingThenLoadStartsAtFirstPage` | reader/src/BookButtons.tsx:99-103 | a backward crossing followed by the load of line 60 leaves the previous chapter at page index 0, with the loaded pages |
| `NavigationProperties.NextThenPreviousWithinChapter` | reader/src/BookButtons.tsx:85-105 | inside a chapter, next then previous page returns to the same state |
| `NavigationProperties.NextThenPreviousAcrossChapters` | reader/src/BookButtons.tsx:88-103 | across a chapter boundary with no load in between, next then previous page returns to the same state |
| `NavigationProperties.LeftHalfClickAdvances` | reader/src/BookButtons.tsx:78-79 | a click left of the middle, before the last loaded page, adds exactly 1 to the page index and changes nothing else |
| `NavigationProperties.RightHalfClickRetreats` | reader/src/BookButtons.tsx:80-81 | a click on or right of the middle, after the first page, subtracts exactly 1 from the page index and changes nothing else |
| `NavigationProperties.ClickAtThreeAndSevenTenths` | reader/src/BookButtons.tsx:74-83 | a click at 3/10 of the width goes one page forward, one at 7/10 one page back |
| `NavigationProperties.LeftThenRightClickReturns` | reader/src/BookButtons.tsx:74-83 | a left-half click moves one page on, and a right-half click after it returns to the starting state inside a chapter |
| `NavigationProperties.NextPageN` | reader/src/BookButtons.tsx:85-94 | any number of next-page steps keeps a chapter tied to a book and never changes books, selected book or pages |
| `NavigationProperties.PreviousPageN` | reader/src/BookButtons.tsx:96-105 | any number of previous-page steps never changes books, selected book or pages |
| `NavigationProperties.ForwardWithinChapter` | reader/src/BookButtons.tsx:86-87 | k forward steps from page i reach page i + k while it is loaded |
| `NavigationProperties.BackwardWithinChapter` | reader/src/BookButtons.tsx:97-98 | k backward steps from page i reach page i - k when k <= i |
| `NavigationProperties.PagingForwardReachesNextChapter` | reader/src/BookButtons.tsx:85-94 | from page i of n with a later chapter, n - i forward steps give the next chapter at page index 0 |
| `NavigationProperties.PagingBackwardReachesPreviousChapter` | reader/src/BookButtons.tsx:96-105 | from page i of a later chapter, i + 1 backward steps give the previous chapter at the still-loaded pages' last index |
| `NavigationProperties.RunPreservesValid` | reader/src/BookButtons.tsx:28-105 | any admissible sequence of loads and clicks keeps both indices in range |
| `NavigationProperties.ReachableStatesAreValid` | reader/src/BookButtons.tsx:21-105 | every state reachable from mounting is valid, so with pages loaded the page index names a loaded page |
| `NavigationProperties.TwoChapterForward` | reader/src/BookButtons.tsx:85-94 | chapters [10, 20] with 2 and 1 pages: from the last page of 10 forward requests 20 at page 0; after its load forward does nothing |
| `NavigationProperties.TwoChapterBackward` | reader/src/BookButtons.tsx:96-105 | from chapter 20 back requests 10; after its two pages load the reader is on chapter index 0 at page index 0 |

## Left out

- The HTTP requests, their fixed endpoints and the JSON decoding (reader/src/BookButtons.tsx:31-32, 57-58) are network I/O. Only their results are modelled, as the payloads of the `BooksLoaded` and `PagesLoaded` events.
- A failed load only writes to the console (38-40, 61-63). It is modelled as an event that changes nothing (`BooksLoadFailed`, `PagesLoadFailed`).
- The reply to a request for chapter `undefined` is not modelled, nor a reply without a `pages` field. `RequestedFetch` says when such a request is made.
- React's scheduling is not modelled. That covers effect dependencies compared by reference (a click that leaves book and chapter as they were starts no load) and the order in which concurrent chapter loads complete. A page load may arrive in any state with a book and chapter selected (`Enabled`). No ordering is promised, because the code has no staleness check.
- Rendering, styles and the page counter (107-193) are left out. They appear only as the conditions under which a button or the image exists (`Enabled`).
- reader/src/main.tsx only mounts the component.
- Image metadata is carried as opaque data; nothing reads it.
- The click position and width are integers. Fractional pixel offsets are not modelled.
