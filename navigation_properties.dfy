/** What the reader's navigation does, stated about the transitions of module
    Navigation: the three branches of each paging step, the ranges both
    indices stay in, what a chapter crossing followed by a load leaves, and
    what repeated paging reaches. */
module NavigationProperties {
  import opened Navigation

  lemma InitialValid()
    ensures Valid(Initial())
  {
  }

  // ----- nextPage, branch by branch -----

  /** Before the last loaded page, `nextPage` moves one page on and changes
      nothing else. */
  lemma NextPageWithinChapter(s: ReaderState)
    requires s.currentPageIndex < |s.pages| - 1
    ensures AfterNextPage(s) == s.(currentPageIndex := s.currentPageIndex + 1)
  {
  }

  /** On (or past) the last loaded page, with a later chapter in the book,
      `nextPage` selects that chapter at page index 0. */
  lemma NextPageCrossesChapter(s: ReaderState)
    requires s.selectedBook.Some? && s.selectedChapter.Some?
    requires s.currentPageIndex >= |s.pages| - 1
    requires s.selectedChapter.value < |s.selectedBook.value.chapterIds| - 1
    ensures AfterNextPage(s)
         == s.(selectedChapter := Some(s.selectedChapter.value + 1), currentPageIndex := 0)
  {
  }

  /** On the last page of the last chapter (or with no chapter selected),
      `nextPage` changes nothing. */
  lemma NextPageAtEndIsNoOp(s: ReaderState)
    requires ChapterHasBook(s)
    requires s.currentPageIndex >= |s.pages| - 1
    requires s.selectedChapter.Some? ==>
      s.selectedChapter.value >= |s.selectedBook.value.chapterIds| - 1
    ensures AfterNextPage(s) == s
  {
  }

  // ----- previousPage, branch by branch -----

  lemma PreviousPageWithinChapter(s: ReaderState)
    requires s.currentPageIndex > 0
    ensures AfterPreviousPage(s) == s.(currentPageIndex := s.currentPageIndex - 1)
  {
  }

  /** On the first page of a chapter that is not the book's first,
      `previousPage` selects the previous chapter and sets the page index to
      the last index of the pages still loaded, those of the chapter left. */
  lemma PreviousPageCrossesChapter(s: ReaderState)
    requires s.selectedChapter.Some? && s.selectedChapter.value > 0
    requires s.currentPageIndex <= 0
    ensures AfterPreviousPage(s)
         == s.(selectedChapter := Some(s.selectedChapter.value - 1), currentPageIndex := |s.pages| - 1)
  {
  }

  lemma PreviousPageAtStartIsNoOp(s: ReaderState)
    requires s.currentPageIndex <= 0
    requires s.selectedChapter.Some? ==> s.selectedChapter.value == 0
    ensures AfterPreviousPage(s) == s
  {
  }

  /** With pages loaded and both indices in range, a step either way keeps
      both indices in range. */
  lemma PagingKeepsIndicesInRange(s: ReaderState)
    requires s.selectedBook.Some? && s.selectedChapter.Some?
    requires s.selectedChapter.value < |s.selectedBook.value.chapterIds|
    requires 0 <= s.currentPageIndex < |s.pages|
    ensures var r := AfterNextPage(s);
      r.selectedChapter.Some? && r.selectedChapter.value < |s.selectedBook.value.chapterIds| &&
      0 <= r.currentPageIndex < |r.pages|
    ensures var r := AfterPreviousPage(s);
      r.selectedChapter.Some? && r.selectedChapter.value < |s.selectedBook.value.chapterIds| &&
      0 <= r.currentPageIndex < |r.pages|
  {
  }

  // ----- Crossings and loads -----

  /** Going back across a chapter boundary and then receiving that chapter's
      pages leaves the reader on the FIRST page of the previous chapter: the
      load resets the index that the crossing set, although the comments at
      `previousPage` say it should end on that chapter's last page. */
  lemma BackwardCrossingThenLoadStartsAtFirstPage(s: ReaderState, loaded: seq<Page>)
    requires s.selectedChapter.Some? && s.selectedChapter.value > 0
    requires s.currentPageIndex == 0
    ensures var r := AfterPagesLoaded(AfterPreviousPage(s), loaded);
      r.selectedChapter == Some(s.selectedChapter.value - 1) &&
      r.pages == loaded && r.currentPageIndex == 0
  {
  }

  /** Inside a chapter, a step forward and a step back return to the same state. */
  lemma NextThenPreviousWithinChapter(s: ReaderState)
    requires 0 <= s.currentPageIndex < |s.pages| - 1
    ensures AfterPreviousPage(AfterNextPage(s)) == s
  {
  }

  /** Across a chapter boundary, as long as no pages arrive in between, a step
      forward and a step back also return to the same state: going back uses
      the pages still loaded, which are the chapter's own. */
  lemma NextThenPreviousAcrossChapters(s: ReaderState)
    requires s.selectedBook.Some? && s.selectedChapter.Some?
    requires s.selectedChapter.value < |s.selectedBook.value.chapterIds| - 1
    requires |s.pages| > 0 && s.currentPageIndex == |s.pages| - 1
    ensures AfterPreviousPage(AfterNextPage(s)) == s
  {
  }

  /** A click left of the image's middle goes to the next page. */
  lemma LeftHalfClickAdvances(s: ReaderState, offsetX: int, clientWidth: int)
    requires 2 * offsetX < clientWidth
    requires 0 <= s.currentPageIndex < |s.pages| - 1
    ensures AfterImageClick(s, offsetX, clientWidth) == s.(currentPageIndex := s.currentPageIndex + 1)
  {
  }

  /** A click on or right of the image's middle goes to the previous page. */
  lemma RightHalfClickRetreats(s: ReaderState, offsetX: int, clientWidth: int)
    requires 2 * offsetX >= clientWidth
    requires s.currentPageIndex > 0
    ensures AfterImageClick(s, offsetX, clientWidth) == s.(currentPageIndex := s.currentPageIndex - 1)
  {
  }

  /** Clicks at 3/10 and 7/10 of the image's width: the first goes forward a
      page, the second back. */
  lemma ClickAtThreeAndSevenTenths(s: ReaderState, width: nat)
    requires width > 0
    requires 0 <= s.currentPageIndex < |s.pages| - 1
    ensures AfterImageClick(s, 3 * width, 10 * width) == s.(currentPageIndex := s.currentPageIndex + 1)
    ensures AfterImageClick(s.(currentPageIndex := s.currentPageIndex + 1), 7 * width, 10 * width) == s
  {
  }

  /** A click on the left half then one on the right half of the image
      (any widths): the first moves one page on, the second back to where
      the reader started, inside a chapter. */
  lemma LeftThenRightClickReturns(s: ReaderState, x1: int, w1: int, x2: int, w2: int)
    requires 2 * x1 < w1 && 2 * x2 >= w2
    requires 0 <= s.currentPageIndex < |s.pages| - 1
    ensures AfterImageClick(s, x1, w1) == s.(currentPageIndex := s.currentPageIndex + 1)
    ensures AfterImageClick(AfterImageClick(s, x1, w1), x2, w2) == s
  {
  }

  // ----- Repeated paging -----

  /** `nextPage` applied `k` times. */
  function NextPageN(s: ReaderState, k: nat): (r: ReaderState)
    requires ChapterHasBook(s)
    ensures ChapterHasBook(r)
    ensures r.books == s.books && r.selectedBook == s.selectedBook && r.pages == s.pages
  {
    if k == 0 then s else AfterNextPage(NextPageN(s, k - 1))
  }

  /** `previousPage` applied `k` times. */
  function PreviousPageN(s: ReaderState, k: nat): (r: ReaderState)
    ensures r.books == s.books && r.selectedBook == s.selectedBook && r.pages == s.pages
    ensures r.selectedChapter.Some? <==> s.selectedChapter.Some?
  {
    if k == 0 then s else AfterPreviousPage(PreviousPageN(s, k - 1))
  }

  /** `k` forward clicks from page `i` reach page `i + k` of the same chapter
      while that page is loaded. */
  lemma {:induction false} ForwardWithinChapter(s: ReaderState, k: nat)
    requires ChapterHasBook(s)
    requires 0 <= s.currentPageIndex && s.currentPageIndex + k < |s.pages|
    ensures NextPageN(s, k) == s.(currentPageIndex := s.currentPageIndex + k)
  {
    if k > 0 {
      ForwardWithinChapter(s, k - 1);
    }
  }

  /** `k` backward clicks from page `i` reach page `i - k` when `k <= i`. */
  lemma {:induction false} BackwardWithinChapter(s: ReaderState, k: nat)
    requires k <= s.currentPageIndex
    ensures PreviousPageN(s, k) == s.(currentPageIndex := s.currentPageIndex - k)
  {
    if k > 0 {
      BackwardWithinChapter(s, k - 1);
    }
  }

  /** From page `i` of a chapter with `n` loaded pages and a later chapter,
      `n - i` forward clicks select the next chapter at page index 0. */
  lemma PagingForwardReachesNextChapter(s: ReaderState)
    requires s.selectedBook.Some? && s.selectedChapter.Some?
    requires s.selectedChapter.value < |s.selectedBook.value.chapterIds| - 1
    requires 0 <= s.currentPageIndex < |s.pages|
    ensures NextPageN(s, |s.pages| - s.currentPageIndex)
         == s.(selectedChapter := Some(s.selectedChapter.value + 1), currentPageIndex := 0)
  {
    var k := |s.pages| - 1 - s.currentPageIndex;
    ForwardWithinChapter(s, k);
    var last := s.(currentPageIndex := |s.pages| - 1);
    assert NextPageN(s, k) == last;
    NextPageCrossesChapter(last);
    assert NextPageN(s, k + 1) == AfterNextPage(last);
  }

  /** From page `i` of a chapter that is not the first, `i + 1` backward
      clicks select the previous chapter, with the page index set to the last
      index of the pages still loaded. */
  lemma PagingBackwardReachesPreviousChapter(s: ReaderState)
    requires s.selectedChapter.Some? && s.selectedChapter.value > 0
    requires 0 <= s.currentPageIndex
    ensures PreviousPageN(s, s.currentPageIndex + 1)
         == s.(selectedChapter := Some(s.selectedChapter.value - 1), currentPageIndex := |s.pages| - 1)
  {
    BackwardWithinChapter(s, s.currentPageIndex);
  }

  // ----- Every reachable state -----

  /** Any admissible sequence of events keeps the invariant. */
  lemma {:induction false} RunPreservesValid(s: ReaderState, events: seq<Event>)
    requires Valid(s) && Admissible(s, events)
    ensures Valid(Run(s, events))
    decreases |events|
  {
    if events != [] {
      RunPreservesValid(Step(s, events[0]), events[1..]);
    }
  }

  /** Every state the component can reach from mounting is valid, so the
      image it shows whenever pages are loaded is a loaded page. */
  lemma ReachableStatesAreValid(events: seq<Event>)
    requires Admissible(Initial(), events)
    ensures Valid(Run(Initial(), events))
    ensures |Run(Initial(), events).pages| > 0 ==>
      0 <= Run(Initial(), events).currentPageIndex < |Run(Initial(), events).pages|
  {
    RunPreservesValid(Initial(), events);
  }

  // ----- A two-chapter book -----

  function Pic(n: int): Page
  {
    Page(n, n, Image(n, "page.png", 800, 1200))
  }

  /** Book A has chapters [10, 20]; chapter 10 has two pages, chapter 20 one.
      From the last page of chapter 10, forward reaches chapter 20 at page 0;
      once its page arrives, forward again changes nothing. */
  lemma TwoChapterForward()
    ensures var a := Book(1, "A", [10, 20]);
      var s0 := ReaderState([a], Some(a), Some(0), [Pic(1), Pic(2)], 1);
      var s1 := AfterNextPage(s0);
      var s2 := AfterPagesLoaded(s1, [Pic(3)]);
      s1.selectedChapter == Some(1) && s1.currentPageIndex == 0 &&
      RequestedFetch(s1) == FetchChapter(20) &&
      AfterNextPage(s2) == s2
  {
  }

  /** From the single page of chapter 20, back selects chapter 10 with page
      index 0 (one page loaded, minus one); when chapter 10's two pages
      arrive the reader shows their first page, index 0 (the last is 1). */
  lemma TwoChapterBackward()
    ensures var a := Book(1, "A", [10, 20]);
      var s0 := ReaderState([a], Some(a), Some(1), [Pic(3)], 0);
      var s1 := AfterPreviousPage(s0);
      var s2 := AfterPagesLoaded(s1, [Pic(1), Pic(2)]);
      s1.selectedChapter == Some(0) && s1.currentPageIndex == 0 &&
      RequestedFetch(s1) == FetchChapter(10) &&
      s2.selectedChapter == Some(0) && s2.pages == [Pic(1), Pic(2)] && s2.currentPageIndex == 0
  {
  }
}
