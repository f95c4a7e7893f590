/** Page navigation of frontend/src/pages/ViewerPage.jsx: the `pageNumber`
    and `numPages` state, the clamping Prev/Next handlers and the conditions
    that disable their buttons. */
module Viewer {
  import opened Wrappers

  /** `numPages` starts as `null`, which JavaScript's `Math.min` and `>=` treat as 0. */
  function PagesAsNumber(numPages: Option<nat>): int {
    if numPages.None? then 0 else numPages.value
  }

  /** `Math.max(prev - 1, 1)`. */
  function PrevPage(page: int): (r: int)
    ensures r >= 1
    ensures page > 1 ==> r == page - 1
    ensures page <= 1 ==> r == 1
  {
    if page - 1 > 1 then page - 1 else 1
  }

  /** `Math.min(prev + 1, numPages)`. */
  function NextPage(page: int, numPages: int): (r: int)
    ensures r <= numPages
    ensures page < numPages ==> r == page + 1
    ensures page >= numPages ==> r == numPages
  {
    if page + 1 < numPages then page + 1 else numPages
  }

  /** `disabled={pageNumber <= 1}`. */
  predicate PrevDisabled(page: int) {
    page <= 1
  }

  /** `disabled={pageNumber >= numPages}`. */
  predicate NextDisabled(page: int, numPages: int) {
    page >= numPages
  }

  /** On a document with pages, both handlers keep the page in range. */
  lemma NavigationStaysInRange(page: int, numPages: int)
    requires 1 <= page <= numPages
    ensures 1 <= PrevPage(page) <= numPages
    ensures 1 <= NextPage(page, numPages) <= numPages
  {
  }

  /** Inside the range, Prev's button is disabled exactly when clicking it would change nothing. */
  lemma PrevDisabledIffNoOp(page: int)
    requires page >= 1
    ensures PrevDisabled(page) <==> PrevPage(page) == page
  {
  }

  /** Inside the range, Next's button is disabled exactly when clicking it would change nothing. */
  lemma NextDisabledIffNoOp(page: int, numPages: int)
    requires page <= numPages
    ensures NextDisabled(page, numPages) <==> NextPage(page, numPages) == page
  {
  }

  class PageNavigator {
    var numPages: Option<nat>
    var pageNumber: int

    /** 1 <= pageNumber <= numPages, once a document with pages is loaded. */
    predicate InRange()
      reads this
    {
      numPages.Some? && 1 <= pageNumber <= numPages.value
    }

    constructor ()
      ensures numPages.None? && pageNumber == 1
      ensures PrevButtonDisabled() && NextButtonDisabled()
    {
      numPages := None;
      pageNumber := 1;
    }

    /** `onDocumentLoadSuccess`: record the page count and go back to page 1. */
    method OnDocumentLoadSuccess(n: nat)
      modifies this
      ensures numPages == Some(n) && pageNumber == 1
      ensures n >= 1 ==> InRange()
    {
      numPages := Some(n);
      pageNumber := 1;
    }

    /** `goToPrevPage`. */
    method GoToPrevPage()
      modifies this
      ensures numPages == old(numPages)
      ensures pageNumber == PrevPage(old(pageNumber))
      ensures old(InRange()) ==> InRange()
      ensures old(InRange()) ==> (old(PrevButtonDisabled()) <==> pageNumber == old(pageNumber))
    {
      if InRange() {
        NavigationStaysInRange(pageNumber, PagesAsNumber(numPages));
        PrevDisabledIffNoOp(pageNumber);
      }
      pageNumber := PrevPage(pageNumber);
    }

    /** `goToNextPage`. */
    method GoToNextPage()
      modifies this
      ensures numPages == old(numPages)
      ensures pageNumber == NextPage(old(pageNumber), PagesAsNumber(numPages))
      ensures old(InRange()) ==> InRange()
      ensures old(InRange()) ==> (old(NextButtonDisabled()) <==> pageNumber == old(pageNumber))
    {
      if InRange() {
        NavigationStaysInRange(pageNumber, PagesAsNumber(numPages));
        NextDisabledIffNoOp(pageNumber, PagesAsNumber(numPages));
      }
      pageNumber := NextPage(pageNumber, PagesAsNumber(numPages));
    }

    predicate PrevButtonDisabled()
      reads this
    {
      PrevDisabled(pageNumber)
    }

    predicate NextButtonDisabled()
      reads this
    {
      NextDisabled(pageNumber, PagesAsNumber(numPages))
    }
  }
}
