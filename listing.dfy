/**
  The page-level state of JS/scripts.js: the module variables `matches` and
  `page`, the preview cards in the list, the "Show more" button (its
  remaining-count label and disabled flag) and the "no results" message,
  with the three handlers that change them: the start-up render, the
  button's click handler `dataButtonClick` and the search form's `searchBooks`.
 */
module Listing {
  import opened Search
  import opened Pagination

  class BookList {
    /** The catalogue, loaded once. */
    const books: seq<Book>
    /** `const matches = books`: an alias that no search ever replaces. */
    const matches: seq<Book>
    /** BOOKS_PER_PAGE. */
    const booksPerPage: nat
    /** The page cursor; starts at 1 and only the click handler moves it. */
    var page: nat
    /** The preview cards in the list, in order. */
    var shown: seq<Book>
    /** The number shown in the button's label. */
    var remainingLabel: int
    var buttonDisabled: bool
    /** Whether the "no results" message is visible. */
    var noResultsShown: bool

    ghost predicate Valid()
      reads this
    {
      booksPerPage > 0 && page >= 1 && matches == books
    }

    /**
      No search has replaced the list since start-up: it holds the first
      render followed by the window of every click so far.
     */
    ghost predicate Browsing()
      reads this
    {
      page >= 1 && shown == ShownAfterClicks(matches, booksPerPage, page - 1)
    }

    /**
      Start-up: render the first 36 books, write the unclamped remaining count
      `|matches| - page * BOOKS_PER_PAGE` into the label and disable the button
      unless that count is positive.
     */
    constructor (catalogue: seq<Book>, perPage: nat)
      requires perPage > 0
      ensures Valid() && Browsing()
      ensures books == catalogue && matches == catalogue && booksPerPage == perPage
      ensures page == 1
      ensures shown == InitialPage(catalogue)
      ensures remainingLabel == UnclampedRemaining(|catalogue|, perPage, 1)
      ensures buttonDisabled <==> remainingLabel <= 0
      ensures !noResultsShown
    {
      books := catalogue;
      matches := catalogue;
      booksPerPage := perPage;
      page := 1;
      shown := Slice(catalogue, 0, 36);
      var remainingBooks := |catalogue| - 1 * perPage;
      remainingLabel := remainingBooks;
      buttonDisabled := !(remainingBooks > 0);
      noResultsShown := false;
    }

    /**
      `dataButtonClick`: append the window `[(page + 1) * BOOKS_PER_PAGE,
      (page + 2) * BOOKS_PER_PAGE)` of `matches`, write the clamped remaining
      count for the new page and advance the cursor by one. The disabled flag
      is left as it was.
     */
    method ShowMore()
      requires Valid()
      modifies this
      ensures Valid()
      ensures page == old(page) + 1
      ensures shown == old(shown) + NextWindow(matches, booksPerPage, old(page))
      ensures remainingLabel == ClampedRemaining(|matches|, booksPerPage, page)
      ensures buttonDisabled == old(buttonDisabled) && noResultsShown == old(noResultsShown)
      ensures old(Browsing()) ==> Browsing()
    {
      var newPage := page + 1;
      var nextPageStart := newPage * booksPerPage;
      var nextPageEnd := (newPage + 1) * booksPerPage;
      var extracted := Slice(matches, nextPageStart, nextPageEnd);
      assert extracted == NextWindow(matches, booksPerPage, page);
      shown := shown + extracted;
      remainingLabel := if |matches| - newPage * booksPerPage > 0 then |matches| - newPage * booksPerPage else 0;
      page := newPage;
    }

    /**
      `searchBooks`: filter the catalogue, show the "no results" message iff
      nothing matched, replace the list by the whole result (the range from
      `sliceArray` covers all of it), then disable the button with a label of 0.
      Neither `matches` nor the cursor changes.
     */
    method Search(filters: Filters)
      requires Valid()
      modifies this
      ensures Valid()
      ensures page == old(page)
      ensures shown == Filter(books, filters)
      ensures noResultsShown <==> |shown| < 1
      ensures buttonDisabled && remainingLabel == 0
    {
      var result := SearchBooks(books, filters);
      noResultsShown := |result| < 1;
      var range := SliceArray(result);
      var extracted := Slice(result, range[0], range[1]);
      assert extracted == result;
      shown := extracted;
      buttonDisabled := true;
      remainingLabel := 0;
    }
  }
}
