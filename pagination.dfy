/**
  Slicing and counting behind the "Show more" button of JS/scripts.js: the
  hard-coded first page, the window each click appends, the remaining-count
  label and `sliceArray`.
 */
module Pagination {

  /** The first render slices `books.slice(0, 36)` with a literal 36, not the page size. */
  const InitialRenderCount: nat := 36

  function Min(a: int, b: int): int {
    if a <= b then a else b
  }

  /**
    `s.slice(start, end)` for non-negative bounds: both are clamped to the
    length and an inverted range is empty, so it never goes out of bounds.
   */
  function Slice<T>(s: seq<T>, start: nat, end: nat): (r: seq<T>)
    ensures |r| == if start < end && start < |s| then Min(end, |s|) - start else 0
    ensures forall k :: 0 <= k < |r| ==> start + k < |s| && r[k] == s[start + k]
  {
    var lo := Min(start, |s|);
    var hi := Min(end, |s|);
    if lo < hi then s[lo..hi] else []
  }

  /** Two adjacent slices make up the slice over their union. */
  lemma SliceAdjacent<T>(s: seq<T>, a: nat, b: nat, c: nat)
    requires a <= b <= c
    ensures Slice(s, a, b) + Slice(s, b, c) == Slice(s, a, c)
  {
    var lo, mid, hi := Min(a, |s|), Min(b, |s|), Min(c, |s|);
    assert Slice(s, a, b) == s[lo..mid];
    assert Slice(s, b, c) == s[mid..hi];
    assert Slice(s, a, c) == s[lo..hi];
    assert s[lo..mid] + s[mid..hi] == s[lo..hi];
  }

  /** What `populatePage` renders first: at most 36 books from the front, whatever the page size. */
  function InitialPage<T>(books: seq<T>): (r: seq<T>)
    ensures |r| == Min(InitialRenderCount, |books|)
    ensures r == books[..|r|]
  {
    Slice(books, 0, InitialRenderCount)
  }

  /**
    The window a click appends while the cursor is `page`: it starts at
    `(page + 1) * perPage` (the clicked-to page plus one), holds at most
    `perPage` books, runs up to `(page + 2) * perPage` clamped to the end, and
    is empty exactly when its start is at or past the end.
   */
  function NextWindow<T>(matches: seq<T>, perPage: nat, page: nat): (r: seq<T>)
    ensures |r| <= perPage
    ensures |r| == if (page + 1) * perPage < |matches| then Min((page + 2) * perPage, |matches|) - (page + 1) * perPage else 0
    ensures r == [] <==> perPage == 0 || |matches| <= (page + 1) * perPage
    ensures forall k :: 0 <= k < |r| ==> (page + 1) * perPage + k < |matches| && r[k] == matches[(page + 1) * perPage + k]
  {
    var start := (page + 1) * perPage;
    assert (page + 2) * perPage == start + perPage;
    Slice(matches, start, (page + 2) * perPage)
  }

  /** The label shown at start-up: `matches.length - page * BOOKS_PER_PAGE`, not clamped, so possibly negative. */
  function UnclampedRemaining(count: nat, perPage: nat, page: nat): (r: int)
    ensures r <= 0 <==> count <= page * perPage
    ensures r + page * perPage == count
  {
    count - page * perPage
  }

  /** The label written after a click: the unclamped count when positive, otherwise 0. */
  function ClampedRemaining(count: nat, perPage: nat, page: nat): (r: nat)
    ensures r == 0 <==> count <= page * perPage
    ensures r > 0 ==> r == UnclampedRemaining(count, perPage, page)
    ensures r <= count
  {
    if count - page * perPage > 0 then count - page * perPage else 0
  }

  /** Turning the cursor further never raises the clamped remaining count. */
  lemma RemainingNonIncreasing(count: nat, perPage: nat, p: nat, q: nat)
    requires p <= q
    ensures ClampedRemaining(count, perPage, q) <= ClampedRemaining(count, perPage, p)
  {
    MulMonotone(p, q, perPage);
  }

  lemma MulMonotone(p: nat, q: nat, m: nat)
    requires p <= q
    ensures p * m <= q * m
  {
    assert q * m == p * m + (q - p) * m;
  }

  /**
    `sliceArray`: always the range `[0, arr.length]`; its guard
    `!range && range.length < 2` is false for every array, so it never throws
    and the slice it describes is the whole input.
   */
  function SliceArray<T>(arr: seq<T>): (range: seq<nat>)
    ensures |range| == 2 && range[0] <= range[1] == |arr|
    ensures Slice(arr, range[0], range[1]) == arr
  {
    var range := [0, |arr|];
    assert Slice(arr, 0, |arr|) == arr[0..|arr|];
    range
  }

  /**
    The list after `clicks` clicks from start-up (cursor 1): the first render,
    then the window of each click in turn; click `i` runs with cursor `i`.
   */
  function ShownAfterClicks<T>(matches: seq<T>, perPage: nat, clicks: nat): (r: seq<T>)
    ensures InitialPage(matches) <= r
    ensures forall k :: 0 <= k < |r| ==> r[k] in matches
    decreases clicks
  {
    if clicks == 0 then InitialPage(matches)
    else ShownAfterClicks(matches, perPage, clicks - 1) + NextWindow(matches, perPage, clicks)
  }

  /**
    After any number of clicks the list is the first 36 books followed by the
    contiguous run from index `2 * perPage` up to `(clicks + 2) * perPage`
    (clamped): the clicks' windows join up with each other but not with the
    first render.
   */
  lemma {:induction false} ShownAfterClicksSpan<T>(matches: seq<T>, perPage: nat, clicks: nat)
    ensures ShownAfterClicks(matches, perPage, clicks)
         == InitialPage(matches) + Slice(matches, 2 * perPage, (clicks + 2) * perPage)
    decreases clicks
  {
    if clicks == 0 {
      assert Slice(matches, 2 * perPage, 2 * perPage) == [];
    } else {
      var a, b, c := 2 * perPage, (clicks + 1) * perPage, (clicks + 2) * perPage;
      var prev, w := ShownAfterClicks(matches, perPage, clicks - 1), NextWindow(matches, perPage, clicks);
      assert prev == InitialPage(matches) + Slice(matches, a, b) by {
        ClickBounds(perPage, clicks);
        ShownAfterClicksSpan(matches, perPage, clicks - 1);
      }
      assert w == Slice(matches, b, c);
      assert Slice(matches, a, b) + Slice(matches, b, c) == Slice(matches, a, c) by {
        ClickBounds(perPage, clicks);
        SliceAdjacent(matches, a, b, c);
      }
      ConcatStep(prev, w, InitialPage(matches), Slice(matches, a, b), Slice(matches, b, c), Slice(matches, a, c));
    }
  }

  /** Appending `y` to `i + x` extends the run `x` to `z` when `x + y == z`. */
  lemma ConcatStep<T>(prev: seq<T>, w: seq<T>, i: seq<T>, x: seq<T>, y: seq<T>, z: seq<T>)
    requires prev == i + x && w == y && x + y == z
    ensures prev + w == i + z
  {
    assert (i + x) + y == i + (x + y);
  }

  /** The arithmetic behind click `clicks`: its window `[b, c)` follows the previous ones and lies past `2 * perPage`. */
  lemma ClickBounds(perPage: nat, clicks: nat)
    requires clicks >= 1
    ensures (clicks - 1 + 2) * perPage == (clicks + 1) * perPage
    ensures 2 * perPage <= (clicks + 1) * perPage
    ensures (clicks + 2) * perPage == (clicks + 1) * perPage + perPage
  {
    MulMonotone(2, clicks + 1, perPage);
  }

  /**
    The skipped page: when all entries are distinct, an entry whose index lies
    at or past the first render (36) but before `2 * perPage` is never shown,
    however often the button is clicked. With a page size of 36 that is every
    index in [36, 72).
   */
  lemma SkippedWindow<T>(matches: seq<T>, perPage: nat, clicks: nat, i: nat)
    requires forall a, b :: 0 <= a < b < |matches| ==> matches[a] != matches[b]
    requires InitialRenderCount <= i < 2 * perPage && i < |matches|
    ensures matches[i] !in ShownAfterClicks(matches, perPage, clicks)
  {
    ShownAfterClicksSpan(matches, perPage, clicks);
  }

  /**
    A catalogue of 40 books with a page size of 36: the first render shows 36,
    the start-up label reads 4, the first click appends nothing (its window
    starts at 72) and sets the label to 0, so books 36 to 39 never appear.
   */
  lemma FortyBooksScenario<T>(matches: seq<T>, clicks: nat)
    requires |matches| == 40
    ensures InitialPage(matches) == matches[..36]
    ensures UnclampedRemaining(40, 36, 1) == 4
    ensures NextWindow(matches, 36, 1) == []
    ensures ClampedRemaining(40, 36, 2) == 0
    ensures ShownAfterClicks(matches, 36, clicks) == matches[..36]
  {
    ShownAfterClicksSpan(matches, 36, clicks);
    assert Slice(matches, 72, (clicks + 2) * 36) == [];
  }
}
