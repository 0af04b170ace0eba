# Book catalogue: filter-and-paginate view model

A Dafny model of the logic in `JS/scripts.js`, the script behind a browser page that lists a
book catalogue. The page shows preview cards, filters them by title, author and genre, reveals
more with a "Show more" button, opens one book in a detail overlay and switches between a day
and a night colour theme. The model covers everything in that script that computes something:

- **`JsString`**: `trim` (ECMAScript's WhiteSpace and LineTerminator set), ASCII `toLowerCase`,
  and `includes`. `Includes` is proved equal to "the query occurs at some index".
- **`Search`**: `Book` and `Filters` records and the three checks of `searchBooks`. `Filter` is
  the reference result. `SearchBooks` and `HasGenre` are the two loops of `searchBooks`, each
  proved equal to that reference. Lemmas cover membership, multiplicity, subsequence order, the
  unfiltered case, idempotence, an unknown author and a concrete "dune" search. The structural
  lemmas are proved once for a generic stable filter `Select`.
- **`Pagination`**: JavaScript's `slice` on non-negative bounds and the hard-coded first render
  of 36 books. Also the window each click appends, the unclamped start-up count, the clamped
  count written after a click, and `sliceArray`. `ShownAfterClicks` composes start-up and `k`
  clicks.
- **`Listing`**: class `BookList`, holding the module variables `matches` and `page`, the
  rendered list, the button's label and disabled flag, and the "no results" message. Its
  constructor is the start-up code, `ShowMore` is `dataButtonClick` and `Search` is `searchBooks`.
- **`Preview`**: the nested lookup loop of `previewSelectedBook`, in which the last match wins.
- **`Theme`**: the `css` table, the day/night choice of `applyTheme` and the class
  `ThemeSettings` that holds the two CSS variables.

How the code behaves, as written and as modelled:

- The first render takes `books.slice(0, 36)`, with the literal 36 rather than `BOOKS_PER_PAGE`.
- A click with cursor `page` appends `matches[(page+1)*B .. (page+2)*B)`, where `B` is
  `BOOKS_PER_PAGE`. So the first click starts at `2*B`.
- `ShownAfterClicksSpan` proves that after `k` clicks the list is the first 36 books followed by
  `matches[2*B .. (k+2)*B)`.
- `SkippedWindow` proves that, with distinct books, every index in `[36, 2*B)` is never shown.
  With `B = 36` that is the books at indices 36 to 71.
- `FortyBooksScenario`: with 40 books and `B = 36`, the start-up label reads 4, but the first
  click appends nothing and sets the label to 0. Books 36 to 39 never appear.
- `matches` is a constant alias of `books`. A search never replaces it and never resets `page`,
  so "Show more" always pages the full catalogue.
- A click rewrites the label but never changes the button's disabled flag. Only start-up and a
  search set that flag.

In short, the pages of the code are not contiguous. The first click's window starts at `2*B`,
not where the 36-book first render ends. No click ever shows the books at indices `[36, 2*B)`.
A search replaces the list but leaves `page` and `matches` alone. A book whose author id is
missing from `authors` gets the author `undefined` in its card (`JS/scripts.js` lines 46, 164 and 247), and
nothing is thrown.

## Model

| member | source | states |
|---|---|---|
| `JsString.Trim` | JS/scripts.js:214 | the trimmed query is a contiguous piece of the query with only whitespace before and after it; it is empty exactly when every character is whitespace, otherwise it starts and ends with a non-whitespace character |
| `JsString.TrimStart` | JS/scripts.js:214 | the result is a suffix of the input; everything dropped is whitespace; a non-empty result starts with a non-whitespace character |
| `JsString.TrimEnd` | JS/scripts.js:214 | the result is a prefix of the input; everything dropped is whitespace; a non-empty result ends with a non-whitespace character |
| `JsString.Lower` | JS/scripts.js:215 | same length; each character is lower-cased (ASCII letters); no upper-case ASCII letter remains |
| `JsString.LowerIdempotent` | JS/scripts.js:215 | lower-casing a lower-cased string changes nothing |
| `JsString.LowerBlank` | JS/scripts.js:214-215 | a query is blank iff its lower-cased form is blank |
| `JsString.Includes` | JS/scripts.js:215 | `includes` finds every prefix of the title, the empty query included, and never a query longer than the title |
| `JsString.IncludesIff` | JS/scripts.js:215 | `includes` holds iff the query occurs at some index of the title, so the empty query is always included |
| `Search.TitleMatch` | JS/scripts.js:213-215 | a book passes the title check iff the query is blank or the lower-cased title includes the lower-cased, untrimmed query |
| `Search.TitleMatchIgnoresCase` | JS/scripts.js:213-215 | lower-casing the query or the title first never changes the title check's outcome |
| `Search.AuthorMatch` | JS/scripts.js:216-217 | "any" passes every book; any other value passes exactly the books with that author id |
| `Search.GenreMatch` | JS/scripts.js:218-224 | "any" passes every book; any other value passes exactly the books that list it at some position of their genres |
| `Search.Matches` | JS/scripts.js:213-226 | with a blank title and "any" for author and genre every book passes; a passing book has the filtered author and lists the filtered genre when those are set |
| `Search.Filter` | JS/scripts.js:210-229 | the reference search result is no longer than the catalogue and holds only catalogue books |
| `Search.HasGenre` | JS/scripts.js:218-224 | the genre flag ends true iff the query is "any" or some genre of the book equals it |
| `Search.SearchBooks` | JS/scripts.js:210-229 | the loop's result is exactly the reference filter of the catalogue |
| `Search.FilterMembership` | JS/scripts.js:212-228 | a book is in the result iff it is in the catalogue and passes the title, author and genre checks |
| `Search.FilterCount` | JS/scripts.js:210-229 | each book occurs in the result as often as in the catalogue if it matches, otherwise never, so there are no extra duplicates |
| `Search.SelectIndices` | JS/scripts.js:210-229 | the kept elements sit at strictly increasing input positions, in the same order, and every accepted position is among them |
| `Search.FilterSubsequence` | JS/scripts.js:210-229 | the search result is the catalogue restricted to increasing positions, and those are exactly the matching positions |
| `Search.FilterAllWhenUnfiltered` | JS/scripts.js:213-218 | a blank title with author and genre "any" returns the whole catalogue in order |
| `Search.FilterIdempotent` | JS/scripts.js:210-229 | filtering a search result again with the same filters returns it unchanged |
| `Search.FilterUnknownAuthor` | JS/scripts.js:216-217 | an author id that no book carries yields an empty result |
| `Search.DuneScenario` | JS/scripts.js:212-229 | searching "dune" over "Dune Messiah" and "Foundation" keeps only "Dune Messiah" |
| `Pagination.Slice` | JS/scripts.js:162-163 | `slice` with non-negative bounds: its length is the clamped span, and element k is the input's element start+k, never out of bounds |
| `Pagination.InitialPage` | JS/scripts.js:42-46 | the first render is the prefix of length min(36, number of books), whatever the page size |
| `Pagination.NextWindow` | JS/scripts.js:158-164 | a click's window holds at most B books, taken from index (page+1)*B on, and runs exactly to min((page+2)*B, number of books); it is empty iff its start is at or past the end |
| `Pagination.UnclampedRemaining` | JS/scripts.js:151 | the start-up count is count - page*B; it is at most 0 iff page*B covers the count, so it can be negative |
| `Pagination.ClampedRemaining` | JS/scripts.js:174-177 | the label after a click is 0 iff newPage*B covers the count; otherwise it equals the unclamped count |
| `Pagination.RemainingNonIncreasing` | JS/scripts.js:174-177 | for a fixed count, a later cursor never shows a larger clamped remaining count |
| `Pagination.SliceArray` | JS/scripts.js:194-203 | the range has two entries, [0, length], and slicing by it returns the whole array |
| `Pagination.SliceAdjacent` | JS/scripts.js:162-163 | two adjacent slices concatenate to the slice over their union |
| `Pagination.ShownAfterClicks` | JS/scripts.js:158-164 | the first render stays a prefix of the list through every click, and every shown book comes from `matches` |
| `Pagination.ShownAfterClicksSpan` | JS/scripts.js:158-164 | after k clicks the list is the first 36 books followed by the contiguous run from 2*B up to (k+2)*B |
| `Pagination.SkippedWindow` | JS/scripts.js:159-163 | with distinct books, any book at an index in [36, 2*B) is never shown, however many clicks |
| `Pagination.FortyBooksScenario` | JS/scripts.js:151-177 | 40 books with B = 36: first render 36, start-up label 4, first click appends nothing and leaves 0, books 36 to 39 never shown |
| `Listing.BookList.constructor` | JS/scripts.js:4-5 | start-up: matches aliases the catalogue, page is 1, the list is the first render, the label is the unclamped count, and the button is disabled iff that count is at most 0 |
| `Listing.BookList.ShowMore` | JS/scripts.js:158-185 | page increases by exactly 1, the list gains the next window, the label is the clamped count, and matches and the disabled flag are unchanged; it keeps the list equal to first render plus all click windows |
| `Listing.BookList.Search` | JS/scripts.js:206-268 | the list becomes the whole filter result, "no results" shows iff it is empty, the button is disabled with label 0, and page and matches are unchanged |
| `Preview.LastWithId` | JS/scripts.js:289-293 | None iff no catalogue book has the id; otherwise a book with that id after which no later book has it |
| `Preview.ActiveBook` | JS/scripts.js:286-294 | an opened book is the last catalogue book with its own id |
| `Preview.FindActive` | JS/scripts.js:284-294 | the nested loops yield the reference choice: the last path element that names a book decides, and the last book with that id wins |
| `Preview.ActiveBookSound` | JS/scripts.js:286-294 | an opened book comes from the catalogue and its id is carried by an element of the click path |
| `Preview.ActiveBookNone` | JS/scripts.js:286-296 | nothing is opened iff no id on the path names a catalogue book |
| `Preview.ActiveBookOfCard` | JS/scripts.js:286-294 | with unique ids and only the clicked card carrying an id, the card's book is opened |
| `Theme.ChooseTheme` | JS/scripts.js:113 | "day" selects the day theme and every other value the night theme |
| `Theme.Css` | JS/scripts.js:94-104 | each theme's dark and light tokens differ |
| `Theme.NightSwapsDay` | JS/scripts.js:94-104 | the night theme's tokens are the day theme's, swapped |
| `Theme.PreferredTheme` | JS/scripts.js:124-131 | a dark preference yields a name that selects night, otherwise one that selects day |
| `Theme.ThemeSettings.ApplyTheme` | JS/scripts.js:112-122 | both CSS variables are set to the tokens of the chosen theme; the select is unchanged |
| `Theme.ThemeSettings.ApplyThemeFromPref` | JS/scripts.js:124-132 | the select holds the preferred theme and the CSS variables hold its tokens |

## Left out

- DOM construction and mutation are not modelled: `createPreview`, the document fragments, `populateDropdown`, the `innerHTML`/`textContent`/`classList` writes, `window.scrollTo` and opening or closing the overlays. A rendered card is represented by its `Book`, and the author display name looked up in `authors` is not represented.
- Event wiring is not modelled: the `addEventListener` calls, `FormData`/`Object.fromEntries` parsing and `event.path`/`composedPath()`. The submitted form is a `Filters` value, and the click path is a parameter listing each element's `data-book-id` or None.
- The browser does not dispatch clicks on a disabled button. The model does not encode this: `ShowMore` can be called in any state.
- `window.matchMedia` is an environment query. It becomes the boolean parameter `prefersDark`.
- The detail overlay's contents are not modelled: description, image, title and the subtitle built from `authors[...]` and `new Date(...).getFullYear()`. Only the choice of the opened book is modelled.
- `data.js` and `selector.js` are not part of this model. `books` and `BOOKS_PER_PAGE` are constructor parameters. The `authors` and `genres` tables are used only for display, so they do not appear.
- `Book` keeps `id`, `title`, `author` and `genres`. The image, description and publication date only feed the display.
- The start-up guard `!books && !Array.isArray(books)` cannot fire for a sequence, so it has no counterpart.
- The page's initial HTML is not part of this model. The constructors assume the "no results" message starts hidden and the theme fields start empty.
- `JsString.Lower` lower-cases only ASCII `A`-`Z`, not the full Unicode `toLowerCase`. Strings are sequences of Unicode scalar values, not UTF-16 code units.
- JavaScript numbers are unbounded integers here. Page arithmetic never comes near the range where doubles lose precision.
