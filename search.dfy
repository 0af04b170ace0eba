/**
  The search form's filter (`searchBooks` in JS/scripts.js): a book is kept
  when its title, author and genre all pass, and the kept books come out in
  catalogue order.
 */
module Search {
  import opened JsString

  /** A catalogue record; `author` and `genres` hold ids into the author and genre tables. */
  datatype Book = Book(id: string, title: string, author: string, genres: seq<string>)

  /** The submitted search form: title text, author id or "any", genre id or "any". */
  datatype Filters = Filters(title: string, author: string, genre: string)

  /** The option value that matches every author or genre. */
  const Any: string := "any"

  /**
    The title check: a blank query (by `trim`) passes every book; otherwise the
    lower-cased title must contain the lower-cased, untrimmed query.
   */
  predicate TitleMatch(book: Book, query: string)
    ensures TitleMatch(book, query) <==> IsBlank(query) || Includes(Lower(book.title), Lower(query))
  {
    Trim(query) == "" || Includes(Lower(book.title), Lower(query))
  }

  /** The author check: "any" passes every book, any other value only books by that author id. */
  predicate AuthorMatch(book: Book, query: string)
    ensures query == Any ==> AuthorMatch(book, query)
    ensures query != Any ==> (AuthorMatch(book, query) <==> book.author == query)
  {
    query == Any || book.author == query
  }

  /** The genre check: "any" passes every book, any other value only books listing it among their genres. */
  predicate GenreMatch(book: Book, query: string)
    ensures query == Any ==> GenreMatch(book, query)
    ensures query != Any ==> (GenreMatch(book, query) <==> exists k :: 0 <= k < |book.genres| && book.genres[k] == query)
  {
    query == Any || query in book.genres
  }

  /** All three checks; with no filter set every book passes, and an author filter pins the author. */
  predicate Matches(book: Book, filters: Filters)
    ensures IsBlank(filters.title) && filters.author == Any && filters.genre == Any ==> Matches(book, filters)
    ensures Matches(book, filters) && filters.author != Any ==> book.author == filters.author
    ensures Matches(book, filters) && filters.genre != Any ==> filters.genre in book.genres
  {
    TitleMatch(book, filters.title) && AuthorMatch(book, filters.author) && GenreMatch(book, filters.genre)
  }

  /** The title check ignores case: lower-casing the query or the title does not change its outcome. */
  lemma TitleMatchIgnoresCase(book: Book, query: string)
    ensures TitleMatch(book, Lower(query)) == TitleMatch(book, query)
    ensures TitleMatch(book.(title := Lower(book.title)), query) == TitleMatch(book, query)
  {
    LowerBlank(query);
    LowerIdempotent(query);
    LowerIdempotent(book.title);
  }

  /** The elements of `xs` that `keep` accepts, in their original order (a stable filter). */
  function Select<T>(xs: seq<T>, keep: T -> bool): seq<T>
    decreases |xs|
  {
    if xs == [] then []
    else
      var last := xs[|xs| - 1];
      Select(xs[..|xs| - 1], keep) + (if keep(last) then [last] else [])
  }

  /** A selection is no longer than its input and holds only elements of it. */
  lemma {:induction false} SelectWithin<T>(xs: seq<T>, keep: T -> bool)
    ensures |Select(xs, keep)| <= |xs|
    ensures forall k :: 0 <= k < |Select(xs, keep)| ==> Select(xs, keep)[k] in xs
    decreases |xs|
  {
    if xs != [] {
      var n := |xs| - 1;
      SelectWithin(xs[..n], keep);
      assert forall x :: x in xs[..n] ==> x in xs;
    }
  }

  /** The three checks of one search as a predicate on books. */
  function Criteria(filters: Filters): Book -> bool {
    (b: Book) => Matches(b, filters)
  }

  /** Reference definition of the search result: the matching books, in catalogue order. */
  function Filter(books: seq<Book>, filters: Filters): (r: seq<Book>)
    ensures |r| <= |books|
    ensures forall k :: 0 <= k < |r| ==> r[k] in books
  {
    SelectWithin(books, Criteria(filters));
    Select(books, Criteria(filters))
  }

  /**
    The inner loop of `searchBooks`: the flag starts as `query == "any"` and is
    raised by every genre equal to the query.
   */
  method HasGenre(genres: seq<string>, query: string) returns (found: bool)
    ensures found <==> query == Any || query in genres
  {
    found := query == Any;
    for i := 0 to |genres|
      invariant found <==> query == Any || query in genres[..i]
    {
      assert genres[..i + 1] == genres[..i] + [genres[i]];
      if genres[i] == query {
        found := true;
      }
    }
    assert genres[..|genres|] == genres;
  }

  /** The outer loop of `searchBooks`: push every book that passes all three checks. */
  method SearchBooks(books: seq<Book>, filters: Filters) returns (result: seq<Book>)
    ensures result == Filter(books, filters)
  {
    result := [];
    for i := 0 to |books|
      invariant result == Filter(books[..i], filters)
    {
      var book := books[i];
      var titleMatch := TitleMatch(book, filters.title);
      var authorMatch := AuthorMatch(book, filters.author);
      var genreMatch := HasGenre(book.genres, filters.genre);
      CriteriaAccepts(book, filters);
      assert books[..i + 1][..i] == books[..i];
      assert Filter(books[..i + 1], filters)
          == Filter(books[..i], filters) + (if Criteria(filters)(book) then [book] else []);
      if titleMatch && authorMatch && genreMatch {
        result := result + [book];
      }
    }
    assert books[..|books|] == books;
  }

  /** Selecting distributes over concatenation: each part is filtered on its own. */
  lemma {:induction false} SelectAppend<T>(xs: seq<T>, ys: seq<T>, keep: T -> bool)
    ensures Select(xs + ys, keep) == Select(xs, keep) + Select(ys, keep)
    decreases |ys|
  {
    if ys == [] {
      assert xs + ys == xs;
    } else {
      var n := |ys| - 1;
      assert (xs + ys)[..|xs + ys| - 1] == xs + ys[..n];
      SelectAppend(xs, ys[..n], keep);
    }
  }

  /**
    Each element occurs in the selection exactly as often as in the input when
    it is accepted, and not at all otherwise: nothing is invented or duplicated.
   */
  lemma {:induction false} SelectCount<T>(xs: seq<T>, keep: T -> bool, x: T)
    ensures multiset(Select(xs, keep))[x] == if keep(x) then multiset(xs)[x] else 0
    decreases |xs|
  {
    if xs != [] {
      var n := |xs| - 1;
      var tail := if keep(xs[n]) then [xs[n]] else [];
      SelectCount(xs[..n], keep, x);
      assert Select(xs, keep) == Select(xs[..n], keep) + tail;
      assert multiset(Select(xs, keep)) == multiset(Select(xs[..n], keep)) + multiset(tail);
      assert xs == xs[..n] + [xs[n]];
      assert multiset(xs) == multiset(xs[..n]) + multiset([xs[n]]);
    }
  }

  /** Selecting keeps everything when every element is accepted. */
  lemma {:induction false} SelectAll<T>(xs: seq<T>, keep: T -> bool)
    requires forall i :: 0 <= i < |xs| ==> keep(xs[i])
    ensures Select(xs, keep) == xs
    decreases |xs|
  {
    if xs != [] {
      var n := |xs| - 1;
      SelectAll(xs[..n], keep);
      assert xs == xs[..n] + [xs[n]];
    }
  }

  /** Selecting a second time with the same predicate changes nothing. */
  lemma {:induction false} SelectIdempotent<T>(xs: seq<T>, keep: T -> bool)
    ensures Select(Select(xs, keep), keep) == Select(xs, keep)
    decreases |xs|
  {
    if xs != [] {
      var n := |xs| - 1;
      var tail := if keep(xs[n]) then [xs[n]] else [];
      SelectIdempotent(xs[..n], keep);
      SelectAppend(Select(xs[..n], keep), tail, keep);
      assert Select(tail, keep) == tail by {
        if tail != [] {
          assert tail[..0] == [];
        }
      }
    }
  }

  /**
    Witness that a selection is a subsequence of its input: the positions of
    the accepted elements, strictly increasing, each naming the selected
    element of the same rank, and covering every accepted position.
   */
  function SelectIndices<T>(xs: seq<T>, keep: T -> bool): (idx: seq<nat>)
    ensures |idx| == |Select(xs, keep)|
    ensures forall k :: 0 <= k < |idx| ==> idx[k] < |xs| && Select(xs, keep)[k] == xs[idx[k]]
    ensures forall k, l :: 0 <= k < l < |idx| ==> idx[k] < idx[l]
    ensures forall i :: 0 <= i < |xs| && keep(xs[i]) ==> i in idx
    decreases |xs|
  {
    if xs == [] then []
    else
      var n := |xs| - 1;
      var prefix := xs[..n];
      var rest := SelectIndices(prefix, keep);
      assert forall i :: 0 <= i < n ==> xs[i] == prefix[i];
      assert Select(xs, keep) == Select(prefix, keep) + (if keep(xs[n]) then [xs[n]] else []);
      if keep(xs[n]) then
        assert forall k :: 0 <= k < |rest| ==> rest[k] < n;
        rest + [n]
      else rest
  }

  /** A book is in the search result iff it is in the catalogue and passes all three checks. */
  lemma FilterMembership(books: seq<Book>, filters: Filters, b: Book)
    ensures b in Filter(books, filters) <==> b in books && Matches(b, filters)
  {
    var r := Filter(books, filters);
    SelectCount(books, Criteria(filters), b);
    assert b in r <==> multiset(r)[b] > 0;
    assert b in books <==> multiset(books)[b] > 0;
  }

  /**
    The search result keeps each book's multiplicity when it matches and drops
    it otherwise; in particular it holds no duplicate the catalogue lacks.
   */
  lemma FilterCount(books: seq<Book>, filters: Filters, b: Book)
    ensures multiset(Filter(books, filters))[b] == if Matches(b, filters) then multiset(books)[b] else 0
  {
    SelectCount(books, Criteria(filters), b);
  }

  /**
    The search result is the catalogue restricted to an increasing list of
    positions, and those positions are exactly the matching ones.
   */
  lemma FilterSubsequence(books: seq<Book>, filters: Filters)
    ensures var r, idx := Filter(books, filters), SelectIndices(books, Criteria(filters));
      && |idx| == |r|
      && (forall k, l :: 0 <= k < l < |idx| ==> idx[k] < idx[l])
      && (forall k :: 0 <= k < |idx| ==> idx[k] < |books| && r[k] == books[idx[k]] && Matches(books[idx[k]], filters))
      && (forall i :: 0 <= i < |books| && Matches(books[i], filters) ==> i in idx)
  {
    var r, idx := Filter(books, filters), SelectIndices(books, Criteria(filters));
    forall k | 0 <= k < |idx| ensures Matches(books[idx[k]], filters) {
      FilterMembership(books, filters, books[idx[k]]);
    }
    forall i | 0 <= i < |books| && Matches(books[i], filters) ensures i in idx {
      assert Criteria(filters)(books[i]);
    }
  }

  /** A blank title with author and genre both "any" keeps the whole catalogue, in order. */
  lemma FilterAllWhenUnfiltered(books: seq<Book>, filters: Filters)
    requires IsBlank(filters.title) && filters.author == Any && filters.genre == Any
    ensures Filter(books, filters) == books
  {
    forall i | 0 <= i < |books| ensures Criteria(filters)(books[i]) {
      assert Matches(books[i], filters);
    }
    SelectAll(books, Criteria(filters));
  }

  /** Searching the result of a search again with the same filters changes nothing. */
  lemma FilterIdempotent(books: seq<Book>, filters: Filters)
    ensures Filter(Filter(books, filters), filters) == Filter(books, filters)
  {
    SelectIdempotent(books, Criteria(filters));
  }

  /** An author id that no catalogue book carries gives an empty result (the "no results" case). */
  lemma FilterUnknownAuthor(books: seq<Book>, filters: Filters)
    requires filters.author != Any
    requires forall i :: 0 <= i < |books| ==> books[i].author != filters.author
    ensures Filter(books, filters) == []
  {
    if Filter(books, filters) != [] {
      var b := Filter(books, filters)[0];
      FilterMembership(books, filters, b);
    }
  }

  /** The lower-cased title "Dune Messiah" contains "dune" at its start. */
  lemma DuneTitleMatches()
    ensures Includes(Lower("Dune Messiah"), Lower("dune"))
  {
    var lt := Lower("Dune Messiah");
    var lq := Lower("dune");
    assert lq == "dune";
    assert lt[0] == 'd' && lt[1] == 'u' && lt[2] == 'n' && lt[3] == 'e';
    assert lq <= lt;
  }

  /** The lower-cased title "Foundation" does not contain "dune": its only 'd' is followed by 'a'. */
  lemma FoundationTitleFails()
    ensures !Includes(Lower("Foundation"), Lower("dune"))
  {
    assert Lower("dune") == "dune";
    assert Lower("Foundation") == "foundation";
    NoDuneInFoundation();
  }

  lemma NoDuneInFoundation()
    ensures !Includes("foundation", "dune")
  {
    var f, d := "foundation", "dune";
    IncludesIff(f, d);
    forall i | 0 <= i <= 6
      ensures !OccursAt(f, d, i)
    {
      if i == 4 {
        assert f[i..i + 4][1] == f[5] == 'a';
      } else {
        assert f[i..i + 4][0] == f[i] != 'd';
      }
    }
  }

  /** Of two elements where only the first is accepted, the selection is the first alone. */
  lemma SelectPair<T>(first: T, second: T, keep: T -> bool)
    requires keep(first) && !keep(second)
    ensures Select([first, second], keep) == [first]
  {
    assert [first, second][..1] == [first];
    assert [first][..0] == [];
    assert Select([first], keep) == Select([], keep) + [first];
  }

  /** "dune" is not blank, so the title check of a search for it falls to `includes`. */
  lemma DuneQueryNotBlank()
    ensures Trim("dune") != ""
  {
    assert !IsWhitespace("dune"[0]);
  }

  /** The search predicate accepts exactly the books that pass the three checks. */
  lemma CriteriaAccepts(b: Book, filters: Filters)
    ensures Criteria(filters)(b) <==> TitleMatch(b, filters.title) && AuthorMatch(b, filters.author) && GenreMatch(b, filters.genre)
  {
  }

  /** Searching for "dune": only "Dune Messiah" survives, "Foundation" does not. */
  lemma DuneScenario()
    ensures Filter([Book("1", "Dune Messiah", "a1", ["g1"]), Book("2", "Foundation", "a2", ["g2"])],
                   Filters("dune", Any, Any))
         == [Book("1", "Dune Messiah", "a1", ["g1"])]
  {
    var dune := Book("1", "Dune Messiah", "a1", ["g1"]);
    var foundation := Book("2", "Foundation", "a2", ["g2"]);
    var filters := Filters("dune", Any, Any);
    DuneTitleMatches();
    FoundationTitleFails();
    DuneQueryNotBlank();
    CriteriaAccepts(dune, filters);
    CriteriaAccepts(foundation, filters);
    SelectPair(dune, foundation, Criteria(filters));
  }
}
