/**
  Which book the detail overlay opens (`previewSelectedBook` in
  JS/scripts.js): every element on the click's path that carries a book id
  is compared with every catalogue book, and each match overwrites the
  previous one, so the last match wins.
 */
module Preview {
  import opened Search

  datatype Option<T> = None | Some(value: T)

  /** The last catalogue book whose id equals `id`, or None when no book has it. */
  function LastWithId(books: seq<Book>, id: string): (r: Option<Book>)
    ensures r.None? <==> forall i :: 0 <= i < |books| ==> books[i].id != id
    ensures r.Some? ==> exists j :: 0 <= j < |books| && books[j] == r.value && r.value.id == id
                                    && forall k :: j < k < |books| ==> books[k].id != id
    decreases |books|
  {
    if books == [] then None
    else
      var n := |books| - 1;
      if books[n].id == id then
        Some(books[n])
      else
        var r := LastWithId(books[..n], id);
        assert forall i :: 0 <= i < n ==> books[..n][i] == books[i];
        r
  }

  /**
    Reference definition of the opened book: the last element of the path
    whose id names some catalogue book decides, and of the books with that id
    the last one wins. Elements without an id never match.
   */
  function ActiveBook(path: seq<Option<string>>, books: seq<Book>): (r: Option<Book>)
    ensures r.Some? ==> LastWithId(books, r.value.id) == r
    decreases |path|
  {
    if path == [] then None
    else
      var n := |path| - 1;
      var found := if path[n].Some? then LastWithId(books, path[n].value) else None;
      if found.Some? then found else ActiveBook(path[..n], books)
  }

  /** The nested loops of `previewSelectedBook`, starting from "no book". */
  method FindActive(path: seq<Option<string>>, books: seq<Book>) returns (active: Option<Book>)
    ensures active == ActiveBook(path, books)
  {
    active := None;
    for n := 0 to |path|
      invariant active == ActiveBook(path[..n], books)
    {
      var previewId := path[n];
      ghost var before := active;
      for i := 0 to |books|
        invariant previewId.Some? && LastWithId(books[..i], previewId.value).Some? ==> active == LastWithId(books[..i], previewId.value)
        invariant (previewId.None? || LastWithId(books[..i], previewId.value).None?) ==> active == before
      {
        assert books[..i + 1][..i] == books[..i];
        if previewId.Some? && books[i].id == previewId.value {
          active := Some(books[i]);
        }
      }
      assert books[..|books|] == books;
      assert path[..n + 1][..n] == path[..n];
    }
    assert path[..|path|] == path;
  }

  /** The opened book comes from the catalogue and its id is carried by some element of the path. */
  lemma {:induction false} ActiveBookSound(path: seq<Option<string>>, books: seq<Book>)
    ensures ActiveBook(path, books).Some? ==>
              ActiveBook(path, books).value in books && Some(ActiveBook(path, books).value.id) in path
    decreases |path|
  {
    if path != [] {
      var n := |path| - 1;
      ActiveBookSound(path[..n], books);
      if ActiveBook(path, books).Some? && ActiveBook(path, books) != ActiveBook(path[..n], books) {
        assert path[n] == Some(ActiveBook(path, books).value.id);
      }
    }
  }

  /** Nothing is opened exactly when no id on the path names a catalogue book. */
  lemma {:induction false} ActiveBookNone(path: seq<Option<string>>, books: seq<Book>)
    ensures ActiveBook(path, books).None? <==>
              forall n, i :: 0 <= n < |path| && 0 <= i < |books| ==> path[n] != Some(books[i].id)
    decreases |path|
  {
    if path != [] {
      var n := |path| - 1;
      ActiveBookNone(path[..n], books);
      assert forall m :: 0 <= m < n ==> path[..n][m] == path[m];
    }
  }

  /**
    The usual click: exactly one element on the path (the preview card)
    carries an id, that id belongs to catalogue book `j`, and ids are unique;
    then book `j` is opened.
   */
  lemma {:induction false} ActiveBookOfCard(path: seq<Option<string>>, books: seq<Book>, c: nat, j: nat)
    requires c < |path| && j < |books|
    requires path[c] == Some(books[j].id)
    requires forall n :: 0 <= n < |path| && n != c ==> path[n].None?
    requires forall a, b :: 0 <= a < b < |books| ==> books[a].id != books[b].id
    ensures ActiveBook(path, books) == Some(books[j])
    decreases |path|
  {
    var n := |path| - 1;
    if n == c {
      var r := LastWithId(books, books[j].id);
      var k :| 0 <= k < |books| && books[k] == r.value && r.value.id == books[j].id
               && forall m :: k < m < |books| ==> books[m].id != books[j].id;
      assert k == j;
    } else {
      ActiveBookOfCard(path[..n], books, c, j);
    }
  }
}
