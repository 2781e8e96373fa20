/**
 The read-only public routes over the catalog: lookup by ISBN, the reviews of
 a book, and the author and title filters. A route either answers with a
 value (HTTP 200) or reports that nothing was found (HTTP 404).
 */
module Queries {
  import opened Books

  datatype Response<T> = Found(value: T) | NotFound

  /** One element of the author route's answer. */
  datatype AuthorEntry = AuthorEntry(isbn: Isbn, title: string, reviews: map<string, string>)

  /** One element of the title route's answer. */
  datatype TitleEntry = TitleEntry(isbn: Isbn, author: string, reviews: map<string, string>)

  /** `/isbn/:isbn`: the stored book when the ISBN is a key, not-found otherwise. */
  function BookByIsbn(c: Catalog, isbn: Isbn): (r: Response<Book>)
    ensures r.Found? <==> isbn in c.books
    ensures r.Found? ==> r.value == c.books[isbn]
  {
    if isbn in c.books then Found(c.books[isbn]) else NotFound
  }

  /** `/review/:isbn`: the reviews map of the stored book; an empty map is
      still a found answer. */
  function ReviewsByIsbn(c: Catalog, isbn: Isbn): (r: Response<map<string, string>>)
    ensures r.Found? <==> isbn in c.books
    ensures r.Found? ==> r.value == c.books[isbn].reviews
  {
    if isbn in c.books then Found(c.books[isbn].reviews) else NotFound
  }

  /** The two keyed routes agree: reviews are found exactly when the book is,
      and then they are that book's reviews, even when there are none. */
  lemma ReviewsAgreeWithBook(c: Catalog, isbn: Isbn)
    ensures ReviewsByIsbn(c, isbn).NotFound? <==> BookByIsbn(c, isbn).NotFound?
    ensures BookByIsbn(c, isbn).Found? ==>
              ReviewsByIsbn(c, isbn) == Found(BookByIsbn(c, isbn).value.reviews)
    ensures isbn in c.books && c.books[isbn].reviews == map[] ==> ReviewsByIsbn(c, isbn) == Found(map[])
  {
  }

  /** A found book is also reported by the author and title filters. */
  lemma FoundBookIsFiltered(c: Catalog, isbn: Isbn)
    requires c.Valid()
    ensures BookByIsbn(c, isbn).Found? ==>
              && isbn in Matching(c.keys, c.books, Author, BookByIsbn(c, isbn).value.author)
              && isbn in Matching(c.keys, c.books, Title, BookByIsbn(c, isbn).value.title)
  {
    if isbn in c.books {
      StoredBookIsMatched(c, isbn);
    }
  }

  function AuthorEntryOf(books: map<Isbn, Book>, k: Isbn): AuthorEntry
    requires k in books
  {
    AuthorEntry(k, books[k].title, books[k].reviews)
  }

  function TitleEntryOf(books: map<Isbn, Book>, k: Isbn): TitleEntry
    requires k in books
  {
    TitleEntry(k, books[k].author, books[k].reviews)
  }

  /** `hits` is `ks` projected, element by element, to author entries. */
  predicate AuthorProjection(hits: seq<AuthorEntry>, books: map<Isbn, Book>, ks: seq<Isbn>)
    requires KeysStored(ks, books)
  {
    |hits| == |ks| && forall i :: 0 <= i < |ks| ==> hits[i] == AuthorEntryOf(books, ks[i])
  }

  /** One step of the author scan: visiting key `keys[n]` keeps the collected
      entries equal to the projection of Matching over the visited prefix. */
  lemma AuthorScanStep(hits: seq<AuthorEntry>, keys: seq<Isbn>, books: map<Isbn, Book>, value: string, n: nat)
    requires KeysStored(keys, books) && n < |keys|
    requires KeysStored(keys[..n], books)
    requires AuthorProjection(hits, books, Matching(keys[..n], books, Author, value))
    ensures KeysStored(keys[..n + 1], books)
    ensures var next := if books[keys[n]].author == value then hits + [AuthorEntryOf(books, keys[n])] else hits;
            AuthorProjection(next, books, Matching(keys[..n + 1], books, Author, value))
  {
    MatchingStep(keys, books, Author, value, n);
  }

  /** `hits` is `ks` projected, element by element, to title entries. */
  predicate TitleProjection(hits: seq<TitleEntry>, books: map<Isbn, Book>, ks: seq<Isbn>)
    requires KeysStored(ks, books)
  {
    |hits| == |ks| && forall i :: 0 <= i < |ks| ==> hits[i] == TitleEntryOf(books, ks[i])
  }

  /** One step of the title scan: visiting key `keys[n]` keeps the collected
      entries equal to the projection of Matching over the visited prefix. */
  lemma TitleScanStep(hits: seq<TitleEntry>, keys: seq<Isbn>, books: map<Isbn, Book>, value: string, n: nat)
    requires KeysStored(keys, books) && n < |keys|
    requires KeysStored(keys[..n], books)
    requires TitleProjection(hits, books, Matching(keys[..n], books, Title, value))
    ensures KeysStored(keys[..n + 1], books)
    ensures var next := if books[keys[n]].title == value then hits + [TitleEntryOf(books, keys[n])] else hits;
            TitleProjection(next, books, Matching(keys[..n + 1], books, Title, value))
  {
    MatchingStep(keys, books, Title, value, n);
  }

  /** The scan of `/author/:author`: walks the keys in enumeration order and
      pushes the projection of every book whose author equals the parameter,
      so the result is Matching projected element by element. */
  method ScanByAuthor(c: Catalog, author: string) returns (hits: seq<AuthorEntry>)
    requires KeysStored(c.keys, c.books)
    ensures AuthorProjection(hits, c.books, Matching(c.keys, c.books, Author, author))
  {
    hits := [];
    var i := 0;
    while i < |c.keys|
      invariant 0 <= i <= |c.keys|
      invariant KeysStored(c.keys[..i], c.books)
      invariant AuthorProjection(hits, c.books, Matching(c.keys[..i], c.books, Author, author))
    {
      var key := c.keys[i];
      AuthorScanStep(hits, c.keys, c.books, author, i);
      if c.books[key].author == author {
        hits := hits + [AuthorEntryOf(c.books, key)];
      }
      i := i + 1;
    }
    assert c.keys[..i] == c.keys;
  }

  /** `/author/:author`: not-found exactly when no book has that author;
      otherwise the whole scan result. */
  method BooksByAuthor(c: Catalog, author: string) returns (res: Response<seq<AuthorEntry>>)
    requires KeysStored(c.keys, c.books)
    ensures res.NotFound? <==> forall k :: k in c.keys ==> c.books[k].author != author
    ensures res.Found? ==>
              AuthorProjection(res.value, c.books, Matching(c.keys, c.books, Author, author))
  {
    var hits := ScanByAuthor(c, author);
    MatchingEmpty(c.keys, c.books, Author, author);
    if |hits| > 0 {
      res := Found(hits);
    } else {
      res := NotFound;
    }
  }

  /** The scan of `/title/:title`: the same walk, matching on the title and
      projecting the author instead. */
  method ScanByTitle(c: Catalog, title: string) returns (hits: seq<TitleEntry>)
    requires KeysStored(c.keys, c.books)
    ensures TitleProjection(hits, c.books, Matching(c.keys, c.books, Title, title))
  {
    hits := [];
    var i := 0;
    while i < |c.keys|
      invariant 0 <= i <= |c.keys|
      invariant KeysStored(c.keys[..i], c.books)
      invariant TitleProjection(hits, c.books, Matching(c.keys[..i], c.books, Title, title))
    {
      var key := c.keys[i];
      TitleScanStep(hits, c.keys, c.books, title, i);
      if c.books[key].title == title {
        hits := hits + [TitleEntryOf(c.books, key)];
      }
      i := i + 1;
    }
    assert c.keys[..i] == c.keys;
  }

  /** `/title/:title`: not-found exactly when no book has that title;
      otherwise the whole scan result. */
  method BooksByTitle(c: Catalog, title: string) returns (res: Response<seq<TitleEntry>>)
    requires KeysStored(c.keys, c.books)
    ensures res.NotFound? <==> forall k :: k in c.keys ==> c.books[k].title != title
    ensures res.Found? ==>
              TitleProjection(res.value, c.books, Matching(c.keys, c.books, Title, title))
  {
    var hits := ScanByTitle(c, title);
    MatchingEmpty(c.keys, c.books, Title, title);
    if |hits| > 0 {
      res := Found(hits);
    } else {
      res := NotFound;
    }
  }
}
