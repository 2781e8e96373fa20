/**
 The in-memory book catalog read by the public routes: a mapping from ISBN to
 book record, together with the order in which `Object.keys` enumerates it,
 and the exact-match filter that the author and title routes compute.
 */
module Books {

  type Isbn = string

  /** A stored book record: the fields the routes read. Each review value is
      kept as an opaque string. */
  datatype Book = Book(title: string, author: string, reviews: map<string, string>)

  /** Every key of the enumeration order names a stored book. */
  predicate KeysStored(keys: seq<Isbn>, books: map<Isbn, Book>)
  {
    forall k :: k in keys ==> k in books
  }

  /** No key occurs twice in the sequence. */
  predicate Distinct(keys: seq<Isbn>)
  {
    forall i, j :: 0 <= i < j < |keys| ==> keys[i] != keys[j]
  }

  /** The catalog: `keys` is the enumeration order of `books`. */
  datatype Catalog = Catalog(keys: seq<Isbn>, books: map<Isbn, Book>)
  {
    /** `keys` lists every stored ISBN exactly once. */
    ghost predicate Valid()
    {
      && KeysStored(keys, books)
      && Distinct(keys)
      && (forall k :: k in books ==> k in keys)
    }
  }

  /** The book field a filter route compares against its path parameter. */
  datatype Field = Author | Title

  function FieldOf(b: Book, f: Field): string
  {
    match f
    case Author => b.author
    case Title => b.title
  }

  lemma PrefixStored(keys: seq<Isbn>, books: map<Isbn, Book>, n: nat)
    requires KeysStored(keys, books) && n <= |keys|
    ensures KeysStored(keys[..n], books)
  {
    forall k | k in keys[..n] ensures k in books {
      var i :| 0 <= i < n && keys[..n][i] == k;
      assert keys[i] == k;
    }
  }

  /** The keys, in enumeration order, whose book has `value` in field `f`:
      a key is in the result exactly when it is enumerated and its book
      matches (no false positives, no false negatives). */
  function Matching(keys: seq<Isbn>, books: map<Isbn, Book>, f: Field, value: string): (r: seq<Isbn>)
    requires KeysStored(keys, books)
    ensures forall k :: k in r <==> k in keys && FieldOf(books[k], f) == value
    ensures |r| <= |keys|
  {
    if keys == [] then []
    else
      var n := |keys| - 1;
      PrefixStored(keys, books, n);
      var init := Matching(keys[..n], books, f, value);
      assert keys == keys[..n] + [keys[n]];
      if FieldOf(books[keys[n]], f) == value then init + [keys[n]] else init
  }

  /** The filter is empty exactly when no enumerated book matches. */
  lemma MatchingEmpty(keys: seq<Isbn>, books: map<Isbn, Book>, f: Field, value: string)
    requires KeysStored(keys, books)
    ensures Matching(keys, books, f, value) == [] <==> forall k :: k in keys ==> FieldOf(books[k], f) != value
  {
    var r := Matching(keys, books, f, value);
    if r != [] {
      assert r[0] in r;
    }
  }

  /** Extending the enumerated prefix by one key adds that key to the
      result exactly when its book matches. */
  lemma MatchingStep(keys: seq<Isbn>, books: map<Isbn, Book>, f: Field, value: string, n: nat)
    requires KeysStored(keys, books) && n < |keys|
    ensures KeysStored(keys[..n], books) && KeysStored(keys[..n + 1], books)
    ensures Matching(keys[..n + 1], books, f, value) ==
              Matching(keys[..n], books, f, value) + (if FieldOf(books[keys[n]], f) == value then [keys[n]] else [])
  {
    PrefixStored(keys, books, n);
    PrefixStored(keys, books, n + 1);
    assert keys[..n + 1][..n] == keys[..n];
  }

  /** `x` occurs in `keys` at an earlier position than `y`. */
  predicate ComesBefore(keys: seq<Isbn>, x: Isbn, y: Isbn)
  {
    exists p, q :: 0 <= p < q < |keys| && keys[p] == x && keys[q] == y
  }

  lemma ComesBeforeInExtension(keys: seq<Isbn>, n: nat, x: Isbn, y: Isbn)
    requires n <= |keys| && ComesBefore(keys[..n], x, y)
    ensures ComesBefore(keys, x, y)
  {
    var p, q :| 0 <= p < q < n && keys[..n][p] == x && keys[..n][q] == y;
    assert keys[p] == x && keys[q] == y;
  }

  lemma ComesBeforeLast(keys: seq<Isbn>, x: Isbn)
    requires |keys| > 0 && x in keys[..|keys| - 1]
    ensures ComesBefore(keys, x, keys[|keys| - 1])
  {
    var n := |keys| - 1;
    var p :| 0 <= p < n && keys[..n][p] == x;
    assert keys[p] == x;
  }

  /** Matching keeps the enumeration order: of two results at positions
      i < j, the first comes before the second among the keys. */
  lemma {:induction false} MatchingInKeyOrder(keys: seq<Isbn>, books: map<Isbn, Book>, f: Field, value: string, i: nat, j: nat)
    requires KeysStored(keys, books)
    requires i < j < |Matching(keys, books, f, value)|
    ensures ComesBefore(keys, Matching(keys, books, f, value)[i], Matching(keys, books, f, value)[j])
  {
    var n := |keys| - 1;
    MatchingStep(keys, books, f, value, n);
    assert keys[..n + 1] == keys;
    var init := Matching(keys[..n], books, f, value);
    var r := Matching(keys, books, f, value);
    if j < |init| {
      assert r[i] == init[i] && r[j] == init[j];
      MatchingInKeyOrder(keys[..n], books, f, value, i, j);
      ComesBeforeInExtension(keys, n, r[i], r[j]);
    } else {
      assert r == init + [keys[n]] && r[i] == init[i] && r[j] == keys[n];
      assert init[i] in init;
      ComesBeforeLast(keys, r[i]);
    }
  }

  /** Over distinct keys, Matching never reports an ISBN twice. */
  lemma MatchingDistinct(keys: seq<Isbn>, books: map<Isbn, Book>, f: Field, value: string)
    requires KeysStored(keys, books) && Distinct(keys)
    ensures Distinct(Matching(keys, books, f, value))
  {
    var r := Matching(keys, books, f, value);
    forall i, j | 0 <= i < j < |r| ensures r[i] != r[j] {
      MatchingInKeyOrder(keys, books, f, value, i, j);
      var p, q :| 0 <= p < q < |keys| && keys[p] == r[i] && keys[q] == r[j];
    }
  }

  /** Every stored book is reported by the filter on its own author and by
      the filter on its own title. */
  lemma StoredBookIsMatched(c: Catalog, isbn: Isbn)
    requires c.Valid() && isbn in c.books
    ensures isbn in Matching(c.keys, c.books, Author, c.books[isbn].author)
    ensures isbn in Matching(c.keys, c.books, Title, c.books[isbn].title)
  {
  }
}
