# Bookstore public routes, modelled in Dafny

This project models the public router of a small bookstore catalogue API
(`final_project/router/general.js`). The router has three kinds of logic:

- **Keyed lookups.** `/isbn/:isbn` returns the stored book and `/review/:isbn`
  returns that book's reviews map. Both answer not-found (404) when the ISBN
  is not a key of the catalogue.
- **Catalogue filters.** `/author/:author` and `/title/:title` walk the
  catalogue's keys in enumeration order. For every exact match they push a
  projected record: `{isbn, title, reviews}` for the author route and
  `{isbn, author, reviews}` for the title route. An empty result is
  not-found (404).
- **Registration.** `/register` rejects a missing or empty username or
  password (400). It then rejects a username already on the shared user list
  (409). Otherwise it appends `{username, password}` to the list (201).

Files:

- `books.dfy` (module `Books`): the book record and the catalogue. The
  catalogue is a sequence of ISBN keys in enumeration order plus a map from
  ISBN to book. Also the exact-match filter `Matching`, with the lemmas that
  it is sound, complete, empty exactly when nothing matches, in key order and
  free of repeats.
- `queries.dfy` (module `Queries`): the two lookups as functions and the two
  scans as methods with loops. Each scan is proved equal, element by element,
  to the projection of `Matching`. Each route is split the way the handler
  is: the `forEach` scan (`ScanByAuthor`, `ScanByTitle`), then the length
  test that picks 200 or 404 (`BooksByAuthor`, `BooksByTitle`).
- `registration.dfy` (module `Registration`): the pure transition
  `RegisterStep`, its lemmas (error precedence, append-only, uniqueness of
  usernames, a repeated name is refused), `Replay` over a series of
  requests, and the class `UserRegistry`. The class holds the shared `users`
  list as a `seq` field; `FindUser` is the `find` scan and `Register` is the
  route's check-then-push.

Modelling choices:

- The catalogue is never written by these routes, so it is a value passed to
  every operation. The lookups are functions and cannot change it.
- `Catalog.Valid()` states what `Object.keys(books)` guarantees: every
  stored ISBN is listed exactly once, and every listed key is stored. The
  scans need only the second half (`KeysStored`). Distinct keys matter only
  for the lemma that no ISBN is reported twice.
- A truthiness test on a book (`books[isbn]`) is map membership, because a
  stored book is always an object. A truthiness test on a request field
  (`!username`) holds for an absent field and for the empty string
  (`Input`, `Present`).
- `users.find(...)` returns the matching record, which is always truthy. So
  the duplicate check holds exactly when some entry has an identical
  username.
- HTTP statuses are the constructors of `Status` (`Status.Code()` gives
  400, 409 and 201, as `CreatedExactlyWhenNew` states) and of `Response`
  (`Found` is 200, `NotFound` is 404).

## Model

| member | source | states |
|---|---|---|
| `Books.Matching` | final_project/router/general.js:48-58 | a key is in the filtered sequence exactly when it is enumerated and its book's field equals the query: no false positives, no false negatives |
| `Books.MatchingInKeyOrder` | final_project/router/general.js:50-57 | of two results at positions i < j, the first occurs at an earlier position among the keys than the second, so matches keep the catalogue's key order |
| `Books.MatchingDistinct` | final_project/router/general.js:50-57 | over distinct keys, no ISBN is reported twice |
| `Books.MatchingEmpty` | final_project/router/general.js:60-88 | the filtered sequence is empty exactly when no enumerated book has the queried value; this is the `length > 0` test of both the author route (lines 60-64) and the title route (lines 84-88) |
| `Books.StoredBookIsMatched` | final_project/router/general.js:48-82 | every stored book is found by the filter on its own author and by the filter on its own title |
| `Queries.BookByIsbn` | final_project/router/general.js:34-41 | found exactly when the ISBN is a catalogue key, and then the answer is the stored book |
| `Queries.ReviewsByIsbn` | final_project/router/general.js:92-100 | found exactly when the ISBN is a key, and then the answer is that book's reviews map |
| `Queries.ReviewsAgreeWithBook` | final_project/router/general.js:95-99 | the review route is not-found exactly when the ISBN route is; found reviews are the found book's; an empty reviews map is a found answer |
| `Queries.FoundBookIsFiltered` | final_project/router/general.js:36-37 | a book found by ISBN is also reported by the author filter on its author and the title filter on its title |
| `Queries.ScanByAuthor` | final_project/router/general.js:48-58 | the pushed entries are the `Matching` keys for the author, in key order, each projected to `{isbn, title, reviews}` of its stored book |
| `Queries.BooksByAuthor` | final_project/router/general.js:44-65 | not-found exactly when no book has that author; otherwise the whole projected sequence |
| `Queries.ScanByTitle` | final_project/router/general.js:72-82 | the pushed entries are the `Matching` keys for the title, in key order, each projected to `{isbn, author, reviews}` of its stored book |
| `Queries.BooksByTitle` | final_project/router/general.js:68-89 | not-found exactly when no book has that title; otherwise the whole projected sequence |
| `Registration.RegisterStep` | final_project/router/general.js:16-25 | the old list is a prefix of the new one, which is longer by one entry exactly when the answer is Created |
| `Registration.InvalidInputFirst` | final_project/router/general.js:16-18 | a missing or empty field gives InvalidInput and leaves the list unchanged, even when the username is taken |
| `Registration.CreatedExactlyWhenNew` | final_project/router/general.js:20-25 | Created exactly when both fields are present and the name is new, and then exactly `{username, password}` is appended; Conflict exactly when both are present and the name is taken; anything but Created leaves the list unchanged; the status code is 400, 409 or 201 in those three cases |
| `Registration.RegisteredNameIsKnown` | final_project/router/general.js:20-24 | after a registration with both fields present, the username is on the list |
| `Registration.RegisterKeepsUnique` | final_project/router/general.js:20-24 | if no two entries share a username before a registration, none do after it |
| `Registration.SameNameTwice` | final_project/router/general.js:20-24 | two registrations of one username never both succeed; after a success, a second one with a present password is a Conflict |
| `Registration.Replay` | final_project/router/general.js:12-26 | handling a series of registrations in order only appends to the list |
| `Registration.ReplayStep` | final_project/router/general.js:12-26 | one more request extends a replayed history by exactly one registration step, the step `UserRegistry.Register` performs |
| `Registration.ReplayKeepsNames` | final_project/router/general.js:20-24 | a username on the list at some point of a history stays on it for the rest of the history |
| `Registration.AtMostOneCreatedPerName` | final_project/router/general.js:20-24 | in any history, of two requests with the same username at most one is Created, and after a Created one a later one with a present password is a Conflict |
| `Registration.ReplayKeepsUnique` | final_project/router/general.js:12-26 | any series of registrations, handled one at a time, keeps usernames unique |
| `Registration.UserRegistry.constructor` | final_project/router/general.js:5 | the registry starts with the given list of users |
| `Registration.UserRegistry.FindUser` | final_project/router/general.js:20 | none exactly when no entry has the username; otherwise the first entry that has it |
| `Registration.UserRegistry.Register` | final_project/router/general.js:12-26 | the status and the new list are those of `RegisterStep` on the old list, and unique usernames stay unique |

## Left out

- Express routing, the request and response objects, and JSON formatting
  with `JSON.stringify(..., null, 4)`. Outcomes are the `Response` and
  `Status` datatypes; the message strings are not modelled.
- The `/` route (list the whole catalogue). It only serialises the store and
  contains no logic.
- The `/async-await/...` and `/async/...` routes. They put the already
  decoded path parameter into a URL for the same server without encoding it
  again, and return that server's answer, or a fixed message on any failure
  (500 for `/async-await/`, 404 for the others). So a parameter holding `?`,
  `#` or `%` reaches the inner route changed, and the answer can differ from
  the direct route. Network I/O is out of scope.
- Registrations handled by separate server processes, each with its own
  list. Within one process the handler runs from the duplicate check to the
  push without yielding, so requests are handled one at a time, in arrival
  order, as the model does.
- The contents of `booksdb.js` and `auth_users.js` (the initial catalogue,
  the initial users and `isValid`) are not part of this model. The catalogue
  and the initial list are parameters. `isValid` is imported but never
  called by these routes.
- Book fields other than `title`, `author` and `reviews`, and the shape of a
  review value, which is kept as a string.
- JavaScript values other than strings in the request body (numbers,
  booleans, objects), and the prototype chain of the catalogue object (for
  example `books["constructor"]` being truthy). A field is either missing or
  a string, and a book lookup is map membership.
- The exact `Object.keys` ordering rules (integer-like keys first, then
  insertion order). The enumeration order is the given `keys` sequence.
