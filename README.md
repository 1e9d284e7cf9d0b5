# Book resource: links and handler contracts

This project models the book resource of a small hypermedia (HATEOAS) library
server, the class `BookResource` served under `/v1/books`, and proves
properties of that model in Dafny. View book, view author and update book each
fetch a book from the repository. View book and view author wrap what they
fetched in a response envelope. Update builds an envelope with no entity.
Each of the three then appends a fixed, ordered list of links. Create book and
delete book work the same way, except that they save or remove a book instead
of fetching one. View all authors is the exception: it fetches the book and
returns its author list as it is, with no envelope and no links. A link is a
relation, an href and an HTTP verb. The model covers those link lists, the
handlers' use of the repository, and the identifiers the hrefs carry.

Modules, leaves first:

- `Wrappers`: `Option`, the result of the route readers and the payload of an
  envelope. The source's possibly-null returns stay nullable `Book?` references.
- `Decimal`: `IntToString` renders an identifier the way Java's string
  concatenation renders a `long` or an `int`. `ParseInt` is an independent
  reader that inverts it.
- `Links`: the `Link` datatype and the link list of each endpoint: `ViewLinks`,
  `CreateLinks`, `DeleteLinks`, `UpdateLinks` and `AuthorLinks`. It also has
  readers for the three route shapes those links point at: a book
  (`/books/{isbn}`), a book's reviews (`/books/{isbn}/reviews`) and one of a
  book's authors (`/books/{isbn}/authors/{id}`). The lemmas prove which
  resource each link addresses.
- `Domain`: `Author`, the query-parameter `Entry`, and `Book`. `Book` is a class
  because the repository hands out references to it and `updateBookInfo`
  changes it in place. `BookState` is its value.
- `Dto`: `Envelope<T>`, an optional payload plus the ordered links appended with
  `AddLink`. It stands for `BooksDto`, `AuthorDto` and `LinksDto`. Also here:
  the response entity, the response, and the handler outcome, which is either
  a returned value or a thrown exception.
- `Repository`: `BookRepository`. It holds a `map<int, Book>` and makes the four
  calls the resource uses. The repository's implementation is not part of this
  model. It is constructed with two functions it stays opaque about:
  - `assignIsbn`: which ISBN `saveBook` gives a new book, given the ISBNs in
    use and how many books it has saved before;
  - `applyEntry`: what `updateBookInfo` makes of a book for one query-parameter
    entry.

  A ghost log records every `updateBookInfo` call.
- `Resources`: `BookResource`, one method per endpoint. The read-only handlers
  (view book, view author, view all authors) have no `modifies` clause. So
  they provably change nothing, the repository included.
- `Scenarios`: clients that follow the links they receive. They cover create
  then view, deleting twice, and author lookup by position against the full
  author list.

Inconsistencies of the code that the model keeps and proves:

- The view response advertises `update-book` as `POST`. Create and update
  advertise it as `PUT`.
- The view response's `view-all-reviews` href is `"/books/" + isbn + "reviews"`,
  with no slash. It is proved to address neither a book nor a book's reviews.
  The update response has the slash.
- The create response has no `view-all-reviews` link. Its four links are
  exactly the first four of an update response for the same ISBN.
- View and view-author build their hrefs from the fetched book's own ISBN.
  Update builds them from the requested ISBN. So view's hrefs carry the
  requested ISBN only while the stored book's ISBN equals its key. Nothing
  keeps that true: an update entry may change the ISBN, and saving an object
  that is already stored gives it a new one.
- The view-author link carries the author's own id, not the position in the
  request.

Failure behaviour, as the code has it:

- A `null` from `removeBookByISBN` makes delete throw a plain `Exception`. It
  carries no kind and no message.
- View, view-author and view-all-authors dereference the fetched book without a
  check, and view-author indexes the author list without a check. These are
  preconditions in the model.
- View-all-authors returns a bare list, not an envelope.
- Nothing checks the field names of an update; they go to the repository as
  they are.

Line 129 concatenates the `LongParam` object itself rather than `isbn.get()`. Its
`toString` renders the parsed value, so the model uses the same rendering as for
the other hrefs.

## Model

| member | source | states |
|---|---|---|
| `Decimal.IntToString` | src/main/java/edu/sjsu/cmpe/library/api/resources/BookResource.java:60-61 | an identifier renders as an optional leading minus sign, present exactly when it is negative, followed by at least one digit and nothing else, with no leading zero except for 0 itself |
| `Decimal.ParseIntToString` | src/main/java/edu/sjsu/cmpe/library/api/resources/BookResource.java:60-61 | the rendered ISBN reads back as the same ISBN, so the concatenation keeps the identifier |
| `Decimal.IntToStringInjective` | src/main/java/edu/sjsu/cmpe/library/api/resources/BookResource.java:85 | two identifiers render alike exactly when they are equal |
| `Decimal.ParseIntRejectsSuffix` | src/main/java/edu/sjsu/cmpe/library/api/resources/BookResource.java:71-72 | a rendered identifier followed directly by a non-digit, as in `isbn + "reviews"`, is not a number |
| `Links.BookHrefAddressesBook` | src/main/java/edu/sjsu/cmpe/library/api/resources/BookResource.java:60-66 | `"/books/" + isbn` is the book route of exactly that ISBN |
| `Links.ReviewsHrefAddressesReviews` | src/main/java/edu/sjsu/cmpe/library/api/resources/BookResource.java:67-68 | `"/books/" + isbn + "/reviews"` is the reviews route of that ISBN and not a book route |
| `Links.SlashlessReviewsHrefAddressesNothing` | src/main/java/edu/sjsu/cmpe/library/api/resources/BookResource.java:71-72 | `"/books/" + isbn + "reviews"` is neither a book route nor a reviews route |
| `Links.ViewLinks` | src/main/java/edu/sjsu/cmpe/library/api/resources/BookResource.java:60-72 | the five view links, each href an extension of `"/books/" + isbn` for the fetched book's ISBN |
| `Links.CreateLinks` | src/main/java/edu/sjsu/cmpe/library/api/resources/BookResource.java:85-90 | the four create links, each href an extension of `"/books/" + isbn` for the saved book's ISBN |
| `Links.DeleteLinks` | src/main/java/edu/sjsu/cmpe/library/api/resources/BookResource.java:108-109 | the one delete link, create-book POST at `"/books/"` |
| `Links.UpdateLinks` | src/main/java/edu/sjsu/cmpe/library/api/resources/BookResource.java:129-134 | the five update links, each href an extension of `"/books/" + isbn` for the requested ISBN |
| `Links.AuthorLinks` | src/main/java/edu/sjsu/cmpe/library/api/resources/BookResource.java:146-147 | the one view-author link, whose href extends `"/books/" + isbn` |
| `Links.ViewLinksShape` | src/main/java/edu/sjsu/cmpe/library/api/resources/BookResource.java:60-72 | view has five links: view-book GET, update-book POST, delete-book DELETE, create-review POST, view-all-reviews GET, in that order |
| `Links.ViewLinksTargets` | src/main/java/edu/sjsu/cmpe/library/api/resources/BookResource.java:58-74 | view's first three links address the book, create-review addresses its reviews, and view-all-reviews addresses nothing |
| `Links.UpdateLinksShape` | src/main/java/edu/sjsu/cmpe/library/api/resources/BookResource.java:129-134 | update has the same five relations in the same order, with update-book as PUT |
| `Links.UpdateLinksTargets` | src/main/java/edu/sjsu/cmpe/library/api/resources/BookResource.java:127-135 | update's first three links address the requested book and the last two its reviews |
| `Links.CreateLinksContract` | src/main/java/edu/sjsu/cmpe/library/api/resources/BookResource.java:85-90 | create's links are the first four of update's for the same ISBN: view-book GET, update-book PUT, delete-book DELETE, create-review POST, with no view-all-reviews link |
| `Links.ViewAndUpdateLinksDiffer` | src/main/java/edu/sjsu/cmpe/library/api/resources/BookResource.java:60-134 | for one ISBN, view and update agree on every link except update-book's verb (POST against PUT) and view-all-reviews' href |
| `Links.DeleteLinksContract` | src/main/java/edu/sjsu/cmpe/library/api/resources/BookResource.java:108-109 | delete has one link, create-book POST at the collection `/books/`, which names no book |
| `Links.AuthorLinksContract` | src/main/java/edu/sjsu/cmpe/library/api/resources/BookResource.java:146-147 | view-author has one GET link, and its href reads back as the book's ISBN and the author's own id |
| `Links.LinksDetermineIdentifiers` | src/main/java/edu/sjsu/cmpe/library/api/resources/BookResource.java:85-90 | equal link lists come only from equal identifiers, for view, create, update and view-author |
| `Dto.Envelope.AddLink` | src/main/java/edu/sjsu/cmpe/library/api/resources/BookResource.java:60-61 | `addLink`: the envelope keeps its payload and gains the link after those already present |
| `Repository.ApplyAll` | src/main/java/edu/sjsu/cmpe/library/api/resources/BookResource.java:124-126 | the book after the loop: each query-parameter entry applied by the repository's field-update dispatch in turn, first to last |
| `Repository.ApplyAllAppend` | src/main/java/edu/sjsu/cmpe/library/api/resources/BookResource.java:124-126 | applying the entries `xs` and then `ys` is the same as applying `xs + ys` in one loop |
| `Repository.ApplyAllSnoc` | src/main/java/edu/sjsu/cmpe/library/api/resources/BookResource.java:124-126 | one more loop iteration is one more `updateBookInfo`, after the others |
| `Repository.BookRepository.GetBookByIsbn` | src/main/java/edu/sjsu/cmpe/library/api/resources/BookResource.java:58 | returns the stored book object, or null when none is stored |
| `Repository.BookRepository.SaveBook` | src/main/java/edu/sjsu/cmpe/library/api/resources/BookResource.java:83 | gives the request the ISBN the repository assigns from the ISBNs in use and its save count, stores that object under it, counts the save and returns it; all other fields are kept |
| `Repository.BookRepository.RemoveBookByIsbn` | src/main/java/edu/sjsu/cmpe/library/api/resources/BookResource.java:102 | removes the entry and returns the book it held, or null when there was none |
| `Repository.BookRepository.UpdateBookInfo` | src/main/java/edu/sjsu/cmpe/library/api/resources/BookResource.java:125 | changes only the given book object, by one application of the field-update dispatch, and logs the call |
| `Resources.BookResource.constructor` | src/main/java/edu/sjsu/cmpe/library/api/resources/BookResource.java:49-51 | the resource keeps the repository it is given |
| `Resources.BookResource.GetBookByIsbn` | src/main/java/edu/sjsu/cmpe/library/api/resources/BookResource.java:57-75 | changes nothing; returns the stored book with the view links of that book's own ISBN |
| `Resources.BookResource.CreateBook` | src/main/java/edu/sjsu/cmpe/library/api/resources/BookResource.java:81-94 | saves the request under the assigned ISBN (one more save), then answers 201 with the bare list of create links for that ISBN, never the book |
| `Resources.BookResource.DeleteBook` | src/main/java/edu/sjsu/cmpe/library/api/resources/BookResource.java:100-113 | removes the entry; throws when nothing was stored, otherwise answers 200 with the delete links |
| `Resources.BookResource.UpdateBook` | src/main/java/edu/sjsu/cmpe/library/api/resources/BookResource.java:119-136 | fetches the book once and calls `updateBookInfo` on it once per entry, in order, so its new value is the ordered application of the entries; the map is unchanged; answers 200 with the update links of the requested ISBN |
| `Resources.BookResource.ViewBookAuthor` | src/main/java/edu/sjsu/cmpe/library/api/resources/BookResource.java:142-149 | changes nothing; for a 1-based position in range, returns the author at index `id - 1` with the view-author link of the book's ISBN and that author's id |
| `Resources.BookResource.ViewAllAuthors` | src/main/java/edu/sjsu/cmpe/library/api/resources/BookResource.java:155-159 | changes nothing; returns the book's author list as stored, with no links |
| `Scenarios.CreateThenView` | src/main/java/edu/sjsu/cmpe/library/api/resources/BookResource.java:83-93 | following the view-book link of a create response views the created object, which equals the request except for the assigned ISBN |
| `Scenarios.DeleteTwice` | src/main/java/edu/sjsu/cmpe/library/api/resources/BookResource.java:102-111 | a second delete of the same ISBN always throws; the first throws exactly when the ISBN was absent; the removal happens once |
| `Scenarios.AuthorByPosition` | src/main/java/edu/sjsu/cmpe/library/api/resources/BookResource.java:143-158 | the author at position `id` is the element `id - 1` of the full author list, and its link names the author's id |

## Left out

- HTTP plumbing is not modelled: routing annotations, `Response`, `UriInfo`,
  `MultivaluedMap` and JSON marshalling. A response is a status and an entity.
  The entity is either the bare link array of create or the `LinksDto` object
  of delete and update.
- The timing annotations are not modelled. They are metrics instrumentation.
- Parsing the path parameter (`LongParam`) is not modelled. The ISBN arrives as
  an already parsed integer. The handlers treat it as unbounded, since they do
  no arithmetic on it.
- What the repository does inside its four calls is not shown.
  - How `saveBook` picks an ISBN is the function `assignIsbn`.
  - What `updateBookInfo` does with a field name and its values is the function
    `applyEntry`.
  - `saveBook` is modelled as storing and returning the request object itself.
- Repository.BookRepository.UpdateBookInfo: an exception thrown inside the
  repository's field-update dispatch, for example on an unknown field name, is
  not modelled. The dispatch is a total function.
- Repository.BookRepository.UpdateBookInfo: the book must not be null. What the
  repository does when `updateBook` hands it a null book is not shown. So
  `UpdateBook` requires the book to be present whenever there is at least one
  query parameter. With no parameters it answers 200 for any ISBN, as the code
  does.
- The internals of the DTO classes (`BooksDto`, `LinksDto`, `AuthorDto`,
  `LinkDto`) are not modelled. Each is an optional payload and an ordered
  sequence of links. The model builds each one fresh per request, so
  aliasing between requests is not modelled.
- The fields of `Book` and `Author` that the resource never reads are not
  modelled. They appear only as `Book.info` and `Author.name`, whose meaning
  the model does not fix.
- Resources.BookResource.ViewBookAuthor: Java's 32-bit `int` for the position
  is not modelled. The precondition `1 <= id` already rules out the only
  wrap-around, `id - 1` at the smallest `int`.
- The unused imports and the unused `content` parameter of `updateBook` are not
  modelled.
- Distinct failure kinds are not modelled, because the code has none.
  Delete throws one plain exception. The other handlers fail only where Java
  would throw on a null or an index out of range, and the model makes those
  cases preconditions.
- Concurrent access to the shared repository is not modelled. The handlers are
  sequential, and every repository call is atomic.
- The review endpoints themselves are not part of this model. Only the links
  that advertise them are.
