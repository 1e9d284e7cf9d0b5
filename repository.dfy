/**
 * The book repository the resource is constructed with. Its implementation is
 * not part of this model: how it assigns ISBNs and how it applies one
 * query-parameter entry to a book are functions it is constructed with, and
 * the four operations below are stated in terms of them.
 */
module Repository {
  import opened Domain

  /** The book after applying each entry in turn, first to last. */
  function ApplyAll(apply: (BookState, Entry) -> BookState, start: BookState, entries: seq<Entry>): BookState
    decreases |entries|
  {
    if entries == [] then start else ApplyAll(apply, apply(start, entries[0]), entries[1..])
  }

  /** The calls made by applying each entry to `book`, in order. */
  function CallsOn(book: Book, entries: seq<Entry>): seq<(Book, Entry)> {
    seq(|entries|, i requires 0 <= i < |entries| => (book, entries[i]))
  }

  /** Applying `xs` and then `ys` is applying `xs + ys`. */
  lemma {:induction false} ApplyAllAppend(apply: (BookState, Entry) -> BookState, start: BookState, xs: seq<Entry>, ys: seq<Entry>)
    ensures ApplyAll(apply, start, xs + ys) == ApplyAll(apply, ApplyAll(apply, start, xs), ys)
    decreases |xs|
  {
    if xs != [] {
      assert (xs + ys)[0] == xs[0];
      assert (xs + ys)[1..] == xs[1..] + ys;
      ApplyAllAppend(apply, apply(start, xs[0]), xs[1..], ys);
    } else {
      assert xs + ys == ys;
    }
  }

  /** One more entry is one more application, after the others. */
  lemma ApplyAllSnoc(apply: (BookState, Entry) -> BookState, start: BookState, entries: seq<Entry>, last: Entry)
    ensures ApplyAll(apply, start, entries + [last]) == apply(ApplyAll(apply, start, entries), last)
  {
    ApplyAllAppend(apply, start, entries, [last]);
    assert ApplyAll(apply, ApplyAll(apply, start, entries), [last])
        == ApplyAll(apply, apply(ApplyAll(apply, start, entries), last), []);
  }

  class BookRepository {
    var books: map<int, Book>
    /** Every `updateBookInfo` call so far, in order. */
    ghost var updateCalls: seq<(Book, Entry)>
    /** How many books `saveBook` has stored so far. */
    var saves: nat
    /** The ISBN `saveBook` assigns, given the ISBNs in use and the saves so far. */
    const assignIsbn: (set<int>, nat) -> int
    /** What `updateBookInfo` makes of a book for one entry. */
    const applyEntry: (BookState, Entry) -> BookState

    constructor (assignIsbn: (set<int>, nat) -> int, applyEntry: (BookState, Entry) -> BookState)
      ensures books == map[] && saves == 0 && updateCalls == []
      ensures this.assignIsbn == assignIsbn && this.applyEntry == applyEntry
    {
      books := map[];
      saves := 0;
      updateCalls := [];
      this.assignIsbn := assignIsbn;
      this.applyEntry := applyEntry;
    }

    /** `getBookByISBN`: the stored book, or null when none is stored. */
    method GetBookByIsbn(isbn: int) returns (book: Book?)
      ensures isbn in books ==> book == books[isbn]
      ensures isbn !in books ==> book == null
    {
      book := if isbn in books then books[isbn] else null;
    }

    /** `saveBook`: give the request an ISBN and store that same object under it. */
    method SaveBook(request: Book) returns (savedBook: Book)
      modifies this`books, this`saves, request
      ensures savedBook == request
      ensures savedBook.State() == old(request.State()).(isbn := assignIsbn(old(books).Keys, old(saves)))
      ensures books == old(books)[savedBook.isbn := savedBook]
      ensures saves == old(saves) + 1
    {
      var isbn := assignIsbn(books.Keys, saves);
      request.isbn := isbn;
      books := books[isbn := request];
      saves := saves + 1;
      savedBook := request;
    }

    /** `removeBookByISBN`: drop the entry, returning the book it held or null. */
    method RemoveBookByIsbn(isbn: int) returns (removed: Book?)
      modifies this`books
      ensures isbn in old(books) ==> removed == old(books)[isbn]
      ensures isbn !in old(books) ==> removed == null
      ensures books == old(books) - {isbn}
    {
      removed := if isbn in books then books[isbn] else null;
      books := books - {isbn};
    }

    /** `updateBookInfo`: change the given book object in place for one entry. */
    method UpdateBookInfo(book: Book, entry: Entry)
      modifies book, this`updateCalls
      ensures book.State() == applyEntry(old(book.State()), entry)
      ensures updateCalls == old(updateCalls) + [(book, entry)]
    {
      var updated := applyEntry(book.State(), entry);
      book.isbn, book.authors, book.info := updated.isbn, updated.authors, updated.info;
      updateCalls := updateCalls + [(book, entry)];
    }
  }
}
