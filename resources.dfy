/**
 * The book resource: one handler per endpoint of `/v1/books`. Each handler
 * calls the repository, wraps the result in an envelope and appends the links
 * of its response one by one. Handlers without a `modifies` clause are the
 * read-only ones: they change nothing, the repository included.
 */
module Resources {
  import opened Wrappers
  import opened Decimal
  import opened Domain
  import opened Links
  import opened Dto
  import opened Repository

  class BookResource {
    const bookRepository: BookRepository

    constructor (bookRepository: BookRepository)
      ensures this.bookRepository == bookRepository
    {
      this.bookRepository := bookRepository;
    }

    /** View book: the stored book and the view links of its own ISBN. */
    method GetBookByIsbn(isbn: int) returns (bookResponse: BooksDto)
      requires isbn in bookRepository.books
      ensures bookResponse.payload == Some(bookRepository.books[isbn])
      ensures bookResponse.links == ViewLinks(bookRepository.books[isbn].isbn)
    {
      var book := bookRepository.GetBookByIsbn(isbn);
      bookResponse := Envelope(Some(book), []);
      bookResponse := bookResponse.AddLink(Link("view-book", BooksRoot + IntToString(book.isbn), "GET"));
      bookResponse := bookResponse.AddLink(Link("update-book", BooksRoot + IntToString(book.isbn), "POST"));
      bookResponse := bookResponse.AddLink(Link("delete-book", BooksRoot + IntToString(book.isbn), "DELETE"));
      bookResponse := bookResponse.AddLink(Link("create-review", BooksRoot + IntToString(book.isbn) + "/reviews", "POST"));
      bookResponse := bookResponse.AddLink(Link("view-all-reviews", BooksRoot + IntToString(book.isbn) + "reviews", "GET"));
    }

    /**
     * Create book: save the request first, then answer 201 with the bare link
     * list built from the ISBN the repository assigned.
     */
    method CreateBook(request: Book) returns (response: Response)
      modifies bookRepository`books, bookRepository`saves, request
      ensures var isbn := bookRepository.assignIsbn(old(bookRepository.books).Keys, old(bookRepository.saves));
        && request.State() == old(request.State()).(isbn := isbn)
        && bookRepository.books == old(bookRepository.books)[isbn := request]
        && bookRepository.saves == old(bookRepository.saves) + 1
        && response == Response(201, LinkList(CreateLinks(isbn)))
    {
      var savedBook := bookRepository.SaveBook(request);
      var location := BooksRoot + IntToString(savedBook.isbn);
      var bookResponse: BooksDto := Envelope(Some(savedBook), []);
      bookResponse := bookResponse.AddLink(Link("view-book", location, "GET"));
      bookResponse := bookResponse.AddLink(Link("update-book", location, "PUT"));
      bookResponse := bookResponse.AddLink(Link("delete-book", location, "DELETE"));
      bookResponse := bookResponse.AddLink(Link("create-review", location + "/reviews", "POST"));
      assert savedBook.isbn == bookRepository.assignIsbn(old(bookRepository.books).Keys, old(bookRepository.saves));
      assert bookResponse.links == CreateLinks(savedBook.isbn);
      response := Response(201, LinkList(bookResponse.links));
    }

    /**
     * Delete book: remove the entry; throw when nothing was stored under the
     * ISBN, otherwise answer 200 with the create-book link.
     */
    method DeleteBook(isbn: int) returns (outcome: Outcome<Response>)
      modifies bookRepository`books
      ensures bookRepository.books == old(bookRepository.books) - {isbn}
      ensures isbn !in old(bookRepository.books) ==> outcome == Threw(GenericException)
      ensures isbn in old(bookRepository.books)
        ==> outcome == Returned(Response(200, LinksEntity(Envelope(None, DeleteLinks()))))
    {
      var deleteResponse := bookRepository.RemoveBookByIsbn(isbn);
      if deleteResponse == null {
        outcome := Threw(GenericException);
      } else {
        var links: LinksDto := Envelope(None, []);
        links := links.AddLink(Link("create-book", BooksRoot, "POST"));
        assert links.links == DeleteLinks();
        outcome := Returned(Response(200, LinksEntity(links)));
      }
    }

    /**
     * Update book: fetch the book once, hand it to `updateBookInfo` once per
     * query-parameter entry in order, then answer 200 with the update links of
     * the requested ISBN. The stored map itself is not changed; the book object
     * it holds is. A missing book is only dereferenced when there is an entry.
     */
    method UpdateBook(isbn: int, queryParams: seq<Entry>) returns (response: Response)
      requires isbn in bookRepository.books || queryParams == []
      modifies bookRepository`updateCalls
      modifies if isbn in bookRepository.books then {bookRepository.books[isbn]} else {}
      ensures isbn in bookRepository.books ==>
        var book := bookRepository.books[isbn];
        && book.State() == ApplyAll(bookRepository.applyEntry, old(book.State()), queryParams)
        && bookRepository.updateCalls == old(bookRepository.updateCalls) + CallsOn(book, queryParams)
      ensures isbn !in bookRepository.books ==> bookRepository.updateCalls == old(bookRepository.updateCalls)
      ensures response == Response(200, LinksEntity(Envelope(None, UpdateLinks(isbn))))
    {
      var updateResponse := bookRepository.GetBookByIsbn(isbn);
      ghost var start := if updateResponse != null then updateResponse.State() else BookState(0, [], map[]);
      ghost var calls := bookRepository.updateCalls;
      for i := 0 to |queryParams|
        invariant queryParams != [] ==> updateResponse != null
        invariant updateResponse != null ==>
          updateResponse.State() == ApplyAll(bookRepository.applyEntry, start, queryParams[..i])
        invariant updateResponse != null ==>
          bookRepository.updateCalls == calls + CallsOn(updateResponse, queryParams[..i])
        invariant updateResponse == null ==> bookRepository.updateCalls == calls
      {
        bookRepository.UpdateBookInfo(updateResponse, queryParams[i]);
        assert queryParams[..i + 1] == queryParams[..i] + [queryParams[i]];
        ApplyAllSnoc(bookRepository.applyEntry, start, queryParams[..i], queryParams[i]);
        assert CallsOn(updateResponse, queryParams[..i + 1])
            == CallsOn(updateResponse, queryParams[..i]) + [(updateResponse, queryParams[i])];
      }
      assert queryParams[..|queryParams|] == queryParams;
      var links: LinksDto := Envelope(None, []);
      var location := BooksRoot + IntToString(isbn);
      links := links.AddLink(Link("view-book", location, "GET"));
      links := links.AddLink(Link("update-book", location, "PUT"));
      links := links.AddLink(Link("delete-book", location, "DELETE"));
      links := links.AddLink(Link("create-review", location + "/reviews", "POST"));
      links := links.AddLink(Link("view-all-reviews", location + "/reviews", "GET"));
      assert links.links == UpdateLinks(isbn);
      response := Response(200, LinksEntity(links));
    }

    /**
     * View author: the author at 1-based position `id`, and one link built
     * from the book's ISBN and that author's own id.
     */
    method ViewBookAuthor(isbn: int, id: int) returns (authorResponse: AuthorDto)
      requires isbn in bookRepository.books
      requires 1 <= id <= |bookRepository.books[isbn].authors|
      ensures authorResponse.payload == Some(bookRepository.books[isbn].authors[id - 1])
      ensures authorResponse.links
           == AuthorLinks(bookRepository.books[isbn].isbn, bookRepository.books[isbn].authors[id - 1].id)
    {
      var book := bookRepository.GetBookByIsbn(isbn);
      var author := book.authors[id - 1];
      authorResponse := Envelope(Some(author), []);
      authorResponse := authorResponse.AddLink(
        Link("view-author", BooksRoot + IntToString(book.isbn) + "/authors/" + IntToString(author.id), "GET"));
    }

    /** View all authors: the book's author list as stored, with no envelope. */
    method ViewAllAuthors(isbn: int) returns (authors: seq<Author>)
      requires isbn in bookRepository.books
      ensures authors == bookRepository.books[isbn].authors
    {
      var book := bookRepository.GetBookByIsbn(isbn);
      authors := book.authors;
    }
  }
}
