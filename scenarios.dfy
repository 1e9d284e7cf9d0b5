/**
 * Clients of the book resource that follow the links they are given: what a
 * sequence of requests observes, proved from the handlers' contracts alone.
 */
module Scenarios {
  import opened Wrappers
  import opened Domain
  import opened Links
  import opened Dto
  import opened Resources

  /**
   * Create a book, read its ISBN back from the view-book link of the answer,
   * and view it: the view shows the request object, now carrying the assigned
   * ISBN and otherwise as submitted.
   */
  method CreateThenView(resource: BookResource, request: Book) returns (created: Response, viewed: BooksDto)
    modifies resource.bookRepository`books, resource.bookRepository`saves, request
    ensures created.status == 201 && created.entity.LinkList? && |created.entity.list| == 4
    ensures ParseBookHref(created.entity.list[0].href).Some?
    ensures var isbn := ParseBookHref(created.entity.list[0].href).value;
      && viewed.payload == Some(request)
      && request.State() == old(request.State()).(isbn := isbn)
      && viewed.links == ViewLinks(isbn)
  {
    created := resource.CreateBook(request);
    ghost var newIsbn := resource.bookRepository.assignIsbn(old(resource.bookRepository.books).Keys, old(resource.bookRepository.saves));
    CreateLinksContract(newIsbn);
    var isbn := ParseBookHref(created.entity.list[0].href);
    viewed := resource.GetBookByIsbn(isbn.value);
  }

  /**
   * Delete the same ISBN twice: the second request always throws, and the
   * first throws exactly when nothing was stored under the ISBN.
   */
  method DeleteTwice(resource: BookResource, isbn: int) returns (first: Outcome<Response>, second: Outcome<Response>)
    modifies resource.bookRepository`books
    ensures first.Returned? <==> isbn in old(resource.bookRepository.books)
    ensures second == Threw(GenericException)
    ensures resource.bookRepository.books == old(resource.bookRepository.books) - {isbn}
  {
    first := resource.DeleteBook(isbn);
    second := resource.DeleteBook(isbn);
  }

  /**
   * Viewing one author by 1-based position gives the element before that
   * position in the list of all authors, and its link names the author's own
   * id rather than the position asked for.
   */
  method AuthorByPosition(resource: BookResource, isbn: int, id: int) returns (one: AuthorDto, all: seq<Author>)
    requires isbn in resource.bookRepository.books
    requires 1 <= id <= |resource.bookRepository.books[isbn].authors|
    ensures 1 <= id <= |all| && one.payload == Some(all[id - 1])
    ensures |one.links| == 1
    ensures ParseAuthorHref(one.links[0].href) == Some((resource.bookRepository.books[isbn].isbn, all[id - 1].id))
  {
    one := resource.ViewBookAuthor(isbn, id);
    all := resource.ViewAllAuthors(isbn);
    AuthorLinksContract(resource.bookRepository.books[isbn].isbn, all[id - 1].id);
  }
}
