/**
 * The hypermedia links of the book resource: the fixed, ordered link list
 * each endpoint appends, and readers for the three route shapes those links
 * point at. Every href is the concatenation of literal path segments with the
 * decimal rendering of an identifier.
 */
module Links {
  import opened Wrappers
  import opened Decimal

  /** A `LinkDto`: relation name, target and HTTP verb. */
  datatype Link = Link(relation: string, href: string, verb: string)

  const BooksRoot: string := "/books/"
  const ReviewsSegment: string := "/reviews"
  const AuthorsSegment: string := "/authors/"

  /** `"/books/" + isbn` */
  function BookHref(isbn: int): string {
    BooksRoot + IntToString(isbn)
  }

  /** The links of the view-book response, built from the fetched book's ISBN. */
  function ViewLinks(isbn: int): (links: seq<Link>)
    ensures |links| == 5 && forall k :: 0 <= k < |links| ==> BookHref(isbn) <= links[k].href
  {
    [ Link("view-book", BookHref(isbn), "GET"),
      Link("update-book", BookHref(isbn), "POST"),
      Link("delete-book", BookHref(isbn), "DELETE"),
      Link("create-review", BookHref(isbn) + ReviewsSegment, "POST"),
      Link("view-all-reviews", BookHref(isbn) + "reviews", "GET") ]
  }

  /** The links of the create-book response, built from the saved book's ISBN. */
  function CreateLinks(isbn: int): (links: seq<Link>)
    ensures |links| == 4 && forall k :: 0 <= k < |links| ==> BookHref(isbn) <= links[k].href
  {
    [ Link("view-book", BookHref(isbn), "GET"),
      Link("update-book", BookHref(isbn), "PUT"),
      Link("delete-book", BookHref(isbn), "DELETE"),
      Link("create-review", BookHref(isbn) + ReviewsSegment, "POST") ]
  }

  /** The single link of the delete-book response. */
  function DeleteLinks(): seq<Link> {
    [ Link("create-book", BooksRoot, "POST") ]
  }

  /** The links of the update-book response, built from the requested ISBN. */
  function UpdateLinks(isbn: int): (links: seq<Link>)
    ensures |links| == 5 && forall k :: 0 <= k < |links| ==> BookHref(isbn) <= links[k].href
  {
    [ Link("view-book", BookHref(isbn), "GET"),
      Link("update-book", BookHref(isbn), "PUT"),
      Link("delete-book", BookHref(isbn), "DELETE"),
      Link("create-review", BookHref(isbn) + ReviewsSegment, "POST"),
      Link("view-all-reviews", BookHref(isbn) + ReviewsSegment, "GET") ]
  }

  /** The single link of the view-author response. */
  function AuthorLinks(isbn: int, authorId: int): (links: seq<Link>)
    ensures |links| == 1 && BookHref(isbn) <= links[0].href
  {
    [ Link("view-author", BookHref(isbn) + AuthorsSegment + IntToString(authorId), "GET") ]
  }

  function Relations(links: seq<Link>): seq<string> {
    seq(|links|, i requires 0 <= i < |links| => links[i].relation)
  }

  function Verbs(links: seq<Link>): seq<string> {
    seq(|links|, i requires 0 <= i < |links| => links[i].verb)
  }

  // Route readers: the ISBN (and author id) an href addresses, if it has the
  // shape of a book, a book's reviews, or one of a book's authors.

  /** `/books/{isbn}` */
  function ParseBookHref(href: string): Option<int> {
    if |href| >= |BooksRoot| && href[..|BooksRoot|] == BooksRoot
    then ParseInt(href[|BooksRoot|..])
    else None
  }

  /** `/books/{isbn}/reviews` */
  function ParseReviewsHref(href: string): Option<int> {
    if |href| >= |BooksRoot| + |ReviewsSegment|
       && href[..|BooksRoot|] == BooksRoot
       && href[|href| - |ReviewsSegment|..] == ReviewsSegment
    then ParseInt(href[|BooksRoot|..|href| - |ReviewsSegment|])
    else None
  }

  /** The position of the first `c` in `s`. */
  function IndexOf(s: string, c: char): (r: Option<nat>)
    ensures r.Some? ==> r.value < |s| && s[r.value] == c
    ensures r.Some? ==> forall i :: 0 <= i < r.value ==> s[i] != c
    ensures r.None? ==> forall i :: 0 <= i < |s| ==> s[i] != c
  {
    if s == [] then None
    else if s[0] == c then Some(0)
    else match IndexOf(s[1..], c)
      case None => None
      case Some(j) => Some(j + 1)
  }

  /** `/books/{isbn}/authors/{id}`: the ISBN runs up to the first `/`. */
  function ParseAuthorHref(href: string): Option<(int, int)> {
    if |href| < |BooksRoot| || href[..|BooksRoot|] != BooksRoot then None
    else
      var rest := href[|BooksRoot|..];
      match IndexOf(rest, '/')
      case None => None
      case Some(j) =>
        var tail := rest[j..];
        if |tail| < |AuthorsSegment| || tail[..|AuthorsSegment|] != AuthorsSegment then None
        else
          match (ParseInt(rest[..j]), ParseInt(tail[|AuthorsSegment|..]))
          case (Some(isbn), Some(id)) => Some((isbn, id))
          case _ => None
  }

  lemma BookHrefAddressesBook(isbn: int)
    ensures ParseBookHref(BookHref(isbn)) == Some(isbn)
  {
    assert BookHref(isbn)[|BooksRoot|..] == IntToString(isbn);
    ParseIntToString(isbn);
  }

  lemma ReviewsHrefAddressesReviews(isbn: int)
    ensures ParseReviewsHref(BookHref(isbn) + ReviewsSegment) == Some(isbn)
    ensures ParseBookHref(BookHref(isbn) + ReviewsSegment) == None
  {
    var h := BookHref(isbn) + ReviewsSegment;
    assert h[..|BooksRoot|] == BooksRoot;
    assert h[|h| - |ReviewsSegment|..] == ReviewsSegment;
    assert h[|BooksRoot|..|h| - |ReviewsSegment|] == IntToString(isbn);
    ParseIntToString(isbn);
    assert h[|BooksRoot|..] == IntToString(isbn) + ReviewsSegment;
    ParseIntRejectsSuffix(isbn, ReviewsSegment);
  }

  /** The slash-less `"/books/" + isbn + "reviews"` is neither a book nor its reviews. */
  lemma SlashlessReviewsHrefAddressesNothing(isbn: int)
    ensures ParseBookHref(BookHref(isbn) + "reviews") == None
    ensures ParseReviewsHref(BookHref(isbn) + "reviews") == None
  {
    var r := IntToString(isbn);
    var h := BookHref(isbn) + "reviews";
    assert h[|BooksRoot|..] == r + "reviews";
    ParseIntRejectsSuffix(isbn, "reviews");
    assert h[|h| - |ReviewsSegment|] == r[|r| - 1];
  }

  /** The first `/` of `a + t` is the first of `t` when `a` has none. */
  lemma IndexOfAfterSlashFree(a: string, t: string)
    requires forall i :: 0 <= i < |a| ==> a[i] != '/'
    requires |t| >= 1 && t[0] == '/'
    ensures IndexOf(a + t, '/') == Some(|a|)
  {
    var s := a + t;
    assert s[|a|] == '/';
    assert forall i :: 0 <= i < |a| ==> s[i] == a[i];
  }

  /** An author href reads back as the two identifiers spliced into it. */
  lemma ParseAuthorHrefOfParts(a: string, b: string)
    requires forall i :: 0 <= i < |a| ==> a[i] != '/'
    requires ParseInt(a).Some? && ParseInt(b).Some?
    ensures ParseAuthorHref(BooksRoot + a + AuthorsSegment + b) == Some((ParseInt(a).value, ParseInt(b).value))
  {
    var href := BooksRoot + a + AuthorsSegment + b;
    var rest := href[|BooksRoot|..];
    assert rest == a + (AuthorsSegment + b);
    IndexOfAfterSlashFree(a, AuthorsSegment + b);
    assert rest[..|a|] == a;
    var tail := rest[|a|..];
    assert tail == AuthorsSegment + b;
    assert tail[..|AuthorsSegment|] == AuthorsSegment;
    assert tail[|AuthorsSegment|..] == b;
  }

  /**
   * View: five links in the order view-book, update-book (advertised as POST),
   * delete-book, create-review, view-all-reviews.
   */
  lemma ViewLinksShape(isbn: int)
    ensures Relations(ViewLinks(isbn))
         == ["view-book", "update-book", "delete-book", "create-review", "view-all-reviews"]
    ensures Verbs(ViewLinks(isbn)) == ["GET", "POST", "DELETE", "POST", "GET"]
  {
  }

  /**
   * View, by target: the first three links address the book, create-review
   * its reviews, and view-all-reviews nothing at all.
   */
  lemma ViewLinksTargets(isbn: int)
    ensures forall k :: 0 <= k < 3 ==> ParseBookHref(ViewLinks(isbn)[k].href) == Some(isbn)
    ensures ParseReviewsHref(ViewLinks(isbn)[3].href) == Some(isbn)
    ensures ParseBookHref(ViewLinks(isbn)[4].href) == None
    ensures ParseReviewsHref(ViewLinks(isbn)[4].href) == None
  {
    var links := ViewLinks(isbn);
    assert forall k :: 0 <= k < 3 ==> links[k].href == BookHref(isbn);
    assert links[3].href == BookHref(isbn) + ReviewsSegment;
    assert links[4].href == BookHref(isbn) + "reviews";
    BookHrefAddressesBook(isbn);
    ReviewsHrefAddressesReviews(isbn);
    SlashlessReviewsHrefAddressesNothing(isbn);
  }

  /**
   * Update: the same five relations in the same order, update-book as PUT.
   */
  lemma UpdateLinksShape(isbn: int)
    ensures Relations(UpdateLinks(isbn))
         == ["view-book", "update-book", "delete-book", "create-review", "view-all-reviews"]
    ensures Verbs(UpdateLinks(isbn)) == ["GET", "PUT", "DELETE", "POST", "GET"]
  {
  }

  /**
   * Update, by target: every link addresses the requested book (the first
   * three) or its reviews (the last two).
   */
  lemma UpdateLinksTargets(isbn: int)
    ensures forall k :: 0 <= k < 3 ==> ParseBookHref(UpdateLinks(isbn)[k].href) == Some(isbn)
    ensures forall k :: 3 <= k < 5 ==> ParseReviewsHref(UpdateLinks(isbn)[k].href) == Some(isbn)
  {
    var links := UpdateLinks(isbn);
    assert forall k :: 0 <= k < 3 ==> links[k].href == BookHref(isbn);
    assert forall k :: 3 <= k < 5 ==> links[k].href == BookHref(isbn) + ReviewsSegment;
    BookHrefAddressesBook(isbn);
    ReviewsHrefAddressesReviews(isbn);
  }

  /**
   * Create: exactly the first four links of an update response for the same
   * ISBN, so it has no view-all-reviews link.
   */
  lemma CreateLinksContract(isbn: int)
    ensures CreateLinks(isbn) == UpdateLinks(isbn)[..4]
    ensures Relations(CreateLinks(isbn)) == ["view-book", "update-book", "delete-book", "create-review"]
    ensures Verbs(CreateLinks(isbn)) == ["GET", "PUT", "DELETE", "POST"]
    ensures "view-all-reviews" !in Relations(CreateLinks(isbn))
    ensures forall k :: 0 <= k < 3 ==> ParseBookHref(CreateLinks(isbn)[k].href) == Some(isbn)
    ensures ParseReviewsHref(CreateLinks(isbn)[3].href) == Some(isbn)
  {
    UpdateLinksTargets(isbn);
  }

  /**
   * View and update responses for one ISBN agree except on two links: the
   * verb of update-book and the href of view-all-reviews.
   */
  lemma ViewAndUpdateLinksDiffer(isbn: int)
    ensures ViewLinks(isbn)[0] == UpdateLinks(isbn)[0]
    ensures ViewLinks(isbn)[2..4] == UpdateLinks(isbn)[2..4]
    ensures ViewLinks(isbn)[1] == UpdateLinks(isbn)[1].(verb := "POST")
    ensures UpdateLinks(isbn)[1].verb == "PUT"
    ensures ViewLinks(isbn)[4] == UpdateLinks(isbn)[4].(href := ViewLinks(isbn)[4].href)
    ensures ViewLinks(isbn)[4].href != UpdateLinks(isbn)[4].href
  {
  }

  /** Delete: one link, create-book POST, at the book collection itself. */
  lemma DeleteLinksContract()
    ensures Relations(DeleteLinks()) == ["create-book"]
    ensures Verbs(DeleteLinks()) == ["POST"]
    ensures DeleteLinks()[0].href == BooksRoot
    ensures ParseBookHref(DeleteLinks()[0].href) == None
  {
  }

  /** View-author: one GET link addressing the book and the author's own id. */
  lemma AuthorLinksContract(isbn: int, authorId: int)
    ensures Relations(AuthorLinks(isbn, authorId)) == ["view-author"]
    ensures Verbs(AuthorLinks(isbn, authorId)) == ["GET"]
    ensures ParseAuthorHref(AuthorLinks(isbn, authorId)[0].href) == Some((isbn, authorId))
  {
    var a, b := IntToString(isbn), IntToString(authorId);
    assert AuthorLinks(isbn, authorId)[0].href == BooksRoot + a + AuthorsSegment + b;
    ParseIntToString(isbn);
    ParseIntToString(authorId);
    ParseAuthorHrefOfParts(a, b);
  }

  /** The identifiers can be read back from the links, so distinct books get distinct links. */
  lemma LinksDetermineIdentifiers(i: int, j: int, m: int, n: int)
    ensures ViewLinks(i) == ViewLinks(j) ==> i == j
    ensures CreateLinks(i) == CreateLinks(j) ==> i == j
    ensures UpdateLinks(i) == UpdateLinks(j) ==> i == j
    ensures AuthorLinks(i, m) == AuthorLinks(j, n) ==> i == j && m == n
  {
    BookHrefAddressesBook(i);
    BookHrefAddressesBook(j);
    AuthorLinksContract(i, m);
    AuthorLinksContract(j, n);
  }
}
