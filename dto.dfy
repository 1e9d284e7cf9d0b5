/** Response envelopes: an optional entity plus the ordered links appended to it. */
module Dto {
  import opened Wrappers
  import opened Domain
  import opened Links

  datatype Envelope<T> = Envelope(payload: Option<T>, links: seq<Link>) {
    /** `addLink`: append one link after those already present. */
    function AddLink(link: Link): Envelope<T> {
      Envelope(payload, links + [link])
    }
  }

  /** `BooksDto`, `AuthorDto` and the payload-free `LinksDto`. */
  type BooksDto = Envelope<Book>
  type AuthorDto = Envelope<Author>
  type LinksDto = Envelope<()>

  /** The entity of a response: a bare JSON array of links, or a `LinksDto` object. */
  datatype Entity = LinkList(list: seq<Link>) | LinksEntity(dto: LinksDto)

  datatype Response = Response(status: int, entity: Entity)

  /** The unchecked `new Exception()` of the delete handler. */
  datatype Failure = GenericException

  /** A handler either returns a value or throws. */
  datatype Outcome<T> = Returned(value: T) | Threw(failure: Failure)
}
