/** The entities the book resource reads and changes. */
module Domain {

  /** An author; `id` is its own identifier, not its position in a book. */
  datatype Author = Author(id: int, name: string)

  /** One query parameter of an update request: a field name and its values. */
  datatype Entry = Entry(key: string, values: seq<string>)

  /**
   * The value of a book at one moment. `info` stands for the book's remaining
   * properties by field name; what they mean is decided by the repository's
   * field-update dispatch, which is not part of this model.
   */
  datatype BookState = BookState(isbn: int, authors: seq<Author>, info: map<string, seq<string>>)

  /** A book object: the repository hands out and stores references to it. */
  class Book {
    var isbn: int
    var authors: seq<Author>
    var info: map<string, seq<string>>

    constructor (state: BookState)
      ensures State() == state
    {
      isbn, authors, info := state.isbn, state.authors, state.info;
    }

    function State(): BookState
      reads this
    {
      BookState(isbn, authors, info)
    }
  }
}
