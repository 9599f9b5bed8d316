/**
 * The two entities of the bookstore. Both repository variants keep the same book
 * columns and differ only in how a book names its author: the entity-based variant
 * links an `Author` record, the older variant keeps a flat author-name string.
 */
module Entities {

  /** One CSV record as `encoding/csv` returns it: a sequence of fields. */
  type Row = seq<string>

  datatype Author = Author(id: string, name: string)

  /**
   * A book. `pageNumber` is Go's `uint`, `stockNumber` its `int`; `price` stands for
   * the `float32` column. `A` is the author part: `Author` or a name string.
   */
  datatype Book<A> = Book(
    id: string,
    name: string,
    pageNumber: nat,
    stockNumber: int,
    stockId: string,
    price: real,
    isbn: string,
    authorId: string,
    author: A)

  /** An author together with the books preloaded through `Books` (foreign key `AuthorID`). */
  datatype AuthorWithBooks<A(==)> = AuthorWithBooks(author: Author, books: set<Book<A>>)
}
