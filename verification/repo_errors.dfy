/**
 * The errors the repositories return, with the text each one's `Error()` produces.
 * Texts that come from GORM or from PostgreSQL are the ones those libraries report.
 */
module RepoErrors {
  import opened Text

  datatype RepoError =
    | RecordNotFound                         // gorm.ErrRecordNotFound from First
    | DuplicateId                            // insert refused by the unique ID column
    | UndefinedAuthorNameColumn              // a filter on a column the books table lacks
    | NoneUnderPrice(threshold: real)        // FindAllBooksUnderPrice found nothing
    | NotEnoughStock(name: string, stock: int) // BuyByBookID refused the order

  /** The `%.2f` rendering of a price, which this model takes as given. */
  type Fixed2 = real -> string

  // The error texts the repositories return, as the database driver and the code spell them.
  const RecordNotFoundText: string := "record not found"
  /** PostgreSQL's report of a unique violation on the books' ID column, before its SQLSTATE. */
  const DuplicateIdReport: string :=
    "ERROR: duplicate" + " key value" + " violates" + " unique constraint" + " \"books_id_key\""
  const DuplicateIdText: string := DuplicateIdReport + " (SQLSTATE 23505)"
  /** PostgreSQL's report of a filter on a column the books table lacks, before its SQLSTATE. */
  const UndefinedColumnReport: string := "ERROR: column" + " \"author_name\"" + " does not exist"
  const UndefinedColumnText: string := UndefinedColumnReport + " (SQLSTATE 42703)"
  const NoneUnderPricePrefix: string := "There is no" + " books in" + " the stock" + " under "
  const NotEnoughStockHead: string := "Not enough" + " stock " + "for "
  const NotEnoughStockMiddle: string := ", please" + " order less" + " than "
  const NotEnoughStockTail: string := " book/s."

  /** "Not enough stock for %s, please order less than %s book/s.", given the rendered stock. */
  function NotEnoughStockText(name: string, count: string): string {
    NotEnoughStockHead + name + NotEnoughStockMiddle + count + NotEnoughStockTail
  }

  /** `err.Error()` for each repository error. */
  function Message(e: RepoError, fixed2: Fixed2): string {
    match e
    case RecordNotFound => RecordNotFoundText
    case DuplicateId => DuplicateIdText
    case UndefinedAuthorNameColumn => UndefinedColumnText
    case NoneUnderPrice(threshold) => NoneUnderPricePrefix + fixed2(threshold)
    case NotEnoughStock(name, stock) =>
      NotEnoughStockText(name, Itoa(stock))
  }
}
