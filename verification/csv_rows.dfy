/**
 * The `toStruct` row conversions of the three CSV readers: fields are picked by fixed
 * column index, fields 2 and 3 go through `strconv.Atoi` and field 5 through
 * `strconv.ParseFloat(…, 32)`. No sign or range check follows the parse.
 */
module CsvRows {
  import opened Wrappers
  import opened Text
  import opened Entities

  /** Columns the book rows index: ID, Name, PageNumber, StockNumber, StockID, Price, ISBN, AuthorID, AuthorName. */
  const BookColumns: nat := 9

  /** Columns the author-only rows index: ID, Name. */
  const AuthorColumns: nat := 2

  /** `strconv.ParseFloat(s, 32)`, which this model takes as given. */
  type FloatParser = string -> Option<real>

  /** The three numeric fields parse: PageNumber and StockNumber as ints, Price as a float. */
  predicate NumbersParse(row: Row, parseFloat: FloatParser)
    requires |row| >= BookColumns
  {
    Atoi(row[2]).Some? && Atoi(row[3]).Some? && parseFloat(row[5]).Some?
  }

  /**
   * Every field of `b` except the author part comes from its column of `row`; the
   * page count is the parsed field 2 through `uint(...)`.
   */
  predicate FieldsFrom<A>(b: Book<A>, row: Row, parseFloat: FloatParser)
    requires |row| >= BookColumns && NumbersParse(row, parseFloat)
  {
    && b.id == row[0] && b.name == row[1] && b.stockId == row[4]
    && b.isbn == row[6] && b.authorId == row[7]
    && b.stockNumber == Atoi(row[3]).value
    && b.price == parseFloat(row[5]).value
    && b.pageNumber < TwoTo64 && ToInt(b.pageNumber) == Atoi(row[2]).value
  }

  /**
   * Book fields from a row, with `author` as the author part. The conversion fails
   * exactly when one of the three numeric fields fails to parse.
   */
  function ToBookWith<A>(row: Row, parseFloat: FloatParser, author: A): (r: Option<Book<A>>)
    requires |row| >= BookColumns
    ensures r.Some? <==> NumbersParse(row, parseFloat)
    ensures r.Some? ==> FieldsFrom(r.value, row, parseFloat) && r.value.author == author
  {
    match Atoi(row[2])
    case None => None
    case Some(pages) =>
      match Atoi(row[3])
      case None => None
      case Some(stock) =>
        match parseFloat(row[5])
        case None => None
        case Some(price) =>
          UintRoundTrip(pages);
          Some(Book(row[0], row[1], ToUint(pages), stock, row[4], price, row[6], row[7], author))
  }

  /** The combined reader's conversion: the book links `Author{ID: j[7], Name: j[8]}`. */
  function ToBook(row: Row, parseFloat: FloatParser): (r: Option<Book<Author>>)
    requires |row| >= BookColumns
    ensures r.Some? <==> NumbersParse(row, parseFloat)
    ensures r.Some? ==> FieldsFrom(r.value, row, parseFloat) && r.value.author == Author(row[7], row[8])
    ensures r.Some? ==> r.value.authorId == r.value.author.id
  {
    ToBookWith(row, parseFloat, Author(row[7], row[8]))
  }

  /** The older book reader's conversion: the book keeps `AuthorName: j[8]`. */
  function ToLegacyBook(row: Row, parseFloat: FloatParser): (r: Option<Book<string>>)
    requires |row| >= BookColumns
    ensures r.Some? <==> NumbersParse(row, parseFloat)
    ensures r.Some? ==> FieldsFrom(r.value, row, parseFloat) && r.value.author == row[8]
  {
    ToBookWith(row, parseFloat, row[8])
  }

  /** The two book conversions accept the same rows. */
  lemma BookConversionsAgree(row: Row, parseFloat: FloatParser)
    requires |row| >= BookColumns
    ensures ToLegacyBook(row, parseFloat).Some? <==> ToBook(row, parseFloat).Some?
  {
  }

  /** The author-only reader's conversion, which cannot fail. */
  function ToAuthor(row: Row): (a: Author)
    requires |row| >= AuthorColumns
    ensures a.id == row[0] && a.name == row[1]
  {
    Author(row[0], row[1])
  }

  /** The row a book is written back to; `priceText` is its price field. */
  function EncodeBook<A>(b: Book<A>, priceText: string, authorName: string): (row: Row)
    ensures |row| == BookColumns
  {
    [b.id, b.name, Itoa(b.pageNumber), Itoa(b.stockNumber), b.stockId, priceText, b.isbn, b.authorId, authorName]
  }

  /**
   * Reading a written book row gives the book back, for every book whose counts fit
   * Go's int and whose author is the one its AuthorID names.
   */
  lemma BookRowRoundTrip(b: Book<Author>, priceText: string, parseFloat: FloatParser)
    requires b.pageNumber <= MaxInt64 && InInt64(b.stockNumber)
    requires parseFloat(priceText) == Some(b.price)
    requires b.authorId == b.author.id
    ensures ToBook(EncodeBook(b, priceText, b.author.name), parseFloat) == Some(b)
  {
    AtoiItoa(b.pageNumber);
    AtoiItoa(b.stockNumber);
  }

  /** The same round trip for the older book record with its flat author name. */
  lemma LegacyBookRowRoundTrip(b: Book<string>, priceText: string, parseFloat: FloatParser)
    requires b.pageNumber <= MaxInt64 && InInt64(b.stockNumber)
    requires parseFloat(priceText) == Some(b.price)
    ensures ToLegacyBook(EncodeBook(b, priceText, b.author), parseFloat) == Some(b)
  {
    AtoiItoa(b.pageNumber);
    AtoiItoa(b.stockNumber);
  }

  /** An author row reads back as the author, whatever columns follow the name. */
  lemma AuthorRowRoundTrip(a: Author, rest: Row)
    ensures ToAuthor([a.id, a.name] + rest) == a
  {
  }

  /**
   * A negative page count is not rejected: `uint(...)` turns it into a large
   * unsigned value, 2^64 above the parsed number.
   */
  lemma NegativePagesWrap(row: Row, parseFloat: FloatParser)
    requires |row| >= BookColumns
    requires Atoi(row[2]).Some? && Atoi(row[2]).value < 0
    requires Atoi(row[3]).Some? && parseFloat(row[5]).Some?
    ensures ToBook(row, parseFloat).Some?
    ensures ToBook(row, parseFloat).value.pageNumber == Atoi(row[2]).value + TwoTo64
  {
  }

  /** A negative stock count is kept as it is. */
  lemma NegativeStockKept(row: Row, parseFloat: FloatParser)
    requires |row| >= BookColumns
    requires Atoi(row[2]).Some? && Atoi(row[3]).Some? && Atoi(row[3]).value < 0
    requires parseFloat(row[5]).Some?
    ensures ToBook(row, parseFloat).Some?
    ensures ToBook(row, parseFloat).value.stockNumber < 0
  {
  }
}
