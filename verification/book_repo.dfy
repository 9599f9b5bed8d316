/**
 * `BookRepository`, as transitions of the abstract table. The operations are generic
 * in the author part `A` of a book: the entity-based repository stores `Book<Author>`,
 * the older one `Book<string>` (a flat author name); both run the same logic.
 */
module BookRepo {
  import opened Wrappers
  import opened Text
  import opened Entities
  import opened Store
  import opened RepoErrors
  import opened CsvRows
  import opened WorkerPool
  import opened CsvReaders

  type BookTable<A> = Table<Book<A>>

  /** The key a book row is stored under. */
  function BookId<A>(b: Book<A>): string {
    b.id
  }

  ghost predicate BooksKeyed<A>(t: BookTable<A>) {
    Keyed(t, BookId)
  }

  // ---------------------------------------------------------------------------
  // Inserting

  /**
   * `AddBook`: insert-if-absent by ID. A live book with the ID is left as it is and
   * the submitted fields are dropped; a soft-deleted one makes the insert fail.
   */
  function AddBook<A>(t: BookTable<A>, b: Book<A>): (r: (BookTable<A>, Outcome<RepoError>))
    ensures r.1 == (if b.id in t && t[b.id].deleted then Fail(DuplicateId) else Pass)
    ensures r.1.Fail? ==> r.0 == t
    ensures Live(t, b.id) ==> r.0 == t
    ensures b.id !in t ==> r.0 == t[b.id := Stored(b, false)]
    ensures BooksKeyed(t) ==> BooksKeyed(r.0)
    ensures b.id !in t ==> b in LiveRecords(r.0)
  {
    var (t', outcome) := FirstOrCreate(t, b.id, b);
    (t', if outcome == Conflict then Fail(DuplicateId) else Pass)
  }

  /**
   * What the readers see after `AddBook`: a new ID is found with the submitted book and
   * joins the listing; an ID already stored, live or deleted, leaves the listing as it
   * was; every other ID reads as before.
   */
  lemma AddBookThenFind<A(!new)>(t: BookTable<A>, b: Book<A>)
    ensures var t' := AddBook(t, b).0;
      && (b.id !in t ==> FindByBookID(t', b.id) == Ok(b) && FindAll(t') == FindAll(t) + {b})
      && (b.id in t ==> FindAll(t') == FindAll(t))
      && (forall id :: id != b.id ==> FindByBookID(t', id) == FindByBookID(t, id))
  {
    var t' := AddBook(t, b).0;
    if b.id !in t {
      assert t' == t[b.id := Stored(b, false)];
      forall x | x in FindAll(t') ensures x in FindAll(t) + {b} {
        var id :| Live(t', id) && t'[id].rec == x;
        if id != b.id {
          assert Live(t, id) && t[id].rec == x;
        }
      }
      forall x | x in FindAll(t) ensures x in FindAll(t') {
        var id :| Live(t, id) && t[id].rec == x;
        assert Live(t', id) && t'[id].rec == x;
      }
    }
  }

  /** A book as decoded from a request body: its `*Author` may be nil. */
  type PostedBook = Book<Option<Author>>

  /** The posted book with its author pointer followed. */
  function Linked(b: PostedBook, a: Author): (r: Book<Author>)
    ensures r.author == a && r.id == b.id && r.authorId == b.authorId
  {
    Book(b.id, b.name, b.pageNumber, b.stockNumber, b.stockId, b.price, b.isbn, b.authorId, a)
  }

  /**
   * `AddBook` on a posted book. It reads `book.Author.ID` before touching the table,
   * so a book without an author panics (`None`) and nothing is written; otherwise it
   * is `AddBook` on the book with its author.
   */
  function AddPostedBook(t: BookTable<Author>, b: PostedBook): (r: Option<(BookTable<Author>, Outcome<RepoError>)>)
    ensures r.None? <==> b.author.None?
    ensures r.Some? ==> r.value == AddBook(t, Linked(b, b.author.value))
    ensures r.Some? && b.id !in t ==> r.value.0[b.id] == Stored(Linked(b, b.author.value), false)
  {
    match b.author
    case None => None
    case Some(a) => Some(AddBook(t, Linked(b, a)))
  }

  /**
   * `InsertBookData` of the entity-based repository: read the file with the combined
   * reader and `FirstOrCreate` each book, ignoring every per-book result. The books
   * loaded come from data rows and link their own author (`CsvReaders.BooksFromDataRows`).
   */
  method InsertBookData(t: BookTable<Author>, lines: seq<Row>, parseFloat: FloatParser)
    returns (t': BookTable<Author>, loaded: seq<Book<Author>>)
    requires |lines| >= 1
    requires DataRowsWide(lines, BookColumns)
    ensures DataBooks(lines, parseFloat, loaded)
    ensures t' == InsertAll(t, loaded, BookId)
  {
    var authors;
    loaded, authors := ReadData(lines, parseFloat);
    t' := InsertAll(t, loaded, BookId);
  }

  /** `InsertBookData` of the older repository, over the older book reader. */
  method InsertLegacyBookData(t: BookTable<string>, lines: seq<Row>, parseFloat: FloatParser)
    returns (t': BookTable<string>, loaded: seq<Book<string>>)
    requires |lines| >= 1
    requires DataRowsWide(lines, BookColumns)
    ensures LegacyDataBooks(lines, parseFloat, loaded)
    ensures t' == InsertAll(t, loaded, BookId)
  {
    loaded := ReadBooks(lines, parseFloat);
    t' := InsertAll(t, loaded, BookId);
  }

  /**
   * What a load of books does to the book table: rows already there are untouched,
   * every new row is live and holds one of the loaded books, the table stays keyed by
   * book ID, and loading the same books again changes nothing.
   */
  lemma BookLoad<A>(t: BookTable<A>, loaded: seq<Book<A>>)
    ensures var t' := InsertAll(t, loaded, BookId);
      && (forall k :: k in t ==> k in t' && t'[k] == t[k])
      && (forall k :: k in t' && k !in t ==> !t'[k].deleted && t'[k].rec in loaded)
      && (BooksKeyed(t) ==> BooksKeyed(t'))
      && InsertAll(t', loaded, BookId) == t'
  {
    InsertAllEffect(t, loaded, BookId);
    InsertAllIdempotent(t, loaded, BookId);
  }

  // ---------------------------------------------------------------------------
  // Reading

  /** `FindAll`: the books that are not soft-deleted. */
  function FindAll<A(==,!new)>(t: BookTable<A>): (r: set<Book<A>>)
    ensures BooksKeyed(t) ==> forall b :: b in r <==> Live(t, b.id) && t[b.id].rec == b
  {
    LiveRecords(t)
  }

  /** `FindAllIncludingDeleted`: an unscoped read of every book row. */
  function FindAllIncludingDeleted<A(==,!new)>(t: BookTable<A>): (r: set<Book<A>>)
    ensures FindAll(t) <= r
    ensures BooksKeyed(t) ==> forall b :: b in r <==> b.id in t && t[b.id].rec == b
  {
    AllRecords(t)
  }

  /** `FindAllInStock`: live books with a positive stock count. */
  function FindAllInStock<A(==,!new)>(t: BookTable<A>): (r: set<Book<A>>)
    ensures forall b :: b in r <==> b in FindAll(t) && b.stockNumber > 0
  {
    set b | b in LiveRecords(t) && b.stockNumber > 0
  }

  /**
   * `FindAllBooksUnderPrice`: live, in-stock books cheaper than `threshold`; an empty
   * answer is reported as an error rather than an empty list.
   */
  function FindAllBooksUnderPrice<A(==,!new)>(t: BookTable<A>, threshold: real): (r: Result<set<Book<A>>, RepoError>)
    ensures r.Ok? ==> r.value != {}
    ensures r.Ok? ==> forall b :: b in r.value <==> b in FindAllInStock(t) && b.price < threshold
    ensures r.Err? ==> r.error == NoneUnderPrice(threshold)
    ensures r.Err? <==> forall id :: Live(t, id) ==> t[id].rec.stockNumber <= 0 || t[id].rec.price >= threshold
  {
    var found := set b | b in FindAllInStock(t) && b.price < threshold;
    if found == {} then
      assert forall id :: Live(t, id) ==> t[id].rec.stockNumber <= 0 || t[id].rec.price >= threshold || t[id].rec in found;
      Err(NoneUnderPrice(threshold))
    else
      Ok(found)
  }

  /** `FindByBookID`: the live book with exactly this ID, or "record not found". */
  function FindByBookID<A>(t: BookTable<A>, id: string): (r: Result<Book<A>, RepoError>)
    ensures r.Ok? <==> Live(t, id)
    ensures r.Ok? ==> r.value == t[id].rec
    ensures r.Err? ==> r.error == RecordNotFound
    ensures BooksKeyed(t) && r.Ok? ==> r.value.id == id
  {
    if Live(t, id) then Ok(t[id].rec) else Err(RecordNotFound)
  }

  /** `FindByBookName`: live books whose name contains `name`, ignoring case. */
  function FindByBookName<A(==,!new)>(t: BookTable<A>, name: string): (r: set<Book<A>>)
    ensures forall b :: b in r <==> b in FindAll(t) && ILike(b.name, name)
  {
    set b | b in LiveRecords(t) && ILike(b.name, name)
  }

  /**
   * `FindByAuthorName` of the entity-based repository filters on an `author_name`
   * column that its book table does not have, so the database rejects every call.
   */
  function FindByAuthorNameUndefinedColumn(t: BookTable<Author>, name: string): (r: Result<set<Book<Author>>, RepoError>)
    ensures r == Err(UndefinedAuthorNameColumn)
  {
    Err(UndefinedAuthorNameColumn)
  }

  /** `FindByAuthorName` of the older repository: live books whose author name contains `name`, ignoring case. */
  function FindByAuthorName(t: BookTable<string>, name: string): (r: set<Book<string>>)
    ensures forall b :: b in r <==> b in FindAll(t) && ILike(b.author, name)
  {
    set b | b in LiveRecords(t) && ILike(b.author, name)
  }

  /**
   * The name searches ignore the case of the search string, an empty search string
   * lists every live book, and a soft-deleted book is found by neither search.
   */
  lemma NameSearches<A(!new)>(t: BookTable<A>, name: string)
    ensures FindByBookName(t, name) == FindByBookName(t, Lower(name))
    ensures FindByBookName(t, "") == FindAll(t)
    ensures BooksKeyed(t) ==> forall b :: b in FindByBookName(t, name) ==> !t[b.id].deleted
  {
    forall b | b in FindAll(t) ensures ILike(b.name, name) <==> ILike(b.name, Lower(name)) {
      ILikeCases(b.name, name);
    }
    forall b | b in FindAll(t) ensures ILike(b.name, "") {
      ILikeCases(b.name, "");
    }
    if BooksKeyed(t) {
      forall b | b in FindByBookName(t, name) ensures !t[b.id].deleted {
        var k :| Live(t, k) && t[k].rec == b;
      }
    }
  }

  /** The same three facts for the older repository's search by author name. */
  lemma AuthorNameSearches(t: BookTable<string>, name: string)
    ensures FindByAuthorName(t, name) == FindByAuthorName(t, Lower(name))
    ensures FindByAuthorName(t, "") == FindAll(t)
    ensures BooksKeyed(t) ==> forall b :: b in FindByAuthorName(t, name) ==> !t[b.id].deleted
  {
    forall b | b in FindAll(t) ensures ILike(b.author, name) <==> ILike(b.author, Lower(name)) {
      ILikeCases(b.author, name);
    }
    forall b | b in FindAll(t) ensures ILike(b.author, "") {
      ILikeCases(b.author, "");
    }
    if BooksKeyed(t) {
      forall b | b in FindByAuthorName(t, name) ensures !t[b.id].deleted {
        var k :| Live(t, k) && t[k].rec == b;
      }
    }
  }

  // ---------------------------------------------------------------------------
  // Changing

  /** `DeleteByBookID`: soft-delete the live book with this ID; fails if there is none. */
  function DeleteByBookID<A>(t: BookTable<A>, id: string): (r: (BookTable<A>, Outcome<RepoError>))
    ensures r.1.Fail? <==> !Live(t, id)
    ensures r.1.Fail? ==> r.1.error == RecordNotFound && r.0 == t
    ensures r.1.Pass? ==> r.0 == t[id := Stored(t[id].rec, true)]
  {
    match FindByBookID(t, id)
    case Err(e) => (t, Fail(e))
    case Ok(b) => (t[id := Stored(b, true)], Pass)
  }

  /** The book row with its stock set to `stock`, everything else as it was. */
  function WithStock<A>(t: BookTable<A>, id: string, stock: int): (t': BookTable<A>)
    requires id in t
    ensures t'.Keys == t.Keys
    ensures t'[id].rec.stockNumber == stock
    ensures t'[id] == Stored(t[id].rec.(stockNumber := stock), t[id].deleted)
    ensures forall k :: k in t && k != id ==> t'[k] == t[k]
  {
    t[id := Stored(t[id].rec.(stockNumber := stock), t[id].deleted)]
  }

  /**
   * `BuyByBookID`: when the live book has at least `num` in stock, its stock drops by
   * `num`; otherwise the order is refused with the book's name and current stock.
   * Nothing rejects a quantity of zero or less. The subtraction is exact here; see
   * `BuyByBookIDAsWritten` for Go's 64-bit arithmetic.
   */
  function BuyByBookID<A>(t: BookTable<A>, id: string, num: int): (r: (BookTable<A>, Outcome<RepoError>))
    ensures !Live(t, id) ==> r == (t, Fail(RecordNotFound))
    ensures Live(t, id) && t[id].rec.stockNumber < num ==>
      r == (t, Fail(NotEnoughStock(t[id].rec.name, t[id].rec.stockNumber)))
    ensures r.1.Pass? <==> Live(t, id) && t[id].rec.stockNumber >= num
    ensures r.1.Pass? ==>
      && r.0 == t[id := Stored(t[id].rec.(stockNumber := t[id].rec.stockNumber - num), false)]
      && r.0[id].rec.stockNumber >= 0
  {
    match FindByBookID(t, id)
    case Err(e) => (t, Fail(e))
    case Ok(b) =>
      if b.stockNumber >= num then (WithStock(t, id, b.stockNumber - num), Pass)
      else (t, Fail(NotEnoughStock(b.name, b.stockNumber)))
  }

  /** `BuyByBookID` with `StockNumber-num` computed in Go's wrapping 64-bit int. */
  function BuyByBookIDAsWritten<A>(t: BookTable<A>, id: string, num: int): (r: (BookTable<A>, Outcome<RepoError>))
    requires InInt64(num)
    ensures r.1 == BuyByBookID(t, id, num).1
    ensures r.1.Fail? ==> r.0 == t
    ensures r.1.Pass? ==>
      r.0 == t[id := Stored(t[id].rec.(stockNumber := Wrap64(t[id].rec.stockNumber - num)), false)]
  {
    match FindByBookID(t, id)
    case Err(e) => (t, Fail(e))
    case Ok(b) =>
      if b.stockNumber >= num then (WithStock(t, id, Wrap64(b.stockNumber - num)), Pass)
      else (t, Fail(NotEnoughStock(b.name, b.stockNumber)))
  }

  // ---------------------------------------------------------------------------
  // Properties

  /**
   * After a soft delete, default reads no longer see the book, unscoped reads still
   * do, and the ID can be neither found nor deleted again.
   */
  lemma DeleteHides<A(!new)>(t: BookTable<A>, id: string)
    requires BooksKeyed(t) && Live(t, id)
    ensures var t' := DeleteByBookID(t, id).0;
      && (forall b :: b in FindAll(t') ==> b.id != id)
      && t[id].rec in FindAllIncludingDeleted(t')
      && FindByBookID(t', id) == Err(RecordNotFound)
      && DeleteByBookID(t', id) == (t', Fail(RecordNotFound))
      && FindAll(t') == FindAll(t) - {t[id].rec}
  {
    var t' := DeleteByBookID(t, id).0;
    assert id in t' && t'[id].rec == t[id].rec;
    forall b | b in FindAll(t') ensures b.id != id {
      var k :| Live(t', k) && t'[k].rec == b;
      assert k != id;
    }
    assert FindAll(t') == FindAll(t) - {t[id].rec} by {
      forall b | b in FindAll(t) - {t[id].rec} ensures b in FindAll(t') {
        var k :| Live(t, k) && t[k].rec == b;
        assert Live(t', k);
      }
    }
  }

  /** A purchase changes no other book, and no field of the bought book but its stock. */
  lemma BuyChangesOnlyStock<A>(t: BookTable<A>, id: string, num: int)
    requires BuyByBookID(t, id, num).1.Pass?
    ensures var t' := BuyByBookID(t, id, num).0;
      && t'.Keys == t.Keys
      && (forall k :: k in t && k != id ==> t'[k] == t[k])
      && t'[id].rec == t[id].rec.(stockNumber := t[id].rec.stockNumber - num)
      && !t'[id].deleted
  {
  }

  /** The quantities a series of purchases of one book, made one after another, had accepted. */
  function BuySeries<A>(t: BookTable<A>, id: string, nums: seq<int>): (r: (BookTable<A>, seq<int>))
    decreases |nums|
  {
    if |nums| == 0 then (t, [])
    else
      var (t1, outcome) := BuyByBookID(t, id, nums[0]);
      var (t2, accepted) := BuySeries(t1, id, nums[1..]);
      (t2, if outcome.Pass? then [nums[0]] + accepted else accepted)
  }

  function Sum(xs: seq<int>): int
    decreases |xs|
  {
    if |xs| == 0 then 0 else xs[0] + Sum(xs[1..])
  }

  /**
   * Purchases one after another: the final stock is the starting stock minus the sum
   * of the accepted quantities, and once any purchase was accepted it is not negative.
   * When no quantity is negative, a stock that fits Go's int still fits it.
   */
  lemma {:induction false} BuySeriesStock<A>(t: BookTable<A>, id: string, nums: seq<int>)
    requires Live(t, id)
    ensures var (t', accepted) := BuySeries(t, id, nums);
      && Live(t', id)
      && t'[id].rec.stockNumber == t[id].rec.stockNumber - Sum(accepted)
      && (|accepted| > 0 ==> t'[id].rec.stockNumber >= 0)
      && (forall k :: k in t && k != id ==> k in t' && t'[k] == t[k])
      && ((InInt64(t[id].rec.stockNumber) && forall i :: 0 <= i < |nums| ==> nums[i] >= 0) ==>
            InInt64(t'[id].rec.stockNumber))
    decreases |nums|
  {
    if |nums| > 0 {
      var (t1, outcome) := BuyByBookID(t, id, nums[0]);
      BuySeriesStock(t1, id, nums[1..]);
      var (t2, accepted) := BuySeries(t1, id, nums[1..]);
      if outcome.Pass? {
        assert Sum([nums[0]] + accepted) == nums[0] + Sum(accepted) by {
          assert ([nums[0]] + accepted)[1..] == accepted;
        }
      }
    }
  }

  /**
   * Go's wrap-around defeats the stock guard: a book with 10 in stock accepts an order
   * of -(2^63 - 1), and its stock wraps to a negative number; with exact arithmetic
   * the stock grows instead.
   */
  lemma BuyWrapsToNegativeStock<A>(t: BookTable<A>, id: string)
    requires Live(t, id) && t[id].rec.stockNumber == 10
    ensures var num := MinInt64 + 1;
      && BuyByBookIDAsWritten(t, id, num).1.Pass?
      && BuyByBookIDAsWritten(t, id, num).0[id].rec.stockNumber == MinInt64 + 9
      && BuyByBookIDAsWritten(t, id, num).0[id].rec.stockNumber < 0
      && BuyByBookID(t, id, num).0[id].rec.stockNumber >= 0
  {
    var num := MinInt64 + 1;
    assert Wrap64(10 - num) == MinInt64 + 9;
  }

  /** Buying a book's whole stock drops it from the in-stock list. */
  lemma BuyOutLeavesStock<A(!new)>(t: BookTable<A>, id: string)
    requires BooksKeyed(t) && Live(t, id) && t[id].rec.stockNumber > 0
    ensures var t' := BuyByBookID(t, id, t[id].rec.stockNumber).0;
      forall b :: b in FindAllInStock(t') ==> b.id != id
  {
    var t' := BuyByBookID(t, id, t[id].rec.stockNumber).0;
    forall b | b in FindAllInStock(t') ensures b.id != id {
      var k :| Live(t', k) && t'[k].rec == b;
      assert k != id;
    }
  }
}
