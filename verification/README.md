# Bookstore service core in Dafny

This project models the core of a small Go bookstore REST service. It covers three
pieces and both generations of the code: the entity-based packages under `internal/`,
and the older flat packages under `domain/` and `router/`.

1. **CSV ingestion.** Each `toStruct` worker maps a CSV row to a `Book` and/or an
   `Author` by fixed column index (`CsvRows`). Fields 2 and 3 go through
   `strconv.Atoi`, which is modelled exactly, including the 64-bit range. A page
   count then goes through `uint(...)`. The readers `readDataWithWorkerPool`,
   `readBooksWithWorkerPool` and `readAuthorsWithWorkerPool` drop the header and
   run a pool of three workers over the remaining rows (`WorkerPool`, `CsvReaders`).
   A malformed numeric field makes its worker `return`, which ends that worker's
   loop for good. Jobs leave the channel in order, so the rows consumed are those up
   to and including the third malformed one, whatever the scheduling. `Harvest`
   states this. The method `Pool` lets the scheduler choose the worker and the
   position of each result (`:|`), and proves that its output is that multiset.
2. **Repositories over an abstract table.** The table is a map from ID to a record
   with a soft-delete mark (`Store`). `FirstOrCreate` is insert-if-absent, so loads
   are first-write-wins and idempotent. Default reads hide soft-deleted rows and
   unscoped reads see them. The book repository (`BookRepo`) is generic in how a
   book names its author: the entity-based variant stores `Book<Author>`, the older
   one `Book<string>`. The author repository (`AuthorRepo`) attaches books by
   `AuthorID`.
3. **Error classification.** `ParseErrors` of the current service (`HttpErrors`) is
   an ordered substring match on the error text. It is proved equal to a first-match
   rule table. The older two-case classifier is `LegacyHttpErrors`.
   `ErrorMapping` works out what each repository error becomes over HTTP.

The file contents, `strconv.ParseFloat(…, 32)` and `%.2f` formatting are
parameters: `lines`, `FloatParser` and `Fixed2`. `strings.Contains`, `Atoi`, `Itoa`,
`uint(...)` and 64-bit wrap-around are written out in `Text`.

Three behaviours of the code are worth stating up front:

- A malformed row also retires the worker that took it. With fewer than three
  malformed rows, only those rows are lost (`WorkerPool.FewFailuresDropOnlyThemselves`).
  After the third, nothing more is read (`WorkerPool.NothingAfterLastFailure`;
  `WorkerPool.LastWorkerStopsThePool` is a four-row instance).
- A parse error does not abort ingestion: the row is dropped and the reader returns a
  nil error (`CsvReaders.ReadData`, `CsvReaders.ReadBooks`).
- An empty under-price result is answered with status 500, not 404
  (`ErrorMapping.NoneUnderPriceIs500`).

## Model

| member | source | states |
|---|---|---|
| CsvRows.ToBookWith | internal/domain/repos/csv_helper.go:65-87 | A row converts exactly when fields 2, 3 and 5 all parse. On success: ID, Name, StockID, ISBN and AuthorID come from fields 0, 1, 4, 6 and 7; stock is the parsed field 3; price is the parsed field 5; `int(PageNumber)` is the parsed field 2. |
| CsvRows.ToBook | internal/domain/repos/csv_helper.go:65-87 | A row converts exactly when fields 2, 3 and 5 all parse; otherwise the worker gets nothing and returns. On success every field comes from its column, as for `ToBookWith`, and the author is `Author{ID: field 7, Name: field 8}`, so `AuthorID == Author.ID`. |
| CsvRows.ToLegacyBook | internal/domain/book/csv_utils.go:58-79 | A row converts exactly when fields 2, 3 and 5 all parse; otherwise the worker gets nothing and returns. On success every field comes from its column, and field 8 is kept as the flat `AuthorName`. |
| CsvRows.BookConversionsAgree | internal/domain/book/csv_utils.go:58-70 | The older and the combined book conversions accept exactly the same rows. |
| CsvRows.ToAuthor | domain/author/csv_utils.go:57-58 | An author row gives the author with ID field 0 and name field 1; it never fails. `CsvRows.AuthorRowRoundTrip` is its inverse. |
| CsvRows.BookRowRoundTrip | internal/domain/repos/csv_helper.go:65-87 | Writing a book as a row and converting it back gives the same book, for counts that fit Go's int. |
| CsvRows.LegacyBookRowRoundTrip | internal/domain/book/csv_utils.go:58-79 | The same round trip for the older book, whose field 8 is the flat `AuthorName`. |
| CsvRows.AuthorRowRoundTrip | domain/author/csv_utils.go:57-58 | An author row converts to `Author{ID: j[0], Name: j[1]}`, whatever columns follow. |
| CsvRows.NegativePagesWrap | internal/domain/repos/csv_helper.go:65-80 | A negative page count is accepted and becomes the parsed value plus 2^64. |
| CsvRows.NegativeStockKept | internal/domain/repos/csv_helper.go:69-81 | A negative stock count is accepted and stored as negative. |
| WorkerPool.HarvestWithinConverted | internal/domain/repos/csv_helper.go:36-53 | The pool's output is a sub-multiset of the conversions of the rows. |
| WorkerPool.HarvestComplete | internal/domain/repos/csv_helper.go:60-76 | With fewer malformed rows than live workers, the output is every conversion. |
| WorkerPool.ConvertedFromRows | internal/domain/repos/csv_helper.go:63-91 | Every converted record is the conversion of some row. |
| WorkerPool.ConvertedSize | internal/domain/repos/csv_helper.go:63-91 | Each row yields one record or one failure. |
| WorkerPool.FewFailuresDropOnlyThemselves | internal/domain/repos/csv_helper.go:21-76 | With fewer than three malformed rows, the output has one record per well-formed row. |
| WorkerPool.Harvest | internal/domain/repos/csv_helper.go:63-91 | The reference for what the pool emits, by its definition: rows are taken in order, a converted row adds its record, a failing row retires its worker, and nothing is read once no worker is left. |
| WorkerPool.HarvestSize | internal/domain/repos/csv_helper.go:63-76 | Each retired worker costs a row, so the output is at most the row count less the retired workers. |
| WorkerPool.NothingAfterLastFailure | internal/domain/repos/csv_helper.go:63-76 | For any rows: once the k-th row is the failure that retires the last live worker, the output equals the output of rows 0..k, whatever follows. |
| WorkerPool.LastWorkerStopsThePool | internal/domain/repos/csv_helper.go:63-76 | Three malformed rows stop all three workers, so a well-formed fourth row is never converted. |
| WorkerPool.Pool | internal/domain/repos/csv_helper.go:12-54 | For any worker choice and any arrival order, the collected records are exactly `Harvest` of the rows with three workers. |
| WorkerPool.Shuffle | internal/domain/repos/csv_helper.go:52-54 | Collecting a channel in arrival order yields a permutation of what was sent. |
| CsvReaders.BooksFromDataRows | internal/domain/repos/csv_helper.go:78-90 | Every book the pool emits is the conversion of a data row (never the header) and links its own author. |
| CsvReaders.ReadData | internal/domain/repos/csv_helper.go:12-57 | Rows 1 onwards are the jobs. The books are `Harvest` of those rows. The authors are a permutation of the books' authors, so the two counts are equal. |
| CsvReaders.DataAuthorsFromRows | internal/domain/repos/csv_helper.go:12-57 | The authors the combined reader returns number one per harvested book, each is named by some data row, and with fewer failing rows than workers there is one per converted row. |
| CsvReaders.ReadBooks | internal/domain/book/csv_utils.go:11-50 | Rows 1 onwards are the jobs. The books are `Harvest` of those rows, and each is the conversion of a data row. |
| CsvReaders.AuthorRows | domain/author/csv_utils.go:32 | There is one author per data row: the header is dropped. |
| CsvReaders.AuthorsConverted | domain/author/csv_utils.go:55-61 | An author row never fails to convert, so no worker stops. |
| CsvReaders.ReadAuthors | domain/author/csv_utils.go:10-49 | The authors are a permutation of the mapped data rows. |
| Store.LiveRecords | internal/domain/repos/book_repo.go:53-60 | A default-scoped read returns exactly the records of rows without a delete mark. |
| Store.AllRecords | internal/domain/repos/book_repo.go:63-70 | An unscoped read returns the records of all rows. |
| Store.FirstOrCreate | internal/domain/repos/book_repo.go:43 | A live ID is Found and nothing changes. A soft-deleted ID is a Conflict and nothing changes. An absent ID gets a live row holding the submitted record. No other row changes. |
| Store.InsertAllEffect | internal/domain/repos/book_repo.go:35-37 | A bulk load keeps every existing row and adds rows for exactly the new IDs. Each added row is live, holds a loaded record and stays keyed by its ID. |
| Store.InsertAllPresent | domain/book/repo.go:34-36 | Loading records whose IDs all have rows already changes nothing. |
| Store.InsertAllIdempotent | internal/domain/repos/book_repo.go:35-38 | Running the same load twice gives the same table as running it once. |
| Store.InsertAllFirstWins | domain/book/repo.go:34-36 | For a new ID, the stored record is the first loaded record with that ID. |
| BookRepo.AddBook | internal/domain/repos/book_repo.go:41-50 | The result is the duplicate-key error exactly for a soft-deleted ID, and nil otherwise. A live ID leaves the table unchanged. An absent ID inserts the book as a live row. |
| BookRepo.AddBookThenFind | internal/domain/repos/book_repo.go:41-50 | After `AddBook` of a new ID, `FindByBookID` returns the submitted book and `FindAll` gains exactly it. An ID already stored leaves `FindAll` as it was. Every other ID reads as before. |
| BookRepo.AddPostedBook | internal/domain/repos/book_repo.go:41-43 | A posted book without an author panics and writes nothing. With an author, the result is `AddBook` of the book linked to that author, which an absent ID stores as a live row. |
| BookRepo.InsertBookData | internal/domain/repos/book_repo.go:30-39 | The books loaded are, up to order, the harvest of the data rows under the combined reader's conversion. The table becomes the first-write-wins bulk load of them, with every per-book result ignored. |
| BookRepo.InsertLegacyBookData | domain/book/repo.go:29-38 | The same load over the older reader, whose books keep the row's AuthorID and AuthorName. |
| BookRepo.BookLoad | internal/domain/repos/book_repo.go:30-39 | Loading books leaves existing rows untouched. Every new row is live and holds one of the loaded books, which `CsvReaders.BooksFromDataRows` traces to a data row. The table stays keyed by book ID, and a second load of the same books changes nothing. |
| BookRepo.FindAll | internal/domain/repos/book_repo.go:53-60 | In a keyed table, a book is listed exactly when its row is live. |
| BookRepo.FindAllIncludingDeleted | internal/domain/repos/book_repo.go:63-70 | Lists every stored book, soft-deleted or not, including everything `FindAll` lists. |
| BookRepo.FindAllInStock | internal/domain/repos/book_repo.go:74-81 | Exactly the live books with `StockNumber > 0`. |
| BookRepo.FindAllBooksUnderPrice | internal/domain/repos/book_repo.go:84-94 | Exactly the live in-stock books priced below the threshold. The answer is never an empty list: it is an error exactly when no live book qualifies. |
| BookRepo.FindByBookID | internal/domain/repos/book_repo.go:97-104 | Returns the live book with that ID, or "record not found" exactly when there is none. In a table keyed by book ID, the book found carries the ID asked for. |
| BookRepo.FindByBookName | internal/domain/repos/book_repo.go:118-126 | Exactly the live books whose name contains the input, ignoring case. |
| BookRepo.NameSearches | internal/domain/repos/book_repo.go:118-126 | Lower-casing the search string changes no result. The empty search string lists every live book. A soft-deleted book is never found. |
| BookRepo.FindByAuthorNameUndefinedColumn | internal/domain/repos/book_repo.go:130-138 | Every call fails with the undefined-column error, because the entity-based book table has no `author_name` column. |
| BookRepo.FindByAuthorName | domain/book/repo.go:118-126 | Exactly the live books whose `AuthorName` contains the input, ignoring case. |
| BookRepo.AuthorNameSearches | domain/book/repo.go:118-126 | The same three facts for the search by author name. |
| BookRepo.DeleteByBookID | internal/domain/repos/book_repo.go:141-152 | Fails with "record not found", changing nothing, exactly when no live book has the ID. Otherwise it only sets that row's delete mark. |
| BookRepo.DeleteHides | internal/domain/repos/book_repo.go:141-152 | After a delete, `FindAll` loses exactly that book and `FindAllIncludingDeleted` still has it. A second find or delete fails. |
| BookRepo.BuyByBookID | internal/domain/repos/book_repo.go:155-169 | An unknown or deleted ID fails. A stock below `num` fails with the book's name and stock, changing nothing. Otherwise only that book's stock drops by `num` and stays non-negative. |
| BookRepo.BuyByBookIDAsWritten | internal/domain/repos/book_repo.go:155-169 | Same outcome as `BuyByBookID`. A refusal leaves the table unchanged. An accepted purchase changes only that row, whose stock becomes `StockNumber - num` wrapped to 64 bits. |
| BookRepo.BuyChangesOnlyStock | internal/domain/repos/book_repo.go:161-162 | A successful purchase changes no other row and no field of the book except its stock. |
| BookRepo.BuySeriesStock | internal/domain/repos/book_repo.go:155-169 | After purchases made one after another, the stock is the start minus the sum of the accepted quantities. It is non-negative once any purchase was accepted, and other books are untouched. With no negative quantity, a stock that fits Go's 64-bit int still fits it. |
| BookRepo.BuyWrapsToNegativeStock | internal/domain/repos/book_repo.go:161-162 | With stock 10 and `num = -(2^63-1)`, the guard passes and the as-written stock becomes negative. The corrected model keeps it non-negative. |
| BookRepo.BuyOutLeavesStock | internal/domain/repos/book_repo.go:74-81 | Buying a book's whole stock removes it from the in-stock list. |
| AuthorRepo.InsertAuthorData | internal/domain/repos/author_repo.go:30-40 | The authors loaded are exactly the authors of the books of a harvest of the data rows, one per book in any order. The table becomes the first-write-wins bulk load of them. |
| AuthorRepo.AuthorLoad | internal/domain/repos/author_repo.go:30-40 | Loading authors leaves existing rows untouched. Every new row is live and holds one of the loaded authors, which `CsvReaders.DataAuthorsFromRows` traces to a data row. The table stays keyed by author ID, and a second load of the same authors changes nothing. |
| AuthorRepo.InsertLegacyAuthorData | domain/author/repo.go:29-39 | Loads a permutation of the data rows' authors, one per row, as a first-write-wins bulk load (whose effect on the table `Store.InsertAllEffect` states). |
| AuthorRepo.FindAuthorsWithoutBookInfo | internal/domain/repos/author_repo.go:53-60 | In a keyed table, an author is listed exactly when their row is live. |
| AuthorRepo.BooksOf | internal/domain/author/entity.go:15 | An author's books are exactly the live books whose AuthorID is the author's ID. |
| AuthorRepo.FindAuthorsWithBookInfo | internal/domain/repos/author_repo.go:43-50 | Lists exactly the authors `FindAuthorsWithoutBookInfo` lists, each with exactly the live books whose AuthorID is the author's ID. |
| AuthorRepo.FindBooksOfAuthorByName | internal/domain/repos/author_repo.go:88-97 | Lists exactly the authors `FindByAuthorName` finds, each with exactly the live books whose AuthorID is the author's ID. |
| AuthorRepo.WithBooks | internal/domain/repos/author_repo.go:45 | Every listed author comes with exactly their books, and every author in the input is listed. |
| AuthorRepo.FindByAuthorID | internal/domain/repos/author_repo.go:64-71 | Returns the live author with that ID, or "record not found" exactly when there is none. The author found is in the default-scoped listing. |
| AuthorRepo.FindByAuthorName | internal/domain/repos/author_repo.go:75-84 | Exactly the live authors whose name contains the input, ignoring case. |
| AuthorRepo.BookInfoListsSameAuthors | internal/domain/repos/author_repo.go:43-60 | The listings with and without book info name the same authors. |
| AuthorRepo.BooksOfAuthorByNameAgrees | internal/domain/repos/author_repo.go:88-97 | The name search with books finds exactly the authors of the plain name search, each with exactly their books. |
| AuthorRepo.SharedAuthorFirstCopyWins | internal/domain/repos/author_repo.go:36-38 | For a shared AuthorID, the stored author is the first copy to arrive, and reloading changes nothing. |
| HttpErrors.Render | internal/api/router/httpErrors/httpErrors.go:36-38 | The rendering is "status: ", the `%d` of the status, " - errors: ", the message, " - causes: " and the `%v` of the causes. The status runs up to the first space. |
| HttpErrors.RenderFields | internal/api/router/httpErrors/httpErrors.go:37 | The message sits right after the status and the errors label, and the rendering ends with the causes label and the cause text. |
| HttpErrors.RenderStatusRoundTrip | internal/api/router/httpErrors/httpErrors.go:37 | The status can be read back from the rendering. |
| HttpErrors.NewApiError | internal/api/router/httpErrors/httpErrors.go:41-47 | Stores the code, message and causes unchanged. |
| HttpErrors.NewInternalServerError | internal/api/router/httpErrors/httpErrors.go:79-86 | Status 500, "Internal Server Error", with the causes kept. |
| HttpErrors.ParseSqlErrors | internal/api/router/httpErrors/httpErrors.go:71-76 | Always 400, with the error as cause. The message is "Object with given id already exists" exactly when the text contains "23505", and "Bad Request" otherwise. |
| HttpErrors.ParseErrors | internal/api/router/httpErrors/httpErrors.go:50-68 | An ApiError with no keyword passes through unchanged. Any other error gets status 400, 404 or 500 with itself as cause. It gets 500 with itself as cause exactly when it is a plain error with no keyword. |
| HttpErrors.PlainWithoutKeyword | internal/api/router/httpErrors/httpErrors.go:62-66 | A plain error with none of the keywords becomes 500 "Internal Server Error". |
| HttpErrors.PlainSqlError | internal/api/router/httpErrors/httpErrors.go:58-59 | A text whose first keyword hit is "SQLSTATE" is handled by `parseSqlErrors`. |
| HttpErrors.ParseErrorsFollowsTable | internal/api/router/httpErrors/httpErrors.go:50-76 | `ParseErrors` equals a first-match table in the order json, "not found", "is required", "SQLSTATE" with "23505", "SQLSTATE", "Unmarshal", followed by pass-through or 500. |
| LegacyHttpErrors.NewApiError | router/httpErrors/httpErrors.go:36-41 | Stores the code and message unchanged. |
| LegacyHttpErrors.Status | router/httpErrors/httpErrors.go:28-30 | Returns the stored code, and the rendering reads back as that code and the message. |
| LegacyHttpErrors.Render | router/httpErrors/httpErrors.go:32-34 | The rendering is "status: " + `%d` + " - errors: " + message. It ends with the message. |
| LegacyHttpErrors.RenderRoundTrip | router/httpErrors/httpErrors.go:32-34 | Reading the rendering back recovers both the status and the message. |
| LegacyHttpErrors.ParseErrors | router/httpErrors/httpErrors.go:43-50 | Always status 400. The message is "Could not be marshalled" exactly when the text contains "json: unsupported", and "Not Found" otherwise. |
| ErrorMapping.RecordNotFoundIs404 | internal/api/router/httpErrors/httpErrors.go:54-55 | "record not found" becomes 404 "Not Found" in the current service. |
| ErrorMapping.LegacyRecordNotFoundIs400 | router/httpErrors/httpErrors.go:47-48 | The older service answers the same error with 400 "Not Found". |
| ErrorMapping.DuplicateIdIs400 | internal/api/router/httpErrors/httpErrors.go:71-76 | The duplicate-key error becomes 400 "Object with given id already exists". |
| ErrorMapping.UndefinedColumnIs400 | internal/api/router/httpErrors/httpErrors.go:58-75 | The undefined-column error becomes 400 "Bad Request". |
| ErrorMapping.NoneUnderPriceIs500 | internal/domain/repos/book_repo.go:91 | The empty under-price error contains no keyword, so it becomes 500. |
| ErrorMapping.NotEnoughStockIs500 | internal/domain/repos/book_repo.go:165 | The refused purchase becomes 500 when the book's name has none of the letters f, j, q, Q, U. |
| ErrorMapping.NotEnoughStockNamedNotFound | internal/api/router/httpErrors/httpErrors.go:54-55 | A refused purchase of a book whose name contains "not found" and no 'j' becomes 404, because the classifier sees only the text. The 'j' condition rules out "json: unsupported", which is tested first and gives 400. |

## Left out

- HTTP routing, handlers, JSON responses, startup, database setup and migrations are not modelled; they are plumbing.
- File I/O is not modelled; a reader gets the parsed CSV lines as `lines`. Failures to open or read the file, which return without closing the job channel, are not modelled.
- An empty file is not modelled: `lines[1:]` panics in Go, and the readers require at least the header line.
- Rows shorter than the columns a worker indexes make it panic; the readers require every data row to be wide enough.
- The goroutine scheduling is not modelled beyond the worker choice and arrival order. The channel buffers hold 5 items each, and this is not modelled.
- The combined reader never returns once a sixth row converts, and this is not modelled. Each worker sends a row's author before its book. The author channel has 5 slots and is drained only after the book channel closes, so the sixth author send blocks, the workers never finish, and the book channel never closes. `CsvReaders.ReadData`, `BookRepo.InsertBookData` and `AuthorRepo.InsertAuthorData` describe only the runs that return, those with at most five converted rows in the harvest. The older readers have one result channel and are not affected.
- Concurrent purchases are not modelled: the read-then-write race in `BuyByBookID` is concurrency, and purchases are modelled one after another.
- Float parsing and formatting are not modelled: prices are `real`, and `strconv.ParseFloat(…, 32)`, float32 rounding and `%.2f` are parameters.
- GORM internals are not modelled: `First(&book, ID)` is read as an exact match on the ID, and a zero-value `Where` filter on an empty ID is not modelled.
- The book reads return the author value stored in the book row at insert time. In the code, `FindAll` preloads `Author`, so two books that share an `AuthorID` both come back with the authors-table row for that ID.
- `FindAllIncludingDeleted`, `FindAllInStock`, `FindAllBooksUnderPrice`, `FindByBookID` and `FindByBookName` do not preload in the code, so their books come back with a nil `Author`. The model returns the stored author instead.
- The books that `Preload("Books")` attaches in `FindAuthorsWithBookInfo` and `FindBooksOfAuthorByName` do not have their own `Author` preloaded, so in the code it is nil. The model (`AuthorRepo.WithBooks`) returns the stored author instead.
- The belongs-to association in `InsertBookData` and `AddBook` also writes the author to the authors table. The book table is modelled on its own.
- The `unique` tag on StockID is not modelled.
- `%`, `_` and `\` in search input are not modelled. In ILIKE the first two are wildcards and the backslash is the default escape character. The model reads all three as plain characters.
- Case folding is ASCII only; Unicode case folding is not modelled.
- `FindByBookISBN` is not modelled; it is not part of the modelled repository operations.
- Whether the older schema refuses a second row for a soft-deleted ID is not modelled. Both variants are modelled as refusing it; the older `Book` entity's schema tags are not modelled.
- The older repository's error texts end in "\n"; the model uses the entity-based texts. The older classifier only looks for "json: unsupported", so the answer is the same.
- The printing hooks `ToString`, `ToStringWithBooks`, `BeforeDelete`, `AfterDelete` and `AfterOrder` are not modelled; they only print.
- ErrorMapping.NoneUnderPriceIs500: proved only when the formatted price has digits, '.' and '-' only. "+Inf" and "NaN" renderings are not covered.
- ErrorMapping.NotEnoughStockIs500: proved only for book names without the letters f, j, q, Q and U. Other names go through the same rules, but their outcome depends on the name's text.

## Findings

| source | as written | input that shows it | evidently intended | confidence | as-written member | corrected member |
|---|---|---|---|---|---|---|
| internal/domain/repos/book_repo.go:161-162 | `book.StockNumber-num` is computed in Go's 64-bit `int` after the guard `StockNumber >= num`, so it wraps | stock 10, `num` = -9223372036854775807: the guard passes, and the stored stock becomes -9223372036854775799 | an accepted purchase never leaves the stock negative | not executed | BookRepo.BuyByBookIDAsWritten, BookRepo.BuyWrapsToNegativeStock | BookRepo.BuyByBookID |
