/**
 * What the classifiers answer for the errors the repositories return: the handlers
 * pass every repository error to `ParseErrors`, which sees only its text.
 */
module ErrorMapping {
  import opened Text
  import opened RepoErrors
  import opened HttpErrors
  import Legacy = LegacyHttpErrors

  /** The answer of the current service to a repository error. */
  function Respond(e: RepoError, fixed2: Fixed2): ApiError {
    ParseErrors(Plain(Message(e, fixed2)))
  }

  /** A missing record is a 404 in the current service. */
  lemma RecordNotFoundIs404(fixed2: Fixed2)
    ensures Respond(RecordNotFound, fixed2)
         == ApiError(StatusNotFound, NotFound, Because(Plain(RecordNotFoundText)))
  {
    MissingCharNotContained(RecordNotFoundText, JsonKeyword, 'j');
    assert RecordNotFoundText == "record " + NotFoundKeyword + "";
    ContainsPart("record ", NotFoundKeyword, "");
  }

  /** The older service answers the same error with status 400. */
  lemma LegacyRecordNotFoundIs400()
    ensures Legacy.ParseErrors(RecordNotFoundText) == Legacy.ApiError(Legacy.StatusBadRequest, Legacy.NotFound)
  {
    MissingCharNotContained(RecordNotFoundText, Legacy.JsonKeyword, 'j');
  }

  // Which keywords each fixed error text contains.

  lemma DuplicateIdLacksJson() ensures !Contains(DuplicateIdText, JsonKeyword) {
    MissingCharNotContained(DuplicateIdText, JsonKeyword, 'j');
  }

  lemma DuplicateIdLacksNotFound() ensures !Contains(DuplicateIdText, NotFoundKeyword) {
    MissingCharNotContained(DuplicateIdText, NotFoundKeyword, 'f');
  }

  /** The one 'q' of the text is in "unique", where "is required" would need "is re" before it. */
  lemma DuplicateIdLacksRequired() ensures !Contains(DuplicateIdText, RequiredKeyword) {
    var before := "ERROR: duplicate" + " key value" + " violates" + " uni";  // up to the 'q' of "unique"
    var after := "ue constraint" + " \"books_id_key\"" + " (SQLSTATE 23505)";
    assert DuplicateIdText == before + ['q'] + after;
    // "is re" would have to end at the 'q', so "is required" would start at the 's' ending "violates".
    assert before[|before| - 5] == 's' != RequiredKeyword[0];
    PinnedByUniqueChar(before, 'q', after, RequiredKeyword, 5);
  }

  lemma DuplicateIdHasSqlState() ensures Contains(DuplicateIdText, SqlKeyword) {
    assert DuplicateIdText == DuplicateIdReport + " (" + SqlKeyword + " 23505)";
    ContainsPart(DuplicateIdReport + " (", SqlKeyword, " 23505)");
  }

  lemma DuplicateIdHasUniqueCode() ensures Contains(DuplicateIdText, UniqueViolationKeyword) {
    assert DuplicateIdText == DuplicateIdReport + " (SQLSTATE " + UniqueViolationKeyword + ")";
    ContainsPart(DuplicateIdReport + " (SQLSTATE ", UniqueViolationKeyword, ")");
  }

  /** A duplicate ID is a 400 that says the object already exists. */
  lemma DuplicateIdIs400(fixed2: Fixed2)
    ensures Respond(DuplicateId, fixed2)
         == ApiError(StatusBadRequest, ExistsObjectIdError, Because(Plain(DuplicateIdText)))
  {
    DuplicateIdLacksJson();
    DuplicateIdLacksNotFound();
    DuplicateIdLacksRequired();
    DuplicateIdHasSqlState();
    DuplicateIdHasUniqueCode();
    PlainSqlError(DuplicateIdText);
  }

  lemma UndefinedColumnLacksJson() ensures !Contains(UndefinedColumnText, JsonKeyword) {
    MissingCharNotContained(UndefinedColumnText, JsonKeyword, 'j');
  }

  lemma UndefinedColumnLacksNotFound() ensures !Contains(UndefinedColumnText, NotFoundKeyword) {
    MissingCharNotContained(UndefinedColumnText, NotFoundKeyword, 'f');
  }

  lemma UndefinedColumnLacksRequired() ensures !Contains(UndefinedColumnText, RequiredKeyword) {
    MissingCharNotContained(UndefinedColumnText, RequiredKeyword, 'q');
  }

  lemma UndefinedColumnHasSqlState() ensures Contains(UndefinedColumnText, SqlKeyword) {
    assert UndefinedColumnText == UndefinedColumnReport + " (" + SqlKeyword + " 42703)";
    ContainsPart(UndefinedColumnReport + " (", SqlKeyword, " 42703)");
  }

  lemma UndefinedColumnLacksUniqueCode() ensures !Contains(UndefinedColumnText, UniqueViolationKeyword) {
    MissingCharNotContained(UndefinedColumnText, UniqueViolationKeyword, '5');
  }

  /** A filter on a column the table lacks is a plain 400 "Bad Request". */
  lemma UndefinedColumnIs400(fixed2: Fixed2)
    ensures Respond(UndefinedAuthorNameColumn, fixed2)
         == ApiError(StatusBadRequest, BadRequest, Because(Plain(UndefinedColumnText)))
  {
    UndefinedColumnLacksJson();
    UndefinedColumnLacksNotFound();
    UndefinedColumnLacksRequired();
    UndefinedColumnHasSqlState();
    UndefinedColumnLacksUniqueCode();
    PlainSqlError(UndefinedColumnText);
  }

  /** Text that a `%.2f` rendering of a finite price can hold. */
  predicate PriceText(p: string) {
    forall i :: 0 <= i < |p| ==> IsDigit(p[i]) || p[i] == '.' || p[i] == '-'
  }

  /** A keyword with a letter that neither the fixed text nor the price has is absent. */
  lemma PriceMessageLacks(p: string, keyword: string, c: char)
    requires PriceText(p)
    requires c in keyword && c !in NoneUnderPricePrefix && !IsDigit(c) && c != '.' && c != '-'
    ensures !Contains(NoneUnderPricePrefix + p, keyword)
  {
    MissingCharNotContained(NoneUnderPricePrefix + p, keyword, c);
  }

  /**
   * "There is no books in the stock under …" contains none of the keywords, so the
   * current service answers it with 500.
   */
  lemma NoneUnderPriceIs500(threshold: real, fixed2: Fixed2)
    requires PriceText(fixed2(threshold))
    ensures Respond(NoneUnderPrice(threshold), fixed2)
         == ApiError(StatusInternalServerError, InternalServerError, Because(Plain(Message(NoneUnderPrice(threshold), fixed2))))
  {
    var p := fixed2(threshold);
    PriceMessageLacks(p, JsonKeyword, 'j');
    PriceMessageLacks(p, NotFoundKeyword, 'f');
    PriceMessageLacks(p, RequiredKeyword, 'q');
    PriceMessageLacks(p, SqlKeyword, 'Q');
    PriceMessageLacks(p, UnmarshalKeyword, 'U');
    PlainWithoutKeyword(NoneUnderPricePrefix + p);
  }

  /** Text that `%d` can produce: digits and a minus sign. */
  predicate CountText(n: string) {
    forall i :: 0 <= i < |n| ==> IsDigit(n[i]) || n[i] == '-'
  }

  /** A keyword with a letter that neither the fixed text, the name nor the number has is absent. */
  lemma StockMessageLacks(name: string, count: string, keyword: string, c: char)
    requires CountText(count)
    requires c in keyword && c !in name && c in "jqQU"
    ensures !Contains(NotEnoughStockText(name, count), keyword)
  {
    assert c !in count;
    assert c !in NotEnoughStockHead && c !in NotEnoughStockMiddle && c !in NotEnoughStockTail;
    MissingCharNotContained(NotEnoughStockText(name, count), keyword, c);
  }

  /** The one 'f' of the refusal is in "for", where "not found" would need "not " before it. */
  lemma StockMessageLacksNotFound(name: string, count: string)
    requires CountText(count)
    requires 'f' !in name
    ensures !Contains(NotEnoughStockText(name, count), NotFoundKeyword)
  {
    var before := "Not enough" + " stock ";
    var rest := NotEnoughStockMiddle + count + NotEnoughStockTail;
    var after := "or " + name + rest;
    assert 'f' !in count;
    assert 'f' !in after;
    assert NotEnoughStockHead == before + ['f'] + "or ";
    var text := NotEnoughStockText(name, count);
    assert text == before + ['f'] + after;
    // "not " would have to end at the 'f', so "not found" would start at the 'o' of "stock".
    assert before[|before| - 4] == 'o' != NotFoundKeyword[0];
    PinnedByUniqueChar(before, 'f', after, NotFoundKeyword, 4);
  }

  /**
   * "Not enough stock for …" answers 500 in the current service when the book's
   * name carries none of the keywords' tell-tale letters.
   */
  lemma NotEnoughStockIs500(name: string, stock: int, fixed2: Fixed2)
    requires 'f' !in name && 'j' !in name && 'q' !in name && 'Q' !in name && 'U' !in name
    ensures Respond(NotEnoughStock(name, stock), fixed2)
         == ApiError(StatusInternalServerError, InternalServerError, Because(Plain(NotEnoughStockText(name, Itoa(stock)))))
  {
    var count := Itoa(stock);
    StockMessageLacks(name, count, JsonKeyword, 'j');
    StockMessageLacksNotFound(name, count);
    StockMessageLacks(name, count, RequiredKeyword, 'q');
    StockMessageLacks(name, count, SqlKeyword, 'Q');
    StockMessageLacks(name, count, UnmarshalKeyword, 'U');
    PlainWithoutKeyword(NotEnoughStockText(name, count));
  }

  /** The text is all the classifier sees: a book named "… not found …" turns the refusal into a 404. */
  lemma NotEnoughStockNamedNotFound(name: string, stock: int, fixed2: Fixed2)
    requires Contains(name, NotFoundKeyword) && 'j' !in name
    ensures Respond(NotEnoughStock(name, stock), fixed2)
         == ApiError(StatusNotFound, NotFound, Because(Plain(NotEnoughStockText(name, Itoa(stock)))))
  {
    var count := Itoa(stock);
    StockMessageLacks(name, count, JsonKeyword, 'j');
    var rest := NotEnoughStockMiddle + count + NotEnoughStockTail;
    ContainsInfix(NotEnoughStockHead, name, rest, NotFoundKeyword);
    assert NotEnoughStockText(name, count) == NotEnoughStockHead + name + rest;
  }
}
