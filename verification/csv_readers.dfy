/**
 * The three CSV readers: `readDataWithWorkerPool` (books and authors from one file),
 * `readBooksWithWorkerPool` (older book records) and `readAuthorsWithWorkerPool`
 * (author-only file). Each drops the header line, runs the worker pool over the rest
 * and returns a nil error; the file's contents are the `lines` parameter.
 */
module CsvReaders {
  import opened Wrappers
  import opened Entities
  import opened CsvRows
  import opened WorkerPool

  /** The combined reader's worker conversion. */
  function BookParser(parseFloat: FloatParser): Converter<Book<Author>> {
    (row: Row) requires |row| >= BookColumns => ToBook(row, parseFloat)
  }

  /** The older book reader's worker conversion. */
  function LegacyBookParser(parseFloat: FloatParser): Converter<Book<string>> {
    (row: Row) requires |row| >= BookColumns => ToLegacyBook(row, parseFloat)
  }

  /** The author reader's worker conversion, which never fails. */
  function AuthorParser(): Converter<Author> {
    (row: Row) requires |row| >= AuthorColumns => Some(ToAuthor(row))
  }

  /** Every row after the header has at least `width` fields (shorter rows make the worker panic). */
  predicate DataRowsWide(lines: seq<Row>, width: nat) {
    forall j :: 1 <= j < |lines| ==> |lines[j]| >= width
  }

  /** The author each book links, in the same order. */
  function AuthorsOf(books: seq<Book<Author>>): (authors: seq<Author>)
    ensures |authors| == |books|
    ensures forall i :: 0 <= i < |books| ==> authors[i] == books[i].author
  {
    seq(|books|, i requires 0 <= i < |books| => books[i].author)
  }

  /** Records inside the conversions of the data rows are each the conversion of one data row. */
  lemma BooksFromDataRows(lines: seq<Row>, parseFloat: FloatParser, books: seq<Book<Author>>)
    requires |lines| >= 1
    requires DataRowsWide(lines, BookColumns)
    requires Accepts(BookParser(parseFloat), lines[1..])
    requires multiset(books) <= Converted(lines[1..], BookParser(parseFloat))
    ensures forall b :: b in books ==> exists j :: 1 <= j < |lines| && ToBook(lines[j], parseFloat) == Some(b)
    ensures forall b :: b in books ==> b.authorId == b.author.id
  {
    var jobs := lines[1..];
    var parser := BookParser(parseFloat);
    forall b | b in books
      ensures exists j :: 1 <= j < |lines| && ToBook(lines[j], parseFloat) == Some(b)
    {
      assert b in multiset(books);
      ConvertedFromRows(jobs, parser, b);
      var j :| 0 <= j < |jobs| && parser(jobs[j]) == Some(b);
      assert jobs[j] == lines[j + 1];
    }
  }

  /**
   * `readDataWithWorkerPool`. Each converted row yields one book and its author; the
   * books and the authors come back as two slices, each in its own arrival order.
   */
  method ReadData(lines: seq<Row>, parseFloat: FloatParser) returns (books: seq<Book<Author>>, authors: seq<Author>)
    requires |lines| >= 1
    requires DataRowsWide(lines, BookColumns)
    ensures Accepts(BookParser(parseFloat), lines[1..])
    ensures multiset(books) == Harvest(lines[1..], BookParser(parseFloat), Workers)
    ensures multiset(books) <= Converted(lines[1..], BookParser(parseFloat))
    ensures forall b :: b in books ==> exists j :: 1 <= j < |lines| && ToBook(lines[j], parseFloat) == Some(b)
    ensures forall b :: b in books ==> b.authorId == b.author.id
    ensures |authors| == |books|
    ensures multiset(authors) == multiset(AuthorsOf(books))
  {
    var jobs := lines[1..];
    var parser := BookParser(parseFloat);
    assert Accepts(parser, jobs) by {
      forall j | 0 <= j < |jobs| ensures parser.requires(jobs[j]) {
        assert jobs[j] == lines[j + 1];
      }
    }
    books := Pool(jobs, parser);
    HarvestWithinConverted(jobs, parser, Workers);
    BooksFromDataRows(lines, parseFloat, books);
    authors := Shuffle(AuthorsOf(books));
    assert |multiset(authors)| == |authors|;
    assert |multiset(AuthorsOf(books))| == |books|;
  }

  /** The book slices the combined reader can return: a harvest of the data rows, in any order. */
  ghost predicate DataBooks(lines: seq<Row>, parseFloat: FloatParser, books: seq<Book<Author>>)
    requires |lines| >= 1
    requires DataRowsWide(lines, BookColumns)
  {
    multiset(books) == Harvest(lines[1..], BookParser(parseFloat), Workers)
  }

  /** The slices the older book reader can return: a harvest of the data rows, in any order. */
  ghost predicate LegacyDataBooks(lines: seq<Row>, parseFloat: FloatParser, books: seq<Book<string>>)
    requires |lines| >= 1
    requires DataRowsWide(lines, BookColumns)
  {
    multiset(books) == Harvest(lines[1..], LegacyBookParser(parseFloat), Workers)
  }

  /**
   * The author slices the combined reader can return: the authors of the books of
   * some harvest of the data rows, one per book, in any order.
   */
  ghost predicate DataAuthors(lines: seq<Row>, parseFloat: FloatParser, authors: seq<Author>)
    requires |lines| >= 1
    requires DataRowsWide(lines, BookColumns)
  {
    exists books :: multiset(books) == Harvest(lines[1..], BookParser(parseFloat), Workers)
                 && multiset(authors) == multiset(AuthorsOf(books))
  }

  /**
   * Such authors number one per harvested book, each is the author named by some data
   * row, and when fewer rows fail than there are workers there is one per converted row.
   */
  lemma DataAuthorsFromRows(lines: seq<Row>, parseFloat: FloatParser, authors: seq<Author>)
    requires |lines| >= 1
    requires DataRowsWide(lines, BookColumns)
    requires DataAuthors(lines, parseFloat, authors)
    ensures |authors| == |Harvest(lines[1..], BookParser(parseFloat), Workers)|
    ensures forall a :: a in authors ==>
      exists j :: 1 <= j < |lines| && ToBook(lines[j], parseFloat).Some? && ToBook(lines[j], parseFloat).value.author == a
    ensures Failures(lines[1..], BookParser(parseFloat)) < Workers ==>
      |authors| == |lines| - 1 - Failures(lines[1..], BookParser(parseFloat))
  {
    var jobs := lines[1..];
    var parser := BookParser(parseFloat);
    assert Accepts(parser, jobs) by {
      forall j | 0 <= j < |jobs| ensures parser.requires(jobs[j]) {
        assert jobs[j] == lines[j + 1];
      }
    }
    var books :| multiset(books) == Harvest(jobs, parser, Workers)
              && multiset(authors) == multiset(AuthorsOf(books));
    assert |multiset(authors)| == |authors|;
    assert |multiset(AuthorsOf(books))| == |books|;
    assert |multiset(books)| == |books|;
    HarvestWithinConverted(jobs, parser, Workers);
    BooksFromDataRows(lines, parseFloat, books);
    forall a | a in authors
      ensures exists j :: 1 <= j < |lines| && ToBook(lines[j], parseFloat).Some? && ToBook(lines[j], parseFloat).value.author == a
    {
      assert a in multiset(AuthorsOf(books));
      var i :| 0 <= i < |books| && AuthorsOf(books)[i] == a;
      assert books[i] in books;
    }
    if Failures(jobs, parser) < Workers {
      FewFailuresDropOnlyThemselves(jobs, parser);
    }
  }

  /** `readBooksWithWorkerPool` of the older variant: books with a flat author name. */
  method ReadBooks(lines: seq<Row>, parseFloat: FloatParser) returns (books: seq<Book<string>>)
    requires |lines| >= 1
    requires DataRowsWide(lines, BookColumns)
    ensures Accepts(LegacyBookParser(parseFloat), lines[1..])
    ensures multiset(books) == Harvest(lines[1..], LegacyBookParser(parseFloat), Workers)
    ensures multiset(books) <= Converted(lines[1..], LegacyBookParser(parseFloat))
    ensures forall b :: b in books ==> exists j :: 1 <= j < |lines| && ToLegacyBook(lines[j], parseFloat) == Some(b)
  {
    var jobs := lines[1..];
    var parser := LegacyBookParser(parseFloat);
    assert Accepts(parser, jobs) by {
      forall j | 0 <= j < |jobs| ensures parser.requires(jobs[j]) {
        assert jobs[j] == lines[j + 1];
      }
    }
    books := Pool(jobs, parser);
    HarvestWithinConverted(jobs, parser, Workers);
    forall b | b in books
      ensures exists j :: 1 <= j < |lines| && ToLegacyBook(lines[j], parseFloat) == Some(b)
    {
      assert b in multiset(books);
      ConvertedFromRows(jobs, parser, b);
      var j :| 0 <= j < |jobs| && parser(jobs[j]) == Some(b);
      assert jobs[j] == lines[j + 1];
    }
  }

  /** The authors `ToAuthor` gives for the data rows, in file order. */
  function AuthorRows(lines: seq<Row>): (authors: seq<Author>)
    requires |lines| >= 1
    requires DataRowsWide(lines, AuthorColumns)
    ensures |authors| == |lines| - 1
  {
    seq(|lines| - 1, i requires 0 <= i < |lines| - 1 => ToAuthor(lines[i + 1]))
  }

  /** Converting rows that never fail yields the rows' authors, one each. */
  lemma {:induction false} AuthorsConverted(jobs: seq<Row>)
    requires forall j :: 0 <= j < |jobs| ==> |jobs[j]| >= AuthorColumns
    ensures Accepts(AuthorParser(), jobs)
    ensures Failures(jobs, AuthorParser()) == 0
    ensures Converted(jobs, AuthorParser())
         == multiset(seq(|jobs|, i requires 0 <= i < |jobs| => ToAuthor(jobs[i])))
    decreases |jobs|
  {
    var all := seq(|jobs|, i requires 0 <= i < |jobs| => ToAuthor(jobs[i]));
    if |jobs| > 0 {
      AuthorsConverted(jobs[1..]);
      var rest := seq(|jobs[1..]|, i requires 0 <= i < |jobs[1..]| => ToAuthor(jobs[1..][i]));
      assert all == [ToAuthor(jobs[0])] + rest;
    }
  }

  /**
   * `readAuthorsWithWorkerPool`: no row can fail, so no worker stops, and the result
   * is a permutation of the data rows' authors.
   */
  method ReadAuthors(lines: seq<Row>) returns (authors: seq<Author>)
    requires |lines| >= 1
    requires DataRowsWide(lines, AuthorColumns)
    ensures multiset(authors) == multiset(AuthorRows(lines))
    ensures |authors| == |lines| - 1
  {
    var jobs := lines[1..];
    assert forall j :: 0 <= j < |jobs| ==> jobs[j] == lines[j + 1];
    AuthorsConverted(jobs);
    HarvestComplete(jobs, AuthorParser(), Workers);
    authors := Pool(jobs, AuthorParser());
    assert seq(|jobs|, i requires 0 <= i < |jobs| => ToAuthor(jobs[i])) == AuthorRows(lines);
    assert |multiset(authors)| == |lines| - 1;
  }
}
