/**
 * `AuthorRepository` of both variants over the abstract author table. Books are
 * attached by lookup, not ownership: an author's books are the live book rows whose
 * `AuthorID` is the author's ID (GORM's `Preload("Books")`).
 */
module AuthorRepo {
  import opened Wrappers
  import opened Text
  import opened Entities
  import opened Store
  import opened RepoErrors
  import opened CsvRows
  import opened WorkerPool
  import opened CsvReaders
  import opened BookRepo

  type AuthorTable = Table<Author>

  /** The key an author row is stored under. */
  function AuthorId(a: Author): string {
    a.id
  }

  /** Every author row is stored under its author's ID. */
  ghost predicate AuthorsKeyed(t: AuthorTable) {
    Keyed(t, AuthorId)
  }

  // ---------------------------------------------------------------------------
  // Inserting

  /**
   * `InsertAuthorData` of the entity-based repository: the authors the combined reader
   * derives from the book rows (one per converted row, so an author recurs once per
   * book), each loaded with `FirstOrCreate`.
   */
  method InsertAuthorData(t: AuthorTable, lines: seq<Row>, parseFloat: FloatParser)
    returns (t': AuthorTable, loaded: seq<Author>)
    requires |lines| >= 1
    requires DataRowsWide(lines, BookColumns)
    ensures DataAuthors(lines, parseFloat, loaded)
    ensures t' == InsertAll(t, loaded, AuthorId)
  {
    var books;
    books, loaded := ReadData(lines, parseFloat);
    assert DataAuthors(lines, parseFloat, loaded);
    t' := InsertAll(t, loaded, AuthorId);
  }

  /**
   * What a load of authors does to the author table: rows already there are untouched,
   * every new row is live and holds one of the loaded authors, the table stays keyed by
   * author ID, and loading the same authors again changes nothing.
   */
  lemma AuthorLoad(t: AuthorTable, loaded: seq<Author>)
    ensures var t' := InsertAll(t, loaded, AuthorId);
      && (forall k :: k in t ==> k in t' && t'[k] == t[k])
      && (forall k :: k in t' && k !in t ==> !t'[k].deleted && t'[k].rec in loaded)
      && (AuthorsKeyed(t) ==> AuthorsKeyed(t'))
      && InsertAll(t', loaded, AuthorId) == t'
  {
    InsertAllEffect(t, loaded, AuthorId);
    InsertAllIdempotent(t, loaded, AuthorId);
  }

  /** `InsertAuthorData` of the older repository, over the author-only reader. */
  method InsertLegacyAuthorData(t: AuthorTable, lines: seq<Row>)
    returns (t': AuthorTable, loaded: seq<Author>)
    requires |lines| >= 1
    requires DataRowsWide(lines, AuthorColumns)
    ensures multiset(loaded) == multiset(AuthorRows(lines))
    ensures t' == InsertAll(t, loaded, AuthorId)
  {
    loaded := ReadAuthors(lines);
    t' := InsertAll(t, loaded, AuthorId);
  }

  // ---------------------------------------------------------------------------
  // Reading

  /** `FindAuthorsWithoutBookInfo`: the live authors. */
  function FindAuthorsWithoutBookInfo(t: AuthorTable): (r: set<Author>)
    ensures AuthorsKeyed(t) ==> forall a :: a in r <==> Live(t, a.id) && t[a.id].rec == a
  {
    LiveRecords(t)
  }

  /** The live books whose `AuthorID` is `id`. */
  function BooksOf<A(==,!new)>(books: BookTable<A>, id: string): (r: set<Book<A>>)
    ensures forall b :: b in r <==> b in FindAll(books) && b.authorId == id
  {
    set b | b in LiveRecords(books) && b.authorId == id
  }

  /** Each author with the books `Preload("Books")` attaches. */
  function WithBooks<A(==,!new)>(authors: set<Author>, books: BookTable<A>): (r: set<AuthorWithBooks<A>>)
    ensures forall e :: e in r ==> e.author in authors && e.books == BooksOf(books, e.author.id)
    ensures forall a :: a in authors ==> AuthorWithBooks(a, BooksOf(books, a.id)) in r
    ensures AuthorsIn(r) == authors
  {
    var r := set a | a in authors :: AuthorWithBooks(a, BooksOf(books, a.id));
    assert forall a :: a in authors ==> a in AuthorsIn(r) by {
      forall a | a in authors ensures a in AuthorsIn(r) {
        assert AuthorWithBooks(a, BooksOf(books, a.id)) in r;
      }
    }
    r
  }

  /** The authors of an author-with-books listing. */
  function AuthorsIn<A>(entries: set<AuthorWithBooks<A>>): set<Author> {
    set e | e in entries :: e.author
  }

  /** `FindAuthorsWithBookInfo`: the live authors, each with their live books. */
  function FindAuthorsWithBookInfo<A(==,!new)>(t: AuthorTable, books: BookTable<A>): (r: set<AuthorWithBooks<A>>)
    ensures AuthorsIn(r) == FindAuthorsWithoutBookInfo(t)
    ensures forall e :: e in r ==> forall b :: b in e.books <==> b in FindAll(books) && b.authorId == e.author.id
  {
    WithBooks(LiveRecords(t), books)
  }

  /** `FindByAuthorID`: the live author with this ID, or "record not found". */
  function FindByAuthorID(t: AuthorTable, id: string): (r: Result<Author, RepoError>)
    ensures r.Ok? <==> Live(t, id)
    ensures r.Ok? ==> r.value == t[id].rec
    ensures r.Err? ==> r.error == RecordNotFound
    ensures r.Ok? ==> r.value in FindAuthorsWithoutBookInfo(t)
  {
    if Live(t, id) then Ok(t[id].rec) else Err(RecordNotFound)
  }

  /** `FindByAuthorName`: live authors whose name contains `name`, ignoring case. */
  function FindByAuthorName(t: AuthorTable, name: string): (r: set<Author>)
    ensures forall a :: a in r <==> a in FindAuthorsWithoutBookInfo(t) && ILike(a.name, name)
  {
    set a | a in LiveRecords(t) && ILike(a.name, name)
  }

  /** `FindBooksOfAuthorByName`: the same name search, each author with their live books. */
  function FindBooksOfAuthorByName<A(==,!new)>(t: AuthorTable, books: BookTable<A>, name: string): (r: set<AuthorWithBooks<A>>)
    ensures AuthorsIn(r) == FindByAuthorName(t, name)
    ensures forall e :: e in r ==> forall b :: b in e.books <==> b in FindAll(books) && b.authorId == e.author.id
  {
    WithBooks(FindByAuthorName(t, name), books)
  }

  // ---------------------------------------------------------------------------
  // Properties

  /** The listings with and without book info name the same authors. */
  lemma BookInfoListsSameAuthors<A(!new)>(t: AuthorTable, books: BookTable<A>)
    ensures AuthorsIn(FindAuthorsWithBookInfo(t, books)) == FindAuthorsWithoutBookInfo(t)
    ensures forall e :: e in FindAuthorsWithBookInfo(t, books) ==>
      forall b :: b in e.books <==> b in FindAll(books) && b.authorId == e.author.id
  {
    var entries := FindAuthorsWithBookInfo(t, books);
    forall a | a in FindAuthorsWithoutBookInfo(t) ensures a in AuthorsIn(entries) {
      assert AuthorWithBooks(a, BooksOf(books, a.id)) in entries;
    }
  }

  /**
   * The name search with books finds exactly the authors the plain name search finds,
   * each with exactly the live books that name it by ID.
   */
  lemma BooksOfAuthorByNameAgrees<A(!new)>(t: AuthorTable, books: BookTable<A>, name: string)
    ensures AuthorsIn(FindBooksOfAuthorByName(t, books, name)) == FindByAuthorName(t, name)
    ensures forall e :: e in FindBooksOfAuthorByName(t, books, name) ==>
      forall b :: b in e.books <==> b in FindAll(books) && b.authorId == e.author.id
  {
    var entries := FindBooksOfAuthorByName(t, books, name);
    forall a | a in FindByAuthorName(t, name) ensures a in AuthorsIn(entries) {
      assert AuthorWithBooks(a, BooksOf(books, a.id)) in entries;
    }
  }

  /**
   * Authors arrive once per book row, in no fixed order. For an author ID with no row
   * yet, the stored author is the first copy in arrival order, whatever name the later
   * copies carry; loading the same authors again changes nothing.
   */
  lemma SharedAuthorFirstCopyWins(t: AuthorTable, loaded: seq<Author>, i: nat)
    requires i < |loaded| && loaded[i].id !in t
    requires forall j :: 0 <= j < i ==> loaded[j].id != loaded[i].id
    ensures FindByAuthorID(InsertAll(t, loaded, AuthorId), loaded[i].id) == Ok(loaded[i])
    ensures InsertAll(InsertAll(t, loaded, AuthorId), loaded, AuthorId) == InsertAll(t, loaded, AuthorId)
  {
    InsertAllFirstWins(t, loaded, AuthorId, i);
    InsertAllIdempotent(t, loaded, AuthorId);
  }
}
