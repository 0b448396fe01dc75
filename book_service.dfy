/**
 * `BookService`: catalogue maintenance.  Each operation is a transition
 * `...Step` over the tables, proved to keep the table constraints and the
 * stock invariant, and a method of the `BookService` class that performs it
 * on the database step by step.
 */
module BookService {
  import opened Wrappers
  import opened Text
  import opened Store
  import BookEntity
  import LoanRepository

  datatype BookError =
    | DuplicateIsbn       // "이미 등록된 ISBN입니다"
    | NoSuchBook          // "존재하지 않는 도서입니다"
    | NegativeTotal       // "총 수량은 0보다 작을 수 없습니다."
    | BelowLoaned(loaned: int)  // "새로운 총 수량이 현재 대출된 수량보다 작습니다."
    | CopiesOnLoan        // "현재 대출 중인 도서는 삭제할 수 없습니다."
    | ReferencedByLoans   // the `loans.book_id` foreign key refuses the delete

  /** The editable fields of the request body of `updateBook`; a missing total is `None`. */
  datatype BookForm = BookForm(
    title: string,
    author: string,
    isbn: Option<string>,
    category: Option<string>,
    publisher: Option<string>,
    publishedDate: Option<int>,
    description: Option<string>,
    totalCopies: Option<int>)

  // ----- saveBook -----

  /** `saveBook`: refuses an ISBN already catalogued, otherwise inserts the row under the generated id. */
  function SaveBookStep(t: Tables, b: BookEntity.BookRow, newId: int): (s: Step<BookEntity.BookRow, BookError>)
    requires Valid(t) && newId !in t.books
    ensures s.result.Err? <==> b.isbn.Some? && exists k :: k in t.books && t.books[k].isbn == b.isbn
    ensures s.result.Err? ==> s.after == t && s.result.error == DuplicateIsbn
    ensures s.result.Ok? ==>
              s.result.value == b.(id := newId) && s.after == t.(books := t.books[newId := b.(id := newId)])
  {
    if b.isbn.Some? && FindBookByIsbn(t, b.isbn.value).Some? then Fail(t, DuplicateIsbn)
    else
      var row := b.(id := newId);
      Step(t.(books := t.books[newId := row]), Ok(row))
  }

  /** A saved book keeps the tables valid, and keeps the stock invariant when it arrives with every copy on the shelf. */
  lemma SaveBookPreserves(t: Tables, b: BookEntity.BookRow, newId: int)
    requires Valid(t) && newId !in t.books
    ensures Valid(SaveBookStep(t, b, newId).after)
    ensures StockConsistent(t) && b.availableCopies == b.totalCopies ==>
      StockConsistent(SaveBookStep(t, b, newId).after)
  {
    var s := SaveBookStep(t, b, newId);
    if s.result.Ok? && StockConsistent(t) && b.availableCopies == b.totalCopies {
      assert forall k :: k !in Outstanding(t.loans, newId);
      assert Outstanding(t.loans, newId) == {};
      forall x | x in s.after.books
        ensures BookEntity.LoanedCopies(s.after.books[x]) == |Outstanding(s.after.loans, x)|
      {
      }
    }
  }

  // ----- updateBookCopies -----

  /** The copy count of one book set to `newTotal`, keeping the number of copies on loan. */
  function Recount(b: BookEntity.BookRow, newTotal: int): (r: Result<BookEntity.BookRow, BookError>)
    ensures r.Err? <==> newTotal < 0 || newTotal < BookEntity.LoanedCopies(b)
    ensures r.Err? ==> r.error == (if newTotal < 0 then NegativeTotal else BelowLoaned(BookEntity.LoanedCopies(b)))
    ensures r.Ok? ==>
              && r.value.totalCopies == newTotal
              && BookEntity.LoanedCopies(r.value) == BookEntity.LoanedCopies(b)
              && r.value.(totalCopies := b.totalCopies, availableCopies := b.availableCopies) == b
    ensures r.Ok? && b.availableCopies <= b.totalCopies ==> BookEntity.StockValid(r.value)
  {
    var loaned := b.totalCopies - b.availableCopies;
    if newTotal < 0 then Err(NegativeTotal)
    else if newTotal < loaned then Err(BelowLoaned(loaned))
    else Ok(b.(totalCopies := newTotal, availableCopies := newTotal - loaned))
  }

  /** `updateBookCopies`. */
  function UpdateBookCopiesStep(t: Tables, id: int, newTotal: int): (s: Step<BookEntity.BookRow, BookError>)
    ensures id !in t.books ==> s == Fail(t, NoSuchBook)
    ensures id in t.books ==> s.result == Recount(t.books[id], newTotal)
    ensures s.result.Err? ==> s.after == t
    ensures s.result.Ok? ==> s.after == t.(books := t.books[id := s.result.value])
  {
    if id !in t.books then Fail(t, NoSuchBook)
    else
      var r := Recount(t.books[id], newTotal);
      if r.Err? then Fail(t, r.error) else Step(t.(books := t.books[id := r.value]), r)
  }

  /** Changing one book's totals while keeping its loaned count keeps both invariants. */
  lemma RecountPreserves(t: Tables, id: int, b: BookEntity.BookRow)
    requires Valid(t) && id in t.books
    requires b.id == id && b.isbn == t.books[id].isbn
    requires BookEntity.LoanedCopies(b) == BookEntity.LoanedCopies(t.books[id])
    ensures Valid(t.(books := t.books[id := b]))
    ensures StockConsistent(t) ==> StockConsistent(t.(books := t.books[id := b]))
  {
  }

  lemma UpdateBookCopiesPreserves(t: Tables, id: int, newTotal: int)
    requires Valid(t)
    ensures Valid(UpdateBookCopiesStep(t, id, newTotal).after)
    ensures StockConsistent(t) ==> StockConsistent(UpdateBookCopiesStep(t, id, newTotal).after)
  {
    var s := UpdateBookCopiesStep(t, id, newTotal);
    if s.result.Ok? {
      RecountPreserves(t, id, s.result.value);
    }
  }

  // ----- updateBook -----

  /** The descriptive fields of the form copied onto the stored book. */
  function WithForm(b: BookEntity.BookRow, f: BookForm): BookEntity.BookRow
  {
    b.(title := f.title, author := f.author, isbn := f.isbn, category := f.category,
       publisher := f.publisher, publishedDate := f.publishedDate, description := f.description)
  }

  /** Another book already holds the ISBN the form gives book `id`. */
  predicate IsbnClash(t: Tables, id: int, f: BookForm)
    requires id in t.books
  {
    f.isbn.Some? && f.isbn != t.books[id].isbn && exists k :: k in t.books && t.books[k].isbn == f.isbn
  }

  /**
   * `updateBook`: refuses an ISBN that another book holds, copies the
   * descriptive fields, and when a total is given recounts the copies as
   * `updateBookCopies` does; a refused recount rolls the whole call back.
   */
  function UpdateBookStep(t: Tables, id: int, f: BookForm): (s: Step<BookEntity.BookRow, BookError>)
    requires Valid(t)
    ensures id !in t.books ==> s == Fail(t, NoSuchBook)
    ensures (id in t.books && f.isbn.Some? && f.isbn != t.books[id].isbn
             && exists k :: k in t.books && t.books[k].isbn == f.isbn) ==> s == Fail(t, DuplicateIsbn)
    ensures s.result.Err? ==> s.after == t
    ensures s.result.Ok? ==>
              && id in t.books && s.after == t.(books := t.books[id := s.result.value])
              && s.result.value.title == f.title && s.result.value.author == f.author
              && s.result.value.isbn == f.isbn && s.result.value.category == f.category
              && s.result.value.publisher == f.publisher && s.result.value.publishedDate == f.publishedDate
              && s.result.value.description == f.description
    ensures s.result.Ok? && f.totalCopies.None? ==>
              && s.result.value.totalCopies == t.books[id].totalCopies
              && s.result.value.availableCopies == t.books[id].availableCopies
    ensures s.result.Ok? && f.totalCopies.Some? ==>
              && s.result.value.totalCopies == f.totalCopies.value
              && BookEntity.LoanedCopies(s.result.value) == BookEntity.LoanedCopies(t.books[id])
    ensures id in t.books && !IsbnClash(t, id, f) ==>
              (s.result.Ok? <==> f.totalCopies.None? || Recount(WithForm(t.books[id], f), f.totalCopies.value).Ok?)
    ensures id in t.books && !IsbnClash(t, id, f) && f.totalCopies.Some?
            && Recount(WithForm(t.books[id], f), f.totalCopies.value).Err? ==>
              s == Fail(t, Recount(WithForm(t.books[id], f), f.totalCopies.value).error)
  {
    if id !in t.books then Fail(t, NoSuchBook)
    else if f.isbn.Some? && f.isbn != t.books[id].isbn && FindBookByIsbn(t, f.isbn.value).Some? then
      Fail(t, DuplicateIsbn)
    else
      var edited := WithForm(t.books[id], f);
      if f.totalCopies.None? then Step(t.(books := t.books[id := edited]), Ok(edited))
      else
        var r := Recount(edited, f.totalCopies.value);
        if r.Err? then Fail(t, r.error) else Step(t.(books := t.books[id := r.value]), r)
  }

  lemma UpdateBookPreserves(t: Tables, id: int, f: BookForm)
    requires Valid(t)
    ensures Valid(UpdateBookStep(t, id, f).after)
    ensures StockConsistent(t) ==> StockConsistent(UpdateBookStep(t, id, f).after)
  {
    var s := UpdateBookStep(t, id, f);
    if s.result.Ok? {
      var b := s.result.value;
      assert b.id == id;
      var t' := t.(books := t.books[id := b]);
      assert UniqueIsbns(t'.books) by {
        if f.isbn.Some? && f.isbn != t.books[id].isbn {
          assert FindBookByIsbn(t, f.isbn.value).None?;
        }
      }
      if StockConsistent(t) {
        assert BookEntity.LoanedCopies(b) == BookEntity.LoanedCopies(t.books[id]);
      }
    }
  }

  // ----- deleteBook -----

  /**
   * `deleteBook`: refuses a book with a copy out; otherwise deletes the row,
   * which the `loans.book_id` foreign key refuses while any loan, returned or
   * not, still refers to the book.
   */
  function DeleteBookStep(t: Tables, id: int): (s: Step<(), BookError>)
    ensures s.result.Err? <==>
              || id !in t.books || t.books[id].availableCopies < t.books[id].totalCopies
              || LoanRepository.ExistsByBookId(t.loans, id)
    ensures s.result.Err? ==> s.after == t
    ensures s.result.Ok? ==> s.after == t.(books := t.books - {id})
  {
    if id !in t.books then Fail(t, NoSuchBook)
    else if t.books[id].availableCopies < t.books[id].totalCopies then Fail(t, CopiesOnLoan)
    else if LoanRepository.ExistsByBookId(t.loans, id) then Fail(t, ReferencedByLoans)
    else Step(t.(books := t.books - {id}), Ok(()))
  }

  lemma DeleteBookPreserves(t: Tables, id: int)
    requires Valid(t)
    ensures Valid(DeleteBookStep(t, id).after)
    ensures StockConsistent(t) ==> StockConsistent(DeleteBookStep(t, id).after)
  {
  }

  /** Under the stock invariant a book with a copy out always has a loan, so the loan check alone refuses it too. */
  lemma CopyOutImpliesReferenced(t: Tables, id: int)
    requires StockConsistent(t) && id in t.books
    requires t.books[id].availableCopies < t.books[id].totalCopies
    ensures LoanRepository.ExistsByBookId(t.loans, id)
  {
    assert |Outstanding(t.loans, id)| > 0;
    NonEmptyHasMember(Outstanding(t.loans, id));
    var k :| k in Outstanding(t.loans, id);
    assert k in t.loans && t.loans[k].book == Some(id);
  }

  // ----- searchBooksByKeyword -----

  /** Title or author contains the keyword (`LIKE %k%`). */
  predicate KeywordMatch(b: BookEntity.BookRow, keyword: string)
  {
    Includes(b.title, keyword) || Includes(b.author, keyword)
  }

  /** `findByKeyword`. */
  function FindByKeyword(books: BookTable, keyword: string): set<int>
  {
    set k | k in books && KeywordMatch(books[k], keyword)
  }

  /** `searchBooksByKeyword`: everything for a missing or blank keyword, otherwise the trimmed keyword's matches. */
  function SearchBooksByKeyword(books: BookTable, keyword: Option<string>): (r: set<int>)
    ensures keyword.None? || IsJavaBlank(keyword.value) ==> r == books.Keys
    ensures keyword.Some? && !IsJavaBlank(keyword.value) ==>
              forall k :: k in r <==> (k in books && KeywordMatch(books[k], JavaTrim(keyword.value)))
  {
    if keyword.None? then books.Keys
    else
      JavaTrimEmpty(keyword.value);
      var kw := JavaTrim(keyword.value);
      if kw == [] then books.Keys else FindByKeyword(books, kw)
  }

  /** The service object; its methods run each step against the database in place. */
  class BookService {
    const db: Database

    constructor (db: Database)
      ensures this.db == db
    {
      this.db := db;
    }

    method SaveBook(b: BookEntity.BookRow, newId: int) returns (r: Result<BookEntity.BookRow, BookError>)
      requires Valid(db.T()) && newId !in db.books
      modifies db
      ensures Step(db.T(), r) == SaveBookStep(old(db.T()), b, newId)
    {
      if b.isbn.Some? && FindBookByIsbn(db.T(), b.isbn.value).Some? {
        return Err(DuplicateIsbn);
      }
      var row := b.(id := newId);
      db.books := db.books[newId := row];
      r := Ok(row);
    }

    method UpdateBookCopies(id: int, newTotal: int) returns (r: Result<BookEntity.BookRow, BookError>)
      modifies db
      ensures Step(db.T(), r) == UpdateBookCopiesStep(old(db.T()), id, newTotal)
    {
      if id !in db.books {
        return Err(NoSuchBook);
      }
      var book := db.books[id];
      if newTotal < 0 {
        return Err(NegativeTotal);
      }
      var loaned := book.totalCopies - book.availableCopies;
      if newTotal < loaned {
        return Err(BelowLoaned(loaned));
      }
      book := book.(totalCopies := newTotal, availableCopies := newTotal - loaned);
      db.books := db.books[id := book];
      r := Ok(book);
    }

    method UpdateBook(id: int, f: BookForm) returns (r: Result<BookEntity.BookRow, BookError>)
      requires Valid(db.T())
      modifies db
      ensures Step(db.T(), r) == UpdateBookStep(old(db.T()), id, f)
    {
      if id !in db.books {
        return Err(NoSuchBook);
      }
      var existing := db.books[id];
      if f.isbn.Some? && f.isbn != existing.isbn && FindBookByIsbn(db.T(), f.isbn.value).Some? {
        return Err(DuplicateIsbn);
      }
      var before := db.T();
      db.books := db.books[id := WithForm(existing, f)];
      if f.totalCopies.Some? {
        var copies := UpdateBookCopies(id, f.totalCopies.value);
        if copies.Err? {
          db.Commit(before);  // the exception rolls the transaction back
          return Err(copies.error);
        }
      }
      r := Ok(db.books[id]);
    }

    method DeleteBook(id: int) returns (r: Result<(), BookError>)
      modifies db
      ensures Step(db.T(), r) == DeleteBookStep(old(db.T()), id)
    {
      if id !in db.books {
        return Err(NoSuchBook);
      }
      var book := db.books[id];
      if book.availableCopies < book.totalCopies {
        return Err(CopiesOnLoan);
      }
      if LoanRepository.ExistsByBookId(db.loans, id) {
        return Err(ReferencedByLoans);
      }
      db.books := db.books - {id};
      r := Ok(());
    }
  }
}
