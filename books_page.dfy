/**
 * The book management page. Loading asks the server, but searching still
 * filters the built-in sample list, and adding, editing and deleting change
 * only the page's copy.
 */
module BooksPage {
  import opened Wrappers
  import opened Text
  import opened ClientTypes
  import Lists
  import Utils
  import BookEntity

  /** `mockBooks`. */
  const MockBooks: seq<Book> := [
    Book(1, "클린 코드", "로버트 마틴", "9788966260959", 5, 3, Some("프로그래밍"), Some("2013-12-24")),
    Book(2, "이펙티브 자바", "조슈아 블로크", "9788966262281", 3, 1, Some("프로그래밍"), Some("2018-11-01")),
    Book(3, "Spring Boot 실전 가이드", "김영한", "9788966263158", 4, 4, Some("프레임워크"), Some("2022-03-15")),
    Book(4, "React 완벽 가이드", "김민준", "9788966263789", 2, 0, Some("프론트엔드"), Some("2023-06-20")),
    Book(5, "TypeScript 핸드북", "마이크로소프트", "9788966264125", 3, 2, Some("프로그래밍"), Some("2023-09-10"))
  ]

  // ----- handleSearch -----

  /** The search test: title and author ignoring case, ISBN as typed. */
  predicate Matches(value: string, b: Book)
  {
    IncludesIgnoringCase(b.title, value) || IncludesIgnoringCase(b.author, value) || Includes(b.isbn, value)
  }

  function MatchesValue(value: string): Book -> bool
  {
    b => Matches(value, b)
  }

  /** What a search for a non-blank `value` shows: the matching sample books. */
  function SearchResult(value: string): seq<Book>
  {
    Lists.Filter(MockBooks, MatchesValue(value))
  }

  /**
   * A non-blank search shows exactly the matching sample books in sample
   * order, whatever the server had sent: the loaded books are never searched.
   */
  lemma SearchReadsOnlySamples(value: string)
    ensures Lists.IsSubsequence(SearchResult(value), MockBooks)
    ensures forall b :: b in SearchResult(value) <==> b in MockBooks && Matches(value, b)
  {
    Lists.FilterKeepsExactlyPassing(MockBooks, MatchesValue(value));
  }

  /** Title and author matching ignores the case of what is typed. */
  lemma SearchIgnoresCaseOfTitleAndAuthor(value: string, b: Book)
    ensures IncludesIgnoringCase(b.title, value) == IncludesIgnoringCase(b.title, ToLower(value))
    ensures IncludesIgnoringCase(b.author, value) == IncludesIgnoringCase(b.author, ToLower(value))
  {
    IncludesIgnoringCaseIgnoresCase(b.title, value);
    IncludesIgnoringCaseIgnoresCase(b.author, value);
  }

  // ----- the form -----

  /** The modal's fields. */
  datatype BookForm = BookForm(
    title: string, author: string, isbn: string, totalCopies: int,
    category: Option<string>, publishedDate: Option<string>)

  predicate IsbnChar(c: char) { IsDigit(c) || c == '-' }

  /** `/^[\d-]+$/`, the ISBN field's pattern. */
  predicate IsbnRule(isbn: string)
  {
    |isbn| > 0 && forall i :: 0 <= i < |isbn| ==> IsbnChar(isbn[i])
  }

  /** The form validates: title, author and ISBN given, the ISBN pattern met, and at least one copy. */
  predicate FormAccepts(values: BookForm)
  {
    values.title != "" && values.author != "" && IsbnRule(values.isbn) && values.totalCopies >= 1
  }

  /**
   * The form's ISBN rule checks the characters only: within it, the shared
   * `isValidISBN` check comes down to ten or thirteen digits, and a lone
   * hyphen passes the form but not that check.
   */
  lemma IsbnRuleIgnoresLength(isbn: string)
    requires IsbnRule(isbn)
    ensures Utils.IsValidIsbn(isbn) <==> |Remove(isbn, IsDigitFree)| == 10 || |Remove(isbn, IsDigitFree)| == 13
    ensures IsbnRule("-") && !Utils.IsValidIsbn("-")
  {
    SameRemoval(isbn);
    assert Remove("-", Utils.IsbnSeparator) == [];
  }

  predicate IsDigitFree(c: char) { !IsDigit(c) }

  lemma {:induction false} SameRemoval(isbn: string)
    requires forall i :: 0 <= i < |isbn| ==> IsbnChar(isbn[i])
    ensures Remove(isbn, Utils.IsbnSeparator) == Remove(isbn, IsDigitFree)
  {
    if isbn != [] {
      SameRemoval(isbn[1..]);
    }
  }

  /** `{ ...book, ...values, updatedAt }`: the form's fields replace the book's; the shelf count is kept. */
  function Merge(b: Book, values: BookForm): (r: Book)
    ensures r.id == b.id && r.availableCopies == b.availableCopies
    ensures r.title == values.title && r.author == values.author && r.isbn == values.isbn
    ensures r.totalCopies == values.totalCopies
    ensures r.category == values.category && r.publishedDate == values.publishedDate
  {
    b.(title := values.title, author := values.author, isbn := values.isbn, totalCopies := values.totalCopies,
       category := values.category, publishedDate := values.publishedDate)
  }

  function MergeWith(values: BookForm): Book -> Book
  {
    b => Merge(b, values)
  }

  /**
   * Editing does not recompute the shelf count: lowering the copies owned
   * below the copies on the shelf leaves more on the shelf than exist.
   */
  lemma EditCanOverstock(b: Book, values: BookForm)
    requires 0 <= b.availableCopies <= b.totalCopies
    requires FormAccepts(values) && values.totalCopies < b.availableCopies
    ensures Merge(b, values).availableCopies > Merge(b, values).totalCopies
  {
  }

  /** The book `handleModalOk` appends, with the intended id rule (`1` on an empty page). */
  function NewBook(books: seq<Book>, values: BookForm): (b: Book)
    ensures forall i :: 0 <= i < |books| ==> books[i].id < b.id
    ensures b.availableCopies == b.totalCopies == values.totalCopies
    ensures b.title == values.title && b.author == values.author && b.isbn == values.isbn
    ensures b.category == values.category && b.publishedDate == values.publishedDate
  {
    var ids := seq(|books|, i requires 0 <= i < |books| => books[i].id);
    assert forall i :: 0 <= i < |books| ==> books[i].id in ids by {
      forall i | 0 <= i < |books| ensures books[i].id in ids { assert ids[i] == books[i].id; }
    }
    Book(Lists.NextId(ids), values.title, values.author, values.isbn, values.totalCopies,
         values.totalCopies, values.category, values.publishedDate)
  }

  /** A book added through a validated form has all its copies on the shelf, at least one. */
  lemma NewBookIsFullyStocked(books: seq<Book>, values: BookForm)
    requires FormAccepts(values)
    ensures var b := NewBook(books, values);
            1 <= b.availableCopies && b.availableCopies == b.totalCopies
  {
  }

  // ----- the table -----

  /** The availability tag's colour. */
  function TagColor(b: Book): string
  {
    if b.availableCopies > 0 then "green" else "red"
  }

  /** The tag is green exactly when the server could lend a copy of the book it shows. */
  lemma GreenTagIffLendable(b: Book, row: BookEntity.BookRow)
    requires b.availableCopies == row.availableCopies
    ensures TagColor(b) == "green" <==> BookEntity.LoanCopy(row).Some?
    ensures TagColor(b) == "red" <==> BookEntity.LoanCopy(row).None?
  {
  }

  /** The page's list of books. */
  class Page {
    var books: seq<Book>

    constructor ()
      ensures books == []
    {
      books := [];
    }

    /** `loadBooks` once the server answered with `loaded`. */
    method Load(loaded: seq<Book>)
      modifies this
      ensures books == loaded
    {
      books := loaded;
    }

    /** `handleSearch(value)`: a blank box reloads from the server, anything else searches the samples. */
    method Search(value: string, loaded: seq<Book>)
      modifies this
      ensures IsJsBlank(value) ==> books == loaded
      ensures !IsJsBlank(value) ==> books == SearchResult(value)
    {
      if IsJsBlank(value) {
        books := loaded;
      } else {
        books := Lists.Filter(MockBooks, MatchesValue(value));
      }
    }

    /** `handleDelete(id)`: the books with that id go, the others stay in order. */
    method Delete(id: int)
      modifies this
      ensures books == Lists.Filter(old(books), BookWithOtherId(id))
      ensures forall b :: b in books <==> b in old(books) && b.id != id
    {
      Lists.FilterKeepsExactlyPassing(books, BookWithOtherId(id));
      books := Lists.Filter(books, BookWithOtherId(id));
    }

    /** `handleModalOk` while editing `id`. */
    method Edit(id: int, values: BookForm)
      modifies this
      ensures books == Lists.MapWhere(old(books), BookWithId(id), MergeWith(values))
    {
      books := Lists.MapWhere(books, BookWithId(id), MergeWith(values));
    }

    /** `handleModalOk` while adding. */
    method Add(values: BookForm)
      modifies this
      ensures books == old(books) + [NewBook(old(books), values)]
    {
      books := books + [NewBook(books, values)];
    }
  }

  /** Editing changes only the book with that id. */
  lemma EditChangesOnlyThatBook(books: seq<Book>, id: int, values: BookForm)
    ensures var r := Lists.MapWhere(books, BookWithId(id), MergeWith(values));
            && |r| == |books|
            && (forall i :: 0 <= i < |books| && books[i].id != id ==> r[i] == books[i])
            && (forall i :: 0 <= i < |books| && books[i].id == id ==> r[i] == Merge(books[i], values))
  {
  }
}
