/** The `Book` entity: a catalogue entry with a count of copies owned and copies on the shelf. */
module BookEntity {
  import opened Wrappers

  /** A row of the `books` table (dates are epoch days). */
  datatype BookRow = BookRow(
    id: int,
    title: string,
    author: string,
    isbn: Option<string>,
    category: Option<string>,
    publisher: Option<string>,
    publishedDate: Option<int>,
    description: Option<string>,
    totalCopies: int,
    availableCopies: int)

  /** Copies currently lent out. */
  function LoanedCopies(b: BookRow): int
  {
    b.totalCopies - b.availableCopies
  }

  /** The shelf count lies between zero and the number of copies owned. */
  predicate StockValid(b: BookRow)
  {
    0 <= b.availableCopies <= b.totalCopies
  }

  /** `loanBook`: one copy leaves the shelf; with none on the shelf the call fails and nothing changes. */
  function LoanCopy(b: BookRow): (r: Option<BookRow>)
    ensures r.Some? <==> b.availableCopies > 0
    ensures r.Some? ==> r.value.availableCopies == b.availableCopies - 1
    ensures r.Some? ==> r.value.(availableCopies := b.availableCopies) == b
  {
    if b.availableCopies > 0 then Some(b.(availableCopies := b.availableCopies - 1)) else None
  }

  /** `returnBook`: one copy comes back to the shelf, but the shelf never holds more than the copies owned. */
  function ReturnCopy(b: BookRow): (r: BookRow)
    ensures r.(availableCopies := b.availableCopies) == b
    ensures r.availableCopies == b.availableCopies + 1 <==> b.availableCopies < b.totalCopies
    ensures r.availableCopies != b.availableCopies + 1 ==> r == b
  {
    if b.availableCopies < b.totalCopies then b.(availableCopies := b.availableCopies + 1) else b
  }

  /** Lending and returning keep the stock consistent. */
  lemma StockOperationsPreserveValidity(b: BookRow)
    requires StockValid(b)
    ensures LoanCopy(b).Some? ==> StockValid(LoanCopy(b).value)
    ensures StockValid(ReturnCopy(b))
  {
  }

  /** Returning the copy just lent restores the book exactly. */
  lemma LoanThenReturnRestores(b: BookRow)
    requires b.availableCopies <= b.totalCopies
    requires LoanCopy(b).Some?
    ensures ReturnCopy(LoanCopy(b).value) == b
  {
  }

  /** A second return of the same copy is absorbed only when the shelf is already full. */
  lemma ReturnAtFullShelfIsIdentity(b: BookRow)
    requires b.availableCopies >= b.totalCopies
    ensures ReturnCopy(b) == b
  {
  }

  /** The JPA entity object, whose stock counters change in place. */
  class Book {
    const id: int
    var title: string
    var author: string
    var isbn: Option<string>
    var category: Option<string>
    var publisher: Option<string>
    var publishedDate: Option<int>
    var description: Option<string>
    var totalCopies: int
    var availableCopies: int

    function Row(): BookRow
      reads this
    {
      BookRow(id, title, author, isbn, category, publisher, publishedDate, description,
              totalCopies, availableCopies)
    }

    /** `Book.builder().title(t).author(a).build()`: one copy owned, one on the shelf. */
    constructor (id: int, title: string, author: string)
      ensures Row() == BookRow(id, title, author, None, None, None, None, None, 1, 1)
      ensures StockValid(Row())
    {
      this.id := id;
      this.title := title;
      this.author := author;
      isbn := None;
      category := None;
      publisher := None;
      publishedDate := None;
      description := None;
      totalCopies := 1;
      availableCopies := 1;
    }

    /** `loanBook()`; `ok == false` is the `IllegalStateException`, which leaves the object as it was. */
    method LoanBook() returns (ok: bool)
      modifies this
      ensures ok <==> old(availableCopies) > 0
      ensures LoanCopy(old(Row())) == (if ok then Some(Row()) else None)
      ensures !ok ==> Row() == old(Row())
    {
      if availableCopies > 0 {
        availableCopies := availableCopies - 1;
        ok := true;
      } else {
        ok := false;
      }
    }

    /** `returnBook()`. */
    method ReturnBook()
      modifies this
      ensures Row() == ReturnCopy(old(Row()))
    {
      if availableCopies < totalCopies {
        availableCopies := availableCopies + 1;
      }
    }
  }
}
