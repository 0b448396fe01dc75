/**
 * The `Loan` entity: one book lent to one member, with its due date, return
 * date, status, overdue fee (100 won per day late) and free-text notes.
 * Dates are epoch days; `today` is the value `LocalDate.now()` returns.
 */
module LoanEntity {
  import opened Wrappers
  import opened Dates
  import BookEntity

  datatype LoanStatus = ACTIVE | RETURNED | OVERDUE | LOST

  /** A row of the `loans` table; `book` and `member` are the foreign keys (nullable). */
  datatype LoanRow = LoanRow(
    id: int,
    book: Option<int>,
    member: Option<int>,
    loanDate: int,
    dueDate: int,
    returnDate: Option<int>,
    status: LoanStatus,
    overdueFee: int,
    notes: Option<string>)

  const LoanPeriodDays := 14
  const ExtensionDays := 7
  const FeePerDay := 100

  const IntMin := -0x8000_0000
  const IntMax := 0x7FFF_FFFF
  const TwoTo32 := 0x1_0000_0000

  /** Java's narrowing cast `(int)` from `long`: keeps the low 32 bits, two's complement. */
  function ToInt32(x: int): (r: int)
    ensures IntMin <= r <= IntMax
    ensures (x - r) % TwoTo32 == 0
    ensures IntMin <= x <= IntMax ==> r == x
  {
    var m := x % TwoTo32;
    if m > IntMax then m - TwoTo32 else m
  }

  /** A fresh loan as `Loan.builder()` fills it in: due two weeks after `today`, active, no fee. */
  function NewLoan(id: int, book: Option<int>, member: Option<int>, today: int): (l: LoanRow)
    ensures l.loanDate == today && l.dueDate == today + LoanPeriodDays
    ensures l.status == ACTIVE && l.overdueFee == 0
    ensures l.returnDate.None? && l.notes.None?
    ensures l.id == id && l.book == book && l.member == member
  {
    LoanRow(id, book, member, today, today + LoanPeriodDays, None, ACTIVE, 0, None)
  }

  /** The date lateness is measured at: the return date, or today while the book is out. */
  function CheckDate(l: LoanRow, today: int): int
  {
    l.returnDate.GetOr(today)
  }

  /** `getOverdueDays`: whole days from the due date to the check date, never negative. */
  function OverdueDays(l: LoanRow, today: int): (d: int)
    ensures d >= 0
    ensures d > 0 <==> CheckDate(l, today) > l.dueDate
    ensures d > 0 ==> l.dueDate + d == CheckDate(l, today)
  {
    var c := CheckDate(l, today);
    if c > l.dueDate then c - l.dueDate else 0
  }

  /** `calculateOverdueFee`: 100 per overdue day, cast to a 32-bit `int`. */
  function OverdueFee(l: LoanRow, today: int): (fee: int)
    ensures IntMin <= fee <= IntMax
    ensures FeePerDay * OverdueDays(l, today) <= IntMax ==> fee == FeePerDay * OverdueDays(l, today)
    ensures OverdueDays(l, today) == 0 ==> fee == 0
  {
    ToInt32(OverdueDays(l, today) * FeePerDay)
  }

  /** The fee of a late loan stays a positive multiple of 100 for any lateness below 21474837 days. */
  lemma FeeIsPositiveWhenLate(l: LoanRow, today: int)
    requires CheckDate(l, today) > l.dueDate
    requires OverdueDays(l, today) <= IntMax / FeePerDay
    ensures OverdueFee(l, today) > 0 && OverdueFee(l, today) % FeePerDay == 0
  {
  }

  /** Past this many days the cast wraps and the fee turns negative. */
  lemma FeeWrapsPastIntRange(l: LoanRow, today: int)
    requires l.returnDate.None? && today == l.dueDate + IntMax / FeePerDay + 1
    ensures OverdueFee(l, today) < 0
  {
  }

  /** `isOverdue`: still active and past the due date (the return date plays no part). */
  predicate IsOverdue(l: LoanRow, today: int)
    ensures l.returnDate.None? ==> (IsOverdue(l, today) <==> l.status == ACTIVE && OverdueDays(l, today) > 0)
  {
    l.status == ACTIVE && today > l.dueDate
  }

  /** Appends an entry to the notes, separated by `" | "` when there were notes already. */
  function AppendNote(notes: Option<string>, entry: string): (r: string)
    ensures notes.None? ==> r == entry
    ensures notes.Some? ==> |r| == |notes.value| + 3 + |entry| && r[..|notes.value|] == notes.value
    ensures notes.Some? ==> r[|notes.value|..|notes.value| + 3] == " | "
    ensures r[|r| - |entry|..] == entry
  {
    if notes.Some? then notes.value + " | " + entry else entry
  }

  const LostNote := "분실 처리됨 - "
  const ExtendedNote := "대출연장 - "

  /**
   * `returnBook` on the loan's own fields: the return date becomes today, the fee
   * is charged up to today, and the status becomes OVERDUE when the loan was
   * still active past its due date, RETURNED otherwise.
   */
  function Returned(l: LoanRow, today: int): (r: LoanRow)
    ensures r.returnDate == Some(today)
    ensures r.overdueFee == OverdueFee(r, today)
    ensures r.status == OVERDUE <==> (l.status == ACTIVE && today > l.dueDate)
    ensures r.status != OVERDUE ==> r.status == RETURNED
    ensures r.(returnDate := l.returnDate, overdueFee := l.overdueFee, status := l.status) == l
  {
    var withDate := l.(returnDate := Some(today));
    withDate.(overdueFee := OverdueFee(withDate, today),
              status := if IsOverdue(withDate, today) then OVERDUE else RETURNED)
  }

  /** `markAsLost`: status LOST, fee recomputed, and a dated note appended. */
  function MarkedLost(l: LoanRow, today: int): (r: LoanRow)
    ensures r.status == LOST
    ensures r.overdueFee == OverdueFee(l, today)
    ensures r.notes.Some? && r.notes.value == AppendNote(l.notes, LostNote + IsoText(today))
    ensures r.(status := l.status, overdueFee := l.overdueFee, notes := l.notes) == l
  {
    l.(status := LOST, overdueFee := OverdueFee(l, today),
       notes := Some(AppendNote(l.notes, LostNote + IsoText(today))))
  }

  /** `markAsOverdue`: an active loan past its due date becomes OVERDUE with its fee charged; any other loan is untouched. */
  function MarkedOverdue(l: LoanRow, today: int): (r: LoanRow)
    ensures IsOverdue(l, today) ==> r == l.(status := OVERDUE, overdueFee := OverdueFee(l, today))
    ensures !IsOverdue(l, today) ==> r == l
  {
    if l.status == ACTIVE && IsOverdue(l, today) then
      l.(status := OVERDUE, overdueFee := OverdueFee(l, today))
    else l
  }

  /**
   * `extendLoan`: an active loan that is not yet overdue gets seven more days and a
   * dated note; `None` is the `false` answer, which changes nothing.
   */
  function Extended(l: LoanRow, today: int): (r: Option<LoanRow>)
    ensures r.Some? <==> l.status == ACTIVE && today <= l.dueDate
    ensures r.Some? ==> r.value.dueDate == l.dueDate + ExtensionDays
    ensures r.Some? ==> r.value.notes == Some(AppendNote(l.notes, ExtendedNote + IsoText(today)))
    ensures r.Some? ==> r.value.(dueDate := l.dueDate, notes := l.notes) == l
  {
    if l.status == ACTIVE && !IsOverdue(l, today) then
      Some(l.(dueDate := l.dueDate + ExtensionDays,
              notes := Some(AppendNote(l.notes, ExtendedNote + IsoText(today)))))
    else None
  }

  /** Returning a loan on or before its due date closes it with no fee. */
  lemma OnTimeReturnIsFree(l: LoanRow, today: int)
    requires today <= l.dueDate
    ensures Returned(l, today).status == RETURNED
    ensures Returned(l, today).overdueFee == 0
  {
  }

  /** Returning an active loan after its due date leaves it OVERDUE, carrying the fee for the late days. */
  lemma LateReturnKeepsOverdueStatus(l: LoanRow, today: int)
    requires l.status == ACTIVE && today > l.dueDate
    requires today - l.dueDate <= IntMax / FeePerDay
    ensures Returned(l, today).status == OVERDUE
    ensures Returned(l, today).overdueFee == FeePerDay * (today - l.dueDate)
  {
  }

  /** Marking overdue is idempotent, and a loan it marks can no longer be extended. */
  lemma MarkOverdueIdempotent(l: LoanRow, today: int)
    ensures MarkedOverdue(MarkedOverdue(l, today), today) == MarkedOverdue(l, today)
    ensures IsOverdue(l, today) ==> Extended(MarkedOverdue(l, today), today).None?
  {
  }

  /** An extension keeps the loan active and not overdue for seven further days. */
  lemma ExtensionPostponesOverdue(l: LoanRow, today: int, later: int)
    requires Extended(l, today).Some?
    requires later <= l.dueDate + ExtensionDays
    ensures !IsOverdue(Extended(l, today).value, later)
  {
  }

  /** A new loan is not overdue during its first fourteen days and owes nothing when returned in them. */
  lemma NewLoanGracePeriod(id: int, book: Option<int>, member: Option<int>, today: int, day: int)
    requires today <= day <= today + LoanPeriodDays
    ensures !IsOverdue(NewLoan(id, book, member, today), day)
    ensures Returned(NewLoan(id, book, member, today), day).status == RETURNED
    ensures Returned(NewLoan(id, book, member, today), day).overdueFee == 0
  {
  }

  /** The JPA entity object; `book` is the lazily loaded `Book` it refers to. */
  class Loan {
    const id: int
    var book: BookEntity.Book?
    var member: Option<int>
    var loanDate: int
    var dueDate: int
    var returnDate: Option<int>
    var status: LoanStatus
    var overdueFee: int
    var notes: Option<string>

    function Row(): LoanRow
      reads this
    {
      LoanRow(id, if book == null then None else Some(book.id), member, loanDate, dueDate,
              returnDate, status, overdueFee, notes)
    }

    /** `Loan.builder().book(b).member(m).build()` with the field defaults of a new loan. */
    constructor (id: int, book: BookEntity.Book?, member: Option<int>, today: int)
      ensures Row() == NewLoan(id, if book == null then None else Some(book.id), member, today)
      ensures this.book == book
    {
      this.id := id;
      this.book := book;
      this.member := member;
      loanDate := today;
      dueDate := today + LoanPeriodDays;
      returnDate := None;
      status := ACTIVE;
      overdueFee := 0;
      notes := None;
    }

    /** `returnBook()`: closes the loan and puts the copy back on the book's shelf. */
    method ReturnBook(today: int)
      modifies this, book
      ensures Row() == Returned(old(Row()), today)
      ensures book == old(book)
      ensures book != null ==> book.Row() == BookEntity.ReturnCopy(old(book.Row()))
    {
      returnDate := Some(today);
      overdueFee := OverdueFee(Row(), today);
      if status == ACTIVE && today > dueDate {
        status := OVERDUE;
      } else {
        status := RETURNED;
      }
      if book != null {
        book.ReturnBook();
      }
    }

    /** `markAsLost()`. */
    method MarkAsLost(today: int)
      modifies this
      ensures Row() == MarkedLost(old(Row()), today)
    {
      status := LOST;
      overdueFee := OverdueFee(Row(), today);
      notes := Some(AppendNote(notes, LostNote + IsoText(today)));
    }

    /** `markAsOverdue()`. */
    method MarkAsOverdue(today: int)
      modifies this
      ensures Row() == MarkedOverdue(old(Row()), today)
    {
      if status == ACTIVE && IsOverdue(Row(), today) {
        status := OVERDUE;
        overdueFee := OverdueFee(Row(), today);
      }
    }

    /** `extendLoan()`: answers whether the loan was extended. */
    method ExtendLoan(today: int) returns (extended: bool)
      modifies this
      ensures extended <==> Extended(old(Row()), today).Some?
      ensures extended ==> Row() == Extended(old(Row()), today).value
      ensures !extended ==> Row() == old(Row())
    {
      if status == ACTIVE && !IsOverdue(Row(), today) {
        dueDate := dueDate + ExtensionDays;
        notes := Some(AppendNote(notes, ExtendedNote + IsoText(today)));
        extended := true;
      } else {
        extended := false;
      }
    }
  }
}
