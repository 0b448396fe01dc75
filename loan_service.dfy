/**
 * `LoanService`: lending, returning, extending and writing off books, the
 * overdue sweep, and the per-user loan counters.  Each state-changing
 * operation is a transition `...Step` over the tables, proved to keep the
 * table constraints and the stock invariant (`Store.StockConsistent`), and a
 * method of the `LoanService` class that performs it on the database.
 */
module LoanService {
  import opened Wrappers
  import opened Text
  import opened Store
  import BookEntity
  import LoanEntity
  import MemberEntity
  import LoanRepository

  datatype LoanError =
    | NoSuchBook                                   // the book lookup fails
    | NoSuchMember                                 // "회원을 찾을 수 없습니다."
    | NoSuchLoan                                   // "대출 정보를 찾을 수 없습니다."
    | MemberNotActive(status: MemberEntity.MemberStatus)  // "대출 불가능한 회원 상태입니다"
    | OutOfStock                                   // "대출 가능한 재고가 없습니다."
    | LimitReached(current: int, max: int)         // "대출 한도를 초과했습니다."
    | AlreadyBorrowed                              // "이미 대출 중인 도서입니다."
    | MissingBookReference                         // `loan.getBook().getId()` on a loan without a book
    | AlreadyReturned                              // "이미 반납된 대출입니다."
    | NotExtendable                                // "대출 연장이 불가능합니다."

  // ----- validateLoanEligibility -----

  /** The member's active loans that block lending `book`: the same book, or no book at all. */
  predicate BlockingLoan(loans: LoanTable, k: int, book: int)
    requires k in loans
  {
    loans[k].book == Some(book) || loans[k].book.None?
  }

  /**
   * `validateLoanEligibility`: the checks in their fixed order (member status,
   * stock, loan limit, same book already out); `None` means eligible.
   */
  function CheckEligibility(loans: LoanTable, book: BookEntity.BookRow, member: MemberEntity.MemberRow): (r: Option<LoanError>)
    ensures r.None? <==>
              && member.status == MemberEntity.ACTIVE
              && book.availableCopies > 0
              && LoanRepository.CountByMemberAndStatus(loans, member.id, LoanEntity.ACTIVE) < member.maxLoanCount
              && forall k :: k in LoanRepository.ActiveLoansByMember(loans, member.id) ==> !BlockingLoan(loans, k, book.id)
    ensures member.status != MemberEntity.ACTIVE ==> r == Some(MemberNotActive(member.status))
    ensures member.status == MemberEntity.ACTIVE && book.availableCopies <= 0 ==> r == Some(OutOfStock)
    ensures (member.status == MemberEntity.ACTIVE && book.availableCopies > 0
             && LoanRepository.CountByMemberAndStatus(loans, member.id, LoanEntity.ACTIVE) >= member.maxLoanCount)
            ==> r == Some(LimitReached(LoanRepository.CountByMemberAndStatus(loans, member.id, LoanEntity.ACTIVE),
                                       member.maxLoanCount))
  {
    var active := LoanRepository.ActiveLoansByMember(loans, member.id);
    var count := LoanRepository.CountByMemberAndStatus(loans, member.id, LoanEntity.ACTIVE);
    if member.status != MemberEntity.ACTIVE then Some(MemberNotActive(member.status))
    else if book.availableCopies <= 0 then Some(OutOfStock)
    else if count >= member.maxLoanCount then Some(LimitReached(count, member.maxLoanCount))
    else if exists k | k in active :: loans[k].book == Some(book.id) then Some(AlreadyBorrowed)
    else if exists k | k in active :: loans[k].book.None? then Some(MissingBookReference)
    else None
  }

  // ----- createLoan -----

  /** `createLoan`: look up the book and the member, check eligibility, take a copy off the shelf and record an ACTIVE loan. */
  function CreateLoanStep(t: Tables, bookId: int, memberId: int, today: int, newId: int): (s: Step<LoanEntity.LoanRow, LoanError>)
    requires newId !in t.loans
    ensures bookId !in t.books ==> s == Fail(t, NoSuchBook)
    ensures bookId in t.books && memberId !in t.members ==> s == Fail(t, NoSuchMember)
    ensures s.result.Err? ==> s.after == t
    ensures s.result.Ok? <==>
              && bookId in t.books && memberId in t.members
              && CheckEligibility(t.loans, t.books[bookId], t.members[memberId]).None?
    ensures s.result.Ok? ==>
              && s.result.value == LoanEntity.NewLoan(newId, Some(bookId), Some(memberId), today)
              && s.after.loans == t.loans[newId := s.result.value]
              && s.after.books == t.books[bookId := t.books[bookId].(availableCopies := t.books[bookId].availableCopies - 1)]
              && s.after.members == t.members && s.after.users == t.users && s.after.codes == t.codes
  {
    if bookId !in t.books then Fail(t, NoSuchBook)
    else if memberId !in t.members then Fail(t, NoSuchMember)
    else
      var book := t.books[bookId];
      var problem := CheckEligibility(t.loans, book, t.members[memberId]);
      if problem.Some? then Fail(t, problem.value)
      else
        var loan := LoanEntity.NewLoan(newId, Some(bookId), Some(memberId), today);
        var lent := BookEntity.LoanCopy(book).value;
        Step(t.(books := t.books[bookId := lent], loans := t.loans[newId := loan]), Ok(loan))
  }

  /** Outstanding loans of a book after one loan row is written (inserted or replaced). */
  lemma OutstandingAfterWrite(loans: LoanTable, k: int, l: LoanEntity.LoanRow, b: int)
    ensures Outstanding(loans[k := l], b) ==
            (Outstanding(loans, b) - {k}) + (if l.book == Some(b) && l.returnDate.None? then {k} else {})
  {
  }

  /** A write that leaves a loan's book and return date alone leaves every book's outstanding loans alone. */
  lemma OutstandingUnchanged(loans: LoanTable, k: int, l: LoanEntity.LoanRow)
    requires k in loans && l.book == loans[k].book && l.returnDate == loans[k].returnDate
    ensures forall b :: Outstanding(loans[k := l], b) == Outstanding(loans, b)
  {
    forall b ensures Outstanding(loans[k := l], b) == Outstanding(loans, b) {
      OutstandingAfterWrite(loans, k, l, b);
    }
  }

  lemma CreateLoanPreserves(t: Tables, bookId: int, memberId: int, today: int, newId: int)
    requires Valid(t) && newId !in t.loans
    ensures Valid(CreateLoanStep(t, bookId, memberId, today, newId).after)
    ensures StockConsistent(t) ==> StockConsistent(CreateLoanStep(t, bookId, memberId, today, newId).after)
  {
    var s := CreateLoanStep(t, bookId, memberId, today, newId);
    if s.result.Ok? && StockConsistent(t) {
      LendingKeepsStock(t, bookId, s.result.value);
    }
  }

  /** One copy of `bookId` off the shelf and one new outstanding loan of it keep the stock invariant. */
  lemma LendingKeepsStock(t: Tables, bookId: int, loan: LoanEntity.LoanRow)
    requires StockConsistent(t) && bookId in t.books && loan.id !in t.loans
    requires loan.book == Some(bookId) && loan.returnDate.None?
    ensures StockConsistent(t.(books := t.books[bookId := t.books[bookId].(availableCopies := t.books[bookId].availableCopies - 1)],
                               loans := t.loans[loan.id := loan]))
  {
    var books := t.books[bookId := t.books[bookId].(availableCopies := t.books[bookId].availableCopies - 1)];
    var loans := t.loans[loan.id := loan];
    forall b | b in books
      ensures BookEntity.LoanedCopies(books[b]) == |Outstanding(loans, b)|
    {
      OutstandingAfterWrite(t.loans, loan.id, loan, b);
      assert loan.id !in Outstanding(t.loans, b);
      if b == bookId {
        assert Outstanding(loans, b) == Outstanding(t.loans, b) + {loan.id};
        assert |Outstanding(loans, b)| == |Outstanding(t.loans, b)| + 1;
        assert BookEntity.LoanedCopies(books[b]) == BookEntity.LoanedCopies(t.books[b]) + 1;
      } else {
        assert Outstanding(loans, b) == Outstanding(t.loans, b);
      }
    }
  }

  /** A member never holds more ACTIVE loans through `createLoan` than the limit allows. */
  lemma CreateLoanRespectsLimit(t: Tables, bookId: int, memberId: int, today: int, newId: int)
    requires Valid(t) && newId !in t.loans
    requires CreateLoanStep(t, bookId, memberId, today, newId).result.Ok?
    ensures LoanRepository.CountByMemberAndStatus(CreateLoanStep(t, bookId, memberId, today, newId).after.loans,
                                                  memberId, LoanEntity.ACTIVE)
            <= t.members[memberId].maxLoanCount
  {
    var s := CreateLoanStep(t, bookId, memberId, today, newId);
    var before := LoanRepository.ByMemberAndStatus(t.loans, memberId, LoanEntity.ACTIVE);
    var after := LoanRepository.ByMemberAndStatus(s.after.loans, memberId, LoanEntity.ACTIVE);
    assert t.members[memberId].id == memberId;
    assert |before| < t.members[memberId].maxLoanCount;
    assert forall k :: k in after <==> k in before || k == newId;
    assert after == before + {newId};
    assert newId !in before;
  }

  // ----- returnBook -----

  /** The success path of `returnBook`: `Loan.returnBook` closes the row and puts the copy back on the shelf. */
  function ApplyReturn(t: Tables, loanId: int, today: int): (t': Tables)
    requires loanId in t.loans && LoanReferences(t)
    ensures t'.loans == t.loans[loanId := LoanEntity.Returned(t.loans[loanId], today)]
    ensures t.loans[loanId].book.None? ==> t'.books == t.books
    ensures t.loans[loanId].book.Some? ==>
              t'.books == t.books[t.loans[loanId].book.value := BookEntity.ReturnCopy(t.books[t.loans[loanId].book.value])]
    ensures t'.members == t.members && t'.users == t.users && t'.codes == t.codes
  {
    var l := t.loans[loanId];
    var books := if l.book.Some? then t.books[l.book.value := BookEntity.ReturnCopy(t.books[l.book.value])] else t.books;
    t.(books := books, loans := t.loans[loanId := LoanEntity.Returned(l, today)])
  }

  /**
   * `returnBook` as written: only a RETURNED loan is refused.  A loan returned
   * late is left OVERDUE by `Loan.returnBook`, so it can be returned again.
   */
  function ReturnBookStepAsWritten(t: Tables, loanId: int, today: int): (s: Step<LoanEntity.LoanRow, LoanError>)
    requires Valid(t)
    ensures s.result.Err? <==> loanId !in t.loans || t.loans[loanId].status == LoanEntity.RETURNED
    ensures s.result.Err? ==> s.after == t
    ensures s.result.Ok? ==> s.after == ApplyReturn(t, loanId, today)
  {
    if loanId !in t.loans then Fail(t, NoSuchLoan)
    else if t.loans[loanId].status == LoanEntity.RETURNED then Fail(t, AlreadyReturned)
    else Step(ApplyReturn(t, loanId, today), Ok(LoanEntity.Returned(t.loans[loanId], today)))
  }

  /** A loan that already has a return date has been handed back, whatever its status says. */
  predicate AlreadyHandedBack(l: LoanEntity.LoanRow)
  {
    l.status == LoanEntity.RETURNED || l.returnDate.Some?
  }

  /** `returnBook` refusing every loan that was already handed back. */
  function ReturnBookStep(t: Tables, loanId: int, today: int): (s: Step<LoanEntity.LoanRow, LoanError>)
    requires Valid(t)
    ensures s.result.Err? <==> loanId !in t.loans || AlreadyHandedBack(t.loans[loanId])
    ensures s.result.Err? ==> s.after == t
    ensures s.result.Ok? ==> s.after == ApplyReturn(t, loanId, today)
    ensures s.result.Ok? ==> s.result.value.returnDate == Some(today)
  {
    if loanId !in t.loans then Fail(t, NoSuchLoan)
    else if AlreadyHandedBack(t.loans[loanId]) then Fail(t, AlreadyReturned)
    else Step(ApplyReturn(t, loanId, today), Ok(LoanEntity.Returned(t.loans[loanId], today)))
  }

  /** The two differ only on loans that already carry a return date. */
  lemma ReturnAgreesOnUnreturned(t: Tables, loanId: int, today: int)
    requires Valid(t)
    requires loanId in t.loans ==> t.loans[loanId].returnDate.None?
    ensures ReturnBookStep(t, loanId, today) == ReturnBookStepAsWritten(t, loanId, today)
  {
  }

  lemma ReturnBookPreserves(t: Tables, loanId: int, today: int)
    requires Valid(t)
    ensures Valid(ReturnBookStep(t, loanId, today).after)
    ensures StockConsistent(t) ==> StockConsistent(ReturnBookStep(t, loanId, today).after)
  {
    var s := ReturnBookStep(t, loanId, today);
    if s.result.Ok? {
      ReturnKeepsValid(t, loanId, today);
      if StockConsistent(t) {
        ReturnKeepsStock(t, loanId, today);
      }
    }
  }

  /** Writing the return keeps every table constraint: the loan keeps its book and member. */
  lemma ReturnKeepsValid(t: Tables, loanId: int, today: int)
    requires Valid(t) && loanId in t.loans
    ensures Valid(ApplyReturn(t, loanId, today))
  {
    var t' := ApplyReturn(t, loanId, today);
    assert LoanReferences(t');
  }

  /** Returning a loan without a return date puts its copy back and takes it off the outstanding loans. */
  lemma ReturnKeepsStock(t: Tables, loanId: int, today: int)
    requires Valid(t) && StockConsistent(t) && loanId in t.loans && t.loans[loanId].returnDate.None?
    ensures StockConsistent(ApplyReturn(t, loanId, today))
  {
    var t' := ApplyReturn(t, loanId, today);
    var l := t.loans[loanId];
    var l' := LoanEntity.Returned(l, today);
    forall b | b in t'.books
      ensures BookEntity.LoanedCopies(t'.books[b]) == |Outstanding(t'.loans, b)|
    {
      OutstandingAfterWrite(t.loans, loanId, l', b);
      if l.book == Some(b) {
        assert loanId in Outstanding(t.loans, b);
        assert Outstanding(t'.loans, b) == Outstanding(t.loans, b) - {loanId};
      } else {
        assert Outstanding(t'.loans, b) == Outstanding(t.loans, b);
      }
    }
  }

  /** Two copies, both lent; the first loan is returned late on day 20. */
  function DoubleReturnExample(): Tables
  {
    var book := BookEntity.BookRow(1, "Dafny", "Leino", None, None, None, None, None, 2, 0);
    var member := MemberEntity.MemberRow(1, "M20250101001", "Reader", "reader@example.com", None, None,
                                         0, MemberEntity.ACTIVE, 5);
    var first := LoanEntity.NewLoan(1, Some(1), Some(1), 0);
    var second := LoanEntity.NewLoan(2, Some(1), Some(1), 0);
    Tables(map[1 := book], map[1 := member], map[], map[1 := first, 2 := second], map[])
  }

  lemma DoubleReturnExampleValid()
    ensures Valid(DoubleReturnExample()) && StockConsistent(DoubleReturnExample())
  {
    var t := DoubleReturnExample();
    DoubleReturnTablesValid();
    assert Outstanding(t.loans, 1) == {1, 2};
  }

  /** The example's rows satisfy the keys, unique columns and foreign keys. */
  lemma DoubleReturnTablesValid()
    ensures Valid(DoubleReturnExample())
  {
  }

  /** The first return, on day 20, is late: the loan stays OVERDUE but gets a return date, and one copy is back. */
  lemma FirstReturnIsLate()
    ensures var once := ReturnBookStepAsWritten(DoubleReturnExample(), 1, 20);
            && once.result.Ok? && once.result.value.status == LoanEntity.OVERDUE
            && once.result.value.returnDate == Some(20)
            && once.after.books[1].availableCopies == 1
            && once.after.loans[1].status == LoanEntity.OVERDUE
            && Valid(once.after) && StockConsistent(once.after)
  {
    var t := DoubleReturnExample();
    var l := t.loans[1];
    assert l.status == LoanEntity.ACTIVE && l.dueDate == LoanEntity.LoanPeriodDays && 20 > l.dueDate;
    assert LoanEntity.Returned(l, 20).status == LoanEntity.OVERDUE;
    var once := ReturnBookStepAsWritten(t, 1, 20);
    assert once.after == ApplyReturn(t, 1, 20);
    assert once.after.books[1] == BookEntity.ReturnCopy(t.books[1]);
    FirstReturnKeepsInvariants();
  }

  /** The first return keeps the tables valid and the stock consistent. */
  lemma FirstReturnKeepsInvariants()
    ensures var once := ReturnBookStepAsWritten(DoubleReturnExample(), 1, 20);
            Valid(once.after) && StockConsistent(once.after)
  {
    var t := DoubleReturnExample();
    DoubleReturnExampleValid();
    ReturnAgreesOnUnreturned(t, 1, 20);
    ReturnBookPreserves(t, 1, 20);
  }

  /**
   * Returning the late loan a second time is accepted as written and puts a
   * copy on the shelf that never came back: both copies show as available
   * while the second loan is still out.  The corrected step refuses it.
   */
  lemma DoubleReturnBreaksStock()
    ensures var once := ReturnBookStepAsWritten(DoubleReturnExample(), 1, 20);
            && Valid(once.after)
            && var twice := ReturnBookStepAsWritten(once.after, 1, 21);
               && twice.result.Ok?
               && twice.after.books[1].availableCopies == 2
               && !StockConsistent(twice.after)
               && ReturnBookStep(once.after, 1, 21).result == Err(AlreadyReturned)
  {
    FirstReturnIsLate();
    var once := ReturnBookStepAsWritten(DoubleReturnExample(), 1, 20);
    var twice := ReturnBookStepAsWritten(once.after, 1, 21);
    assert 2 in Outstanding(twice.after.loans, 1);
    assert |Outstanding(twice.after.loans, 1)| >= 1;
  }

  // ----- extendLoan -----

  /** `extendLoan`: an active loan not yet due gets seven more days; otherwise the call fails. */
  function ExtendLoanStep(t: Tables, loanId: int, today: int): (s: Step<LoanEntity.LoanRow, LoanError>)
    ensures s.result.Err? <==> loanId !in t.loans || LoanEntity.Extended(t.loans[loanId], today).None?
    ensures s.result.Err? ==> s.after == t
    ensures s.result.Ok? ==>
              && s.result.value.dueDate == t.loans[loanId].dueDate + LoanEntity.ExtensionDays
              && s.after == t.(loans := t.loans[loanId := s.result.value])
  {
    if loanId !in t.loans then Fail(t, NoSuchLoan)
    else
      var e := LoanEntity.Extended(t.loans[loanId], today);
      if e.None? then Fail(t, NotExtendable) else Step(t.(loans := t.loans[loanId := e.value]), Ok(e.value))
  }

  lemma ExtendLoanPreserves(t: Tables, loanId: int, today: int)
    requires Valid(t)
    ensures Valid(ExtendLoanStep(t, loanId, today).after)
    ensures StockConsistent(t) ==> StockConsistent(ExtendLoanStep(t, loanId, today).after)
  {
    var s := ExtendLoanStep(t, loanId, today);
    if s.result.Ok? {
      OutstandingUnchanged(t.loans, loanId, s.result.value);
    }
  }

  // ----- markAsLost -----

  const ReasonNote := " | 분실사유: "

  /** `markAsLost`: `Loan.markAsLost`, then a reason that is present and not blank is appended to the notes. */
  function MarkAsLostStep(t: Tables, loanId: int, reason: Option<string>, today: int): (s: Step<LoanEntity.LoanRow, LoanError>)
    ensures s.result.Err? <==> loanId !in t.loans
    ensures s.result.Err? ==> s.after == t
    ensures s.result.Ok? ==>
              && s.result.value.status == LoanEntity.LOST
              && s.after == t.(loans := t.loans[loanId := s.result.value])
              && s.result.value.(notes := t.loans[loanId].notes, status := t.loans[loanId].status,
                                 overdueFee := t.loans[loanId].overdueFee) == t.loans[loanId]
    ensures s.result.Ok? && (reason.None? || IsJavaBlank(reason.value)) ==>
              s.result.value == LoanEntity.MarkedLost(t.loans[loanId], today)
    ensures s.result.Ok? && reason.Some? && !IsJavaBlank(reason.value) ==>
              s.result.value.notes == Some(LoanEntity.MarkedLost(t.loans[loanId], today).notes.value + ReasonNote + reason.value)
  {
    if loanId !in t.loans then Fail(t, NoSuchLoan)
    else
      var lost := LoanEntity.MarkedLost(t.loans[loanId], today);
      var l := if reason.Some? && JavaTrim(reason.value) != [] then
                 lost.(notes := Some(lost.notes.value + ReasonNote + reason.value))
               else lost;
      JavaTrimEmpty(if reason.Some? then reason.value else []);
      Step(t.(loans := t.loans[loanId := l]), Ok(l))
  }

  /** A lost copy stays counted as out: writing a loan off changes no book's outstanding loans. */
  lemma MarkAsLostPreserves(t: Tables, loanId: int, reason: Option<string>, today: int)
    requires Valid(t)
    ensures Valid(MarkAsLostStep(t, loanId, reason, today).after)
    ensures StockConsistent(t) ==> StockConsistent(MarkAsLostStep(t, loanId, reason, today).after)
  {
    var s := MarkAsLostStep(t, loanId, reason, today);
    if s.result.Ok? {
      OutstandingUnchanged(t.loans, loanId, s.result.value);
    }
  }

  // ----- updateOverdueStatus -----

  /** Every loan after `markAsOverdue`: the overdue ones are marked, the rest are untouched. */
  function SweptOverdue(loans: LoanTable, today: int): (r: LoanTable)
    ensures r.Keys == loans.Keys
    ensures forall k :: k in r ==> r[k] == LoanEntity.MarkedOverdue(loans[k], today)
  {
    map k | k in loans :: LoanEntity.MarkedOverdue(loans[k], today)
  }

  /** After the sweep `findOverdueLoans(today)` finds nothing, and the stock invariant still holds. */
  lemma SweepLeavesNoOverdue(t: Tables, today: int)
    ensures forall k :: k !in LoanRepository.FindOverdueLoans(SweptOverdue(t.loans, today), today)
    ensures Valid(t) ==> Valid(t.(loans := SweptOverdue(t.loans, today)))
    ensures StockConsistent(t) ==> StockConsistent(t.(loans := SweptOverdue(t.loans, today)))
  {
    var swept := SweptOverdue(t.loans, today);
    forall b ensures Outstanding(swept, b) == Outstanding(t.loans, b) {
      assert forall k :: k in swept ==> swept[k].book == t.loans[k].book && swept[k].returnDate == t.loans[k].returnDate;
    }
  }

  // ----- counters by user id (failures of the lookups answer 0 or an empty list) -----

  /** The member whose e-mail is the user's, when both exist. */
  function MemberOfUser(t: Tables, userId: int): (r: Option<int>)
    requires Valid(t)
    ensures r.Some? ==> userId in t.users && r.value in t.members && t.members[r.value].email == t.users[userId].email
    ensures r.None? ==> userId !in t.users || forall k :: k in t.members ==> t.members[k].email != t.users[userId].email
  {
    if userId !in t.users then None else FindMemberByEmail(t, t.users[userId].email)
  }

  /** `getActiveLoansByUserId`. */
  function ActiveLoansByUserId(t: Tables, userId: int): (n: nat)
    requires Valid(t)
    ensures MemberOfUser(t, userId).None? ==> n == 0
    ensures MemberOfUser(t, userId).Some? ==>
              n == |set k | k in t.loans && t.loans[k].member == MemberOfUser(t, userId) && t.loans[k].status == LoanEntity.ACTIVE|
  {
    var m := MemberOfUser(t, userId);
    if m.None? then 0 else LoanRepository.CountByMemberAndStatus(t.loans, m.value, LoanEntity.ACTIVE)
  }

  /** `getOverdueLoansByUserId`: the member's ACTIVE loans due before today. */
  function OverdueLoansByUserId(t: Tables, userId: int, today: int): (n: nat)
    requires Valid(t)
    ensures MemberOfUser(t, userId).None? ==> n == 0
    ensures MemberOfUser(t, userId).Some? ==>
              n == |set k | k in t.loans && t.loans[k].member == MemberOfUser(t, userId) && t.loans[k].status == LoanEntity.ACTIVE
                            && t.loans[k].dueDate < today|
  {
    var m := MemberOfUser(t, userId);
    if m.None? then 0
    else
      var overdue := set k | k in LoanRepository.ActiveLoansByMember(t.loans, m.value) && t.loans[k].dueDate < today;
      assert overdue == set k | k in t.loans && t.loans[k].member == m && t.loans[k].status == LoanEntity.ACTIVE
                                 && t.loans[k].dueDate < today;
      |overdue|
  }

  /** `getTotalLoansByUserId`. */
  function TotalLoansByUserId(t: Tables, userId: int): (n: nat)
    requires Valid(t)
    ensures MemberOfUser(t, userId).None? ==> n == 0
    ensures MemberOfUser(t, userId).Some? ==> n == |set k | k in t.loans && t.loans[k].member == MemberOfUser(t, userId)|
  {
    var m := MemberOfUser(t, userId);
    if m.None? then 0 else |LoanRepository.LoansOfMember(t.loans, m.value)|
  }

  lemma {:induction false} SubsetCardinality(a: set<int>, b: set<int>)
    requires a <= b
    ensures |a| <= |b|
    decreases |b|
  {
    if a != {} {
      var k := MaxOf(a);
      SubsetCardinality(a - {k}, b - {k});
    }
  }

  /** Overdue loans are among the active ones, and active ones among all: the three counters are ordered. */
  lemma CountersOrdered(t: Tables, userId: int, today: int)
    requires Valid(t)
    ensures OverdueLoansByUserId(t, userId, today) <= ActiveLoansByUserId(t, userId)
    ensures ActiveLoansByUserId(t, userId) <= TotalLoansByUserId(t, userId)
    ensures MemberOfUser(t, userId).Some? ==>
              OverdueLoansByUserId(t, userId, today)
              == |set k | k in LoanRepository.FindOverdueLoans(t.loans, today) && t.loans[k].member == MemberOfUser(t, userId)|
  {
    var m := MemberOfUser(t, userId);
    if m.Some? {
      var active := LoanRepository.ActiveLoansByMember(t.loans, m.value);
      var overdue := set k | k in active && t.loans[k].dueDate < today;
      SubsetCardinality(overdue, active);
      SubsetCardinality(active, LoanRepository.LoansOfMember(t.loans, m.value));
      assert overdue == set k | k in LoanRepository.FindOverdueLoans(t.loans, today) && t.loans[k].member == m;
    }
  }

  /**
   * `getRecentLoansByUserId`: the member's loans newest first, cut to `limit`;
   * a negative limit makes `Stream.limit` throw, which is caught like a failed lookup.
   */
  function RecentLoansByUserId(t: Tables, userId: int, limit: int): (r: seq<int>)
    requires Valid(t)
    ensures limit < 0 || MemberOfUser(t, userId).None? ==> r == []
    ensures |r| <= if limit < 0 then 0 else limit
    ensures LoanRepository.SortedByRecency(t.loans, r)
    ensures forall i :: 0 <= i < |r| ==> r[i] in t.loans && t.loans[r[i]].member == MemberOfUser(t, userId)
    ensures limit >= 0 && MemberOfUser(t, userId).Some? ==>
              && |r| == Min(limit, TotalLoansByUserId(t, userId))
              && |r| <= |MemberHistory(t, MemberOfUser(t, userId).value)|
              && r == MemberHistory(t, MemberOfUser(t, userId).value)[..|r|]
  {
    var m := MemberOfUser(t, userId);
    if limit < 0 || m.None? then []
    else
      var all := MemberHistory(t, m.value);
      assert forall i :: 0 <= i < |all| ==> all[i] in LoanRepository.LoansOfMember(t.loans, m.value);
      assert |all| == TotalLoansByUserId(t, userId);
      if limit < |all| then
        LoanRepository.SortedPrefix(t.loans, all, limit);
        all[..limit]
      else all
  }

  function Min(a: int, b: int): int { if a < b then a else b }

  /** `findByMemberOrderByLoanDateDesc` (ties by larger id first). */
  function MemberHistory(t: Tables, member: int): (r: seq<int>)
    ensures LoanRepository.SortedByRecency(t.loans, r)
    ensures forall k :: k in r <==> k in t.loans && t.loans[k].member == Some(member)
    ensures |r| == |LoanRepository.LoansOfMember(t.loans, member)|
  {
    LoanRepository.ByRecency(t.loans, LoanRepository.LoansOfMember(t.loans, member))
  }

  // ----- the service object -----

  class LoanService {
    const db: Database

    constructor (db: Database)
      ensures this.db == db
    {
      this.db := db;
    }

    method CreateLoan(bookId: int, memberId: int, today: int, newId: int) returns (r: Result<LoanEntity.LoanRow, LoanError>)
      requires newId !in db.loans
      modifies db
      ensures Step(db.T(), r) == CreateLoanStep(old(db.T()), bookId, memberId, today, newId)
    {
      if bookId !in db.books {
        return Err(NoSuchBook);
      }
      if memberId !in db.members {
        return Err(NoSuchMember);
      }
      var book := db.books[bookId];
      var problem := CheckEligibility(db.loans, book, db.members[memberId]);
      if problem.Some? {
        return Err(problem.value);
      }
      var loan := LoanEntity.NewLoan(newId, Some(bookId), Some(memberId), today);
      book := book.(availableCopies := book.availableCopies - 1);
      db.books := db.books[bookId := book];
      db.loans := db.loans[newId := loan];
      r := Ok(loan);
    }

    method ReturnBook(loanId: int, today: int) returns (r: Result<LoanEntity.LoanRow, LoanError>)
      requires Valid(db.T())
      modifies db
      ensures Step(db.T(), r) == ReturnBookStep(old(db.T()), loanId, today)
    {
      if loanId !in db.loans {
        return Err(NoSuchLoan);
      }
      var loan := db.loans[loanId];
      if AlreadyHandedBack(loan) {
        return Err(AlreadyReturned);
      }
      var returned := LoanEntity.Returned(loan, today);
      if loan.book.Some? {
        var b := loan.book.value;
        db.books := db.books[b := BookEntity.ReturnCopy(db.books[b])];
      }
      db.loans := db.loans[loanId := returned];
      r := Ok(returned);
    }

    method ExtendLoan(loanId: int, today: int) returns (r: Result<LoanEntity.LoanRow, LoanError>)
      modifies db
      ensures Step(db.T(), r) == ExtendLoanStep(old(db.T()), loanId, today)
    {
      if loanId !in db.loans {
        return Err(NoSuchLoan);
      }
      var extended := LoanEntity.Extended(db.loans[loanId], today);
      if extended.None? {
        return Err(NotExtendable);
      }
      db.loans := db.loans[loanId := extended.value];
      r := Ok(extended.value);
    }

    method MarkAsLost(loanId: int, reason: Option<string>, today: int) returns (r: Result<LoanEntity.LoanRow, LoanError>)
      modifies db
      ensures Step(db.T(), r) == MarkAsLostStep(old(db.T()), loanId, reason, today)
    {
      if loanId !in db.loans {
        return Err(NoSuchLoan);
      }
      var loan := LoanEntity.MarkedLost(db.loans[loanId], today);
      if reason.Some? && JavaTrim(reason.value) != [] {
        loan := loan.(notes := Some(loan.notes.value + ReasonNote + reason.value));
      }
      db.loans := db.loans[loanId := loan];
      r := Ok(loan);
    }

    /** `updateOverdueStatus`: marks each loan `findOverdueLoans(today)` returns, and answers how many there were. */
    method UpdateOverdueStatus(today: int) returns (n: int)
      modifies db
      ensures db.T() == old(db.T()).(loans := SweptOverdue(old(db.loans), today))
      ensures n == |LoanRepository.FindOverdueLoans(old(db.loans), today)|
    {
      var overdue := LoanRepository.FindOverdueLoans(db.loans, today);
      var pending := overdue;
      ghost var start := db.loans;
      while pending != {}
        invariant pending <= overdue
        invariant db.T() == old(db.T()).(loans := db.loans)
        invariant db.loans.Keys == start.Keys
        invariant forall k :: k in start ==>
                    db.loans[k] == if k in pending then start[k] else LoanEntity.MarkedOverdue(start[k], today)
        decreases |pending|
      {
        NonEmptyHasMember(pending);
        var k :| k in pending;
        db.loans := db.loans[k := LoanEntity.MarkedOverdue(db.loans[k], today)];
        pending := pending - {k};
      }
      assert forall k :: k in db.loans ==> db.loans[k] == SweptOverdue(start, today)[k];
      assert db.loans == SweptOverdue(start, today);
      n := |overdue|;
    }
  }
}
