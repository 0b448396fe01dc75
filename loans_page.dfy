/**
 * The loan management page: the fee preview in the return dialog, the checks
 * run before a loan is requested, the books and members offered in the new
 * loan form, the overdue marking, the status tag, and deleting a row. The
 * clock (`dayjs()`) is the parameter `now`; the server's answers are
 * parameters too.
 */
module LoansPage {
  import opened Wrappers
  import opened Text
  import opened ClientTypes
  import Lists
  import Utils
  import Dates
  import BookEntity
  import MemberEntity
  import LoanEntity
  import LoanService
  import Store

  const MsPerDay := Utils.MsPerDay
  const FeePerDay := 100

  // ----- calculateOverdueFee -----

  /**
   * `calculateOverdueFee(dueDate, returnDate)`: counted to the return date
   * when one is given and to `now` otherwise; 100 per whole day once that
   * instant is after the due date.
   */
  function FeePreview(due: int, returnDate: Option<int>, now: int): (fee: int)
    ensures fee >= 0 && fee % FeePerDay == 0
    ensures returnDate.GetOr(now) <= due ==> fee == 0
  {
    var returned := if returnDate.Some? then returnDate.value else now;
    if returned > due then Utils.DiffDays(returned, due) * FeePerDay else 0
  }

  /**
   * The page's preview charges what the shared `calculateOverdueFee` helper
   * charges, for every due date, return date and clock reading.
   */
  lemma FeePreviewMatchesHelper(due: int, returnDate: Option<int>, now: int)
    ensures FeePreview(due, returnDate, now) == Utils.OverdueFee(due, returnDate, now)
  {
  }

  /** The preview for a return at local midnight of a backend date is the fee the server books. */
  lemma FeePreviewMatchesServer(l: LoanEntity.LoanRow, today: int, t: int)
    requires 0 <= t < MsPerDay
    requires LoanEntity.FeePerDay * LoanEntity.OverdueDays(l, today) <= LoanEntity.IntMax
    ensures FeePreview(l.dueDate * MsPerDay, Utils.ReturnInstant(l), today * MsPerDay + t)
            == LoanEntity.OverdueFee(l, today)
  {
    FeePreviewMatchesHelper(l.dueDate * MsPerDay, Utils.ReturnInstant(l), today * MsPerDay + t);
    Utils.ClientFeeMatchesServer(l, today, t);
  }

  /** The success notice of `handleReturnOk`: the fee is named only when there is one. */
  function ReturnNotice(fee: int): (text: string)
    ensures fee > 0 <==> Includes(text, Dates.IntText(fee) + "원")
  {
    var returned := "도서가 반납되었습니다.";
    if fee > 0 then
      var prefix := returned + " 연체료: ";
      var t := prefix + Dates.IntText(fee) + "원";
      assert t[|prefix|..|prefix| + |Dates.IntText(fee) + "원"|] == Dates.IntText(fee) + "원";
      assert OccursAt(t, Dates.IntText(fee) + "원", |prefix|);
      t
    else
      assert forall i | 0 <= i < |returned| :: returned[i] != '원';
      MissingLastCharacter(returned, Dates.IntText(fee) + "원");
      returned
  }

  /** A text lacking the last character of `sub` does not include `sub`. */
  lemma MissingLastCharacter(s: string, sub: string)
    requires |sub| > 0 && forall i | 0 <= i < |s| :: s[i] != sub[|sub| - 1]
    ensures !Includes(s, sub)
  {
    forall k | 0 <= k <= |s| - |sub|
      ensures !OccursAt(s, sub, k)
    {
      assert s[k..k + |sub|][|sub| - 1] == s[k + |sub| - 1];
    }
  }

  // ----- handleAdd -----

  /** The fields of the new-loan form; `None` is an empty field. */
  datatype LoanForm = LoanForm(bookId: Option<int>, memberId: Option<int>, loanDate: Option<int>, dueDate: Option<int>)

  /** `handleAdd`: a cleared form with the loan dated now and due fourteen days later. */
  function NewLoanForm(now: int): (form: LoanForm)
    ensures form.bookId.None? && form.memberId.None?
    ensures form.loanDate == Some(now)
    ensures form.dueDate.Some? && form.dueDate.value - now == LoanEntity.LoanPeriodDays * MsPerDay
  {
    LoanForm(None, None, Some(now), Some(now + 14 * MsPerDay))
  }

  /** A book returned by the form's default due date owes nothing in the preview. */
  lemma DefaultDueDateIsFeeFree(now: int, returned: int)
    requires returned <= now + LoanEntity.LoanPeriodDays * MsPerDay
    ensures FeePreview(NewLoanForm(now).dueDate.value, Some(returned), now) == 0
  {
  }

  // ----- handleModalOk -----

  /** Why the page refuses to send a loan request. */
  datatype Refusal = NotFound | NoCopies | MemberNotActive

  /** The error notice for each refusal. */
  function RefusalText(r: Refusal): string
  {
    match r
    case NotFound => "도서 또는 회원 정보를 찾을 수 없습니다."
    case NoCopies => "대출 가능한 도서가 없습니다."
    case MemberNotActive => "활성 상태의 회원만 대출할 수 있습니다."
  }

  /** The body posted to `/loans`. */
  datatype LoanRequest = LoanRequest(bookId: int, memberId: int, loanDate: int, dueDate: int)

  /** The two checks the page makes on the selected book and member. */
  predicate PassesPageChecks(book: Book, member: Member)
  {
    book.availableCopies > 0 && member.status == Active
  }

  /**
   * `handleModalOk` after the form validated: look both up in the loaded
   * lists, then refuse a book with no copy on the shelf and a member who is
   * not active, in that order, before any request goes out.
   */
  function CheckNewLoan(books: seq<Book>, members: seq<Member>, bookId: int, memberId: int,
                        loanDate: int, dueDate: int): (r: Result<LoanRequest, Refusal>)
    ensures r.Ok? <==>
              && Lists.Find(books, BookWithId(bookId)).Some?
              && Lists.Find(members, MemberWithId(memberId)).Some?
              && PassesPageChecks(Lists.Find(books, BookWithId(bookId)).value,
                                  Lists.Find(members, MemberWithId(memberId)).value)
    ensures r.Ok? ==> r.value == LoanRequest(bookId, memberId, loanDate, dueDate)
    ensures r == Err(NotFound) <==>
              (forall i :: 0 <= i < |books| ==> books[i].id != bookId)
              || (forall i :: 0 <= i < |members| ==> members[i].id != memberId)
  {
    var book := Lists.Find(books, BookWithId(bookId));
    var member := Lists.Find(members, MemberWithId(memberId));
    if book.None? || member.None? then Err(NotFound)
    else if book.value.availableCopies <= 0 then Err(NoCopies)
    else if member.value.status != Active then Err(MemberNotActive)
    else Ok(LoanRequest(bookId, memberId, loanDate, dueDate))
  }

  /**
   * The page is stricter than nothing and laxer than the server: whatever
   * the server's eligibility check would lend, the page lets through, when
   * the page's copy of the book and member reflects the server's rows.
   */
  lemma PageNeverBlocksAnEligibleLoan(loans: Store.LoanTable, row: BookEntity.BookRow, mrow: MemberEntity.MemberRow,
                                       book: Book, member: Member)
    requires book.availableCopies == row.availableCopies
    requires member.status == MemberStatusName(mrow.status)
    ensures LoanService.CheckEligibility(loans, row, mrow).None? ==> PassesPageChecks(book, member)
    ensures !PassesPageChecks(book, member) ==> LoanService.CheckEligibility(loans, row, mrow).Some?
  {
  }

  predicate InStock(b: Book) { b.availableCopies > 0 }
  predicate IsActive(m: Member) { m.status == Active }

  /** `books.filter(book => book.availableCopies > 0)`: the books offered in the form. */
  function OfferedBooks(books: seq<Book>): (r: seq<Book>)
    ensures forall b :: b in r <==> b in books && b.availableCopies > 0
  {
    Lists.FilterKeepsExactlyPassing(books, InStock);
    Lists.Filter(books, InStock)
  }

  /** `members.filter(member => member.status === 'ACTIVE')`: the members offered in the form. */
  function OfferedMembers(members: seq<Member>): (r: seq<Member>)
    ensures forall m :: m in r <==> m in members && m.status == Active
  {
    Lists.FilterKeepsExactlyPassing(members, IsActive);
    Lists.Filter(members, IsActive)
  }

  lemma {:induction false} FindUniqueBook(books: seq<Book>, i: nat)
    requires UniqueBookIds(books) && i < |books|
    ensures Lists.Find(books, BookWithId(books[i].id)) == Some(books[i])
  {
    var r := Lists.Find(books, BookWithId(books[i].id));
    assert BookWithId(books[i].id)(books[i]);
    var k :| 0 <= k < |books| && books[k] == r.value && BookWithId(books[i].id)(books[k]);
  }

  lemma {:induction false} FindUniqueMember(members: seq<Member>, i: nat)
    requires UniqueMemberIds(members) && i < |members|
    ensures Lists.Find(members, MemberWithId(members[i].id)) == Some(members[i])
  {
    var r := Lists.Find(members, MemberWithId(members[i].id));
    assert MemberWithId(members[i].id)(members[i]);
    var k :| 0 <= k < |members| && members[k] == r.value && MemberWithId(members[i].id)(members[k]);
  }

  /**
   * Picking from the offered lists always passes the page's checks, as long
   * as the loaded lists carry each id once.
   */
  lemma OfferedChoicesPass(books: seq<Book>, members: seq<Member>, book: Book, member: Member,
                           loanDate: int, dueDate: int)
    requires UniqueBookIds(books) && UniqueMemberIds(members)
    requires book in OfferedBooks(books) && member in OfferedMembers(members)
    ensures CheckNewLoan(books, members, book.id, member.id, loanDate, dueDate)
            == Ok(LoanRequest(book.id, member.id, loanDate, dueDate))
  {
    var i :| 0 <= i < |books| && books[i] == book;
    var j :| 0 <= j < |members| && members[j] == member;
    FindUniqueBook(books, i);
    FindUniqueMember(members, j);
  }

  // ----- the table -----

  /** `isOverdue(loan)`: a returned loan never is; any other is once `now` passes the due date's midnight. */
  predicate IsOverdue(loan: Loan, now: int)
  {
    loan.status != "RETURNED" && now > loan.dueDate
  }

  /**
   * For a loan whose status and return date agree, the page's test and the
   * shared `isOverdue(dueDate, returnDate)` helper give the same answer.
   */
  lemma IsOverdueMatchesHelper(loan: Loan, now: int)
    requires loan.status == "RETURNED" <==> loan.returnDate.Some?
    ensures IsOverdue(loan, now) == Utils.IsOverdue(loan.dueDate, loan.returnDate, now)
  {
  }

  /** The red "(n일 연체)" note under the due date: shown for active overdue loans, with `now.diff(due, 'day')`. */
  function OverdueNote(loan: Loan, now: int): (days: Option<int>)
    ensures days.Some? <==> IsOverdue(loan, now) && loan.status == Active
    ensures days.Some? ==> days.value >= 0
  {
    if IsOverdue(loan, now) && loan.status == Active then Some(Utils.DiffDays(now, loan.dueDate)) else None
  }

  /** On the due day itself an active loan is already marked overdue, by zero days. */
  lemma DueDayShowsZeroDaysOverdue(loan: Loan, now: int)
    requires loan.status == Active
    requires loan.dueDate < now < loan.dueDate + MsPerDay
    ensures OverdueNote(loan, now) == Some(0)
    ensures FeePreview(loan.dueDate, None, now) == 0
  {
  }

  /** `getStatusColor(status)`. */
  function StatusColor(status: string): (c: string)
    ensures c == "default" <==> !(status == "ACTIVE" || status == "RETURNED" || status == "OVERDUE" || status == "LOST")
  {
    if status == "ACTIVE" then "blue"
    else if status == "RETURNED" then "green"
    else if status == "OVERDUE" then "red"
    else if status == "LOST" then "gray"
    else "default"
  }

  /** `getStatusText(status)`: the Korean label, or the raw status when unknown. */
  function StatusText(status: string): (text: string)
    ensures text == status <==> !(status == "ACTIVE" || status == "RETURNED" || status == "OVERDUE" || status == "LOST")
  {
    if status == "ACTIVE" then "대출중"
    else if status == "RETURNED" then "반납완료"
    else if status == "OVERDUE" then "연체"
    else if status == "LOST" then "분실"
    else status
  }

  /**
   * Every status the server sends gets its own colour and its own label;
   * anything else is shown as it came, in the neutral colour.
   */
  lemma StatusTagsCoverServerStatuses(a: LoanEntity.LoanStatus, b: LoanEntity.LoanStatus, other: string)
    requires forall s: LoanEntity.LoanStatus :: LoanStatusName(s) != other
    ensures StatusColor(LoanStatusName(a)) != "default"
    ensures StatusColor(LoanStatusName(a)) == StatusColor(LoanStatusName(b)) <==> a == b
    ensures StatusText(LoanStatusName(a)) == StatusText(LoanStatusName(b)) <==> a == b
    ensures StatusColor(other) == "default" && StatusText(other) == other
  {
    assert LoanStatusName(LoanEntity.ACTIVE) != other;
    assert LoanStatusName(LoanEntity.RETURNED) != other;
    assert LoanStatusName(LoanEntity.OVERDUE) != other;
    assert LoanStatusName(LoanEntity.LOST) != other;
  }

  /** The return button is drawn for active loans only. */
  predicate ReturnOffered(loan: Loan)
  {
    loan.status == Active
  }

  /**
   * Every loan the page offers to return is one the server accepts back, if
   * the row reflects the server's loan; overdue loans, which the server
   * would also accept, get no button.
   */
  lemma ReturnButtonMatchesServer(loan: Loan, row: LoanEntity.LoanRow)
    requires loan.status == LoanStatusName(row.status)
    requires row.status == LoanEntity.ACTIVE ==> row.returnDate.None?
    ensures ReturnOffered(loan) ==> !LoanService.AlreadyHandedBack(row)
    ensures row.status == LoanEntity.OVERDUE && row.returnDate.None? ==>
              !ReturnOffered(loan) && !LoanService.AlreadyHandedBack(row)
  {
  }

  // ----- handleSearch -----

  /** What a search does: reload the whole list, or ask the server. */
  datatype SearchAction = ReloadAll | ServerSearch(keyword: string)

  /** `handleSearch(value)`: a blank box (`!value.trim()`) reloads everything; the keyword goes out untrimmed. */
  function Search(value: string): (a: SearchAction)
    ensures a == ReloadAll <==> IsJsBlank(value)
    ensures a.ServerSearch? ==> a.keyword == value
  {
    if IsJsBlank(value) then ReloadAll else ServerSearch(value)
  }

  /** The page's list of loans. */
  class Page {
    var loans: seq<Loan>

    constructor ()
      ensures loans == []
    {
      loans := [];
    }

    /**
     * `handleDelete(id)` once the server answered: on success the rows with
     * that id go and the rest stay in order; on failure nothing changes.
     */
    method Delete(id: int, deleted: bool)
      modifies this
      ensures deleted ==> loans == Lists.Filter(old(loans), LoanWithOtherId(id))
      ensures !deleted ==> loans == old(loans)
    {
      if deleted {
        loans := Lists.Filter(loans, LoanWithOtherId(id));
      }
    }
  }

  /** Deleting drops exactly the rows with the id and keeps the others in their order. */
  lemma DeleteRemovesExactlyThatId(loans: seq<Loan>, id: int)
    ensures Lists.IsSubsequence(Lists.Filter(loans, LoanWithOtherId(id)), loans)
    ensures forall l :: l in Lists.Filter(loans, LoanWithOtherId(id)) <==> l in loans && l.id != id
  {
    Lists.FilterKeepsExactlyPassing(loans, LoanWithOtherId(id));
  }
}
