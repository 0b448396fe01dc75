/**
 * `LoanRepository`: the derived and JPQL queries over the `loans` table.
 * Queries without ORDER BY answer a set of primary keys (their row order is
 * unspecified); ordered queries answer sequences proved sorted.
 */
module LoanRepository {
  import opened Wrappers
  import opened Store
  import LoanEntity
  import BookEntity
  import MemberEntity

  /** `findByMemberAndStatus`. */
  function ByMemberAndStatus(loans: LoanTable, member: int, status: LoanEntity.LoanStatus): set<int>
  {
    set k | k in loans && loans[k].member == Some(member) && loans[k].status == status
  }

  /** `countByMemberAndStatus`. */
  function CountByMemberAndStatus(loans: LoanTable, member: int, status: LoanEntity.LoanStatus): nat
  {
    |ByMemberAndStatus(loans, member, status)|
  }

  /** `findActiveLoansByMember`. */
  function ActiveLoansByMember(loans: LoanTable, member: int): set<int>
  {
    ByMemberAndStatus(loans, member, LoanEntity.ACTIVE)
  }

  /** `findByMemberOrderByLoanDateDesc`, before ordering. */
  function LoansOfMember(loans: LoanTable, member: int): set<int>
  {
    set k | k in loans && loans[k].member == Some(member)
  }

  /** `existsByMember`. */
  predicate ExistsByMember(loans: LoanTable, member: int)
  {
    exists k :: k in loans && loans[k].member == Some(member)
  }

  /** `existsByBookId`. */
  predicate ExistsByBookId(loans: LoanTable, book: int)
  {
    exists k :: k in loans && loans[k].book == Some(book)
  }

  /** `findOverdueLoans(today)`: active loans whose due date is before today. */
  function FindOverdueLoans(loans: LoanTable, today: int): (r: set<int>)
    ensures forall k :: k in r <==> k in loans && LoanEntity.IsOverdue(loans[k], today)
  {
    set k | k in loans && loans[k].status == LoanEntity.ACTIVE && loans[k].dueDate < today
  }

  /** `deleteByMember`. */
  function DeleteByMember(loans: LoanTable, member: int): (r: LoanTable)
    ensures forall k :: k in r <==> k in loans && loans[k].member != Some(member)
    ensures forall k :: k in r ==> r[k] == loans[k]
  {
    map k | k in loans && loans[k].member != Some(member) :: loans[k]
  }

  /** `updateBookToNullByBookId`: loans of the book keep their history but lose the reference. */
  function UpdateBookToNull(loans: LoanTable, book: int): (r: LoanTable)
    ensures r.Keys == loans.Keys
    ensures forall k :: k in r ==> r[k] == (if loans[k].book == Some(book) then loans[k].(book := None) else loans[k])
  {
    map k | k in loans :: if loans[k].book == Some(book) then loans[k].(book := None) else loans[k]
  }

  /** After the update no loan refers to the book, so `existsByBookId` turns false. */
  lemma UpdateBookToNullDetaches(loans: LoanTable, book: int)
    ensures !ExistsByBookId(UpdateBookToNull(loans, book), book)
  {
  }

  // ----- getTotalOverdueFeeByMember -----

  /** Sum of the overdue fees of the loans in `ids` (SQL `SUM` over those rows). */
  function SumFees(loans: LoanTable, ids: set<int>): int
    requires ids <= loans.Keys
  {
    if ids == {} then 0
    else
      var k := MaxOf(ids);
      loans[k].overdueFee + SumFees(loans, ids - {k})
  }

  /** The sum does not depend on which row is taken out first. */
  lemma {:induction false} SumFeesRemove(loans: LoanTable, ids: set<int>, x: int)
    requires ids <= loans.Keys && x in ids
    ensures SumFees(loans, ids) == loans[x].overdueFee + SumFees(loans, ids - {x})
    decreases |ids|
  {
    var k := MaxOf(ids);
    if k != x {
      SumFeesRemove(loans, ids - {k}, x);
      SumFeesRemove(loans, ids - {x}, k);
      assert ids - {k} - {x} == ids - {x} - {k};
    }
  }

  /** Adding one more loan adds exactly its fee. */
  lemma SumFeesInsert(loans: LoanTable, ids: set<int>, x: int)
    requires ids <= loans.Keys && x in loans && x !in ids
    ensures SumFees(loans, ids + {x}) == SumFees(loans, ids) + loans[x].overdueFee
  {
    SumFeesRemove(loans, ids + {x}, x);
    assert ids + {x} - {x} == ids;
  }

  /** With no negative fee among them, the sum is never negative. */
  lemma {:induction false} SumFeesNonNegative(loans: LoanTable, ids: set<int>)
    requires ids <= loans.Keys
    requires forall k :: k in ids ==> loans[k].overdueFee >= 0
    ensures SumFees(loans, ids) >= 0
    decreases |ids|
  {
    if ids != {} {
      var k := MaxOf(ids);
      SumFeesNonNegative(loans, ids - {k});
    }
  }

  /**
   * `getTotalOverdueFeeByMember`: `COALESCE(SUM(fee), 0)` over the member's
   * loans, handed back as an `Integer`; a sum outside the `int` range makes
   * that conversion fail (`None`).
   */
  function TotalOverdueFeeByMember(loans: LoanTable, member: int): (r: Option<int>)
    ensures r.Some? <==> LoanEntity.IntMin <= SumFees(loans, LoansOfMember(loans, member)) <= LoanEntity.IntMax
    ensures (forall k :: k !in LoansOfMember(loans, member)) ==> r == Some(0)
    ensures r.Some? ==> r.value == SumFees(loans, LoansOfMember(loans, member))
  {
    var total := SumFees(loans, LoansOfMember(loans, member));
    if LoanEntity.IntMin <= total <= LoanEntity.IntMax then Some(total) else None
  }

  // ----- ordering by recency (loanDate DESC, id DESC) -----

  /** Loan `a` comes before loan `b`: a later loan date, or the same date and a larger id. */
  predicate Precedes(loans: LoanTable, a: int, b: int)
    requires a in loans && b in loans
  {
    loans[a].loanDate > loans[b].loanDate || (loans[a].loanDate == loans[b].loanDate && a > b)
  }

  predicate SortedByRecency(loans: LoanTable, ids: seq<int>)
  {
    (forall i :: 0 <= i < |ids| ==> ids[i] in loans)
    && (forall i, j :: 0 <= i < j < |ids| ==> Precedes(loans, ids[i], ids[j]))
  }

  /** The most recent loan of a non-empty set: it precedes every other one. */
  function MostRecent(loans: LoanTable, s: set<int>): (r: int)
    requires s != {} && s <= loans.Keys
    ensures r in s
    ensures forall x :: x in s && x != r ==> Precedes(loans, r, x)
    decreases |s|
  {
    var k := MaxOf(s);
    if s - {k} == {} then
      assert forall x :: x in s && x != k ==> x in s - {k};
      k
    else
      var m := MostRecent(loans, s - {k});
      if Precedes(loans, k, m) then
        assert forall x :: x in s && x != k ==> Precedes(loans, k, x) by {
          forall x | x in s && x != k && x != m ensures Precedes(loans, k, x) {
            PrecedesTransitive(loans, k, m, x);
          }
        }
        k
      else
        PrecedesTotal(loans, k, m);
        m
  }

  lemma PrecedesTransitive(loans: LoanTable, a: int, b: int, c: int)
    requires a in loans && b in loans && c in loans
    requires Precedes(loans, a, b) && Precedes(loans, b, c)
    ensures Precedes(loans, a, c)
  {
  }

  /** Of two different loans, one precedes the other. */
  lemma PrecedesTotal(loans: LoanTable, a: int, b: int)
    requires a in loans && b in loans && a != b
    ensures Precedes(loans, a, b) || Precedes(loans, b, a)
  {
  }

  /** The loans in `ids`, newest first: `ORDER BY l.loanDate DESC, l.id DESC`. */
  function ByRecency(loans: LoanTable, ids: set<int>): (r: seq<int>)
    requires ids <= loans.Keys
    ensures SortedByRecency(loans, r)
    ensures forall x :: x in r <==> x in ids
    ensures |r| == |ids|
    decreases |ids|
  {
    if ids == {} then []
    else
      var k := MostRecent(loans, ids);
      var rest := ByRecency(loans, ids - {k});
      assert forall i :: 0 <= i < |rest| ==> Precedes(loans, k, rest[i]) by {
        forall i | 0 <= i < |rest| ensures Precedes(loans, k, rest[i]) {
          assert rest[i] in ids - {k};
        }
      }
      SortedCons(loans, k, rest);
      assert forall x :: x in [k] + rest <==> x == k || x in rest;
      [k] + rest
  }

  /** A loan preceding every loan of a sorted sequence can go in front of it. */
  lemma SortedCons(loans: LoanTable, k: int, rest: seq<int>)
    requires k in loans && SortedByRecency(loans, rest)
    requires forall i :: 0 <= i < |rest| ==> Precedes(loans, k, rest[i])
    ensures SortedByRecency(loans, [k] + rest)
  {
    var r := [k] + rest;
    forall i, j | 0 <= i < j < |r| ensures Precedes(loans, r[i], r[j]) {
      assert r[j] == rest[j - 1];
      if i > 0 {
        assert r[i] == rest[i - 1];
      }
    }
  }

  /** A prefix of a sorted sequence is sorted. */
  lemma SortedPrefix(loans: LoanTable, xs: seq<int>, n: int)
    requires SortedByRecency(loans, xs) && 0 <= n <= |xs|
    ensures SortedByRecency(loans, xs[..n])
  {
    forall i, j | 0 <= i < j < n ensures Precedes(loans, xs[..n][i], xs[..n][j]) {
      assert xs[..n][i] == xs[i] && xs[..n][j] == xs[j];
    }
  }

  /** The head of a sorted sequence precedes every other element of it. */
  lemma HeadComesFirst(loans: LoanTable, xs: seq<int>, x: int)
    requires SortedByRecency(loans, xs) && xs != [] && x in xs
    ensures x == xs[0] || Precedes(loans, xs[0], x)
  {
    var i :| 0 <= i < |xs| && xs[i] == x;
    if i > 0 {
      assert Precedes(loans, xs[0], xs[i]);
    }
  }

  /** Two sorted sequences with the same elements are equal: the order is total, so the result is determined. */
  lemma {:induction false} SortedIsUnique(loans: LoanTable, xs: seq<int>, ys: seq<int>)
    requires SortedByRecency(loans, xs) && SortedByRecency(loans, ys)
    requires forall x :: x in xs <==> x in ys
    ensures xs == ys
  {
    if xs != [] {
      assert xs[0] in xs;
    }
    if ys != [] {
      assert ys[0] in ys;
    }
    if xs != [] && ys != [] {
      HeadComesFirst(loans, xs, ys[0]);
      HeadComesFirst(loans, ys, xs[0]);
      assert xs[0] == ys[0];
      forall x
        ensures x in xs[1..] <==> x in ys[1..]
      {
        if x in xs[1..] {
          var i :| 1 <= i < |xs| && xs[i] == x;
          assert Precedes(loans, xs[0], xs[i]);
          assert x in ys;
        }
        if x in ys[1..] {
          var j :| 1 <= j < |ys| && ys[j] == x;
          assert Precedes(loans, ys[0], ys[j]);
          assert x in xs;
        }
      }
      SortedIsUnique(loans, xs[1..], ys[1..]);
      assert xs == [xs[0]] + xs[1..];
      assert ys == [ys[0]] + ys[1..];
    }
  }

  // ----- findAllLoansAsDTO -----

  /** `LoanResponseDTO` as the projection fills it (timestamps left out). */
  datatype LoanDto = LoanDto(
    id: int,
    loanDate: int,
    dueDate: int,
    returnDate: Option<int>,
    status: LoanEntity.LoanStatus,
    overdueFee: int,
    notes: Option<string>,
    bookId: int,
    bookTitle: string,
    bookAuthor: string,
    bookIsbn: string,
    bookCategory: string,
    memberId: int,
    memberName: string,
    memberEmail: string,
    memberNumber: string,
    overdueDays: int,
    overdue: bool)

  const DeletedBook := "삭제된 도서"
  const DeletedMember := "삭제된 회원"
  const NoInfo := "정보없음"

  /** One projected row: LEFT JOINs with COALESCE defaults for a missing book or member. */
  function ToDto(t: Tables, l: LoanEntity.LoanRow): (d: LoanDto)
    requires BookKeys(t.books) && MemberKeys(t.members)
    ensures d.id == l.id && d.status == l.status && d.overdueFee == l.overdueFee
    ensures d.overdueDays == 0 && !d.overdue
    ensures (l.book.None? || l.book.value !in t.books) ==> d.bookId == 0 && d.bookTitle == DeletedBook
    ensures l.book.Some? && l.book.value in t.books ==> d.bookId == l.book.value && d.bookTitle == t.books[l.book.value].title
    ensures (l.member.None? || l.member.value !in t.members) ==> d.memberId == 0 && d.memberName == DeletedMember
    ensures l.member.Some? && l.member.value in t.members ==> d.memberId == l.member.value
  {
    var hasBook := l.book.Some? && l.book.value in t.books;
    var hasMember := l.member.Some? && l.member.value in t.members;
    var b := if hasBook then Some(t.books[l.book.value]) else None;
    var m := if hasMember then Some(t.members[l.member.value]) else None;
    LoanDto(
      l.id, l.loanDate, l.dueDate, l.returnDate, l.status, l.overdueFee, l.notes,
      if b.Some? then b.value.id else 0,
      if b.Some? then b.value.title else DeletedBook,
      if b.Some? then b.value.author else NoInfo,
      if b.Some? then b.value.isbn.GetOr(NoInfo) else NoInfo,
      if b.Some? then b.value.category.GetOr(NoInfo) else NoInfo,
      if m.Some? then m.value.id else 0,
      if m.Some? then m.value.name else DeletedMember,
      if m.Some? then m.value.email else NoInfo,
      if m.Some? then m.value.memberNumber else NoInfo,
      0, false)
  }

  /** The projection applied row by row, keeping the order. */
  function ProjectAll(t: Tables, ids: seq<int>): (r: seq<LoanDto>)
    requires BookKeys(t.books) && MemberKeys(t.members)
    requires forall i :: 0 <= i < |ids| ==> ids[i] in t.loans
    ensures |r| == |ids|
    ensures forall i :: 0 <= i < |ids| ==> r[i] == ToDto(t, t.loans[ids[i]])
  {
    seq(|ids|, i requires 0 <= i < |ids| => ToDto(t, t.loans[ids[i]]))
  }

  /** `findAllLoansAsDTO`: every loan, newest first, projected. */
  function FindAllLoansAsDto(t: Tables): (r: seq<LoanDto>)
    requires Valid(t)
    ensures |r| == |t.loans|
    ensures forall i :: 0 <= i < |r| ==> r[i].id in t.loans && r[i] == ToDto(t, t.loans[r[i].id])
    ensures forall i, j :: 0 <= i < j < |r| ==> Precedes(t.loans, r[i].id, r[j].id)
    ensures forall k :: k in t.loans ==> exists i :: 0 <= i < |r| && r[i].id == k
  {
    var ids := ByRecency(t.loans, t.loans.Keys);
    ProjectAllIds(t, ids);
    ProjectAll(t, ids)
  }

  /** Each projected row carries the id of the loan it was made from. */
  lemma ProjectAllIds(t: Tables, ids: seq<int>)
    requires BookKeys(t.books) && MemberKeys(t.members) && LoanKeys(t.loans)
    requires forall i :: 0 <= i < |ids| ==> ids[i] in t.loans
    ensures forall i :: 0 <= i < |ids| ==> ProjectAll(t, ids)[i].id == ids[i]
  {
    forall i | 0 <= i < |ids|
      ensures ProjectAll(t, ids)[i].id == ids[i]
    {
      assert ProjectAll(t, ids)[i] == ToDto(t, t.loans[ids[i]]);
    }
  }
}
