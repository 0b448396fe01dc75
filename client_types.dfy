/**
 * The shapes the browser pages hold: books, members and loans as the REST
 * API returns them. Statuses stay strings, as in the JSON; instants are
 * milliseconds since the epoch (the value `dayjs(date)` stands for), so
 * date text parsing is not part of this model.
 */
module ClientTypes {
  import opened Wrappers
  import opened Text
  import MemberEntity
  import LoanEntity

  datatype Book = Book(
    id: int,
    title: string,
    author: string,
    isbn: string,
    totalCopies: int,
    availableCopies: int,
    category: Option<string>,
    publishedDate: Option<string>)

  datatype Member = Member(
    id: int,
    memberNumber: string,
    name: string,
    email: string,
    phone: string,
    address: string,
    status: string,
    registrationDate: string)

  datatype Loan = Loan(
    id: int,
    book: Book,
    member: Member,
    loanDate: int,
    dueDate: int,
    returnDate: Option<int>,
    status: string,
    overdueFee: int)

  const Active := "ACTIVE"

  /** `b => b.id === id`, and the same test on members and loans. */
  function BookWithId(id: int): Book -> bool { (b: Book) => b.id == id }
  function MemberWithId(id: int): Member -> bool { (m: Member) => m.id == id }
  function LoanWithId(id: int): Loan -> bool { (l: Loan) => l.id == id }

  /** `b => b.id !== id`, and the same test on members and loans. */
  function BookWithOtherId(id: int): Book -> bool { (b: Book) => b.id != id }
  function MemberWithOtherId(id: int): Member -> bool { (m: Member) => m.id != id }
  function LoanWithOtherId(id: int): Loan -> bool { (l: Loan) => l.id != id }

  predicate UniqueBookIds(books: seq<Book>)
  {
    forall i, j :: 0 <= i < |books| && 0 <= j < |books| && books[i].id == books[j].id ==> i == j
  }

  predicate UniqueMemberIds(members: seq<Member>)
  {
    forall i, j :: 0 <= i < |members| && 0 <= j < |members| && members[i].id == members[j].id ==> i == j
  }

  /** How the server writes a member status enum into JSON: its constant's name. */
  function MemberStatusName(s: MemberEntity.MemberStatus): (name: string)
    ensures name == Active <==> s == MemberEntity.ACTIVE
  {
    match s
    case ACTIVE => "ACTIVE"
    case SUSPENDED => "SUSPENDED"
    case WITHDRAWN => "WITHDRAWN"
  }

  /** How the server writes a loan status enum into JSON. */
  function LoanStatusName(s: LoanEntity.LoanStatus): (name: string)
    ensures name == Active <==> s == LoanEntity.ACTIVE
    ensures name == "RETURNED" <==> s == LoanEntity.RETURNED
  {
    match s
    case ACTIVE => "ACTIVE"
    case RETURNED => "RETURNED"
    case OVERDUE => "OVERDUE"
    case LOST => "LOST"
  }

  /** Different statuses never share a name, so the pages can tell every server status apart. */
  lemma StatusNamesDistinct(a: LoanEntity.LoanStatus, b: LoanEntity.LoanStatus,
                            m: MemberEntity.MemberStatus, n: MemberEntity.MemberStatus)
    ensures LoanStatusName(a) == LoanStatusName(b) <==> a == b
    ensures MemberStatusName(m) == MemberStatusName(n) <==> m == n
  {
  }

  /** `s.toLowerCase().includes(sub.toLowerCase())`. */
  predicate IncludesIgnoringCase(s: string, sub: string)
  {
    Includes(ToLower(s), ToLower(sub))
  }

  lemma ToLowerIdempotent(s: string)
    ensures ToLower(ToLower(s)) == ToLower(s)
  {
  }

  /** The search term's case, and the searched text's, make no difference. */
  lemma IncludesIgnoringCaseIgnoresCase(s: string, sub: string)
    ensures IncludesIgnoringCase(s, sub) <==> IncludesIgnoringCase(s, ToLower(sub))
    ensures IncludesIgnoringCase(s, sub) <==> IncludesIgnoringCase(ToLower(s), sub)
  {
    ToLowerIdempotent(s);
    ToLowerIdempotent(sub);
  }
}
