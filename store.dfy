/**
 * The database behind the Spring Data repositories: one map per table, keyed
 * by primary key.  `Valid` collects the table constraints (unique columns,
 * foreign keys) together with the uniqueness of member e-mails that the
 * member service maintains, and `StockConsistent` ties each book's shelf count
 * to the loans not yet returned.
 */
module Store {
  import opened Wrappers
  import BookEntity
  import LoanEntity
  import MemberEntity
  import UserEntity
  import VerificationEntities

  type BookTable = map<int, BookEntity.BookRow>
  type MemberTable = map<int, MemberEntity.MemberRow>
  type UserTable = map<int, UserEntity.UserRow>
  type LoanTable = map<int, LoanEntity.LoanRow>
  type CodeTable = map<int, VerificationEntities.CodeRow>

  datatype Tables = Tables(
    books: BookTable,
    members: MemberTable,
    users: UserTable,
    loans: LoanTable,
    codes: CodeTable)

  /**
   * The outcome of one transactional service call: the tables afterwards and
   * the value returned or the exception thrown.  Every service class that
   * writes the database is `@Transactional`, so a call that throws leaves the
   * tables as they were.
   */
  datatype Step<T, E> = Step(after: Tables, result: Result<T, E>)

  function Fail<T, E>(t: Tables, e: E): (s: Step<T, E>)
    ensures s.after == t && s.result.Err?
  {
    Step(t, Err(e))
  }

  predicate BookKeys(books: BookTable) { forall k :: k in books ==> books[k].id == k }
  predicate MemberKeys(members: MemberTable) { forall k :: k in members ==> members[k].id == k }
  predicate UserKeys(users: UserTable) { forall k :: k in users ==> users[k].id == k }
  predicate LoanKeys(loans: LoanTable) { forall k :: k in loans ==> loans[k].id == k }
  predicate CodeKeys(codes: CodeTable) { forall k :: k in codes ==> codes[k].id == k }

  /** `books.isbn` is a unique column (several NULLs allowed). */
  predicate UniqueIsbns(books: BookTable)
  {
    forall a, b :: a in books && b in books && books[a].isbn.Some? && books[a].isbn == books[b].isbn ==> a == b
  }

  /** `members.member_number` is a unique column. */
  predicate UniqueMemberNumbers(members: MemberTable)
  {
    forall a, b :: a in members && b in members && members[a].memberNumber == members[b].memberNumber ==> a == b
  }

  /** Member e-mails are kept distinct by `createMember` and `updateMember`. */
  predicate UniqueMemberEmails(members: MemberTable)
  {
    forall a, b :: a in members && b in members && members[a].email == members[b].email ==> a == b
  }

  /** `users.username`, `users.email` and `users.member_number` are unique columns. */
  predicate UniqueUserColumns(users: UserTable)
  {
    (forall a, b :: a in users && b in users && users[a].username == users[b].username ==> a == b)
    && (forall a, b :: a in users && b in users && users[a].email == users[b].email ==> a == b)
    && (forall a, b :: a in users && b in users && users[a].memberNumber.Some? && users[a].memberNumber == users[b].memberNumber ==> a == b)
  }

  /** `loans.book_id` and `loans.member_id` are foreign keys (nullable). */
  predicate LoanReferences(t: Tables)
  {
    forall k :: k in t.loans ==>
      (t.loans[k].book.Some? ==> t.loans[k].book.value in t.books)
      && (t.loans[k].member.Some? ==> t.loans[k].member.value in t.members)
  }

  predicate Valid(t: Tables)
  {
    BookKeys(t.books) && MemberKeys(t.members) && UserKeys(t.users) && LoanKeys(t.loans)
    && CodeKeys(t.codes)
    && UniqueIsbns(t.books) && UniqueMemberNumbers(t.members) && UniqueMemberEmails(t.members)
    && UniqueUserColumns(t.users) && LoanReferences(t)
  }

  /** Loans of book `b` whose copy has not come back. */
  function Outstanding(loans: LoanTable, b: int): set<int>
  {
    set k | k in loans && loans[k].book == Some(b) && loans[k].returnDate.None?
  }

  /** Every book's lent-out count equals the number of its loans not yet returned. */
  predicate StockConsistent(t: Tables)
  {
    forall b :: b in t.books ==> BookEntity.LoanedCopies(t.books[b]) == |Outstanding(t.loans, b)|
  }

  lemma NonEmptyHasMember(s: set<int>)
    requires s != {}
    ensures exists x :: x in s
  {
    if forall x :: x !in s {
      assert false;
    }
  }

  /** The element of a set that holds at most one. */
  function TheOne(s: set<int>): (r: Option<int>)
    requires forall a, b :: a in s && b in s ==> a == b
    ensures r.None? ==> forall x :: x !in s
    ensures r.Some? ==> r.value in s
  {
    if s == {} then None
    else
      NonEmptyHasMember(s);
      var k :| k in s;
      Some(k)
  }

  /**
   * What a Spring Data query declared to return one row (an `Optional`)
   * answers for the set of matching rows: nothing, the one row, or an
   * `IncorrectResultSizeDataAccessException` when two or more match.
   */
  datatype SingleResult = NoRow | OneRow(id: int) | NonUnique

  lemma {:induction false} MaxExists(s: set<int>)
    requires s != {}
    ensures exists m :: m in s && forall x :: x in s ==> x <= m
    decreases |s|
  {
    NonEmptyHasMember(s);
    var k :| k in s;
    if s - {k} == {} {
      assert forall x :: x in s && x != k ==> x in s - {k};
    } else {
      MaxExists(s - {k});
      var m :| m in s - {k} && forall x :: x in s - {k} ==> x <= m;
      assert forall x :: x in s ==> x == k || x in s - {k};
      if m < k {
        assert forall x :: x in s ==> x <= k;
      } else {
        assert forall x :: x in s ==> x <= m;
      }
    }
  }

  /** The largest key of a non-empty set. */
  function MaxOf(s: set<int>): (m: int)
    requires s != {}
    ensures m in s && forall x :: x in s ==> x <= m
  {
    MaxExists(s);
    var m :| m in s && forall x :: x in s ==> x <= m;
    m
  }

  function Single(s: set<int>): (r: SingleResult)
    ensures r.NoRow? <==> forall x :: x !in s
    ensures r.OneRow? ==> r.id in s && forall x :: x in s ==> x == r.id
    ensures r.NonUnique? ==> exists a, b :: a in s && b in s && a != b
  {
    if s == {} then NoRow
    else
      var k := MaxOf(s);
      if s - {k} == {} then
        assert forall x :: x in s && x != k ==> x in s - {k};
        OneRow(k)
      else
        NonEmptyHasMember(s - {k});
        var j :| j in s - {k};
        assert j in s && k in s && j != k;
        NonUnique
  }

  function UsersNamed(users: UserTable, username: string): set<int>
  {
    set k | k in users && users[k].username == username
  }

  function UsersWithEmail(users: UserTable, email: string): set<int>
  {
    set k | k in users && users[k].email == email
  }

  function MembersWithEmail(members: MemberTable, email: string): set<int>
  {
    set k | k in members && members[k].email == email
  }

  function BooksWithIsbn(books: BookTable, isbn: string): set<int>
  {
    set k | k in books && books[k].isbn == Some(isbn)
  }

  /** `userRepository.findByUsername`. */
  function FindUserByUsername(t: Tables, username: string): (r: Option<int>)
    requires Valid(t)
    ensures r.None? <==> forall k :: k in t.users ==> t.users[k].username != username
    ensures r.Some? ==> r.value in t.users && t.users[r.value].username == username
    ensures forall k :: k in t.users && t.users[k].username == username ==> r == Some(k)
  {
    var s := UsersNamed(t.users, username);
    assert forall k :: k in t.users && t.users[k].username == username ==> k in s;
    TheOne(s)
  }

  /** `userRepository.findByEmail`. */
  function FindUserByEmail(t: Tables, email: string): (r: Option<int>)
    requires Valid(t)
    ensures r.None? <==> forall k :: k in t.users ==> t.users[k].email != email
    ensures r.Some? ==> r.value in t.users && t.users[r.value].email == email
    ensures forall k :: k in t.users && t.users[k].email == email ==> r == Some(k)
  {
    var s := UsersWithEmail(t.users, email);
    assert forall k :: k in t.users && t.users[k].email == email ==> k in s;
    TheOne(s)
  }

  /** `memberRepository.findByEmail`. */
  function FindMemberByEmail(t: Tables, email: string): (r: Option<int>)
    requires Valid(t)
    ensures r.None? <==> forall k :: k in t.members ==> t.members[k].email != email
    ensures r.Some? ==> r.value in t.members && t.members[r.value].email == email
  {
    var s := MembersWithEmail(t.members, email);
    assert forall k :: k in t.members && t.members[k].email == email ==> k in s;
    TheOne(s)
  }

  /** `bookRepository.findByIsbn`. */
  function FindBookByIsbn(t: Tables, isbn: string): (r: Option<int>)
    requires Valid(t)
    ensures r.None? <==> forall k :: k in t.books ==> t.books[k].isbn != Some(isbn)
    ensures r.Some? ==> r.value in t.books && t.books[r.value].isbn == Some(isbn)
  {
    var s := BooksWithIsbn(t.books, isbn);
    assert forall k :: k in t.books && t.books[k].isbn == Some(isbn) ==> k in s;
    TheOne(s)
  }

  /** The repositories' shared state; service methods reassign these maps. */
  class Database {
    var books: BookTable
    var members: MemberTable
    var users: UserTable
    var loans: LoanTable
    var codes: CodeTable

    function T(): Tables
      reads this
    {
      Tables(books, members, users, loans, codes)
    }

    constructor (t: Tables)
      ensures T() == t
    {
      books := t.books;
      members := t.members;
      users := t.users;
      loans := t.loans;
      codes := t.codes;
    }

    /** Replaces the whole state, as a committed transaction does. */
    method Commit(t: Tables)
      modifies this
      ensures T() == t
    {
      books := t.books;
      members := t.members;
      users := t.users;
      loans := t.loans;
      codes := t.codes;
    }
  }
}
