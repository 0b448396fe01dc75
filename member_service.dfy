/**
 * `MemberService`: registering, editing, deleting and (de)activating library
 * members.  Each state-changing operation is a transition `...Step` over the
 * tables with its preservation lemmas, and a method of the `MemberService`
 * class that performs it on the database.
 */
module MemberService {
  import opened Wrappers
  import opened Text
  import opened Store
  import MemberEntity
  import LoanEntity
  import BookEntity
  import LoanRepository

  datatype MemberError =
    | DuplicateEmail      // "이미 등록된 이메일입니다"
    | NoSuchMember        // "회원을 찾을 수 없습니다."
    | HasLoans            // "대출 기록이 있는 회원은 삭제할 수 없습니다."
    | NullMaxLoanCount    // the `max_loan_count` column is NOT NULL

  /** The request body of `createMember` / `updateMember`; absent JSON fields are `None`. */
  datatype MemberForm = MemberForm(
    name: string,
    email: string,
    phone: Option<string>,
    address: Option<string>,
    joinDate: Option<int>,
    status: Option<MemberEntity.MemberStatus>,
    maxLoanCount: Option<int>)

  predicate EmailTaken(members: MemberTable, email: string)
  {
    exists k :: k in members && members[k].email == email
  }

  predicate NumberTaken(members: MemberTable, number: string)
  {
    exists k :: k in members && members[k].memberNumber == number
  }

  // ----- createMember -----

  /**
   * One run of `generateMemberNumber`: each run reads the date and the
   * millisecond clock afresh, so a loop that runs past midnight draws numbers
   * of the next day.
   */
  datatype Draw = Draw(date: int, millis: nat)

  function DrawnNumber(d: Draw): string
  {
    MemberEntity.MemberNumber(d.date, d.millis)
  }

  /** The member numbers the successive draws give. */
  function DrawnNumbers(draws: seq<Draw>): (numbers: seq<string>)
    ensures |numbers| == |draws|
    ensures forall i :: 0 <= i < |draws| ==> numbers[i] == DrawnNumber(draws[i])
  {
    seq(|draws|, i requires 0 <= i < |draws| => DrawnNumber(draws[i]))
  }

  /** Some drawn number is free: the do-while loop ends within the trace. */
  predicate SomeFree(members: MemberTable, numbers: seq<string>)
  {
    exists j :: 0 <= j < |numbers| && !NumberTaken(members, numbers[j])
  }

  /**
   * The do-while loop's exit: the first drawn number not yet taken, every
   * earlier one being taken.
   */
  function FirstFreeDraw(members: MemberTable, numbers: seq<string>): (i: nat)
    requires SomeFree(members, numbers)
    ensures i < |numbers| && !NumberTaken(members, numbers[i])
    ensures forall j :: 0 <= j < i ==> NumberTaken(members, numbers[j])
  {
    if !NumberTaken(members, numbers[0]) then 0
    else
      var j :| 0 <= j < |numbers| && !NumberTaken(members, numbers[j]);
      assert j > 0 && 0 <= j - 1 < |numbers[1..]| && numbers[1..][j - 1] == numbers[j];
      var k := FirstFreeDraw(members, numbers[1..]);
      assert forall j :: 0 < j <= k ==> numbers[j] == numbers[1..][j - 1];
      1 + k
  }

  /**
   * A day whose thousand numbers are all taken does not end the loop on that
   * day: every draw of that date is taken, so the number stored is the first
   * free one drawn on a later date.
   */
  lemma FullDayRollsOver(members: MemberTable, draws: seq<Draw>, day: int, n: nat)
    requires forall ms: nat :: ms < 1000 ==> NumberTaken(members, MemberEntity.MemberNumber(day, ms))
    requires n < |draws| && !NumberTaken(members, DrawnNumber(draws[n]))
    requires forall j :: 0 <= j < n ==> draws[j].date == day
    ensures SomeFree(members, DrawnNumbers(draws)) && FirstFreeDraw(members, DrawnNumbers(draws)) == n
    ensures draws[n].date != day
  {
    var numbers := DrawnNumbers(draws);
    forall j | 0 <= j <= n && draws[j].date == day
      ensures NumberTaken(members, numbers[j])
    {
      DrawnNumberMod(draws[j]);
    }
    assert !NumberTaken(members, numbers[n]);
    assert SomeFree(members, numbers);
    var i := FirstFreeDraw(members, numbers);
    assert i <= n;
  }

  /** Only the milliseconds modulo 1000 reach the number. */
  lemma DrawnNumberMod(d: Draw)
    ensures DrawnNumber(d) == MemberEntity.MemberNumber(d.date, d.millis % 1000)
  {
    var r := d.millis % 1000;
    assert 0 <= r < 1000 && r % 1000 == r;
  }

  /** The stored member: drawn number, and defaults only where the request left a field out. */
  function NewMember(f: MemberForm, id: int, number: string, today: int): (m: MemberEntity.MemberRow)
    ensures m.id == id && m.memberNumber == number && m.name == f.name && m.email == f.email
    ensures m.joinDate == (if f.joinDate.Some? then f.joinDate.value else today)
    ensures m.status == (if f.status.Some? then f.status.value else MemberEntity.ACTIVE)
    ensures m.maxLoanCount == (if f.maxLoanCount.Some? then f.maxLoanCount.value else MemberEntity.DefaultMaxLoanCount)
  {
    MemberEntity.MemberRow(id, number, f.name, f.email, f.phone, f.address,
                           f.joinDate.GetOr(today), f.status.GetOr(MemberEntity.ACTIVE),
                           f.maxLoanCount.GetOr(MemberEntity.DefaultMaxLoanCount))
  }

  /** `createMember`. */
  function CreateMemberStep(t: Tables, f: MemberForm, draws: seq<Draw>, today: int, newId: int): (s: Step<MemberEntity.MemberRow, MemberError>)
    requires Valid(t) && newId !in t.members && SomeFree(t.members, DrawnNumbers(draws))
    ensures s.result.Err? <==> EmailTaken(t.members, f.email)
    ensures s.result.Err? ==> s == Fail(t, DuplicateEmail)
    ensures s.result.Ok? ==>
              && !NumberTaken(t.members, s.result.value.memberNumber)
              && s.result.value == NewMember(f, newId, s.result.value.memberNumber, today)
              && s.after == t.(members := t.members[newId := s.result.value])
  {
    if FindMemberByEmail(t, f.email).Some? then Fail(t, DuplicateEmail)
    else
      var number := DrawnNumbers(draws)[FirstFreeDraw(t.members, DrawnNumbers(draws))];
      var m := NewMember(f, newId, number, today);
      Step(t.(members := t.members[newId := m]), Ok(m))
  }

  /** A new member keeps every table constraint; no loan refers to it, so the stock invariant is untouched. */
  lemma CreateMemberPreserves(t: Tables, f: MemberForm, draws: seq<Draw>, today: int, newId: int)
    requires Valid(t) && newId !in t.members && SomeFree(t.members, DrawnNumbers(draws))
    ensures Valid(CreateMemberStep(t, f, draws, today, newId).after)
    ensures StockConsistent(t) ==> StockConsistent(CreateMemberStep(t, f, draws, today, newId).after)
  {
    var s := CreateMemberStep(t, f, draws, today, newId);
    if s.result.Ok? {
      InsertMemberPreserves(t, s.result.value);
    }
  }

  /** Adding a member under a fresh id, with a free number and a free e-mail, keeps every table constraint. */
  lemma InsertMemberPreserves(t: Tables, m: MemberEntity.MemberRow)
    requires Valid(t) && m.id !in t.members
    requires !NumberTaken(t.members, m.memberNumber) && !EmailTaken(t.members, m.email)
    ensures Valid(t.(members := t.members[m.id := m]))
    ensures StockConsistent(t) ==> StockConsistent(t.(members := t.members[m.id := m]))
  {
    var members := t.members[m.id := m];
    assert MemberKeys(members);
    assert UniqueMemberNumbers(members);
    assert UniqueMemberEmails(members);
    assert LoanReferences(t.(members := members));
  }

  // ----- updateMember -----

  /**
   * `updateMember`: a changed e-mail must be free; name, e-mail, phone, address
   * and the loan limit are copied, and a missing limit is refused by the
   * NOT NULL column when the row is written.
   */
  function UpdateMemberStep(t: Tables, id: int, f: MemberForm): (s: Step<MemberEntity.MemberRow, MemberError>)
    requires Valid(t)
    ensures id !in t.members ==> s == Fail(t, NoSuchMember)
    ensures (id in t.members && f.email != t.members[id].email && EmailTaken(t.members, f.email))
            ==> s == Fail(t, DuplicateEmail)
    ensures s.result.Err? <==>
              || id !in t.members
              || (f.email != t.members[id].email && EmailTaken(t.members, f.email))
              || f.maxLoanCount.None?
    ensures s.result.Err? ==> s.after == t
    ensures s.result.Ok? ==>
              && s.after == t.(members := t.members[id := s.result.value])
              && s.result.value == t.members[id].(name := f.name, email := f.email, phone := f.phone,
                                                   address := f.address, maxLoanCount := f.maxLoanCount.value)
  {
    if id !in t.members then Fail(t, NoSuchMember)
    else
      var existing := t.members[id];
      if existing.email != f.email && FindMemberByEmail(t, f.email).Some? then Fail(t, DuplicateEmail)
      else if f.maxLoanCount.None? then Fail(t, NullMaxLoanCount)
      else
        var m := existing.(name := f.name, email := f.email, phone := f.phone, address := f.address,
                           maxLoanCount := f.maxLoanCount.value);
        Step(t.(members := t.members[id := m]), Ok(m))
  }

  /** Editing keeps member number, join date and status, and keeps every invariant. */
  lemma UpdateMemberPreserves(t: Tables, id: int, f: MemberForm)
    requires Valid(t)
    ensures var s := UpdateMemberStep(t, id, f);
            s.result.Ok? ==> && s.result.value.memberNumber == t.members[id].memberNumber
                             && s.result.value.joinDate == t.members[id].joinDate
                             && s.result.value.status == t.members[id].status
    ensures Valid(UpdateMemberStep(t, id, f).after)
    ensures StockConsistent(t) ==> StockConsistent(UpdateMemberStep(t, id, f).after)
  {
    var s := UpdateMemberStep(t, id, f);
    if s.result.Ok? {
      var m := s.result.value;
      assert m.id == id;
      assert UniqueMemberEmails(s.after.members) by {
        if f.email != t.members[id].email {
          assert !EmailTaken(t.members, f.email);
        }
      }
    }
  }

  // ----- deleteMember / forceDeleteMember -----

  /** The user account registered under the member's e-mail, removed along with the member. */
  function WithoutUserOf(t: Tables, email: string): (users: UserTable)
    requires Valid(t)
    ensures forall k :: k in users <==> k in t.users && t.users[k].email != email
    ensures forall k :: k in users ==> users[k] == t.users[k]
  {
    var u := FindUserByEmail(t, email);
    if u.Some? then t.users - {u.value} else t.users
  }

  /** `deleteMember`: refused while any loan, in any state, refers to the member. */
  function DeleteMemberStep(t: Tables, id: int): (s: Step<(), MemberError>)
    requires Valid(t)
    ensures s.result.Err? <==> id !in t.members || LoanRepository.ExistsByMember(t.loans, id)
    ensures s.result.Err? ==> s.after == t
    ensures s.result.Ok? ==>
              s.after == t.(members := t.members - {id}, users := WithoutUserOf(t, t.members[id].email))
  {
    if id !in t.members then Fail(t, NoSuchMember)
    else if LoanRepository.ExistsByMember(t.loans, id) then Fail(t, HasLoans)
    else Step(t.(members := t.members - {id}, users := WithoutUserOf(t, t.members[id].email)), Ok(()))
  }

  lemma DeleteMemberPreserves(t: Tables, id: int)
    requires Valid(t)
    ensures Valid(DeleteMemberStep(t, id).after)
    ensures StockConsistent(t) ==> StockConsistent(DeleteMemberStep(t, id).after)
  {
  }

  /** `forceDeleteMember`: the member's loans go first, then the same-e-mail user, then the member. */
  function ForceDeleteMemberStep(t: Tables, id: int): (s: Step<(), MemberError>)
    requires Valid(t)
    ensures s.result.Err? <==> id !in t.members
    ensures s.result.Err? ==> s.after == t
    ensures s.result.Ok? ==>
              s.after == t.(members := t.members - {id}, users := WithoutUserOf(t, t.members[id].email),
                            loans := LoanRepository.DeleteByMember(t.loans, id))
  {
    if id !in t.members then Fail(t, NoSuchMember)
    else
      Step(t.(members := t.members - {id}, users := WithoutUserOf(t, t.members[id].email),
              loans := LoanRepository.DeleteByMember(t.loans, id)), Ok(()))
  }

  /** A loan still out with the member: its copy is counted as lent. */
  predicate HoldsCopy(t: Tables, id: int, k: int, b: int)
  {
    k in t.loans && t.loans[k].member == Some(id) && t.loans[k].book == Some(b) && t.loans[k].returnDate.None?
  }

  /**
   * Deleting the loans does not put their copies back on the shelf: the
   * stock invariant survives exactly when the member held no copy.
   */
  lemma ForceDeleteMemberStock(t: Tables, id: int)
    requires Valid(t) && StockConsistent(t) && id in t.members
    ensures Valid(ForceDeleteMemberStep(t, id).after)
    ensures (forall k, b :: !HoldsCopy(t, id, k, b)) ==> StockConsistent(ForceDeleteMemberStep(t, id).after)
    ensures (exists k, b :: HoldsCopy(t, id, k, b)) ==> !StockConsistent(ForceDeleteMemberStep(t, id).after)
  {
    var after := ForceDeleteMemberStep(t, id).after;
    assert forall b, k :: k in Outstanding(after.loans, b) ==> k in Outstanding(t.loans, b);
    if exists k, b :: HoldsCopy(t, id, k, b) {
      var k, b :| HoldsCopy(t, id, k, b);
      assert k in Outstanding(t.loans, b) && k !in Outstanding(after.loans, b);
      StrictSubsetSmaller(Outstanding(after.loans, b), Outstanding(t.loans, b), k);
      assert b in after.books;
    } else {
      forall b ensures Outstanding(after.loans, b) == Outstanding(t.loans, b) {
        forall k | k in Outstanding(t.loans, b) ensures k in Outstanding(after.loans, b) {
          assert !HoldsCopy(t, id, k, b);
          assert k in after.loans;
        }
      }
    }
  }

  lemma StrictSubsetSmaller(a: set<int>, b: set<int>, x: int)
    requires a <= b && x in b && x !in a
    ensures |a| < |b|
  {
    assert b == a + (b - a);
    assert x in b - a;
  }

  // ----- activate / suspend / withdraw -----

  /** `activateMember`, `suspendMember`, `withdrawMember`: the entity's status change, saved. */
  function ChangeStatusStep(t: Tables, id: int, status: MemberEntity.MemberStatus): (s: Step<MemberEntity.MemberRow, MemberError>)
    ensures s.result.Err? <==> id !in t.members
    ensures s.result.Err? ==> s.after == t
    ensures s.result.Ok? ==>
              && s.result.value.status == status
              && s.result.value.(status := t.members[id].status) == t.members[id]
              && s.after == t.(members := t.members[id := s.result.value])
  {
    if id !in t.members then Fail(t, NoSuchMember)
    else
      var m := MemberEntity.WithStatus(t.members[id], status);
      Step(t.(members := t.members[id := m]), Ok(m))
  }

  /** Status changes keep every invariant and are idempotent. */
  lemma ChangeStatusPreserves(t: Tables, id: int, status: MemberEntity.MemberStatus)
    requires Valid(t)
    ensures Valid(ChangeStatusStep(t, id, status).after)
    ensures StockConsistent(t) ==> StockConsistent(ChangeStatusStep(t, id, status).after)
    ensures ChangeStatusStep(ChangeStatusStep(t, id, status).after, id, status) == ChangeStatusStep(t, id, status)
  {
    var s := ChangeStatusStep(t, id, status);
    if s.result.Ok? {
      assert s.after.members[id := s.result.value] == s.after.members;
    }
  }

  // ----- searchMembers -----

  /** Name or e-mail contains the keyword (`LIKE %k%`). */
  predicate KeywordMatch(m: MemberEntity.MemberRow, keyword: string)
  {
    Includes(m.name, keyword) || Includes(m.email, keyword)
  }

  /** `searchMembers`: everyone for a missing or blank keyword, otherwise the trimmed keyword's matches. */
  function SearchMembers(members: MemberTable, keyword: Option<string>): (r: set<int>)
    ensures keyword.None? || IsJavaBlank(keyword.value) ==> r == members.Keys
    ensures keyword.Some? && !IsJavaBlank(keyword.value) ==>
              forall k :: k in r <==> (k in members && KeywordMatch(members[k], JavaTrim(keyword.value)))
  {
    if keyword.None? then members.Keys
    else
      JavaTrimEmpty(keyword.value);
      var kw := JavaTrim(keyword.value);
      if kw == [] then members.Keys else set k | k in members && KeywordMatch(members[k], kw)
  }

  // ----- the service object -----

  class MemberService {
    const db: Database

    constructor (db: Database)
      ensures this.db == db
    {
      this.db := db;
    }

    method CreateMember(f: MemberForm, draws: seq<Draw>, today: int, newId: int) returns (r: Result<MemberEntity.MemberRow, MemberError>)
      requires Valid(db.T()) && newId !in db.members && SomeFree(db.members, DrawnNumbers(draws))
      modifies db
      ensures Step(db.T(), r) == CreateMemberStep(old(db.T()), f, draws, today, newId)
    {
      if FindMemberByEmail(db.T(), f.email).Some? {
        return Err(DuplicateEmail);
      }
      ghost var numbers := DrawnNumbers(draws);
      var members := db.members;
      var i := 0;
      var number := DrawnNumber(draws[0]);
      while NumberTaken(members, number)
        invariant 0 <= i < |draws| && number == numbers[i]
        invariant forall j :: 0 <= j < i ==> NumberTaken(members, numbers[j])
        invariant i <= FirstFreeDraw(members, numbers)
        decreases |draws| - i
      {
        assert i < FirstFreeDraw(members, numbers);
        i := i + 1;
        number := DrawnNumber(draws[i]);
      }
      assert i == FirstFreeDraw(members, numbers);
      var m := NewMember(f, newId, number, today);
      db.members := members[newId := m];
      r := Ok(m);
    }

    method UpdateMember(id: int, f: MemberForm) returns (r: Result<MemberEntity.MemberRow, MemberError>)
      requires Valid(db.T())
      modifies db
      ensures Step(db.T(), r) == UpdateMemberStep(old(db.T()), id, f)
    {
      if id !in db.members {
        return Err(NoSuchMember);
      }
      var existing := db.members[id];
      if existing.email != f.email && FindMemberByEmail(db.T(), f.email).Some? {
        return Err(DuplicateEmail);
      }
      if f.maxLoanCount.None? {
        return Err(NullMaxLoanCount);
      }
      existing := existing.(name := f.name, email := f.email, phone := f.phone, address := f.address,
                            maxLoanCount := f.maxLoanCount.value);
      db.members := db.members[id := existing];
      r := Ok(existing);
    }

    method DeleteMember(id: int) returns (r: Result<(), MemberError>)
      requires Valid(db.T())
      modifies db
      ensures Step(db.T(), r) == DeleteMemberStep(old(db.T()), id)
    {
      if id !in db.members {
        return Err(NoSuchMember);
      }
      if LoanRepository.ExistsByMember(db.loans, id) {
        return Err(HasLoans);
      }
      var email := db.members[id].email;
      var user := FindUserByEmail(db.T(), email);
      if user.Some? {
        db.users := db.users - {user.value};
      }
      db.members := db.members - {id};
      r := Ok(());
    }

    method ForceDeleteMember(id: int) returns (r: Result<(), MemberError>)
      requires Valid(db.T())
      modifies db
      ensures Step(db.T(), r) == ForceDeleteMemberStep(old(db.T()), id)
    {
      if id !in db.members {
        return Err(NoSuchMember);
      }
      var email := db.members[id].email;
      var user := FindUserByEmail(db.T(), email);
      db.loans := LoanRepository.DeleteByMember(db.loans, id);
      if user.Some? {
        db.users := db.users - {user.value};
      }
      db.members := db.members - {id};
      r := Ok(());
    }

    method ChangeStatus(id: int, status: MemberEntity.MemberStatus) returns (r: Result<MemberEntity.MemberRow, MemberError>)
      modifies db
      ensures Step(db.T(), r) == ChangeStatusStep(old(db.T()), id, status)
    {
      if id !in db.members {
        return Err(NoSuchMember);
      }
      var m := MemberEntity.WithStatus(db.members[id], status);
      db.members := db.members[id := m];
      r := Ok(m);
    }
  }
}
