/** The `Member` entity: a library member with a status that decides whether they may borrow. */
module MemberEntity {
  import opened Wrappers
  import opened Text
  import opened Dates

  datatype MemberStatus = ACTIVE | SUSPENDED | WITHDRAWN

  const DefaultMaxLoanCount := 5

  /** A row of the `members` table. */
  datatype MemberRow = MemberRow(
    id: int,
    memberNumber: string,
    name: string,
    email: string,
    phone: Option<string>,
    address: Option<string>,
    joinDate: int,
    status: MemberStatus,
    maxLoanCount: int)

  /** `canLoan`: only active members may borrow. */
  predicate CanLoan(m: MemberRow)
  {
    m.status == ACTIVE
  }

  /** `suspend`, `activate` and `withdraw` all set the status and nothing else. */
  function WithStatus(m: MemberRow, s: MemberStatus): (r: MemberRow)
    ensures r.status == s
    ensures r.(status := m.status) == m
  {
    m.(status := s)
  }

  /** After a status change a member may borrow exactly when the new status is ACTIVE; the last change wins. */
  lemma StatusChangeDecidesLoans(m: MemberRow, s: MemberStatus, t: MemberStatus)
    ensures CanLoan(WithStatus(m, s)) <==> s == ACTIVE
    ensures WithStatus(WithStatus(m, s), t) == WithStatus(m, t)
  {
  }

  predicate IsDash(c: char) { c == '-' }

  /**
   * `generateMemberNumber`: `"M"`, today's ISO date without its dashes, and the
   * clock's milliseconds modulo 1000 as three digits.  `millis` is
   * `System.currentTimeMillis()`, which is non-negative after 1970.
   */
  function MemberNumber(today: int, millis: nat): string
  {
    "M" + Remove(IsoText(today), IsDash) + PadStart(Decimal(millis % 1000), 3, '0')
  }

  /**
   * For four-digit years the number is `M` followed by eleven digits: the date
   * as `yyyyMMdd`, then the milliseconds, which read back as `millis % 1000`.
   */
  lemma {:induction false} MemberNumberFormat(today: int, millis: nat)
    requires 0 <= CivilFromDays(today).year <= 9999
    ensures var n := MemberNumber(today, millis);
      |n| == 12 && n[0] == 'M' && AllDigits(n[1..])
      && n[1..9] == YearText(CivilFromDays(today).year) + TwoDigits(CivilFromDays(today).month)
                    + TwoDigits(CivilFromDays(today).day)
      && DigitsValue(n[9..]) == millis % 1000
  {
    var c := CivilFromDays(today);
    var y, mo, d := YearText(c.year), TwoDigits(c.month), TwoDigits(c.day);
    DashlessDate(today);
    var ms := millis % 1000;
    MillisSuffix(ms);
    var n := MemberNumber(today, millis);
    assert n == "M" + (y + mo + d) + PadStart(Decimal(ms), 3, '0');
    assert n[9..] == PadStart(Decimal(ms), 3, '0');
    assert n[1..9] == y + mo + d;
  }

  /** Removing the dashes from an ISO date of a four-digit year leaves `yyyyMMdd`. */
  lemma DashlessDate(today: int)
    requires 0 <= CivilFromDays(today).year <= 9999
    ensures var c := CivilFromDays(today);
            Remove(IsoText(today), IsDash) == YearText(c.year) + TwoDigits(c.month) + TwoDigits(c.day)
  {
    var c := CivilFromDays(today);
    var y, mo, d := YearText(c.year), TwoDigits(c.month), TwoDigits(c.day);
    var a := y + "-";
    var b := a + mo;
    var e := b + "-";
    assert IsoText(today) == e + d;
    assert Remove("-", IsDash) == [];
    RemoveNothing(y, IsDash);
    RemoveNothing(mo, IsDash);
    RemoveNothing(d, IsDash);
    RemoveConcat(y, "-", IsDash);
    assert Remove(a, IsDash) == y;
    RemoveConcat(a, mo, IsDash);
    assert Remove(b, IsDash) == y + mo;
    RemoveConcat(b, "-", IsDash);
    assert Remove(e, IsDash) == y + mo;
    RemoveConcat(e, d, IsDash);
  }

  /** The milliseconds padded to three digits read back as themselves. */
  lemma MillisSuffix(ms: nat)
    requires ms < 1000
    ensures var p := PadStart(Decimal(ms), 3, '0');
            |p| == 3 && AllDigits(p) && DigitsValue(p) == ms
  {
    if ms < 10 {
    } else if ms < 100 {
      DecimalLength(ms, 2);
    } else {
      DecimalLength(ms, 3);
    }
    ZeroPadValue(Decimal(ms), 3);
    DecimalValue(ms);
  }

  /** The JPA entity object, whose status changes in place. */
  class Member {
    const id: int
    var memberNumber: string
    var name: string
    var email: string
    var phone: Option<string>
    var address: Option<string>
    var joinDate: int
    var status: MemberStatus
    var maxLoanCount: int

    function Row(): MemberRow
      reads this
    {
      MemberRow(id, memberNumber, name, email, phone, address, joinDate, status, maxLoanCount)
    }

    /** `Member.builder()…build()` with the field defaults: joined today, active, up to five loans. */
    constructor (id: int, memberNumber: string, name: string, email: string, today: int)
      ensures Row() == MemberRow(id, memberNumber, name, email, None, None, today, ACTIVE, DefaultMaxLoanCount)
    {
      this.id := id;
      this.memberNumber := memberNumber;
      this.name := name;
      this.email := email;
      phone := None;
      address := None;
      joinDate := today;
      status := ACTIVE;
      maxLoanCount := DefaultMaxLoanCount;
    }

    predicate CanLoan()
      reads this
    {
      status == ACTIVE
    }

    method Suspend()
      modifies this
      ensures Row() == WithStatus(old(Row()), SUSPENDED)
    {
      status := SUSPENDED;
    }

    method Activate()
      modifies this
      ensures Row() == WithStatus(old(Row()), ACTIVE)
    {
      status := ACTIVE;
    }

    method Withdraw()
      modifies this
      ensures Row() == WithStatus(old(Row()), WITHDRAWN)
    {
      status := WITHDRAWN;
    }
  }
}
