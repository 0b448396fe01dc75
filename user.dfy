/**
 * The `User` entity: a login account (Spring Security `UserDetails`) that also
 * carries a copy of the member fields.
 */
module UserEntity {
  import opened Wrappers
  import MemberEntity

  /** Account roles; the application grants ADMIN and USER. */
  datatype Role = ADMIN | USER

  function RoleName(r: Role): string
  {
    match r
    case ADMIN => "ADMIN"
    case USER => "USER"
  }

  /** A row of the `users` table; `password` holds the encoded password. */
  datatype UserRow = UserRow(
    id: int,
    username: string,
    password: string,
    email: string,
    name: string,
    phone: Option<string>,
    address: Option<string>,
    memberNumber: Option<string>,
    joinDate: int,
    memberStatus: MemberEntity.MemberStatus,
    maxLoanCount: int,
    emailVerified: bool,
    emailVerificationToken: Option<string>,
    role: Role)

  /** `getAuthorities`: the single authority `ROLE_<role>`. */
  function Authorities(u: UserRow): (r: seq<string>)
    ensures |r| == 1
    ensures |r[0]| >= 5 && r[0][..5] == "ROLE_" && r[0][5..] == RoleName(u.role)
  {
    ["ROLE_" + RoleName(u.role)]
  }

  /** Distinct roles give distinct authorities, so an authority check identifies the role. */
  lemma AuthoritiesIdentifyRole(u: UserRow, v: UserRow)
    ensures Authorities(u) == Authorities(v) <==> u.role == v.role
  {
    if Authorities(u) == Authorities(v) {
      assert Authorities(u)[0][5..] == Authorities(v)[0][5..];
    }
  }

  predicate IsAccountNonExpired(u: UserRow) { true }
  predicate IsAccountNonLocked(u: UserRow) { true }
  predicate IsCredentialsNonExpired(u: UserRow) { true }
  predicate IsEnabled(u: UserRow) { true }

  /** No account is ever expired, locked, out of date or disabled. */
  lemma AccountAlwaysUsable(u: UserRow)
    ensures IsAccountNonExpired(u) && IsAccountNonLocked(u)
    ensures IsCredentialsNonExpired(u) && IsEnabled(u)
  {
  }

  /** `canLoan`: only an active member status lets the account borrow. */
  predicate CanLoan(u: UserRow)
  {
    u.memberStatus == MemberEntity.ACTIVE
  }

  function WithMemberStatus(u: UserRow, s: MemberEntity.MemberStatus): (r: UserRow)
    ensures r.memberStatus == s
    ensures r.(memberStatus := u.memberStatus) == u
    ensures CanLoan(r) <==> s == MemberEntity.ACTIVE
  {
    u.(memberStatus := s)
  }

  /** The JPA entity object; only the member status is changed in place by its own methods. */
  class User {
    const id: int
    var username: string
    var password: string
    var email: string
    var name: string
    var phone: Option<string>
    var address: Option<string>
    var memberNumber: Option<string>
    var joinDate: int
    var memberStatus: MemberEntity.MemberStatus
    var maxLoanCount: int
    var emailVerified: bool
    var emailVerificationToken: Option<string>
    var role: Role

    function Row(): UserRow
      reads this
    {
      UserRow(id, username, password, email, name, phone, address, memberNumber, joinDate,
              memberStatus, maxLoanCount, emailVerified, emailVerificationToken, role)
    }

    /** `User.builder()…build()` with the field defaults: joined today, active, five loans, unverified. */
    constructor (id: int, username: string, password: string, email: string, name: string,
                 role: Role, today: int)
      ensures Row() == UserRow(id, username, password, email, name, None, None, None, today,
                               MemberEntity.ACTIVE, MemberEntity.DefaultMaxLoanCount, false, None, role)
    {
      this.id := id;
      this.username := username;
      this.password := password;
      this.email := email;
      this.name := name;
      phone := None;
      address := None;
      memberNumber := None;
      joinDate := today;
      memberStatus := MemberEntity.ACTIVE;
      maxLoanCount := MemberEntity.DefaultMaxLoanCount;
      emailVerified := false;
      emailVerificationToken := None;
      this.role := role;
    }

    method Suspend()
      modifies this
      ensures Row() == WithMemberStatus(old(Row()), MemberEntity.SUSPENDED)
    {
      memberStatus := MemberEntity.SUSPENDED;
    }

    method Activate()
      modifies this
      ensures Row() == WithMemberStatus(old(Row()), MemberEntity.ACTIVE)
    {
      memberStatus := MemberEntity.ACTIVE;
    }

    method Withdraw()
      modifies this
      ensures Row() == WithMemberStatus(old(Row()), MemberEntity.WITHDRAWN)
    {
      memberStatus := MemberEntity.WITHDRAWN;
    }
  }
}
