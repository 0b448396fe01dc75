/**
 * `AuthService`: sign-up with e-mail verification, login, the find-id and
 * reset-password flows driven by five-minute one-time codes, and account
 * withdrawal.  The password encoder is a function parameter, the JWT signer
 * too; whether the mail server accepts a message is a `bool` parameter (a
 * refused message throws, so the whole call rolls back).
 */
module AuthService {
  import opened Wrappers
  import opened Store
  import MemberEntity
  import UserEntity
  import opened VerificationEntities
  import CodeRepository
  import EmailService

  datatype AuthError =
    | UsernameTaken         // "이미 존재하는 사용자명입니다."
    | EmailTaken            // "이미 존재하는 이메일입니다."
    | Conflict              // a unique column of `users` refuses the saved row
    | MailFailed            // "이메일 발송에 실패했습니다."
    | NoSuchAccount         // "존재하지 않는 계정입니다."
    | WrongPassword         // "비밀번호가 일치하지 않습니다."
    | EmailNotVerified      // "이메일 인증이 완료되지 않은 계정입니다. ..."
    | NoSuchUser            // "사용자를 찾을 수 없습니다." and the other lookup failures
    | InvalidToken          // "잘못된 인증 토큰입니다."
    | InvalidCode           // "잘못되었거나 만료된 인증코드입니다."
    | NonUniqueCode         // two matching codes: the single-result query throws
    | InfoMismatch          // "사용자 정보가 일치하지 않습니다." / "인증 정보가 일치하지 않습니다."
    | AdminNotWithdrawable  // "관리자 계정은 탈퇴할 수 없습니다."
    | CodeNotSaved          // the NOT NULL `created_at` column refuses a code row without it

  /** `PasswordEncoder.encode`; `matches(raw, hash)` is `encode(raw) == hash`. */
  type Encoder = string -> string

  /** The account exempt from the e-mail and member checks, and never withdrawn. */
  const Admin := "admin"

  predicate HasUsername(t: Tables, username: string)
  {
    exists k :: k in t.users && t.users[k].username == username
  }

  // ----- register -----

  datatype RegisterForm = RegisterForm(
    username: string,
    password: string,
    email: string,
    name: string,
    phone: Option<string>,
    address: Option<string>)

  /** The unverified account that a registration reuses: the one with the username, else the one with the e-mail. */
  function Reused(t: Tables, f: RegisterForm): (r: Option<int>)
    requires Valid(t)
    ensures r.None? <==> (forall k :: k in t.users ==> t.users[k].username != f.username && t.users[k].email != f.email)
    ensures r.Some? ==> r.value in t.users
    ensures HasUsername(t, f.username) ==> r.Some? && t.users[r.value].username == f.username
    ensures r.Some? && !HasUsername(t, f.username) ==> t.users[r.value].email == f.email
  {
    var byName := FindUserByUsername(t, f.username);
    if byName.Some? then byName else FindUserByEmail(t, f.email)
  }

  /** Another row already holds one of the unique values of `u`. */
  predicate Collides(users: UserTable, u: UserEntity.UserRow)
  {
    exists k :: k in users && k != u.id
      && (users[k].username == u.username || users[k].email == u.email
          || (u.memberNumber.Some? && users[k].memberNumber == u.memberNumber))
  }

  /** No verified account holds the username or the e-mail: both duplicate checks pass. */
  predicate Unclaimed(t: Tables, f: RegisterForm)
  {
    && (forall k :: k in t.users && t.users[k].username == f.username ==> !t.users[k].emailVerified)
    && (forall k :: k in t.users && t.users[k].email == f.email ==> !t.users[k].emailVerified)
  }

  /** The id the registration is saved under: the reused account's, else the new one. */
  function SavedId(t: Tables, f: RegisterForm, newId: int): (k: int)
    requires Valid(t)
    ensures Reused(t, f).Some? ==> k == Reused(t, f).value && k in t.users
    ensures Reused(t, f).None? ==> k == newId
  {
    var r := Reused(t, f);
    if r.Some? then r.value else newId
  }

  /** The row `register` saves: the reused account with the form copied in, or a new USER account. */
  function Registered(t: Tables, f: RegisterForm, enc: Encoder, token: string, today: int, millis: nat, newId: int): (u: UserEntity.UserRow)
    requires Valid(t)
    ensures u.username == f.username && u.email == f.email && u.name == f.name && u.password == enc(f.password)
    ensures u.emailVerificationToken == Some(token)
    ensures Reused(t, f).Some? ==> u.id == Reused(t, f).value && u.role == t.users[u.id].role
                                   && u.emailVerified == t.users[u.id].emailVerified
    ensures Reused(t, f).None? ==> u.id == newId && u.role == UserEntity.USER && !u.emailVerified
  {
    var r := Reused(t, f);
    if r.Some? then
      t.users[r.value].(username := f.username, password := enc(f.password), email := f.email, name := f.name,
                        phone := f.phone, address := f.address, emailVerificationToken := Some(token))
    else
      UserEntity.UserRow(newId, f.username, enc(f.password), f.email, f.name, f.phone, f.address,
                         Some(MemberEntity.MemberNumber(today, millis)), today, MemberEntity.ACTIVE,
                         MemberEntity.DefaultMaxLoanCount, false, Some(token), UserEntity.USER)
  }

  /** `register`: `tokenDraw` is the random draw behind the six-digit token, `millis` the clock for the member number. */
  function RegisterStep(t: Tables, f: RegisterForm, enc: Encoder, tokenDraw: int, today: int, millis: nat,
                        newId: int, mailOk: bool): (s: Step<(), AuthError>)
    requires Valid(t) && newId !in t.users && 0 <= tokenDraw < 900000
    ensures s.result == Err(UsernameTaken) <==>
              exists k :: k in t.users && t.users[k].username == f.username && t.users[k].emailVerified
    ensures s.result == Err(EmailTaken) <==>
              && (forall k :: k in t.users && t.users[k].username == f.username ==> !t.users[k].emailVerified)
              && (exists k :: k in t.users && t.users[k].email == f.email && t.users[k].emailVerified)
    ensures !mailOk ==> s.result.Err?
    ensures s.result == Err(MailFailed) ==> !mailOk
    ensures Unclaimed(t, f) ==>
              (s.result == Err(Conflict) <==>
                 Collides(t.users, Registered(t, f, enc, EmailService.EmailVerificationToken(tokenDraw), today, millis, newId)))
    ensures Unclaimed(t, f) && mailOk
            && !Collides(t.users, Registered(t, f, enc, EmailService.EmailVerificationToken(tokenDraw), today, millis, newId))
            ==> s.result.Ok?
    ensures s.result.Err? ==> s.after == t
    ensures s.result.Ok? ==>
              var k := SavedId(t, f, newId);
              var u := Registered(t, f, enc, EmailService.EmailVerificationToken(tokenDraw), today, millis, newId);
              && s.after == t.(users := t.users[k := u])
              && u.username == f.username && u.email == f.email && u.name == f.name
              && u.password == enc(f.password) && !u.emailVerified
              && u.emailVerificationToken == Some(EmailService.EmailVerificationToken(tokenDraw))
              && (k in t.users ==> !t.users[k].emailVerified && u.role == t.users[k].role)
              && (k !in t.users ==> u.role == UserEntity.USER)
  {
    var refused := DuplicateCheck(t, f);
    if refused.Some? then Fail(t, refused.value)
    else SaveRegistration(t, f, enc, tokenDraw, today, millis, newId, mailOk)
  }

  /** The two duplicate checks of `register`, in order: a verified holder of the username, then of the e-mail. */
  function DuplicateCheck(t: Tables, f: RegisterForm): (r: Option<AuthError>)
    requires Valid(t)
    ensures r == Some(UsernameTaken) <==>
              exists k :: k in t.users && t.users[k].username == f.username && t.users[k].emailVerified
    ensures r == Some(EmailTaken) <==>
              && (forall k :: k in t.users && t.users[k].username == f.username ==> !t.users[k].emailVerified)
              && (exists k :: k in t.users && t.users[k].email == f.email && t.users[k].emailVerified)
    ensures r.None? || r == Some(UsernameTaken) || r == Some(EmailTaken)
  {
    var byName := FindUserByUsername(t, f.username);
    var byEmail := FindUserByEmail(t, f.email);
    if byName.Some? && t.users[byName.value].emailVerified then Some(UsernameTaken)
    else if byEmail.Some? && t.users[byEmail.value].emailVerified then Some(EmailTaken)
    else None
  }

  /** The save and the mail of a registration that passed both duplicate checks. */
  function SaveRegistration(t: Tables, f: RegisterForm, enc: Encoder, tokenDraw: int, today: int, millis: nat,
                            newId: int, mailOk: bool): (s: Step<(), AuthError>)
    requires Valid(t) && newId !in t.users && 0 <= tokenDraw < 900000
    requires forall k :: k in t.users && t.users[k].username == f.username ==> !t.users[k].emailVerified
    requires forall k :: k in t.users && t.users[k].email == f.email ==> !t.users[k].emailVerified
    ensures s.result.Err? ==> s.after == t && (s.result.error == Conflict || s.result.error == MailFailed)
    ensures !mailOk ==> s.result.Err?
    ensures s.result == Err(MailFailed) ==> !mailOk
    ensures s.result == Err(Conflict) <==>
              Collides(t.users, Registered(t, f, enc, EmailService.EmailVerificationToken(tokenDraw), today, millis, newId))
    ensures mailOk && !Collides(t.users, Registered(t, f, enc, EmailService.EmailVerificationToken(tokenDraw), today, millis, newId))
            ==> s.result.Ok?
    ensures s.result.Ok? ==>
              var k := SavedId(t, f, newId);
              var u := Registered(t, f, enc, EmailService.EmailVerificationToken(tokenDraw), today, millis, newId);
              && s.after == t.(users := t.users[k := u])
              && u.username == f.username && u.email == f.email && u.name == f.name
              && u.password == enc(f.password) && !u.emailVerified
              && u.emailVerificationToken == Some(EmailService.EmailVerificationToken(tokenDraw))
              && (k in t.users ==> !t.users[k].emailVerified && u.role == t.users[k].role)
              && (k !in t.users ==> u.role == UserEntity.USER)
  {
    var u := Registered(t, f, enc, EmailService.EmailVerificationToken(tokenDraw), today, millis, newId);
    if Collides(t.users, u) then Fail(t, Conflict)
    else if !mailOk then Fail(t, MailFailed)
    else
      RegisterRow(t, f, enc, EmailService.EmailVerificationToken(tokenDraw), today, millis, newId);
      Step(t.(users := t.users[u.id := u]), Ok(()))
  }

  /** The row a registration that passed both duplicate checks saves: unverified, and under the reused or the new id. */
  lemma RegisterRow(t: Tables, f: RegisterForm, enc: Encoder, token: string, today: int, millis: nat, newId: int)
    requires Valid(t) && newId !in t.users
    requires forall k :: k in t.users && t.users[k].username == f.username ==> !t.users[k].emailVerified
    requires forall k :: k in t.users && t.users[k].email == f.email ==> !t.users[k].emailVerified
    ensures var u := Registered(t, f, enc, token, today, millis, newId);
            && !u.emailVerified && u.id == SavedId(t, f, newId)
            && (Reused(t, f).Some? <==> u.id in t.users)
            && (u.id in t.users ==> !t.users[u.id].emailVerified)
  {
  }

  /** A registration overwrites the reused account in place, or adds exactly the new id. */
  lemma RegisterWritesOneRow(t: Tables, f: RegisterForm, enc: Encoder, tokenDraw: int, today: int, millis: nat,
                             newId: int, mailOk: bool)
    requires Valid(t) && newId !in t.users && 0 <= tokenDraw < 900000
    ensures var s := RegisterStep(t, f, enc, tokenDraw, today, millis, newId, mailOk);
            && (s.result.Ok? && Reused(t, f).Some? ==>
                  && s.after.users.Keys == t.users.Keys
                  && s.after.users[Reused(t, f).value].username == f.username)
            && (s.result.Ok? && Reused(t, f).None? ==> s.after.users.Keys == t.users.Keys + {newId})
  {
    var s := RegisterStep(t, f, enc, tokenDraw, today, millis, newId, mailOk);
    if s.result.Ok? {
      var k := SavedId(t, f, newId);
      var u := Registered(t, f, enc, EmailService.EmailVerificationToken(tokenDraw), today, millis, newId);
      assert s.after.users == t.users[k := u];
      UpdateKeys(t.users, k, u);
    }
  }

  lemma UpdateKeys(users: UserTable, k: int, u: UserEntity.UserRow)
    ensures k in users ==> users[k := u].Keys == users.Keys
    ensures k !in users ==> users[k := u].Keys == users.Keys + {k}
  {
  }

  /** A registration keeps every table constraint. */
  lemma RegisterPreserves(t: Tables, f: RegisterForm, enc: Encoder, tokenDraw: int, today: int, millis: nat,
                          newId: int, mailOk: bool)
    requires Valid(t) && newId !in t.users && 0 <= tokenDraw < 900000
    ensures Valid(RegisterStep(t, f, enc, tokenDraw, today, millis, newId, mailOk).after)
    ensures StockConsistent(t) ==> StockConsistent(RegisterStep(t, f, enc, tokenDraw, today, millis, newId, mailOk).after)
  {
    var s := RegisterStep(t, f, enc, tokenDraw, today, millis, newId, mailOk);
    if s.result.Ok? {
      var u := Registered(t, f, enc, EmailService.EmailVerificationToken(tokenDraw), today, millis, newId);
      assert !Collides(t.users, u);
      assert s.after == t.(users := t.users[u.id := u]);
      SaveUserPreserves(t, u);
    }
  }

  /** Saving a user row whose unique columns clash with no other row keeps every table constraint. */
  lemma SaveUserPreserves(t: Tables, u: UserEntity.UserRow)
    requires Valid(t) && !Collides(t.users, u)
    ensures Valid(t.(users := t.users[u.id := u]))
    ensures StockConsistent(t) ==> StockConsistent(t.(users := t.users[u.id := u]))
  {
    var users := t.users[u.id := u];
    assert UserKeys(users);
    assert UniqueUserColumns(users);
  }

  /** An unverified account holding the username is overwritten in place: no row is added. */
  lemma RegisterReusesUnverified(t: Tables, f: RegisterForm, enc: Encoder, tokenDraw: int, today: int, millis: nat,
                                 newId: int, mailOk: bool)
    requires Valid(t) && newId !in t.users && 0 <= tokenDraw < 900000
    requires exists k :: k in t.users && t.users[k].username == f.username && !t.users[k].emailVerified
    ensures var s := RegisterStep(t, f, enc, tokenDraw, today, millis, newId, mailOk);
            s.result != Err(UsernameTaken) && (s.result.Ok? ==> s.after.users.Keys == t.users.Keys)
  {
    var k :| k in t.users && t.users[k].username == f.username && !t.users[k].emailVerified;
    assert FindUserByUsername(t, f.username) == Some(k);
    assert Reused(t, f) == Some(k);
  }

  // ----- loginWithUserInfo -----

  /** The map the controller returns: token, username, real name and role. */
  datatype LoginInfo = LoginInfo(token: string, username: string, name: string, role: string)

  /** The checks before the member check, which every login passes through. */
  function Credentials(t: Tables, username: string, password: string, enc: Encoder): (r: Result<int, AuthError>)
    requires Valid(t)
    ensures r == Err(NoSuchAccount) <==> !HasUsername(t, username)
    ensures r.Ok? ==> r.value in t.users && t.users[r.value].username == username
                      && enc(password) == t.users[r.value].password
                      && (t.users[r.value].emailVerified || username == Admin)
    ensures r == Err(WrongPassword) <==>
              exists k :: k in t.users && t.users[k].username == username && enc(password) != t.users[k].password
    ensures r.Err? ==> r.error in {NoSuchAccount, WrongPassword, EmailNotVerified}
  {
    var found := FindUserByUsername(t, username);
    if found.None? then Err(NoSuchAccount)
    else
      var u := t.users[found.value];
      if enc(password) != u.password then Err(WrongPassword)
      else if !u.emailVerified && username != Admin then Err(EmailNotVerified)
      else Ok(found.value)
  }

  /** A non-admin account whose member row (same e-mail) is gone. */
  predicate Orphaned(t: Tables, k: int, username: string)
    requires k in t.users
  {
    username != Admin && forall m :: m in t.members ==> t.members[m].email != t.users[k].email
  }

  function Info(u: UserEntity.UserRow, sign: UserEntity.UserRow -> string): LoginInfo
  {
    LoginInfo(sign(u), u.username, u.name, UserEntity.RoleName(u.role))
  }

  /**
   * `loginWithUserInfo` as written: the orphaned account is deleted and then
   * the call throws, and the class-wide `@Transactional` rolls the delete back.
   */
  function LoginStepAsWritten(t: Tables, username: string, password: string, enc: Encoder,
                              sign: UserEntity.UserRow -> string): (s: Step<LoginInfo, AuthError>)
    requires Valid(t)
    ensures s.after == t
  {
    var c := Credentials(t, username, password, enc);
    if c.Err? then Fail(t, c.error)
    else if Orphaned(t, c.value, username) then Fail(t, NoSuchAccount)
    else Step(t, Ok(Info(t.users[c.value], sign)))
  }

  /** `loginWithUserInfo` as intended: the orphaned account is removed for good and the login still fails. */
  function LoginStep(t: Tables, username: string, password: string, enc: Encoder,
                     sign: UserEntity.UserRow -> string): (s: Step<LoginInfo, AuthError>)
    requires Valid(t)
    ensures s.result.Ok? <==> Credentials(t, username, password, enc).Ok?
                              && !Orphaned(t, Credentials(t, username, password, enc).value, username)
    ensures s.result.Ok? ==> var u := t.users[Credentials(t, username, password, enc).value];
                             && s.result.value.username == username && s.result.value.name == u.name
                             && s.result.value.role == UserEntity.RoleName(u.role) && s.after == t
    ensures Credentials(t, username, password, enc).Err? ==> s == Fail(t, Credentials(t, username, password, enc).error)
    ensures Credentials(t, username, password, enc).Ok? && Orphaned(t, Credentials(t, username, password, enc).value, username)
            ==> s.result == Err(NoSuchAccount)
                && s.after == t.(users := t.users - {Credentials(t, username, password, enc).value})
  {
    var c := Credentials(t, username, password, enc);
    if c.Err? then Fail(t, c.error)
    else if Orphaned(t, c.value, username) then Step(t.(users := t.users - {c.value}), Err(NoSuchAccount))
    else Step(t, Ok(Info(t.users[c.value], sign)))
  }

  /** Only `admin` logs in without a verified e-mail, and only `admin` without a member row. */
  lemma LoginRequiresVerifiedMember(t: Tables, username: string, password: string, enc: Encoder,
                                    sign: UserEntity.UserRow -> string)
    requires Valid(t) && username != Admin
    ensures LoginStep(t, username, password, enc, sign).result.Ok? <==>
              exists k :: && k in t.users && t.users[k].username == username
                          && enc(password) == t.users[k].password && t.users[k].emailVerified
                          && exists m :: m in t.members && t.members[m].email == t.users[k].email
  {
    var c := Credentials(t, username, password, enc);
    if c.Ok? {
      assert t.users[c.value].username == username;
    }
  }

  /**
   * The orphaned-account delete: as written it is rolled back, so the same
   * login fails the same way forever; as intended the account is gone and the
   * next attempt fails at the lookup.
   */
  lemma OrphanLoginRollsBack(t: Tables, username: string, password: string, enc: Encoder,
                             sign: UserEntity.UserRow -> string)
    requires Valid(t)
    requires Credentials(t, username, password, enc).Ok?
    requires Orphaned(t, Credentials(t, username, password, enc).value, username)
    ensures var s := LoginStepAsWritten(t, username, password, enc, sign);
            s.result == Err(NoSuchAccount) && HasUsername(s.after, username)
            && LoginStepAsWritten(s.after, username, password, enc, sign) == s
    ensures var s := LoginStep(t, username, password, enc, sign);
            s.result == Err(NoSuchAccount) && Valid(s.after) && !HasUsername(s.after, username)
            && LoginStep(s.after, username, password, enc, sign) == Fail(s.after, NoSuchAccount)
  {
    var k := Credentials(t, username, password, enc).value;
    var after := t.(users := t.users - {k});
    assert !HasUsername(after, username) by {
      forall j | j in after.users ensures after.users[j].username != username {
        assert j in t.users && j != k;
      }
    }
  }

  // ----- verifyEmail -----

  /** `verifyEmail`: the token must equal the stored one; the account is then verified and the token cleared. */
  function VerifyEmailStep(t: Tables, email: string, token: string): (s: Step<(), AuthError>)
    requires Valid(t)
    ensures s.result == Err(NoSuchUser) <==> forall k :: k in t.users ==> t.users[k].email != email
    ensures s.result.Ok? <==> exists k :: k in t.users && t.users[k].email == email
                                         && t.users[k].emailVerificationToken == Some(token)
    ensures s.result.Err? ==> s.after == t
    ensures s.result.Ok? ==>
              exists k :: && k in t.users && t.users[k].email == email
                          && s.after == t.(users := t.users[k := t.users[k].(emailVerified := true,
                                                                               emailVerificationToken := None)])
  {
    var found := FindUserByEmail(t, email);
    if found.None? then Fail(t, NoSuchUser)
    else
      var u := t.users[found.value];
      if u.emailVerificationToken != Some(token) then Fail(t, InvalidToken)
      else Step(t.(users := t.users[found.value := u.(emailVerified := true, emailVerificationToken := None)]), Ok(()))
  }

  /** A token verifies once: repeating the call fails, and the account now passes the login's e-mail check. */
  lemma VerifyEmailOnce(t: Tables, email: string, token: string, password: string, enc: Encoder)
    requires Valid(t)
    requires VerifyEmailStep(t, email, token).result.Ok?
    ensures var after := VerifyEmailStep(t, email, token).after;
            && Valid(after)
            && VerifyEmailStep(after, email, token) == Fail(after, InvalidToken)
            && exists k :: k in after.users && after.users[k].email == email && after.users[k].emailVerified
  {
    var k := FindUserByEmail(t, email).value;
    var after := VerifyEmailStep(t, email, token).after;
    assert after.users[k].email == email;
  }

  // ----- find-id codes -----

  /** Save a freshly issued code for five minutes, then mail it; a refused mail rolls the save back. */
  function IssueCode(t: Tables, email: string, draw: int, kind: VerificationType, username: string,
                     now: int, newId: int, mailOk: bool): (s: Step<(), AuthError>)
    requires 0 <= draw < 900000
    ensures s.result.Err? <==> !mailOk
    ensures s.result.Err? ==> s == Fail(t, MailFailed)
    ensures s.result.Ok? ==>
              s.after == t.(codes := t.codes[newId := IssuedCode(newId, email, EmailService.VerificationCode(draw), kind, username, now)])
  {
    if !mailOk then Fail(t, MailFailed)
    else Step(t.(codes := t.codes[newId := IssuedCode(newId, email, EmailService.VerificationCode(draw), kind, username, now)]), Ok(()))
  }

  /** `sendFindIdCode`: a FIND_ID code for the account registered under the e-mail. */
  function SendFindIdCodeStep(t: Tables, email: string, draw: int, now: int, newId: int, mailOk: bool): (s: Step<(), AuthError>)
    requires Valid(t) && 0 <= draw < 900000
    ensures s.result == Err(NoSuchUser) <==> forall k :: k in t.users ==> t.users[k].email != email
    ensures s.result.Ok? ==>
              exists k :: && k in t.users && t.users[k].email == email
                          && s.after == t.(codes := t.codes[newId := IssuedCode(newId, email,
                               EmailService.VerificationCode(draw), FIND_ID, t.users[k].username, now)])
  {
    var found := FindUserByEmail(t, email);
    if found.None? then Fail(t, NoSuchUser)
    else IssueCode(t, email, draw, FIND_ID, t.users[found.value].username, now, newId, mailOk)
  }

  /**
   * `createdAt` of the code row that `sendFindIdCode` and `sendResetPasswordCode`
   * build: Lombok's `@Builder` skips a field initialiser not marked
   * `@Builder.Default`, and neither builder chain sets the field, so it stays null.
   */
  const BuiltCreatedAt: Option<int> := None

  /**
   * The save as written, given the `createdAt` the built row carries: a null
   * one is refused by the NOT NULL column and the call fails; one set to the
   * issue instant is saved as `IssueCode` saves it.
   */
  function IssueCodeAsWritten(t: Tables, email: string, draw: int, kind: VerificationType, username: string,
                              now: int, newId: int, mailOk: bool, createdAt: Option<int>): (s: Step<(), AuthError>)
    requires 0 <= draw < 900000
    ensures createdAt.None? ==> s == Fail(t, CodeNotSaved)
    ensures createdAt == Some(now) ==> s == IssueCode(t, email, draw, kind, username, now, newId, mailOk)
  {
    if createdAt.None? then Fail(t, CodeNotSaved)
    else
      var c := IssuedCode(newId, email, EmailService.VerificationCode(draw), kind, username, now).(createdAt := createdAt.value);
      if !mailOk then Fail(t, MailFailed)
      else Step(t.(codes := t.codes[newId := c]), Ok(()))
  }

  /**
   * As written, no code is ever saved: the call fails whatever the mail server
   * does, and a code that was not valid before is still not found, where the
   * intended save makes it findable for five minutes.
   */
  lemma BuiltCodeIsNeverSaved(t: Tables, email: string, draw: int, kind: VerificationType, username: string,
                              now: int, newId: int, mailOk: bool)
    requires 0 <= draw < 900000
    requires CodeRepository.ValidCodes(t.codes, email, EmailService.VerificationCode(draw), kind, now) == {}
    ensures var s := IssueCodeAsWritten(t, email, draw, kind, username, now, newId, mailOk, BuiltCreatedAt);
            && s.result == Err(CodeNotSaved)
            && CodeRepository.ValidCodes(s.after.codes, email, EmailService.VerificationCode(draw), kind, now) == {}
    ensures var s := IssueCodeAsWritten(t, email, draw, kind, username, now, newId, true, Some(now));
            && s.result.Ok?
            && newId in CodeRepository.ValidCodes(s.after.codes, email, EmailService.VerificationCode(draw), kind, now)
  {
    IssuedCodeFindable(t, email, draw, kind, username, now, newId, now);
  }

  /** An issued code is found by the lookup for exactly the five minutes after issue (the expiry instant excluded). */
  lemma IssuedCodeFindable(t: Tables, email: string, draw: int, kind: VerificationType, username: string,
                           now: int, newId: int, later: int)
    requires 0 <= draw < 900000 && now <= later
    ensures var codes := IssueCode(t, email, draw, kind, username, now, newId, true).after.codes;
            newId in CodeRepository.ValidCodes(codes, email, EmailService.VerificationCode(draw), kind, later)
            <==> later < now + CodeLifetime
  {
  }

  /** The one code the lookup finds, consumed. */
  function Consume(t: Tables, k: int): (t': Tables)
    requires k in t.codes
    ensures k in t'.codes && t'.codes[k].used && t' == t.(codes := t.codes[k := t'.codes[k]])
    ensures t'.codes[k].(used := false) == t.codes[k].(used := false)
  {
    t.(codes := t.codes[k := t.codes[k].(used := true)])
  }

  /** `verifyFindIdCode`: consume the one valid FIND_ID code, mail the username and return it. */
  function VerifyFindIdCodeStep(t: Tables, email: string, code: string, now: int, mailOk: bool): (s: Step<string, AuthError>)
    ensures s.result == Err(InvalidCode) <==> CodeRepository.ValidCodes(t.codes, email, code, FIND_ID, now) == {}
    ensures s.result == Err(NonUniqueCode) <==> exists a, b :: a in CodeRepository.ValidCodes(t.codes, email, code, FIND_ID, now) && b in CodeRepository.ValidCodes(t.codes, email, code, FIND_ID, now) && a != b
    ensures s.result == Err(MailFailed) <==> !mailOk && exists k :: CodeRepository.ValidCodes(t.codes, email, code, FIND_ID, now) == {k}
    ensures !mailOk ==> s.result.Err?
    ensures mailOk && (exists k :: CodeRepository.ValidCodes(t.codes, email, code, FIND_ID, now) == {k}) ==> s.result.Ok?
    ensures s.result.Err? ==> s.after == t
    ensures s.result.Ok? ==> exists k :: && CodeRepository.ValidCodes(t.codes, email, code, FIND_ID, now) == {k}
                                        && s.after == Consume(t, k) && s.result.value == t.codes[k].username
  {
    match CodeRepository.FindValidCode(t.codes, email, code, FIND_ID, now)
    case NoRow => Fail(t, InvalidCode)
    case NonUnique => Fail(t, NonUniqueCode)
    case OneRow(k) =>
      if !mailOk then Fail(t, MailFailed)
      else Step(Consume(t, k), Ok(t.codes[k].username))
  }

  /** After consuming the only valid code, no code is valid any more from that instant on. */
  lemma ConsumedLeavesNone(t: Tables, k: int, email: string, code: string, kind: VerificationType, now: int, later: int)
    requires CodeRepository.ValidCodes(t.codes, email, code, kind, now) == {k} && now <= later
    ensures CodeRepository.ValidCodes(Consume(t, k).codes, email, code, kind, later) == {}
  {
    var after := Consume(t, k);
    assert forall j :: j in CodeRepository.ValidCodes(after.codes, email, code, kind, later) ==>
      j in CodeRepository.ValidCodes(t.codes, email, code, kind, now) && j != k;
  }

  /** Find-id codes are single-use. */
  lemma FindIdCodeSingleUse(t: Tables, email: string, code: string, now: int, mailOk: bool, later: int, mailOk': bool)
    requires now <= later
    requires VerifyFindIdCodeStep(t, email, code, now, mailOk).result.Ok?
    ensures var after := VerifyFindIdCodeStep(t, email, code, now, mailOk).after;
            VerifyFindIdCodeStep(after, email, code, later, mailOk').result == Err(InvalidCode)
  {
    var k :| CodeRepository.ValidCodes(t.codes, email, code, FIND_ID, now) == {k}
             && VerifyFindIdCodeStep(t, email, code, now, mailOk).after == Consume(t, k);
    ConsumedLeavesNone(t, k, email, code, FIND_ID, now, later);
  }

  // ----- reset-password codes -----

  /** `sendResetPasswordCode`: the username must exist and be registered under the e-mail. */
  function SendResetPasswordCodeStep(t: Tables, username: string, email: string, draw: int, now: int,
                                     newId: int, mailOk: bool): (s: Step<(), AuthError>)
    requires Valid(t) && 0 <= draw < 900000
    ensures s.result == Err(NoSuchUser) <==> !HasUsername(t, username)
    ensures s.result == Err(InfoMismatch) <==>
              exists k :: k in t.users && t.users[k].username == username && t.users[k].email != email
    ensures s.result.Ok? <==> mailOk && exists k :: k in t.users && t.users[k].username == username && t.users[k].email == email
    ensures s.result.Ok? ==>
              s.after == t.(codes := t.codes[newId := IssuedCode(newId, email, EmailService.VerificationCode(draw),
                                                                  RESET_PASSWORD, username, now)])
  {
    var found := FindUserByUsername(t, username);
    if found.None? then Fail(t, NoSuchUser)
    else if t.users[found.value].email != email then Fail(t, InfoMismatch)
    else IssueCode(t, email, draw, RESET_PASSWORD, username, now, newId, mailOk)
  }

  /** The code lookup both reset-password calls start with; the code must have been issued to `username`. */
  function ResetCode(t: Tables, username: string, email: string, code: string, now: int): (r: Result<int, AuthError>)
    ensures r.Ok? <==> exists k :: CodeRepository.ValidCodes(t.codes, email, code, RESET_PASSWORD, now) == {k}
                                   && t.codes[k].username == username
    ensures r.Ok? ==> CodeRepository.ValidCodes(t.codes, email, code, RESET_PASSWORD, now) == {r.value}
    ensures r == Err(InvalidCode) <==> CodeRepository.ValidCodes(t.codes, email, code, RESET_PASSWORD, now) == {}
  {
    match CodeRepository.FindValidCode(t.codes, email, code, RESET_PASSWORD, now)
    case NoRow => Err(InvalidCode)
    case NonUnique => Err(NonUniqueCode)
    case OneRow(k) => if t.codes[k].username != username then Err(InfoMismatch) else Ok(k)
  }

  /** `verifyResetPasswordCode`: checks the code and changes nothing. */
  function VerifyResetPasswordCode(t: Tables, username: string, email: string, code: string, now: int): (r: Result<(), AuthError>)
    ensures r.Ok? <==> ResetCode(t, username, email, code, now).Ok?
    ensures r.Err? ==> r.error == ResetCode(t, username, email, code, now).error
  {
    var c := ResetCode(t, username, email, code, now);
    if c.Err? then Err(c.error) else Ok(())
  }

  /** `resetPasswordWithCode`: the code, then the account, then the new password; the code is consumed last. */
  function ResetPasswordWithCodeStep(t: Tables, username: string, email: string, code: string, newPassword: string,
                                     enc: Encoder, now: int): (s: Step<(), AuthError>)
    requires Valid(t)
    ensures s.result.Ok? <==> ResetCode(t, username, email, code, now).Ok? && HasUsername(t, username)
    ensures s.result.Err? ==> s.after == t
    ensures s.result.Ok? ==>
              exists u :: && u in t.users && t.users[u].username == username
                          && s.after == Consume(t, ResetCode(t, username, email, code, now).value)
                                          .(users := t.users[u := t.users[u].(password := enc(newPassword))])
  {
    var c := ResetCode(t, username, email, code, now);
    if c.Err? then Fail(t, c.error)
    else
      var found := FindUserByUsername(t, username);
      if found.None? then Fail(t, NoSuchUser)
      else
        var u := t.users[found.value];
        Step(Consume(t, c.value).(users := t.users[found.value := u.(password := enc(newPassword))]), Ok(()))
  }

  /**
   * Verifying does not consume: a code that verifies still resets the password
   * at the same instant; the reset consumes it, and afterwards the new password
   * passes the login's password check.
   */
  lemma ResetPasswordFlow(t: Tables, username: string, email: string, code: string, newPassword: string,
                          enc: Encoder, now: int, later: int, sign: UserEntity.UserRow -> string)
    requires Valid(t) && HasUsername(t, username) && now <= later
    requires VerifyResetPasswordCode(t, username, email, code, now).Ok?
    ensures ResetPasswordWithCodeStep(t, username, email, code, newPassword, enc, now).result.Ok?
    ensures var after := ResetPasswordWithCodeStep(t, username, email, code, newPassword, enc, now).after;
            && Valid(after)
            && VerifyResetPasswordCode(after, username, email, code, later) == Err(InvalidCode)
            && Credentials(after, username, newPassword, enc) != Err(WrongPassword)
            && Credentials(after, username, newPassword, enc) != Err(NoSuchAccount)
  {
    var s := ResetPasswordWithCodeStep(t, username, email, code, newPassword, enc, now);
    var k := ResetCode(t, username, email, code, now).value;
    var u :| && u in t.users && t.users[u].username == username
             && s.after == Consume(t, k).(users := t.users[u := t.users[u].(password := enc(newPassword))]);
    ConsumedLeavesNone(t, k, email, code, RESET_PASSWORD, now, later);
    assert s.after.codes == Consume(t, k).codes;
    NewPasswordPreserves(t, k, u, enc(newPassword));
    assert s.after.users[u].username == username;
    assert forall j :: j in s.after.users && s.after.users[j].username == username ==> j == u;
  }

  /** Consuming a code and changing one password keeps every table constraint. */
  lemma NewPasswordPreserves(t: Tables, k: int, u: int, password: string)
    requires Valid(t) && k in t.codes && u in t.users
    ensures Valid(Consume(t, k).(users := t.users[u := t.users[u].(password := password)]))
  {
    var after := Consume(t, k).(users := t.users[u := t.users[u].(password := password)]);
    assert CodeKeys(after.codes);
    assert UserKeys(after.users);
    assert UniqueUserColumns(after.users);
  }

  // ----- withdrawUser -----

  /** `withdrawUser`: password first, then the admin guard, then the account row is deleted. */
  function WithdrawUserStep(t: Tables, username: string, password: string, enc: Encoder): (s: Step<(), AuthError>)
    requires Valid(t)
    ensures s.result == Err(NoSuchUser) <==> !HasUsername(t, username)
    ensures s.result == Err(WrongPassword) <==>
              exists k :: k in t.users && t.users[k].username == username && enc(password) != t.users[k].password
    ensures s.result == Err(AdminNotWithdrawable) <==>
              username == Admin && exists k :: k in t.users && t.users[k].username == username && enc(password) == t.users[k].password
    ensures s.result.Err? ==> s.after == t
    ensures s.result.Ok? ==> exists k :: k in t.users && t.users[k].username == username
                                        && s.after == t.(users := t.users - {k})
  {
    var found := FindUserByUsername(t, username);
    if found.None? then Fail(t, NoSuchUser)
    else if enc(password) != t.users[found.value].password then Fail(t, WrongPassword)
    else if username == Admin then Fail(t, AdminNotWithdrawable)
    else Step(t.(users := t.users - {found.value}), Ok(()))
  }

  /** `admin` is never deleted, and a withdrawn account can no longer log in. */
  lemma WithdrawKeepsAdmin(t: Tables, username: string, password: string, enc: Encoder, password': string,
                           sign: UserEntity.UserRow -> string)
    requires Valid(t)
    ensures var after := WithdrawUserStep(t, username, password, enc).after;
            && Valid(after)
            && (HasUsername(t, Admin) ==> HasUsername(after, Admin))
    ensures var s := WithdrawUserStep(t, username, password, enc);
            s.result.Ok? ==> LoginStep(s.after, username, password', enc, sign) == Fail(s.after, NoSuchAccount)
  {
    var s := WithdrawUserStep(t, username, password, enc);
    if s.result.Ok? {
      var k := FindUserByUsername(t, username).value;
      assert !HasUsername(s.after, username) by {
        forall j | j in s.after.users ensures s.after.users[j].username != username {
          assert j in t.users && j != k;
        }
      }
      if HasUsername(t, Admin) {
        var a :| a in t.users && t.users[a].username == Admin;
        assert a in s.after.users;
      }
    }
  }

  // ----- the service object -----

  class AuthService {
    const db: Database

    constructor (db: Database)
      ensures this.db == db
    {
      this.db := db;
    }

    method Register(f: RegisterForm, enc: Encoder, tokenDraw: int, today: int, millis: nat, newId: int, mailOk: bool)
      returns (r: Result<(), AuthError>)
      requires Valid(db.T()) && newId !in db.users && 0 <= tokenDraw < 900000
      modifies db
      ensures Step(db.T(), r) == RegisterStep(old(db.T()), f, enc, tokenDraw, today, millis, newId, mailOk)
    {
      var byName := FindUserByUsername(db.T(), f.username);
      if byName.Some? && db.users[byName.value].emailVerified {
        return Err(UsernameTaken);
      }
      var byEmail := FindUserByEmail(db.T(), f.email);
      if byEmail.Some? && db.users[byEmail.value].emailVerified {
        return Err(EmailTaken);
      }
      var token := EmailService.EmailVerificationToken(tokenDraw);
      var u := Registered(db.T(), f, enc, token, today, millis, newId);
      if Collides(db.users, u) {
        return Err(Conflict);
      }
      if !mailOk {
        return Err(MailFailed);
      }
      db.users := db.users[u.id := u];
      r := Ok(());
    }

    /** Login with the orphaned-account delete committed. */
    method Login(username: string, password: string, enc: Encoder, sign: UserEntity.UserRow -> string)
      returns (r: Result<LoginInfo, AuthError>)
      requires Valid(db.T())
      modifies db
      ensures Step(db.T(), r) == LoginStep(old(db.T()), username, password, enc, sign)
    {
      var c := Credentials(db.T(), username, password, enc);
      if c.Err? {
        return Err(c.error);
      }
      if Orphaned(db.T(), c.value, username) {
        db.users := db.users - {c.value};
        return Err(NoSuchAccount);
      }
      r := Ok(Info(db.users[c.value], sign));
    }

    method VerifyEmail(email: string, token: string) returns (r: Result<(), AuthError>)
      requires Valid(db.T())
      modifies db
      ensures Step(db.T(), r) == VerifyEmailStep(old(db.T()), email, token)
    {
      var found := FindUserByEmail(db.T(), email);
      if found.None? {
        return Err(NoSuchUser);
      }
      var u := db.users[found.value];
      if u.emailVerificationToken != Some(token) {
        return Err(InvalidToken);
      }
      u := u.(emailVerified := true, emailVerificationToken := None);
      db.users := db.users[found.value := u];
      r := Ok(());
    }

    method SendFindIdCode(email: string, draw: int, now: int, newId: int, mailOk: bool) returns (r: Result<(), AuthError>)
      requires Valid(db.T()) && 0 <= draw < 900000
      modifies db
      ensures Step(db.T(), r) == SendFindIdCodeStep(old(db.T()), email, draw, now, newId, mailOk)
    {
      var found := FindUserByEmail(db.T(), email);
      if found.None? {
        return Err(NoSuchUser);
      }
      if !mailOk {
        return Err(MailFailed);
      }
      var c := IssuedCode(newId, email, EmailService.VerificationCode(draw), FIND_ID, db.users[found.value].username, now);
      db.codes := db.codes[newId := c];
      r := Ok(());
    }

    method VerifyFindIdCode(email: string, code: string, now: int, mailOk: bool) returns (r: Result<string, AuthError>)
      modifies db
      ensures Step(db.T(), r) == VerifyFindIdCodeStep(old(db.T()), email, code, now, mailOk)
    {
      var found := CodeRepository.FindValidCode(db.codes, email, code, FIND_ID, now);
      if found.NoRow? {
        return Err(InvalidCode);
      } else if found.NonUnique? {
        return Err(NonUniqueCode);
      }
      if !mailOk {
        return Err(MailFailed);
      }
      var c := db.codes[found.id];
      db.codes := db.codes[found.id := c.(used := true)];
      r := Ok(c.username);
    }

    method SendResetPasswordCode(username: string, email: string, draw: int, now: int, newId: int, mailOk: bool)
      returns (r: Result<(), AuthError>)
      requires Valid(db.T()) && 0 <= draw < 900000
      modifies db
      ensures Step(db.T(), r) == SendResetPasswordCodeStep(old(db.T()), username, email, draw, now, newId, mailOk)
    {
      var found := FindUserByUsername(db.T(), username);
      if found.None? {
        return Err(NoSuchUser);
      }
      if db.users[found.value].email != email {
        return Err(InfoMismatch);
      }
      if !mailOk {
        return Err(MailFailed);
      }
      db.codes := db.codes[newId := IssuedCode(newId, email, EmailService.VerificationCode(draw), RESET_PASSWORD, username, now)];
      r := Ok(());
    }

    method ResetPasswordWithCode(username: string, email: string, code: string, newPassword: string, enc: Encoder, now: int)
      returns (r: Result<(), AuthError>)
      requires Valid(db.T())
      modifies db
      ensures Step(db.T(), r) == ResetPasswordWithCodeStep(old(db.T()), username, email, code, newPassword, enc, now)
    {
      var c := ResetCode(db.T(), username, email, code, now);
      if c.Err? {
        return Err(c.error);
      }
      var found := FindUserByUsername(db.T(), username);
      if found.None? {
        return Err(NoSuchUser);
      }
      var u := db.users[found.value];
      db.users := db.users[found.value := u.(password := enc(newPassword))];
      db.codes := db.codes[c.value := db.codes[c.value].(used := true)];
      r := Ok(());
    }

    method WithdrawUser(username: string, password: string, enc: Encoder) returns (r: Result<(), AuthError>)
      requires Valid(db.T())
      modifies db
      ensures Step(db.T(), r) == WithdrawUserStep(old(db.T()), username, password, enc)
    {
      var found := FindUserByUsername(db.T(), username);
      if found.None? {
        return Err(NoSuchUser);
      }
      if enc(password) != db.users[found.value].password {
        return Err(WrongPassword);
      }
      if username == Admin {
        return Err(AdminNotWithdrawable);
      }
      db.users := db.users - {found.value};
      r := Ok(());
    }
  }
}
