/**
 * One-time codes mailed to a user: `VerificationCode` (find-id and
 * password-reset codes, used by the account service) and the older
 * `EmailVerification` record.  Timestamps are `LocalDateTime` values counted
 * in nanoseconds.
 */
module VerificationEntities {

  const NanosPerMinute := 60_000_000_000
  /** Codes are valid for five minutes after they are issued. */
  const CodeLifetime := 5 * NanosPerMinute

  datatype VerificationType = FIND_ID | RESET_PASSWORD

  /** A row of the `verification_codes` table. */
  datatype CodeRow = CodeRow(
    id: int,
    email: string,
    code: string,
    kind: VerificationType,
    expiresAt: int,
    used: bool,
    username: string,
    createdAt: int)

  /** `isExpired`: strictly after the expiry instant. */
  predicate IsExpired(c: CodeRow, now: int)
  {
    now > c.expiresAt
  }

  /** `isValid`: not used and not expired. */
  predicate IsValid(c: CodeRow, now: int)
  {
    !c.used && !IsExpired(c, now)
  }

  /** A code issued at `now` (`expiresAt = now + 5 minutes`, unused). */
  function IssuedCode(id: int, email: string, code: string, kind: VerificationType,
                      username: string, now: int): (c: CodeRow)
    ensures c.expiresAt == now + CodeLifetime && !c.used && c.createdAt == now
    ensures c.id == id && c.email == email && c.code == code && c.kind == kind && c.username == username
  {
    CodeRow(id, email, code, kind, now + CodeLifetime, false, username, now)
  }

  /** A freshly issued code is valid for exactly the five minutes that follow, and never again. */
  lemma IssuedCodeValidFiveMinutes(id: int, email: string, code: string, kind: VerificationType,
                                   username: string, now: int, later: int)
    requires later >= now
    ensures IsValid(IssuedCode(id, email, code, kind, username, now), later) <==> later <= now + CodeLifetime
  {
  }

  /** Validity only ever ends: a code valid at some time was valid at every earlier time, and a used code is never valid. */
  lemma ValidityIsMonotone(c: CodeRow, earlier: int, later: int)
    requires earlier <= later
    ensures IsValid(c, later) ==> IsValid(c, earlier)
    ensures c.used ==> !IsValid(c, later)
  {
  }

  datatype EmailVerificationType = USERNAME_RECOVERY | PASSWORD_RESET

  datatype EmailVerificationRow = EmailVerificationRow(
    email: string,
    verificationCode: string,
    kind: EmailVerificationType,
    createdAt: int,
    expiresAt: int,
    verified: bool)

  predicate RecordExpired(r: EmailVerificationRow, now: int)
  {
    now > r.expiresAt
  }

  /**
   * A record built by the constructor, which reads the clock twice: once for
   * `createdAt` (`createdNow`) and once more for `expiresAt` (`expiryNow`).
   * With a clock that does not run backwards the record stays unexpired for
   * at least five minutes after its creation time.
   */
  lemma RecordFreshForFiveMinutes(r: EmailVerificationRow, createdNow: int, expiryNow: int, now: int)
    requires r.createdAt == createdNow && r.expiresAt == expiryNow + CodeLifetime
    requires createdNow <= expiryNow
    requires createdNow <= now <= createdNow + CodeLifetime
    ensures !RecordExpired(r, now)
  {
  }

  /** The `EmailVerification` entity object. */
  class EmailVerification {
    var email: string
    var verificationCode: string
    var kind: EmailVerificationType
    var createdAt: int
    var expiresAt: int
    var verified: bool

    function Row(): EmailVerificationRow
      reads this
    {
      EmailVerificationRow(email, verificationCode, kind, createdAt, expiresAt, verified)
    }

    /** `new EmailVerification(email, code, type)`; the two clock readings are parameters. */
    constructor (email: string, verificationCode: string, kind: EmailVerificationType,
                 createdNow: int, expiryNow: int)
      ensures Row() == EmailVerificationRow(email, verificationCode, kind, createdNow,
                                            expiryNow + CodeLifetime, false)
    {
      this.email := email;
      this.verificationCode := verificationCode;
      this.kind := kind;
      createdAt := createdNow;
      expiresAt := expiryNow + CodeLifetime;
      verified := false;
    }

    predicate IsExpired(now: int)
      reads this
    {
      RecordExpired(Row(), now)
    }

    /** `markAsVerified()`. */
    method MarkAsVerified()
      modifies this
      ensures Row() == old(Row()).(verified := true)
    {
      verified := true;
    }
  }
}
