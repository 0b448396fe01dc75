/**
 * The e-mail verification page: the six-digit code field, the verify button,
 * and the resend button with its sixty-second countdown. Each handler is one
 * sequential step; the server's answer to a `fetch` is a parameter.
 */
module EmailVerificationPage {
  import opened Wrappers
  import opened Text
  import Dates

  const CodeLength := 6
  const ResendDelay := 60

  predicate NotDigit(c: char) { !IsDigit(c) }

  /** `value.replace(/[^0-9]/g, '').slice(0, 6)`. */
  function Sanitize(value: string): (code: string)
    ensures AllDigits(code) && |code| <= CodeLength
  {
    var digits := Remove(value, NotDigit);
    if |digits| <= CodeLength then digits else digits[..CodeLength]
  }

  /**
   * The field keeps the first six digits typed, in the order typed: the code
   * is a prefix of the input's digits, as long as it can be.
   */
  lemma SanitizeKeepsLeadingDigits(value: string)
    ensures var digits := Remove(value, NotDigit);
            && Sanitize(value) <= digits
            && |Sanitize(value)| == if |digits| < CodeLength then |digits| else CodeLength
  {
  }

  /** A code the field already holds passes through unchanged. */
  lemma {:induction false} SanitizeKeepsCodes(code: string)
    requires AllDigits(code) && |code| <= CodeLength
    ensures Sanitize(code) == code
  {
    RemoveNothing(code, NotDigit);
  }

  /** Cleaning the field twice is the same as cleaning it once. */
  lemma SanitizeIdempotent(value: string)
    ensures Sanitize(Sanitize(value)) == Sanitize(value)
  {
    SanitizeKeepsCodes(Sanitize(value));
  }

  /** Typing letters, spaces or hyphens after the code changes nothing. */
  lemma SanitizeIgnoresNonDigits(value: string, noise: string)
    requires forall i :: 0 <= i < |noise| ==> NotDigit(noise[i])
    ensures Sanitize(value + noise) == Sanitize(value)
  {
    RemoveConcat(value, noise, NotDigit);
    RemoveDropsAll(noise);
    assert Remove(value, NotDigit) + [] == Remove(value, NotDigit);
  }

  lemma {:induction false} RemoveDropsAll(noise: string)
    requires forall i :: 0 <= i < |noise| ==> NotDigit(noise[i])
    ensures Remove(noise, NotDigit) == []
  {
    if noise != [] {
      RemoveDropsAll(noise[1..]);
    }
  }

  /** `!verificationCode || verificationCode.length !== 6` rejects, and so does `!email`. */
  predicate CanVerify(code: string, email: string)
  {
    |code| == CodeLength && email != ""
  }

  /** `!email` rejects, and so does a running countdown. */
  predicate CanResend(countdown: nat, email: string)
  {
    email != "" && countdown == 0
  }

  /** How the server answered a `fetch`: `response.ok`, an error body (`message` possibly empty), or no answer. */
  datatype Reply = Ok | Refused(message: string) | Unreachable

  /** The `message.success`, `message.warning` and `message.error` notices. */
  datatype Notice = Success(text: string) | Warning(text: string) | Error(text: string)

  /** The body posted to `/api/auth/verify-email`. */
  datatype VerifyRequest = VerifyRequest(email: string, token: string)

  /** The notice shown after a verify attempt that reached the network. */
  function VerifyNotice(reply: Reply): (n: Notice)
    ensures n.Success? <==> reply.Ok?
    ensures reply.Refused? && reply.message != "" ==> n == Error(reply.message)
  {
    match reply
    case Ok => Success("이메일 인증이 완료되었습니다!")
    case Refused(m) => Error(if m != "" then m else "인증코드가 올바르지 않습니다.")
    case Unreachable => Error("인증 처리 중 오류가 발생했습니다.")
  }

  /** The notice shown after a resend that reached the network. */
  function ResendNotice(reply: Reply): (n: Notice)
    ensures n.Success? <==> reply.Ok?
  {
    match reply
    case Ok => Success("인증코드가 재전송되었습니다.")
    case Refused(_) => Error("인증코드 재전송에 실패했습니다.")
    case Unreachable => Error("재전송 중 오류가 발생했습니다.")
  }

  /** One second of the countdown effect: it counts down and stops at zero. */
  function Tick(countdown: nat): (next: nat)
    ensures countdown > 0 ==> next == countdown - 1
    ensures countdown == 0 ==> next == 0
  {
    if countdown > 0 then countdown - 1 else 0
  }

  function AfterTicks(countdown: nat, seconds: nat): nat
  {
    if seconds == 0 then countdown else AfterTicks(Tick(countdown), seconds - 1)
  }

  /** After `seconds` ticks the countdown reads `countdown - seconds`, and never less than zero. */
  lemma {:induction false} AfterTicksValue(countdown: nat, seconds: nat)
    ensures AfterTicks(countdown, seconds) == if seconds < countdown then countdown - seconds else 0
  {
    if seconds > 0 {
      AfterTicksValue(Tick(countdown), seconds - 1);
    }
  }

  /** A resend blocks the next one for exactly sixty ticks. */
  lemma ResendBlocksSixtySeconds(email: string)
    requires email != ""
    ensures !CanResend(AfterTicks(ResendDelay, ResendDelay - 1), email)
    ensures CanResend(AfterTicks(ResendDelay, ResendDelay), email)
  {
    AfterTicksValue(ResendDelay, ResendDelay - 1);
    AfterTicksValue(ResendDelay, ResendDelay);
  }

  /** The component's state; `email` comes from the `?email=` query parameter. */
  class Page {
    var verificationCode: string
    var countdown: nat
    var isVerified: bool
    const email: string

    /** The code field holds at most six digits and the countdown never exceeds sixty. */
    predicate Valid()
      reads this
    {
      AllDigits(verificationCode) && |verificationCode| <= CodeLength && countdown <= ResendDelay
    }

    /** `searchParams.get('email') || ''` and the initial `useState` values. */
    constructor (emailParam: Option<string>)
      ensures Valid()
      ensures verificationCode == "" && countdown == 0 && !isVerified
      ensures email == emailParam.GetOr("")
    {
      verificationCode := "";
      countdown := 0;
      isVerified := false;
      email := emailParam.GetOr("");
    }

    /** `handleCodeChange(value)`. */
    method CodeChange(value: string)
      requires Valid()
      modifies this
      ensures Valid()
      ensures verificationCode == Sanitize(value)
      ensures countdown == old(countdown) && isVerified == old(isVerified)
    {
      var digits := Remove(value, NotDigit);
      verificationCode := if |digits| <= CodeLength then digits else digits[..CodeLength];
    }

    /**
     * `handleVerify()`: without a six-digit code or an e-mail no request is
     * sent and an error is shown; otherwise the code is posted and the page
     * turns to its success view exactly when the server accepts it.
     */
    method Verify(reply: Reply) returns (request: Option<VerifyRequest>, notice: Notice)
      modifies this
      ensures request.Some? <==> CanVerify(verificationCode, email)
      ensures request.Some? ==> request.value == VerifyRequest(email, verificationCode)
      ensures request.Some? ==> notice == VerifyNotice(reply)
      ensures request.None? ==> notice.Error?
      ensures isVerified <==> old(isVerified) || (request.Some? && reply.Ok?)
      ensures verificationCode == old(verificationCode) && countdown == old(countdown)
    {
      if verificationCode == "" || |verificationCode| != CodeLength {
        return None, Error("6자리 인증코드를 입력해주세요.");
      }
      if email == "" {
        return None, Error("이메일 정보가 없습니다. 다시 회원가입을 진행해주세요.");
      }
      request := Some(VerifyRequest(email, verificationCode));
      if reply.Ok? {
        isVerified := true;
      }
      notice := VerifyNotice(reply);
    }

    /**
     * `handleResend()`: refused without an e-mail or while the countdown runs;
     * a resend the server accepts restarts the countdown at sixty.
     */
    method Resend(reply: Reply) returns (sent: bool, notice: Notice)
      requires Valid()
      modifies this
      ensures Valid()
      ensures sent <==> CanResend(old(countdown), email)
      ensures countdown == if sent && reply.Ok? then ResendDelay else old(countdown)
      ensures email != "" && old(countdown) > 0 ==>
                notice == Warning(Dates.IntText(old(countdown)) + "초 후에 재전송 가능합니다.")
      ensures sent ==> notice == ResendNotice(reply)
      ensures verificationCode == old(verificationCode) && isVerified == old(isVerified)
    {
      if email == "" {
        return false, Error("이메일 정보가 없습니다.");
      }
      if countdown > 0 {
        return false, Warning(Dates.IntText(countdown) + "초 후에 재전송 가능합니다.");
      }
      sent := true;
      if reply.Ok? {
        countdown := ResendDelay;
      }
      notice := ResendNotice(reply);
    }

    /** The countdown effect firing once. */
    method TickOnce()
      requires Valid()
      modifies this
      ensures Valid()
      ensures countdown == Tick(old(countdown))
      ensures verificationCode == old(verificationCode) && isVerified == old(isVerified)
    {
      if countdown > 0 {
        countdown := countdown - 1;
      }
    }
  }
}
