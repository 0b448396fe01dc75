/**
 * `EmailService`: six-digit codes, temporary passwords and the mail messages
 * the account service sends.  `Random.nextInt` results are parameters
 * (`draw`), and sending a message is returned as a value for the caller to
 * deliver.
 */
module EmailService {
  import opened Text

  /** `generateVerificationCode`: the decimal text of `100000 + nextInt(900000)`. */
  function VerificationCode(draw: int): (code: string)
    requires 0 <= draw < 900000
    ensures |code| == 6 && AllDigits(code) && code[0] != '0'
    ensures DigitsValue(code) == 100000 + draw
  {
    assert Pow10(5) == 100000 && Pow10(6) == 1000000 by {
      assert Pow10(1) == 10 && Pow10(2) == 100 && Pow10(3) == 1000 && Pow10(4) == 10000;
    }
    DecimalLength(100000 + draw, 6);
    DecimalValue(100000 + draw);
    Decimal(100000 + draw)
  }

  /** Different draws give different codes, so a code identifies the draw it came from. */
  lemma VerificationCodeInjective(d1: int, d2: int)
    requires 0 <= d1 < 900000 && 0 <= d2 < 900000
    ensures VerificationCode(d1) == VerificationCode(d2) <==> d1 == d2
  {
  }

  /** `generateEmailVerificationToken`: the same six-digit code. */
  function EmailVerificationToken(draw: int): (token: string)
    requires 0 <= draw < 900000
    ensures token == VerificationCode(draw)
  {
    VerificationCode(draw)
  }

  /** The 62 characters `A`–`Z`, `a`–`z`, `0`–`9`, in that order. */
  const PasswordAlphabet: string :=
    seq(26, i requires 0 <= i < 26 => ('A' as int + i) as char)
    + seq(26, i requires 0 <= i < 26 => ('a' as int + i) as char)
    + seq(10, i requires 0 <= i < 10 => ('0' as int + i) as char)

  lemma PasswordAlphabetEnds()
    ensures |PasswordAlphabet| == 62
    ensures PasswordAlphabet[0] == 'A' && PasswordAlphabet[25] == 'Z'
    ensures PasswordAlphabet[26] == 'a' && PasswordAlphabet[51] == 'z'
    ensures PasswordAlphabet[52] == '0' && PasswordAlphabet[61] == '9'
  {
  }
  const TemporaryPasswordLength := 8

  /** `generateTemporaryPassword`: eight characters, the i-th being `chars.charAt(draws[i])`. */
  method TemporaryPassword(draws: seq<int>) returns (password: string)
    requires |draws| == TemporaryPasswordLength
    requires forall i :: 0 <= i < |draws| ==> 0 <= draws[i] < |PasswordAlphabet|
    ensures |password| == TemporaryPasswordLength
    ensures forall i :: 0 <= i < |password| ==> password[i] == PasswordAlphabet[draws[i]]
    ensures forall i :: 0 <= i < |password| ==> IsAlnum(password[i])
  {
    password := "";
    for i := 0 to TemporaryPasswordLength
      invariant |password| == i
      invariant forall j :: 0 <= j < i ==> password[j] == PasswordAlphabet[draws[j]]
    {
      password := password + [PasswordAlphabet[draws[i]]];
    }
    forall i | 0 <= i < |password|
      ensures IsAlnum(password[i])
    {
      AlphabetIsAlnum(draws[i]);
    }
  }

  lemma AlphabetIsAlnum(k: int)
    requires 0 <= k < |PasswordAlphabet|
    ensures IsAlnum(PasswordAlphabet[k])
  {

  }

  /** An outgoing message. */
  datatype Mail = Mail(from: string, to: string, subject: string, text: string)

  /** The sender address every message is sent from. */
  const Sender := "noreply@library.com"

  /** `sendUsernameVerificationEmail`: the find-id (and sign-up) code message. */
  function UsernameVerificationEmail(to: string, code: string): (m: Mail)
    ensures m.from == Sender && m.to == to && Includes(m.text, code)
  {
    var before := "안녕하세요.\n\n아이디 찾기를 위한 인증코드입니다.\n\n인증코드: ";
    assert OccursAt(before + code + "\n\n본 인증코드는 5분간 유효합니다.\n\n감사합니다.", code, |before|);
    Mail(Sender, to, "[도서관리시스템] 아이디 찾기 인증코드",
         before + code + "\n\n본 인증코드는 5분간 유효합니다.\n\n감사합니다.")
  }

  /** `sendPasswordResetVerificationEmail`: the password-reset code message. */
  function PasswordResetVerificationEmail(to: string, code: string): (m: Mail)
    ensures m.from == Sender && m.to == to && Includes(m.text, code)
  {
    var before := "안녕하세요.\n\n비밀번호 초기화를 위한 인증코드입니다.\n\n인증코드: ";
    var after := "\n\n본 인증코드는 5분간 유효합니다.\n\n만약 본인이 요청하지 않은 이메일이라면 무시해주세요.\n\n감사합니다.";
    assert OccursAt(before + code + after, code, |before|);
    Mail(Sender, to, "[도서관리시스템] 비밀번호 초기화 인증코드", before + code + after)
  }

  /** `sendFoundUsernameEmail`: the message carrying the recovered username. */
  function FoundUsernameEmail(to: string, username: string): (m: Mail)
    ensures m.from == Sender && m.to == to && Includes(m.text, username)
  {
    var before := "안녕하세요.\n\n요청하신 아이디 찾기 결과입니다.\n\n아이디: ";
    var after := "\n\n로그인 페이지에서 해당 아이디로 로그인하실 수 있습니다.\n\n감사합니다.";
    assert OccursAt(before + username + after, username, |before|);
    Mail(Sender, to, "[도서관리시스템] 아이디 찾기 결과", before + username + after)
  }

  /** `sendTemporaryPassword`: the message carrying a temporary password. */
  function TemporaryPasswordEmail(to: string, password: string, username: string): (m: Mail)
    ensures m.from == Sender && m.to == to && Includes(m.text, password) && Includes(m.text, username)
  {
    var greet := "안녕하세요 ";
    var middle := "님,\n\n요청하신 임시 비밀번호가 발급되었습니다.\n\n임시 비밀번호: ";
    var after := "\n\n로그인 후 반드시 비밀번호를 변경해주세요.\n\n감사합니다.";
    var text := greet + username + middle + password + after;
    assert OccursAt(text, username, |greet|);
    assert OccursAt(text, password, |greet| + |username| + |middle|);
    Mail(Sender, to, "[도서관리시스템] 임시 비밀번호 발급", text)
  }

  /**
   * `sendEmailVerification(email, token, username)`: the sign-up message is the
   * find-id code message carrying the token; the username is not used.
   */
  function EmailVerificationMail(email: string, token: string, username: string): (m: Mail)
    ensures m.from == Sender && m.to == email && Includes(m.text, token)
  {
    UsernameVerificationEmail(email, token)
  }

  lemma EmailVerificationIgnoresUsername(email: string, token: string, u1: string, u2: string)
    ensures EmailVerificationMail(email, token, u1) == EmailVerificationMail(email, token, u2)
    ensures EmailVerificationMail(email, token, u1) == UsernameVerificationEmail(email, token)
  {
  }
}
