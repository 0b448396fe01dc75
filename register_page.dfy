/**
 * The sign-up page: the password-strength meter, its colour and label, the
 * field rules on the user name and the password confirmation, and the body
 * sent to the server.
 */
module RegisterPage {
  import opened Wrappers
  import opened Text
  import Lists

  /** The five things the meter looks for, in the order it checks them. */
  datatype Criterion = LongEnough | HasUpper | HasLower | HasDigit | HasSymbol

  const Criteria: seq<Criterion> := [LongEnough, HasUpper, HasLower, HasDigit, HasSymbol]

  predicate Contains(password: string, p: char -> bool)
  {
    exists i | 0 <= i < |password| :: p(password[i])
  }

  predicate IsSymbol(c: char) { !IsAlnum(c) }

  /** `password.length >= 8`, `/[A-Z]/`, `/[a-z]/`, `/[0-9]/` and `/[^A-Za-z0-9]/`. */
  predicate Holds(c: Criterion, password: string)
  {
    match c
    case LongEnough => |password| >= 8
    case HasUpper => Contains(password, IsUpper)
    case HasLower => Contains(password, IsLower)
    case HasDigit => Contains(password, IsDigit)
    case HasSymbol => Contains(password, IsSymbol)
  }

  /** The hint shown for a criterion the password misses. */
  function Suggestion(c: Criterion): string
  {
    match c
    case LongEnough => "최소 8자 이상 입력하세요"
    case HasUpper => "대문자를 포함하세요"
    case HasLower => "소문자를 포함하세요"
    case HasDigit => "숫자를 포함하세요"
    case HasSymbol => "특수문자를 포함하세요"
  }

  function MetBy(password: string): Criterion -> bool
  {
    c => Holds(c, password)
  }

  function MissedBy(password: string): Criterion -> bool
  {
    c => !Holds(c, password)
  }

  /** The criteria the password meets, in checking order. */
  function Satisfied(password: string): seq<Criterion>
  {
    Lists.Filter(Criteria, MetBy(password))
  }

  /** The criteria the password misses, in checking order. */
  function Unmet(password: string): seq<Criterion>
  {
    Lists.Filter(Criteria, MissedBy(password))
  }

  function Suggestions(cs: seq<Criterion>): (r: seq<string>)
    ensures |r| == |cs| && forall i :: 0 <= i < |cs| ==> r[i] == Suggestion(cs[i])
  {
    seq(|cs|, i requires 0 <= i < |cs| => Suggestion(cs[i]))
  }

  /** `PasswordStrength`: a score out of 100 and the hints still to follow. */
  datatype Strength = Strength(score: int, suggestions: seq<string>)

  /** The meter after the first `k` checks, taken one at a time. */
  ghost function Progress(password: string, k: nat): Strength
    requires k <= |Criteria|
  {
    if k == 0 then Strength(0, [])
    else
      var s := Progress(password, k - 1);
      if Holds(Criteria[k - 1], password) then Strength(s.score + 20, s.suggestions)
      else Strength(s.score, s.suggestions + [Suggestion(Criteria[k - 1])])
  }

  /** After `k` checks the score is 20 for each of the first `k` criteria met. */
  lemma {:induction false} ProgressScore(password: string, k: nat)
    requires k <= |Criteria|
    ensures Progress(password, k).score == 20 * |Lists.Filter(Criteria[..k], MetBy(password))|
  {
    if k > 0 {
      ProgressScore(password, k - 1);
      assert Criteria[..k] == Criteria[..k - 1] + [Criteria[k - 1]];
      Lists.FilterAppend(Criteria[..k - 1], [Criteria[k - 1]], MetBy(password));
      assert [Criteria[k - 1]][1..] == [];
    }
  }

  /** After `k` checks the hints are those of the first `k` criteria missed, in order. */
  lemma {:induction false} ProgressHints(password: string, k: nat)
    requires k <= |Criteria|
    ensures Progress(password, k).suggestions == Suggestions(Lists.Filter(Criteria[..k], MissedBy(password)))
  {
    if k > 0 {
      ProgressHints(password, k - 1);
      assert Criteria[..k] == Criteria[..k - 1] + [Criteria[k - 1]];
      Lists.FilterAppend(Criteria[..k - 1], [Criteria[k - 1]], MissedBy(password));
      assert [Criteria[k - 1]][1..] == [];
    }
  }

  /**
   * `checkPasswordStrength(password)`: five checks in turn, each adding 20 to
   * the score or pushing its hint.
   */
  method CheckPasswordStrength(password: string) returns (s: Strength)
    ensures s.score == 20 * |Satisfied(password)|
    ensures s.suggestions == Suggestions(Unmet(password))
  {
    var score := 0;
    var suggestions: seq<string> := [];
    ghost var k := 0;
    score, suggestions := Check(password, k, |password| >= 8, "최소 8자 이상 입력하세요", score, suggestions);
    k := k + 1;
    score, suggestions := Check(password, k, Contains(password, IsUpper), "대문자를 포함하세요", score, suggestions);
    k := k + 1;
    score, suggestions := Check(password, k, Contains(password, IsLower), "소문자를 포함하세요", score, suggestions);
    k := k + 1;
    score, suggestions := Check(password, k, Contains(password, IsDigit), "숫자를 포함하세요", score, suggestions);
    k := k + 1;
    score, suggestions := Check(password, k, Contains(password, IsSymbol), "특수문자를 포함하세요", score, suggestions);
    k := k + 1;
    ProgressScore(password, k);
    ProgressHints(password, k);
    assert Criteria[..k] == Criteria;
    s := Strength(score, suggestions);
  }

  /**
   * Check number `k`: 20 points when `met`, otherwise `hint` is pushed. The
   * caller passes the test and the hint of the `k`-th criterion.
   */
  method Check(password: string, ghost k: nat, met: bool, hint: string, score: int, suggestions: seq<string>)
    returns (score': int, suggestions': seq<string>)
    requires k < |Criteria| && Strength(score, suggestions) == Progress(password, k)
    requires met == Holds(Criteria[k], password) && hint == Suggestion(Criteria[k])
    ensures Strength(score', suggestions') == Progress(password, k + 1)
  {
    if met {
      score', suggestions' := score + 20, suggestions;
    } else {
      score', suggestions' := score, suggestions + [hint];
    }
  }

  /** Every criterion is either met or unmet. */
  lemma CriteriaPartition(password: string)
    ensures |Satisfied(password)| + |Unmet(password)| == |Criteria|
  {
    var k := 0;
    while k < |Criteria|
      invariant k <= |Criteria|
      invariant |Lists.Filter(Criteria[..k], MetBy(password))| + |Lists.Filter(Criteria[..k], MissedBy(password))| == k
    {
      assert Criteria[..k + 1] == Criteria[..k] + [Criteria[k]];
      assert [Criteria[k]][1..] == [];
      Lists.FilterAppend(Criteria[..k], [Criteria[k]], MetBy(password));
      Lists.FilterAppend(Criteria[..k], [Criteria[k]], MissedBy(password));
      k := k + 1;
    }
    assert Criteria[..k] == Criteria;
  }

  /**
   * The score is a multiple of 20 between 0 and 100, there is one hint per
   * missing 20 points, and the score is full exactly when no hint is left.
   */
  lemma StrengthScale(password: string)
    ensures var score := 20 * |Satisfied(password)|;
            var hints := Suggestions(Unmet(password));
            && 0 <= score <= 100 && score % 20 == 0
            && |hints| == 5 - score / 20
            && (score == 100 <==> hints == [])
  {
    CriteriaPartition(password);
  }

  /** `getPasswordStrengthColor(score)`. */
  function StrengthColor(score: int): (c: string)
    ensures c == "#ff4d4f" <==> score < 40
    ensures c == "#52c41a" <==> score >= 80
  {
    if score < 40 then "#ff4d4f" else if score < 80 then "#faad14" else "#52c41a"
  }

  /** `getPasswordStrengthText(score)`. */
  function StrengthText(score: int): (text: string)
    ensures text == "약함" <==> score < 40
    ensures text == "강함" <==> score >= 80
  {
    if score < 40 then "약함" else if score < 80 then "보통" else "강함"
  }

  /**
   * Colour and label use the same thresholds; on the meter's scale a password
   * is strong with four criteria met and weak with at most one.
   */
  lemma ColourAndLabelAgree(a: int, b: int, password: string)
    ensures StrengthColor(a) == StrengthColor(b) <==> StrengthText(a) == StrengthText(b)
    ensures StrengthText(20 * |Satisfied(password)|) == "강함" <==> |Satisfied(password)| >= 4
    ensures StrengthText(20 * |Satisfied(password)|) == "약함" <==> |Satisfied(password)| <= 1
  {
  }

  /** The confirmation validator: `!value || getFieldValue('password') === value`; `None` is undefined. */
  predicate ConfirmPasses(password: string, value: Option<string>)
  {
    match value
    case None => true
    case Some(v) => v == "" || password == v
  }

  /** Together with the field's `required` rule, the validator admits the password itself and nothing else. */
  lemma ConfirmWithRequired(password: string, value: Option<string>)
    ensures (value.Some? && value.value != "" && ConfirmPasses(password, value))
            <==> (password != "" && value == Some(password))
  {
  }

  predicate IsUsernameChar(c: char) { IsAlnum(c) || c == '_' }

  /** One rule of a form field: what it accepts. */
  datatype Rule = Required | Min(n: nat) | Max(n: nat) | Pattern(allowed: char -> bool)

  predicate Passes(rule: Rule, value: string)
  {
    match rule
    case Required => value != ""
    case Min(n) => |value| >= n
    case Max(n) => |value| <= n
    case Pattern(allowed) => |value| > 0 && forall i :: 0 <= i < |value| ==> allowed(value[i])
  }

  /** The user-name field's rules: required, 3 to 20 characters, `/^[a-zA-Z0-9_]+$/`. */
  const UsernameRules: seq<Rule> := [Required, Min(3), Max(20), Pattern(IsUsernameChar)]

  predicate UsernameAccepted(username: string)
  {
    forall i | 0 <= i < |UsernameRules| :: Passes(UsernameRules[i], username)
  }

  /** The four rules together accept 3 to 20 letters, digits and underscores. */
  lemma UsernameRulesMeaning(username: string)
    ensures UsernameAccepted(username) <==>
              3 <= |username| <= 20 && forall i :: 0 <= i < |username| ==> IsUsernameChar(username[i])
  {
    var rules := UsernameRules;
    assert rules[1] == Min(3) && rules[2] == Max(20) && rules[3] == Pattern(IsUsernameChar);
  }

  /** `RegisterRequest`: the form's values. */
  datatype RegisterForm = RegisterForm(
    username: string, email: string, password: string, confirmPassword: string,
    name: string, phone: string, address: string)

  /** The JSON body posted to `/api/auth/register`. */
  datatype RegisterBody = RegisterBody(
    username: string, email: string, password: string, name: string, phone: string, address: string)

  /** `const { confirmPassword, ...registerData } = values`. */
  function ToBody(values: RegisterForm): (body: RegisterBody)
    ensures body.username == values.username && body.email == values.email && body.password == values.password
    ensures body.name == values.name && body.phone == values.phone && body.address == values.address
  {
    RegisterBody(values.username, values.email, values.password, values.name, values.phone, values.address)
  }

  /** The confirmation never reaches the server: forms that differ only there send the same body. */
  lemma BodyIgnoresConfirmation(values: RegisterForm, other: string)
    ensures ToBody(values.(confirmPassword := other)) == ToBody(values)
  {
  }
}
