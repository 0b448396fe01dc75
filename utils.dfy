/**
 * The frontend helpers in `utils/index.ts`: overdue days and fees computed in
 * the browser, the input checks, the error-message table and `removeDuplicates`.
 *
 * Instants are milliseconds since the epoch, as `dayjs()` holds them; a date
 * string such as a due date stands for local midnight of that day.
 */
module Utils {
  import opened Wrappers
  import opened Text
  import Dates
  import LoanEntity
  import Lists

  const MsPerDay := 86_400_000
  const FeePerDay := 100

  /** Division that truncates toward zero, as dayjs rounds a `diff`. */
  function TruncDiv(a: int, b: int): int
    requires b > 0
  {
    if a >= 0 then a / b else -((-a) / b)
  }

  /** `later.diff(earlier, 'day')`: whole days between two instants, rounded toward zero. */
  function DiffDays(later: int, earlier: int): (d: int)
    ensures later >= earlier ==> d >= 0 && d * MsPerDay <= later - earlier < (d + 1) * MsPerDay
    ensures later < earlier ==> d <= 0 && (d - 1) * MsPerDay < later - earlier <= d * MsPerDay
  {
    TruncDiv(later - earlier, MsPerDay)
  }

  /** `calculateOverdueDays(dueDate)` read at instant `now`. */
  function OverdueDays(due: int, now: int): (d: int)
    ensures d >= 0
    ensures d > 0 <==> now - due >= MsPerDay
    ensures d > 0 ==> d * MsPerDay <= now - due < (d + 1) * MsPerDay
  {
    var diff := DiffDays(now, due);
    if diff > 0 then diff else 0
  }

  /** `isOverdue(dueDate, returnDate)`: a returned loan is never overdue. */
  predicate IsOverdue(due: int, returnDate: Option<int>, now: int)
  {
    if returnDate.Some? then false else now > due
  }

  /**
   * `calculateOverdueFee(dueDate, returnDate)`: 100 per whole day late, counted
   * to the return date when there is one and to `now` otherwise.
   */
  function OverdueFee(due: int, returnDate: Option<int>, now: int): (fee: int)
    ensures fee >= 0 && fee % FeePerDay == 0
    ensures fee > 0 <==> returnDate.GetOr(now) - due >= MsPerDay
    ensures fee > 0 ==> fee / FeePerDay * MsPerDay <= returnDate.GetOr(now) - due
                                                   < (fee / FeePerDay + 1) * MsPerDay
  {
    var days := OverdueDays(due, now);
    if returnDate.Some? then
      var overdueDays := DiffDays(returnDate.value, due);
      if overdueDays > 0 then overdueDays * FeePerDay else 0
    else
      days * FeePerDay
  }

  /** Whole days after `k` midnights plus less than a day are `k` days, rounded toward zero. */
  lemma DaysPastMidnight(k: int, t: int)
    requires 0 <= t < MsPerDay
    ensures k >= 0 ==> DiffDays(k * MsPerDay + t, 0) == k
    ensures k < 0 ==> DiffDays(k * MsPerDay + t, 0) <= 0
  {
  }

  /** The browser's instant for a backend loan's return date, at local midnight. */
  function ReturnInstant(l: LoanEntity.LoanRow): (r: Option<int>)
    ensures r.Some? <==> l.returnDate.Some?
    ensures r.Some? ==> r.value == l.returnDate.value * MsPerDay
  {
    match l.returnDate
    case Some(d) => Some(d * MsPerDay)
    case None => None
  }

  /**
   * The browser's fee agrees with the server's `Loan.calculateOverdueFee`
   * whenever the browser's clock is on the server's day and the fee fits in a
   * Java `int`.
   */
  lemma ClientFeeMatchesServer(l: LoanEntity.LoanRow, today: int, t: int)
    requires 0 <= t < MsPerDay
    requires LoanEntity.FeePerDay * LoanEntity.OverdueDays(l, today) <= LoanEntity.IntMax
    ensures OverdueFee(l.dueDate * MsPerDay, ReturnInstant(l), today * MsPerDay + t)
            == LoanEntity.OverdueFee(l, today)
  {
    var due := l.dueDate * MsPerDay;
    var check := LoanEntity.CheckDate(l, today);
    if l.returnDate.Some? {
      assert l.returnDate.value * MsPerDay - due == (check - l.dueDate) * MsPerDay + 0;
      DaysPastMidnight(check - l.dueDate, 0);
      assert DiffDays(l.returnDate.value * MsPerDay, due) == DiffDays((check - l.dueDate) * MsPerDay + 0, 0);
    } else {
      assert today * MsPerDay + t - due == (check - l.dueDate) * MsPerDay + t;
      DaysPastMidnight(check - l.dueDate, t);
      assert DiffDays(today * MsPerDay + t, due) == DiffDays((check - l.dueDate) * MsPerDay + t, 0);
    }
  }

  /** A loan returned or checked less than a full day after it fell due costs nothing. */
  lemma FirstDayLateIsFree(due: int, now: int)
    requires due < now < due + MsPerDay
    ensures IsOverdue(due, None, now)
    ensures OverdueFee(due, None, now) == 0
  {
  }

  /** `isEmpty(str)`: `!str || str.trim() === ''`, where `None` is null or undefined. */
  predicate IsEmpty(s: Option<string>)
  {
    match s
    case None => true
    case Some(v) => v == "" || IsJsBlank(v)
  }

  /** A string is empty in this sense exactly when deleting its whitespace leaves nothing. */
  lemma {:induction false} IsEmptyIffOnlySpaces(v: string)
    ensures IsEmpty(Some(v)) <==> Remove(v, IsJsSpace) == ""
  {
    if v != [] {
      IsEmptyIffOnlySpaces(v[1..]);
      assert IsJsBlank(v) <==> IsJsSpace(v[0]) && IsJsBlank(v[1..]);
    }
  }

  /** Drops one leading '-', as the optional `-?` of a pattern consumes it. */
  function SkipDash(s: string): (t: string)
    ensures t == s || (s != [] && s[0] == '-' && t == s[1..])
  {
    if |s| > 0 && s[0] == '-' then s[1..] else s
  }

  /**
   * `/^01[0-9]-?[0-9]{4}-?[0-9]{4}$/`, read left to right.  Taking each `-?`
   * greedily never needs backtracking, since what follows it is a digit.
   */
  predicate PhonePattern(s: string)
  {
    && |s| >= 3 && s[..2] == "01" && IsDigit(s[2])
    && var a := SkipDash(s[3..]);
    && |a| >= 4 && AllDigits(a[..4])
    && var b := SkipDash(a[4..]);
    && |b| == 4 && AllDigits(b)
  }

  /** One of the four layouts the pattern admits: `dash1` and `dash2` say which hyphens are present. */
  predicate PhoneLayout(s: string, dash1: bool, dash2: bool)
  {
    var p := if dash1 then 4 else 3;
    var q := p + 4 + (if dash2 then 1 else 0);
    && |s| == q + 4
    && s[..2] == "01" && IsDigit(s[2])
    && (dash1 ==> s[3] == '-')
    && AllDigits(s[p..p + 4])
    && (dash2 ==> s[p + 4] == '-')
    && AllDigits(s[q..])
  }

  /** The greedy reading accepts exactly the strings of the four layouts. */
  lemma PhonePatternLayouts(s: string)
    ensures PhonePattern(s) <==> exists dash1: bool, dash2: bool :: PhoneLayout(s, dash1, dash2)
  {
    if PhonePattern(s) {
      PatternGivesLayout(s);
    }
    if exists dash1: bool, dash2: bool :: PhoneLayout(s, dash1, dash2) {
      var dash1: bool, dash2: bool :| PhoneLayout(s, dash1, dash2);
      LayoutGivesPattern(s, dash1, dash2);
    }
  }

  /** What the greedy reading accepts has the layout its two hyphens pick. */
  lemma PatternGivesLayout(s: string)
    requires PhonePattern(s)
    ensures PhoneLayout(s, s[3] == '-', SkipDash(s[3..])[4] == '-')
  {
    var dash1 := s[3] == '-';
    var p := if dash1 then 4 else 3;
    var a := SkipDash(s[3..]);
    assert a == s[p..];
    var dash2 := a[4] == '-';
    var q := p + 4 + (if dash2 then 1 else 0);
    assert a[..4] == s[p..p + 4];
    assert a[4..] == s[p + 4..];
    assert SkipDash(a[4..]) == s[q..];
  }

  /** Each layout is read by the greedy pattern. */
  lemma LayoutGivesPattern(s: string, dash1: bool, dash2: bool)
    requires PhoneLayout(s, dash1, dash2)
    ensures PhonePattern(s)
  {
    var p := if dash1 then 4 else 3;
    var q := p + 4 + (if dash2 then 1 else 0);
    assert !dash1 ==> IsDigit(s[p..p + 4][0]);
    var a := SkipDash(s[3..]);
    assert a == s[p..];
    assert a[..4] == s[p..p + 4];
    assert !dash2 ==> IsDigit(s[q..][0]);
    assert a[4..] == s[p + 4..];
    assert SkipDash(a[4..]) == s[q..];
  }

  /** `isValidPhone(phone)`: the pattern, tested after all whitespace is removed. */
  predicate IsValidPhone(phone: string)
  {
    PhonePattern(Remove(phone, IsJsSpace))
  }

  /** Whitespace anywhere in the input is ignored. */
  lemma PhoneIgnoresWhitespace(a: string, b: string, c: char)
    requires IsJsSpace(c)
    ensures IsValidPhone(a + [c] + b) == IsValidPhone(a + b)
  {
    RemoveConcat(a + [c], b, IsJsSpace);
    RemoveConcat(a, [c], IsJsSpace);
    RemoveConcat(a, b, IsJsSpace);
    assert Remove(a + [c] + b, IsJsSpace) == Remove(a + b, IsJsSpace);
  }

  /**
   * `isValidPhone` accepts exactly the inputs that, once whitespace is removed,
   * have one of the four layouts: 01x, four digits and four digits, each
   * hyphen optional.
   */
  lemma PhoneValidIffLayout(phone: string)
    ensures IsValidPhone(phone) <==>
              exists dash1: bool, dash2: bool :: PhoneLayout(Remove(phone, IsJsSpace), dash1, dash2)
  {
    var clean := Remove(phone, IsJsSpace);
    PhonePatternLayouts(clean);
    if IsValidPhone(phone) {
      assert PhonePattern(clean);
      var dash1: bool, dash2: bool :| PhoneLayout(clean, dash1, dash2);
      assert PhoneLayout(Remove(phone, IsJsSpace), dash1, dash2);
    }
    if exists dash1: bool, dash2: bool :: PhoneLayout(clean, dash1, dash2) {
      var dash1: bool, dash2: bool :| PhoneLayout(clean, dash1, dash2);
      assert PhonePattern(clean);
    }
  }

  /** A doubled hyphen is refused. */
  lemma PhoneRejectsDoubleHyphen(s: string)
    requires s == "010--1234-5678"
    ensures !IsValidPhone(s)
  {
    assert forall i :: 0 <= i < |s| ==> IsDigit(s[i]) || s[i] == '-';
    NoWhitespace(s);
    var a := SkipDash(s[3..]);
    assert s[3] == '-' && s[3..][1..] == s[4..];
    assert a[0] == s[4] == '-';
    assert !IsDigit(a[..4][0]);
  }

  /** A number that does not start with 01 is refused. */
  lemma PhoneRejectsLandline(s: string)
    requires s == "02-123-4567"
    ensures !IsValidPhone(s)
  {
    assert forall i :: 0 <= i < |s| ==> IsDigit(s[i]) || s[i] == '-';
    assert s[1] != '1';
    NoWhitespace(s);
  }

  /** A string of digits and hyphens has no whitespace to remove, so the pattern alone decides. */
  lemma NoWhitespace(s: string)
    requires forall i :: 0 <= i < |s| ==> IsDigit(s[i]) || s[i] == '-'
    ensures IsValidPhone(s) <==> PhonePattern(s)
  {
    RemoveNothing(s, IsJsSpace);
  }

  /** The characters `isValidISBN` strips: hyphens and whitespace. */
  predicate IsbnSeparator(c: char) { c == '-' || IsJsSpace(c) }

  /** `isValidISBN(isbn)`: ten or thirteen characters once separators are gone. */
  predicate IsValidIsbn(isbn: string)
  {
    var clean := Remove(isbn, IsbnSeparator);
    |clean| == 10 || |clean| == 13
  }

  /** Separators may go anywhere. */
  lemma IsbnIgnoresSeparators(a: string, b: string, c: char)
    requires IsbnSeparator(c)
    ensures IsValidIsbn(a + [c] + b) == IsValidIsbn(a + b)
  {
    RemoveConcat(a + [c], b, IsbnSeparator);
    RemoveConcat(a, [c], IsbnSeparator);
    RemoveConcat(a, b, IsbnSeparator);
  }

  /** Without separators only the length counts: there is no check digit, and letters pass too. */
  lemma IsbnIsOnlyALength(isbn: string)
    requires forall i :: 0 <= i < |isbn| ==> IsAlnum(isbn[i])
    ensures IsValidIsbn(isbn) <==> |isbn| == 10 || |isbn| == 13
  {
    RemoveNothing(isbn, IsbnSeparator);
  }

  lemma IsbnHasNoChecksum()
    ensures IsValidIsbn("0000000000")
  {
    var s := "0000000000";
    assert forall i :: 0 <= i < |s| ==> IsAlnum(s[i]);
    IsbnIsOnlyALength(s);
  }

  lemma IsbnAcceptsLetters()
    ensures IsValidIsbn("ABCDEFGHIJ")
  {
    var s := "ABCDEFGHIJ";
    assert forall i :: 0 <= i < |s| ==> IsAlnum(s[i]);
    IsbnIsOnlyALength(s);
  }

  /** What `error.response.data` held: a plain string, a JSON object, or nothing. */
  datatype ResponseData = TextData(text: string) | JsonData(message: Option<string>) | NoData

  datatype HttpResponse = HttpResponse(status: int, data: ResponseData)

  /** The fields of an axios error that `getErrorMessage` reads. */
  datatype ClientError = ClientError(response: Option<HttpResponse>, message: Option<string>)

  /** JavaScript truthiness of an optional string: present and non-empty. */
  predicate Truthy(s: Option<string>) { s.Some? && s.value != "" }

  const UnknownErrorMessage := "알 수 없는 오류가 발생했습니다."

  predicate IsKnownStatus(status: int)
  {
    status == 400 || status == 401 || status == 403 || status == 404 || status == 409 || status == 500
  }

  /** The `switch (error.response.status)` table with its default. */
  function StatusMessage(status: int): (m: string)
    ensures m != ""
  {
    match status
    case 400 => "잘못된 요청입니다."
    case 401 => "인증이 필요합니다."
    case 403 => "권한이 없습니다."
    case 404 => "요청한 리소스를 찾을 수 없습니다."
    case 409 => "요청이 현재 리소스 상태와 충돌합니다."
    case 500 => "서버 내부 오류가 발생했습니다."
    case _ => "오류가 발생했습니다. (상태 코드: " + Dates.IntText(status) + ")"
  }

  /** Each listed status has its own message; any other status is named in the default. */
  lemma StatusMessagesTellStatusesApart(s1: int, s2: int)
    ensures IsKnownStatus(s1) && IsKnownStatus(s2) && s1 != s2 ==> StatusMessage(s1) != StatusMessage(s2)
    ensures !IsKnownStatus(s1) ==> Includes(StatusMessage(s1), Dates.IntText(s1))
  {
    if !IsKnownStatus(s1) {
      var prefix := "오류가 발생했습니다. (상태 코드: ";
      var text := Dates.IntText(s1);
      assert StatusMessage(s1) == prefix + text + ")";
      assert OccursAt(StatusMessage(s1), text, |prefix|);
    }
  }

  /** `getErrorMessage(error)`. */
  function ErrorMessage(e: ClientError): (m: string)
    ensures e.response.Some? && e.response.value.data.TextData? ==> m == e.response.value.data.text
    ensures e.response.Some? && e.response.value.data.JsonData? && Truthy(e.response.value.data.message)
            ==> m == e.response.value.data.message.value
    ensures e.response.None? && Truthy(e.message) ==> m == e.message.value
    ensures e.response.None? && !Truthy(e.message) ==> m == UnknownErrorMessage
  {
    match e.response
    case Some(r) =>
      if r.data.TextData? then r.data.text
      else if r.data.JsonData? && Truthy(r.data.message) then r.data.message.value
      else StatusMessage(r.status)
    case None =>
      if Truthy(e.message) then e.message.value else UnknownErrorMessage
  }

  /**
   * The message is empty only when the server answered with an empty string;
   * without a usable message in the body the status decides it.
   */
  lemma ErrorMessageFallsBackToStatus(e: ClientError)
    ensures ErrorMessage(e) == "" ==> e.response.Some? && e.response.value.data == TextData("")
    ensures e.response.Some? && !e.response.value.data.TextData?
            && !(e.response.value.data.JsonData? && Truthy(e.response.value.data.message))
            ==> ErrorMessage(e) == StatusMessage(e.response.value.status)
  {
  }

  /** The key values of the items of `xs`. */
  ghost function KeysOf<T, K>(xs: seq<T>, key: T -> K): set<K>
  {
    set x | x in xs :: key(x)
  }

  /**
   * The `filter` of `removeDuplicates` continued from a `seen` set: an item is
   * kept when its key has not been seen, and its key is then added.
   */
  ghost function DedupFrom<T, K>(xs: seq<T>, key: T -> K, seen: set<K>): seq<T>
  {
    if xs == [] then []
    else if key(xs[0]) in seen then DedupFrom(xs[1..], key, seen)
    else [xs[0]] + DedupFrom(xs[1..], key, seen + {key(xs[0])})
  }

  /** `removeDuplicates(array, key)` as a specification. */
  ghost function Dedup<T, K>(xs: seq<T>, key: T -> K): seq<T>
  {
    DedupFrom(xs, key, {})
  }

  lemma KeysOfCons<T, K>(x: T, xs: seq<T>, key: T -> K)
    ensures KeysOf([x] + xs, key) == {key(x)} + KeysOf(xs, key)
  {
    assert forall y :: y in [x] + xs <==> y == x || y in xs;
  }

  /** Continuing from any `seen` set keeps a subsequence. */
  lemma {:induction false} DedupFromSubsequence<T, K>(xs: seq<T>, key: T -> K, seen: set<K>)
    ensures Lists.IsSubsequence(DedupFrom(xs, key, seen), xs)
  {
    if xs != [] {
      var r := DedupFrom(xs, key, seen);
      if key(xs[0]) in seen {
        DedupFromSubsequence(xs[1..], key, seen);
        Lists.SubsequenceOfTailIsSubsequence(r, xs);
      } else {
        DedupFromSubsequence(xs[1..], key, seen + {key(xs[0])});
        assert r[1..] == DedupFrom(xs[1..], key, seen + {key(xs[0])});
      }
    }
  }

  /** The keys kept are exactly those of `xs` not yet seen, each once. */
  lemma {:induction false} DedupFromKeys<T, K>(xs: seq<T>, key: T -> K, seen: set<K>)
    ensures KeysOf(DedupFrom(xs, key, seen), key) == KeysOf(xs, key) - seen
    ensures forall i, j :: 0 <= i < j < |DedupFrom(xs, key, seen)| ==>
              key(DedupFrom(xs, key, seen)[i]) != key(DedupFrom(xs, key, seen)[j])
  {
    if xs != [] {
      var x, rest := xs[0], xs[1..];
      assert xs == [x] + rest;
      KeysOfCons(x, rest, key);
      var r := DedupFrom(xs, key, seen);
      if key(x) in seen {
        DedupFromKeys(rest, key, seen);
      } else {
        var seen' := seen + {key(x)};
        var tail := DedupFrom(rest, key, seen');
        DedupFromKeys(rest, key, seen');
        assert r == [x] + tail;
        KeysOfCons(x, tail, key);
        forall i, j | 0 <= i < j < |r|
          ensures key(r[i]) != key(r[j])
        {
          assert r[j] == tail[j - 1] && r[j] in tail;
          if i > 0 {
            assert r[i] == tail[i - 1];
          }
        }
      }
    }
  }

  /** `y` is an item of `xs` whose key was neither seen before nor used by an earlier item. */
  ghost predicate FirstOfKey<T, K>(xs: seq<T>, key: T -> K, seen: set<K>, y: T)
  {
    exists j :: && 0 <= j < |xs| && y == xs[j] && key(xs[j]) !in seen + KeysOf(xs[..j], key)
  }

  /** Each item kept is the first of its key once `seen` is taken into account. */
  lemma {:induction false} DedupFromFirst<T, K>(xs: seq<T>, key: T -> K, seen: set<K>)
    ensures forall i :: 0 <= i < |DedupFrom(xs, key, seen)| ==> FirstOfKey(xs, key, seen, DedupFrom(xs, key, seen)[i])
  {
    if xs == [] {
      assert DedupFrom(xs, key, seen) == [];
    } else {
      var x, rest := xs[0], xs[1..];
      var r := DedupFrom(xs, key, seen);
      var seen' := seen + {key(x)};
      var tail := DedupFrom(rest, key, seen');
      var offset := if key(x) in seen then 0 else 1;
      assert key(x) in seen ==> seen' == seen;
      assert r == (if key(x) in seen then [] else [x]) + tail;
      DedupFromFirst(rest, key, seen');
      forall i | 0 <= i < |r|
        ensures FirstOfKey(xs, key, seen, r[i])
      {
        if i < offset {
          DedupHeadIsFirst(xs, key, seen);
          assert r[i] == xs[0];
        } else {
          assert FirstOfKey(rest, key, seen', tail[i - offset]);
          var j :| && 0 <= j < |rest| && tail[i - offset] == rest[j]
                   && key(rest[j]) !in seen' + KeysOf(rest[..j], key);
          DedupShiftIsFirst(xs, key, seen, j);
          assert r[i] == xs[j + 1];
        }
      }
    }
  }

  /** The head of a list is the first of its key when its key is new. */
  lemma DedupHeadIsFirst<T, K>(xs: seq<T>, key: T -> K, seen: set<K>)
    requires xs != [] && key(xs[0]) !in seen
    ensures FirstOfKey(xs, key, seen, xs[0])
  {
    assert xs[..0] == [];
    assert KeysOf(xs[..0], key) == {};
  }

  /** An item first of its key in the tail, past the head's key, is first of its key in the list. */
  lemma DedupShiftIsFirst<T, K>(xs: seq<T>, key: T -> K, seen: set<K>, j: int)
    requires 0 <= j < |xs| - 1
    requires key(xs[1..][j]) !in seen + {key(xs[0])} + KeysOf(xs[1..][..j], key)
    ensures key(xs[j + 1]) !in seen + KeysOf(xs[..j + 1], key)
  {
    assert xs[..j + 1] == [xs[0]] + xs[1..][..j];
    KeysOfCons(xs[0], xs[1..][..j], key);
  }

  /**
   * `removeDuplicates(array, key)` keeps, in the original order, the first
   * item for each key value and nothing else.
   */
  lemma DedupKeepsFirstOfEachKey<T, K>(xs: seq<T>, key: T -> K)
    ensures Lists.IsSubsequence(Dedup(xs, key), xs)
    ensures KeysOf(Dedup(xs, key), key) == KeysOf(xs, key)
    ensures forall i, j :: 0 <= i < j < |Dedup(xs, key)| ==> key(Dedup(xs, key)[i]) != key(Dedup(xs, key)[j])
    ensures forall i :: 0 <= i < |Dedup(xs, key)| ==>
              exists j :: 0 <= j < |xs| && Dedup(xs, key)[i] == xs[j] && key(xs[j]) !in KeysOf(xs[..j], key)
  {
    DedupFromSubsequence(xs, key, {});
    DedupFromKeys(xs, key, {});
    DedupFromFirst(xs, key, {});
    forall i | 0 <= i < |Dedup(xs, key)|
      ensures exists j :: 0 <= j < |xs| && Dedup(xs, key)[i] == xs[j] && key(xs[j]) !in KeysOf(xs[..j], key)
    {
      assert FirstOfKey(xs, key, {}, Dedup(xs, key)[i]);
      var j :| 0 <= j < |xs| && Dedup(xs, key)[i] == xs[j] && key(xs[j]) !in {} + KeysOf(xs[..j], key);
      assert {} + KeysOf(xs[..j], key) == KeysOf(xs[..j], key);
    }
  }

  /** `removeDuplicates(array, key)`: a `seen` set filled while the array is filtered. */
  method RemoveDuplicates<T, K(==)>(xs: seq<T>, key: T -> K) returns (r: seq<T>)
    ensures r == Dedup(xs, key)
  {
    var seen: set<K> := {};
    r := [];
    var i := 0;
    while i < |xs|
      invariant 0 <= i <= |xs|
      invariant r + DedupFrom(xs[i..], key, seen) == Dedup(xs, key)
    {
      var item := xs[i];
      var value := key(item);
      assert xs[i..][1..] == xs[i + 1..];
      if value !in seen {
        assert r + DedupFrom(xs[i..], key, seen) == (r + [item]) + DedupFrom(xs[i + 1..], key, seen + {value});
        seen := seen + {value};
        r := r + [item];
      }
      i := i + 1;
    }
    assert xs[i..] == [];
    assert r + [] == r;
  }

  function Identity<T>(x: T): T { x }

  /** `removeDuplicates(array)` without a key: `[...new Set(array)]`, the key being the item itself. */
  method RemoveDuplicateValues<T(==)>(xs: seq<T>) returns (r: seq<T>)
    ensures r == Dedup(xs, Identity)
  {
    r := RemoveDuplicates(xs, Identity);
  }
}
