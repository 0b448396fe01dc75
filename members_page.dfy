/**
 * The member management page. It still runs on its built-in sample list:
 * loading and searching read that list, and adding, editing and deleting
 * change only the page's copy. The year (`new Date().getFullYear()`) and
 * today's date are parameters.
 */
module MembersPage {
  import opened Wrappers
  import opened Text
  import opened ClientTypes
  import Lists
  import Utils
  import MemberEntity

  /** `mockMembers`. */
  const MockMembers: seq<Member> := [
    Member(1, "M2025001", "김철수", "kim.cs@email.com", "010-1234-5678", "서울시 강남구 역삼동 123-45", "ACTIVE", "2025-01-15"),
    Member(2, "M2025002", "이영희", "lee.yh@email.com", "010-2345-6789", "서울시 서초구 서초동 456-78", "ACTIVE", "2025-01-20"),
    Member(3, "M2025003", "박민수", "park.ms@email.com", "010-3456-7890", "서울시 종로구 종로1가 789-12", "SUSPENDED", "2025-02-01"),
    Member(4, "M2025004", "정수현", "jung.sh@email.com", "010-4567-8901", "서울시 마포구 홍대동 234-56", "ACTIVE", "2025-02-05"),
    Member(5, "M2025005", "황동현", "hwang.dh@email.com", "010-5678-9012", "서울시 용산구 이태원동 567-89", "INACTIVE", "2024-12-10")
  ]

  // ----- handleSearch -----

  /** The search test: name and e-mail ignoring case, phone and member number as typed. */
  predicate Matches(value: string, m: Member)
  {
    || IncludesIgnoringCase(m.name, value)
    || IncludesIgnoringCase(m.email, value)
    || Includes(m.phone, value)
    || Includes(m.memberNumber, value)
  }

  function MatchesValue(value: string): Member -> bool
  {
    m => Matches(value, m)
  }

  /** What the list shows after `handleSearch(value)`: all samples for a blank box, the matching samples otherwise. */
  function SearchResult(value: string): (r: seq<Member>)
  {
    if IsJsBlank(value) then MockMembers else Lists.Filter(MockMembers, MatchesValue(value))
  }

  /**
   * A search shows exactly the matching sample members, in sample order,
   * whatever the page held before: members added or edited on the page are
   * never found.
   */
  lemma SearchReadsOnlySamples(value: string)
    ensures Lists.IsSubsequence(SearchResult(value), MockMembers)
    ensures !IsJsBlank(value) ==>
              forall m :: m in SearchResult(value) <==> m in MockMembers && Matches(value, m)
  {
    if IsJsBlank(value) {
      Lists.SubsequenceOfItself(MockMembers);
    } else {
      Lists.FilterKeepsExactlyPassing(MockMembers, MatchesValue(value));
    }
  }

  /** Name and e-mail matching ignores the case of what is typed. */
  lemma SearchIgnoresCaseOfNameAndEmail(value: string, m: Member)
    ensures IncludesIgnoringCase(m.name, value) == IncludesIgnoringCase(m.name, ToLower(value))
    ensures IncludesIgnoringCase(m.email, value) == IncludesIgnoringCase(m.email, ToLower(value))
  {
    IncludesIgnoringCaseIgnoresCase(m.name, value);
    IncludesIgnoringCaseIgnoresCase(m.email, value);
  }

  // ----- generateMemberNumber -----

  function SkipJsSpace(s: string): (t: string)
    ensures |t| <= |s| && t == s[|s| - |t|..]
  {
    if |s| > 0 && IsJsSpace(s[0]) then SkipJsSpace(s[1..]) else s
  }

  /** The longest run of decimal digits at the front of `s`. */
  function LeadingDigits(s: string): (d: string)
    ensures d <= s && AllDigits(d)
    ensures |d| < |s| ==> !IsDigit(s[|d|])
  {
    if |s| > 0 && IsDigit(s[0]) then [s[0]] + LeadingDigits(s[1..]) else []
  }

  /**
   * `parseInt(s)`: leading white space skipped, an optional sign, then the
   * longest run of decimal digits; `None` is `NaN`.
   */
  function ParseInt(s: string): (r: Option<int>)
    ensures s == [] ==> r.None?
    ensures s != [] && IsDigit(s[0]) ==> r.Some? && r.value >= 0
    ensures s != [] && !IsDigit(s[0]) && !IsJsSpace(s[0]) && s[0] != '-' && s[0] != '+' ==> r.None?
  {
    var t := SkipJsSpace(s);
    var u := if |t| > 0 && (t[0] == '-' || t[0] == '+') then t[1..] else t;
    var d := LeadingDigits(u);
    if d == [] then None
    else if |t| > 0 && t[0] == '-' then Some(-(DigitsValue(d) as int))
    else Some(DigitsValue(d))
  }

  /** A non-empty run of digits reads as its decimal value. */
  lemma ParseIntOfDigits(s: string)
    requires AllDigits(s) && s != []
    ensures ParseInt(s) == Some(DigitsValue(s))
  {
    assert IsDigit(s[0]);
    assert !IsJsSpace(s[0]);
    assert SkipJsSpace(s) == s;
    assert s[0] != '-' && s[0] != '+';
    LeadingDigitsOfDigits(s);
  }

  lemma {:induction false} LeadingDigitsOfDigits(s: string)
    requires AllDigits(s)
    ensures LeadingDigits(s) == s
  {
    if s != [] {
      LeadingDigitsOfDigits(s[1..]);
    }
  }

  /** `memberNumber.slice(-3)`: the last three characters, or all of a shorter text. */
  function LastThree(s: string): (t: string)
    ensures |t| == if |s| < 3 then |s| else 3
    ensures t == s[|s| - |t|..]
  {
    if |s| < 3 then s else s[|s| - 3..]
  }

  /** The number a member contributes to the `reduce`: its last three characters read with `parseInt`. */
  function SuffixNumber(m: Member): Option<int>
  {
    ParseInt(LastThree(m.memberNumber))
  }

  /**
   * The `reduce` step by step: `num > max ? num : max` from 0, where a `NaN`
   * (`None`) compares false and so never wins.
   */
  function MaxReadable(nums: seq<Option<int>>): (h: int)
    ensures h >= 0
  {
    if nums == [] then 0
    else
      var max := MaxReadable(nums[..|nums| - 1]);
      var num := nums[|nums| - 1];
      if num.Some? && num.value > max then num.value else max
  }

  /** The fold yields a bound on every number read, reached by one of them unless it is 0. */
  lemma {:induction false} MaxReadableIsMaximum(nums: seq<Option<int>>)
    ensures forall i :: 0 <= i < |nums| && nums[i].Some? ==> nums[i].value <= MaxReadable(nums)
    ensures MaxReadable(nums) > 0 ==> exists i :: 0 <= i < |nums| && nums[i] == Some(MaxReadable(nums))
  {
    if nums != [] {
      var init := nums[..|nums| - 1];
      MaxReadableIsMaximum(init);
      assert forall i :: 0 <= i < |init| ==> init[i] == nums[i];
      var max := MaxReadable(init);
      if MaxReadable(nums) == max && max > 0 {
        var i :| 0 <= i < |init| && init[i] == Some(max);
        assert nums[i] == Some(max);
      }
    }
  }

  function SuffixNumbers(members: seq<Member>): (nums: seq<Option<int>>)
    ensures |nums| == |members|
    ensures forall i :: 0 <= i < |members| ==> nums[i] == SuffixNumber(members[i])
  {
    seq(|members|, i requires 0 <= i < |members| => SuffixNumber(members[i]))
  }

  /** `members.reduce((max, member) => …, 0)` over the members' suffix numbers. */
  function HighestSuffix(members: seq<Member>): (h: int)
    ensures h >= 0
    ensures forall i :: 0 <= i < |members| && SuffixNumber(members[i]).Some? ==> SuffixNumber(members[i]).value <= h
  {
    var nums := SuffixNumbers(members);
    MaxReadableIsMaximum(nums);
    MaxReadable(nums)
  }

  /** `` `M${year}${(lastMember + 1).toString().padStart(3, '0')}` ``. */
  function GenerateMemberNumber(year: nat, members: seq<Member>): (n: string)
    ensures |n| >= 4 + |Decimal(year)| && n[0] == 'M' && n[1..1 + |Decimal(year)|] == Decimal(year)
  {
    "M" + Decimal(year) + PadStart(Decimal(HighestSuffix(members) + 1), 3, '0')
  }

  /** The first member number of a year ends in 001. */
  lemma FirstNumberOfTheList(year: nat)
    ensures GenerateMemberNumber(year, []) == "M" + Decimal(year) + "001"
  {
    assert Decimal(1) == "1";
  }

  lemma ThreeDigitsAtMost(n: nat)
    requires 1 <= n < 1000
    ensures |Decimal(n)| <= 3
  {
    if n < 10 {
      DecimalLength(n, 1);
    } else if n < 100 {
      DecimalLength(n, 2);
    } else {
      DecimalLength(n, 3);
    }
  }

  /**
   * Below 999 the generated number is new: its last three digits read one
   * past every suffix on the page, so no member already carries it.
   */
  lemma GeneratedNumberIsNew(year: nat, members: seq<Member>)
    requires HighestSuffix(members) < 999
    ensures forall i :: 0 <= i < |members| ==> members[i].memberNumber != GenerateMemberNumber(year, members)
  {
    var n := HighestSuffix(members) + 1;
    var padded := PadStart(Decimal(n), 3, '0');
    var g := GenerateMemberNumber(year, members);
    ThreeDigitsAtMost(n);
    ZeroPadValue(Decimal(n), 3);
    DecimalValue(n);
    assert |padded| == 3;
    assert LastThree(g) == padded;
    ParseIntOfDigits(padded);
    forall i | 0 <= i < |members|
      ensures members[i].memberNumber != g
    {
      assert SuffixNumber(members[i]) != Some(n);
    }
  }

  // ----- handleModalOk -----

  /** The modal's fields; `status` is only on the form when editing. */
  datatype MemberForm = MemberForm(name: string, email: string, phone: string, address: string, status: Option<string>)

  /** `/^010-\d{4}-\d{4}$/`, the phone field's pattern. */
  predicate PhoneRule(phone: string)
  {
    && |phone| == 13 && phone[..4] == "010-" && phone[8] == '-'
    && AllDigits(phone[4..8]) && AllDigits(phone[9..])
  }

  /** Every phone number the form accepts also passes the shared `isValidPhone` check. */
  lemma PhoneRuleIsValidPhone(phone: string)
    requires PhoneRule(phone)
    ensures Utils.IsValidPhone(phone)
  {
    assert forall i :: 0 <= i < |phone| ==> phone[i] == '-' || IsDigit(phone[i]) by {
      forall i | 0 <= i < |phone|
        ensures phone[i] == '-' || IsDigit(phone[i])
      {
        if i < 4 {
          assert phone[i] == phone[..4][i];
        } else if 4 <= i < 8 {
          assert phone[i] == phone[4..8][i - 4];
        } else if i >= 9 {
          assert phone[i] == phone[9..][i - 9];
        }
      }
    }
    RemoveNothing(phone, IsJsSpace);
    assert phone[..2] == "01" && IsDigit(phone[2]) by {
      assert phone[..2] == phone[..4][..2] && phone[2] == phone[..4][2];
    }
    assert Utils.PhoneLayout(phone, true, true);
    Utils.PhonePatternLayouts(phone);
  }

  /** `{ ...member, ...values, updatedAt }`: the form's fields replace the member's. */
  function Merge(m: Member, values: MemberForm): (r: Member)
    ensures r.id == m.id && r.memberNumber == m.memberNumber && r.registrationDate == m.registrationDate
    ensures r.name == values.name && r.email == values.email && r.phone == values.phone && r.address == values.address
    ensures r.status == values.status.GetOr(m.status)
  {
    m.(name := values.name, email := values.email, phone := values.phone, address := values.address,
       status := values.status.GetOr(m.status))
  }

  function MergeWith(values: MemberForm): Member -> Member
  {
    m => Merge(m, values)
  }

  /** `values.status || 'ACTIVE'`. */
  function StatusOrActive(status: Option<string>): (s: string)
    ensures status.None? || status.value == "" ==> s == Active
    ensures status.Some? && status.value != "" ==> s == status.value
  {
    if status.Some? && status.value != "" then status.value else Active
  }

  /** The member `handleModalOk` appends, with the intended id rule (`1` on an empty page). */
  function NewMember(members: seq<Member>, values: MemberForm, year: nat, today: string): (m: Member)
    ensures forall i :: 0 <= i < |members| ==> members[i].id < m.id
    ensures m.memberNumber == GenerateMemberNumber(year, members)
    ensures m.status == StatusOrActive(values.status) && m.registrationDate == today
    ensures m.name == values.name && m.email == values.email && m.phone == values.phone && m.address == values.address
  {
    var ids := seq(|members|, i requires 0 <= i < |members| => members[i].id);
    assert forall i :: 0 <= i < |members| ==> members[i].id in ids by {
      forall i | 0 <= i < |members| ensures members[i].id in ids { assert ids[i] == members[i].id; }
    }
    Member(Lists.NextId(ids), GenerateMemberNumber(year, members), values.name, values.email, values.phone,
           values.address, StatusOrActive(values.status), today)
  }

  /** `getStatusColor(status)`. */
  function StatusColor(status: string): (c: string)
    ensures c == "default" <==> !(status == "ACTIVE" || status == "SUSPENDED" || status == "INACTIVE")
  {
    if status == "ACTIVE" then "green"
    else if status == "SUSPENDED" then "orange"
    else if status == "INACTIVE" then "red"
    else "default"
  }

  /** `getStatusText(status)`. */
  function StatusText(status: string): (text: string)
    ensures text == status <==> !(status == "ACTIVE" || status == "SUSPENDED" || status == "INACTIVE")
  {
    if status == "ACTIVE" then "활성"
    else if status == "SUSPENDED" then "정지"
    else if status == "INACTIVE" then "비활성"
    else status
  }

  /**
   * Active and suspended members from the server get their colour and label;
   * a withdrawn one, a status this page does not know, is shown raw in the
   * neutral colour.
   */
  lemma StatusTagsForServerStatuses()
    ensures StatusText(MemberStatusName(MemberEntity.ACTIVE)) == "활성"
    ensures StatusText(MemberStatusName(MemberEntity.SUSPENDED)) == "정지"
    ensures StatusColor(MemberStatusName(MemberEntity.WITHDRAWN)) == "default"
    ensures StatusText(MemberStatusName(MemberEntity.WITHDRAWN)) == "WITHDRAWN"
  {
  }

  /** The page's list of members. */
  class Page {
    var members: seq<Member>

    constructor ()
      ensures members == []
    {
      members := [];
    }

    /** `loadMembers`: the sample list. */
    method Load()
      modifies this
      ensures members == MockMembers
    {
      members := MockMembers;
    }

    /** `handleSearch(value)`. */
    method Search(value: string)
      modifies this
      ensures members == SearchResult(value)
    {
      if IsJsBlank(value) {
        members := MockMembers;
      } else {
        members := Lists.Filter(MockMembers, MatchesValue(value));
      }
    }

    /** `handleDelete(id)`: the members with that id go, the others stay in order. */
    method Delete(id: int)
      modifies this
      ensures members == Lists.Filter(old(members), MemberWithOtherId(id))
      ensures forall m :: m in members <==> m in old(members) && m.id != id
    {
      Lists.FilterKeepsExactlyPassing(members, MemberWithOtherId(id));
      members := Lists.Filter(members, MemberWithOtherId(id));
    }

    /** `handleModalOk` while editing `id`: the form merged into the members with that id. */
    method Edit(id: int, values: MemberForm)
      modifies this
      ensures members == Lists.MapWhere(old(members), MemberWithId(id), MergeWith(values))
    {
      members := Lists.MapWhere(members, MemberWithId(id), MergeWith(values));
    }

    /** `handleModalOk` while adding: one new member at the end. */
    method Add(values: MemberForm, year: nat, today: string)
      modifies this
      ensures members == old(members) + [NewMember(old(members), values, year, today)]
    {
      members := members + [NewMember(members, values, year, today)];
    }
  }

  /** Editing changes only the member with that id, and only the form's fields. */
  lemma EditChangesOnlyThatMember(members: seq<Member>, id: int, values: MemberForm)
    ensures var r := Lists.MapWhere(members, MemberWithId(id), MergeWith(values));
            && |r| == |members|
            && (forall i :: 0 <= i < |members| && members[i].id != id ==> r[i] == members[i])
            && (forall i :: 0 <= i < |members| && members[i].id == id ==> r[i] == Merge(members[i], values))
  {
  }

  /** Adding keeps every member and appends one whose id and number no member has yet. */
  lemma AddAppendsAFreshMember(members: seq<Member>, values: MemberForm, year: nat, today: string)
    requires HighestSuffix(members) < 999
    ensures var m := NewMember(members, values, year, today);
            && (forall i :: 0 <= i < |members| ==> members[i].id != m.id)
            && (forall i :: 0 <= i < |members| ==> members[i].memberNumber != m.memberNumber)
  {
    GeneratedNumberIsNew(year, members);
  }
}
