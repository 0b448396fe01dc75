/**
 * `VerificationCodeRepository`: the JPQL lookups of one-time codes and the
 * purge of expired ones, over the `verification_codes` table.
 */
module CodeRepository {
  import opened Wrappers
  import opened Store
  import opened VerificationEntities

  /** The rows `findValidCode` selects: same e-mail, code and type, unused, `expiresAt > now`. */
  function ValidCodes(codes: CodeTable, email: string, code: string, kind: VerificationType, now: int): (r: set<int>)
    ensures forall k :: k in r <==> (k in codes && codes[k].email == email && codes[k].code == code
                                      && codes[k].kind == kind && !codes[k].used && codes[k].expiresAt > now)
  {
    set k | k in codes && codes[k].email == email && codes[k].code == code && codes[k].kind == kind
      && !codes[k].used && codes[k].expiresAt > now
  }

  /** `findValidCode`: an `Optional`, so two matching rows make the query fail. */
  function FindValidCode(codes: CodeTable, email: string, code: string, kind: VerificationType, now: int): (r: SingleResult)
    ensures r.NoRow? <==> ValidCodes(codes, email, code, kind, now) == {}
    ensures r.OneRow? ==> ValidCodes(codes, email, code, kind, now) == {r.id}
    ensures r.NonUnique? <==> exists a, b :: a in ValidCodes(codes, email, code, kind, now) && b in ValidCodes(codes, email, code, kind, now) && a != b
  {
    Single(ValidCodes(codes, email, code, kind, now))
  }

  /**
   * The query and `VerificationCode.isValid` agree at every instant except the
   * expiry instant itself: there `isValid` still holds but the query's strict
   * `expiresAt > now` has dropped the row.
   */
  lemma QueryAgreesWithIsValid(codes: CodeTable, email: string, code: string, kind: VerificationType, now: int, k: int)
    requires k in codes && codes[k].email == email && codes[k].code == code && codes[k].kind == kind
    ensures k in ValidCodes(codes, email, code, kind, now) <==> IsValid(codes[k], now) && now != codes[k].expiresAt
    ensures now == codes[k].expiresAt && !codes[k].used ==>
      IsValid(codes[k], now) && k !in ValidCodes(codes, email, code, kind, now)
  {
  }

  /** The rows `findLatestValidCode` selects before ordering: any code value, e-mail and type match. */
  function LatestCandidates(codes: CodeTable, email: string, kind: VerificationType, now: int): (r: set<int>)
    ensures r <= codes.Keys
    ensures forall k :: k in r <==> (k in codes && codes[k].email == email && codes[k].kind == kind
                                      && !codes[k].used && codes[k].expiresAt > now)
  {
    set k | k in codes && codes[k].email == email && codes[k].kind == kind && !codes[k].used && codes[k].expiresAt > now
  }

  /**
   * `findLatestValidCode` as declared: `ORDER BY createdAt DESC` feeding an
   * `Optional` result, so it answers only when exactly one code matches.
   */
  function FindLatestValidCodeAsWritten(codes: CodeTable, email: string, kind: VerificationType, now: int): (r: SingleResult)
    ensures r.NoRow? <==> LatestCandidates(codes, email, kind, now) == {}
    ensures r.OneRow? ==> LatestCandidates(codes, email, kind, now) == {r.id}
    ensures r.NonUnique? <==> exists a, b :: a in LatestCandidates(codes, email, kind, now) && b in LatestCandidates(codes, email, kind, now) && a != b
  {
    Single(LatestCandidates(codes, email, kind, now))
  }

  /** Row `a` was created after row `b` (ties broken by the larger id). */
  predicate Later(codes: CodeTable, a: int, b: int)
    requires a in codes && b in codes
  {
    codes[a].createdAt > codes[b].createdAt || (codes[a].createdAt == codes[b].createdAt && a > b)
  }

  /** The most recently created row of a non-empty set. */
  function LatestOf(codes: CodeTable, s: set<int>): (r: int)
    requires s != {} && s <= codes.Keys
    ensures r in s
    ensures forall x :: x in s && x != r ==> Later(codes, r, x)
    decreases |s|
  {
    var k := MaxOf(s);
    if s - {k} == {} then
      assert forall x :: x in s && x != k ==> x in s - {k};
      k
    else
      var m := LatestOf(codes, s - {k});
      if Later(codes, k, m) then
        assert forall x :: x in s && x != k ==> Later(codes, k, x) by {
          forall x | x in s && x != k && x != m ensures Later(codes, k, x) {
            LaterTransitive(codes, k, m, x);
          }
        }
        k
      else
        LaterTotal(codes, k, m);
        m
  }

  lemma LaterTransitive(codes: CodeTable, a: int, b: int, c: int)
    requires a in codes && b in codes && c in codes
    requires Later(codes, a, b) && Later(codes, b, c)
    ensures Later(codes, a, c)
  {
  }

  /** Of two different rows, one was created later. */
  lemma LaterTotal(codes: CodeTable, a: int, b: int)
    requires a in codes && b in codes && a != b
    ensures Later(codes, a, b) || Later(codes, b, a)
  {
  }

  /** `findLatestValidCode` as its name promises: the newest matching code, if any. */
  function FindLatestValidCode(codes: CodeTable, email: string, kind: VerificationType, now: int): (r: Option<int>)
    ensures r.None? <==> forall k :: k !in LatestCandidates(codes, email, kind, now)
    ensures r.Some? ==> r.value in LatestCandidates(codes, email, kind, now)
    ensures r.Some? ==> forall k :: k in LatestCandidates(codes, email, kind, now) && k != r.value ==>
      Later(codes, r.value, k)
  {
    var s := LatestCandidates(codes, email, kind, now);
    if s == {} then None else Some(LatestOf(codes, s))
  }

  /** Where the declared query does answer, it answers what the corrected one does. */
  lemma LatestAgreesWhenUnique(codes: CodeTable, email: string, kind: VerificationType, now: int)
    ensures FindLatestValidCodeAsWritten(codes, email, kind, now).OneRow? ==>
      FindLatestValidCode(codes, email, kind, now) == Some(FindLatestValidCodeAsWritten(codes, email, kind, now).id)
    ensures FindLatestValidCodeAsWritten(codes, email, kind, now).NoRow? <==>
      FindLatestValidCode(codes, email, kind, now).None?
  {
  }

  /**
   * Two find-id codes requested a minute apart for the same e-mail are both
   * valid, so the declared query fails where the newer code was meant.
   */
  lemma TwoRecentCodesBreakLatestQuery(email: string, now: int)
    ensures var first := IssuedCode(1, email, "123456", FIND_ID, "reader", now);
            var second := IssuedCode(2, email, "654321", FIND_ID, "reader", now + NanosPerMinute);
            var codes := map[1 := first, 2 := second];
            FindLatestValidCodeAsWritten(codes, email, FIND_ID, now + NanosPerMinute).NonUnique?
            && FindLatestValidCode(codes, email, FIND_ID, now + NanosPerMinute) == Some(2)
  {
    var first := IssuedCode(1, email, "123456", FIND_ID, "reader", now);
    var second := IssuedCode(2, email, "654321", FIND_ID, "reader", now + NanosPerMinute);
    var codes := map[1 := first, 2 := second];
    var s := LatestCandidates(codes, email, FIND_ID, now + NanosPerMinute);
    assert 1 in s && 2 in s;
    assert forall k :: k in s ==> k == 1 || k == 2;
  }

  /** `deleteByExpiresAtBefore(t)`: removes exactly the codes that expired before `t`. */
  function DeleteByExpiresAtBefore(codes: CodeTable, t: int): (r: CodeTable)
    ensures forall k :: k in r <==> k in codes && !(codes[k].expiresAt < t)
    ensures forall k :: k in r ==> r[k] == codes[k]
  {
    map k | k in codes && codes[k].expiresAt >= t :: codes[k]
  }

  /** Purging with a cut-off no later than `now` never removes a code that `findValidCode` could return at `now`. */
  lemma PurgeKeepsValidCodes(codes: CodeTable, t: int, now: int, email: string, code: string, kind: VerificationType)
    requires t <= now
    ensures forall k ::
      (k in ValidCodes(DeleteByExpiresAtBefore(codes, t), email, code, kind, now)
       <==> k in ValidCodes(codes, email, code, kind, now))
  {
  }
}
