/** The authentication repository: the four statements it runs against the
    `auth_tokens` table, and its active-only lookup in the `users` table of
    the same database. The token table is a sequence of rows in insertion
    order; a failing driver is modelled per statement kind by `faults`. */
module AuthRepository {
  import opened Wrappers
  import opened Databases
  import opened SharedKernel
  import opened DomainAuth
  import opened DomainUser
  import UserRepository

  /** The statements of the repository, so that a store can be set up to
      fail one kind of them. */
  datatype Op = OpCreateToken | OpGetDetailToken | OpRevokeToken | OpDeleteExpiredTokens | OpGetDetailUser

  /** A row passes the filters when it agrees with every one that is set. */
  predicate MatchesTokenFilters(row: TokenRow, f: GetDetailTokenFilters)
  {
    && (f.token.Some? ==> row.token == f.token.value)
    && (f.tokenId.Some? ==> row.id == f.tokenId.value)
    && (f.userId.Some? ==> row.userId == f.userId.value)
    && (f.tokenType.Some? ==> row.tokenType == f.tokenType.value)
  }

  /** The index of the first row that passes the filters. */
  function FirstToken(rows: seq<TokenRow>, f: GetDetailTokenFilters): (r: Option<nat>)
    ensures r.Some? ==> r.value < |rows| && MatchesTokenFilters(rows[r.value], f)
    ensures r.Some? ==> forall j :: 0 <= j < r.value ==> !MatchesTokenFilters(rows[j], f)
    ensures r.None? ==> forall j :: 0 <= j < |rows| ==> !MatchesTokenFilters(rows[j], f)
    decreases |rows|
  {
    if |rows| == 0 then None
    else if MatchesTokenFilters(rows[0], f) then Some(0)
    else match FirstToken(rows[1..], f)
      case None => None
      case Some(k) => Some(k + 1)
  }

  /** `SELECT … WHERE <filters> LIMIT 1` on a healthy driver. */
  function FindToken(rows: seq<TokenRow>, f: GetDetailTokenFilters): (r: Result<TokenRow, RepoError>)
    ensures r.Success? ==> r.value in rows && MatchesTokenFilters(r.value, f)
    ensures r.Failure? ==> r.error == ErrNoRowFound
    ensures r.Failure? <==> forall j :: 0 <= j < |rows| ==> !MatchesTokenFilters(rows[j], f)
  {
    match FirstToken(rows, f)
    case None => Failure(ErrNoRowFound)
    case Some(k) => Success(rows[k])
  }

  /** Whatever the table, the lookup lands on the first passing row: one
      that passes at `k` with none passing before it is the answer. */
  lemma FirstTokenAt(rows: seq<TokenRow>, f: GetDetailTokenFilters, k: nat)
    requires k < |rows| && MatchesTokenFilters(rows[k], f)
    requires forall j :: 0 <= j < k ==> !MatchesTokenFilters(rows[j], f)
    ensures FirstToken(rows, f) == Some(k)
  {
  }

  /** The row the insert writes: active, created now, with no update time. */
  function NewTokenRow(id: nat, p: CreateTokenParams, now: int): TokenRow
  {
    TokenRow(id, p.userId, p.token, p.tokenType, TokenStatusActive, p.expiresAt, now, p.refreshToken, None)
  }

  /** The WHERE clause of the revoke: token value and owner, whatever the
      status. */
  predicate RevokeMatches(row: TokenRow, p: RevokeTokenParams)
  {
    row.token == p.token && row.userId == p.userId
  }

  /** `UPDATE … SET status = 'revoked', updated_at = now WHERE …`. */
  function RevokeMatching(rows: seq<TokenRow>, p: RevokeTokenParams, now: int): seq<TokenRow>
  {
    seq(|rows|, k requires 0 <= k < |rows| =>
      if RevokeMatches(rows[k], p) then rows[k].(status := TokenStatusRevoked, updatedAt := Some(now)) else rows[k])
  }

  /** The rows the update affects. */
  function AffectedCount(rows: seq<TokenRow>, p: RevokeTokenParams): (n: nat)
    ensures n <= |rows|
  {
    if |rows| == 0 then 0
    else AffectedCount(rows[..|rows| - 1], p) + (if RevokeMatches(rows[|rows| - 1], p) then 1 else 0)
  }

  lemma {:induction false} AffectedIffSomeMatch(rows: seq<TokenRow>, p: RevokeTokenParams)
    ensures AffectedCount(rows, p) > 0 <==> exists k :: 0 <= k < |rows| && RevokeMatches(rows[k], p)
    decreases |rows|
  {
    if |rows| > 0 {
      var init := rows[..|rows| - 1];
      AffectedIffSomeMatch(init, p);
      if exists k :: 0 <= k < |init| && RevokeMatches(init[k], p) {
        var k :| 0 <= k < |init| && RevokeMatches(init[k], p);
        assert rows[k] == init[k];
      }
      if exists k :: 0 <= k < |rows| && RevokeMatches(rows[k], p) {
        var k :| 0 <= k < |rows| && RevokeMatches(rows[k], p);
        if k < |init| {
          assert init[k] == rows[k];
        }
      }
    }
  }

  /** The revoke touches exactly the matching rows, and within them only
      the status and the update time; the table keeps its length and order. */
  lemma RevokeChangesOnlyMatched(rows: seq<TokenRow>, p: RevokeTokenParams, now: int)
    ensures |RevokeMatching(rows, p, now)| == |rows|
    ensures forall k :: 0 <= k < |rows| && !RevokeMatches(rows[k], p) ==> RevokeMatching(rows, p, now)[k] == rows[k]
    ensures forall k :: 0 <= k < |rows| && RevokeMatches(rows[k], p) ==>
      && RevokeMatching(rows, p, now)[k].status == TokenStatusRevoked
      && RevokeMatching(rows, p, now)[k].updatedAt == Some(now)
      && RevokeMatching(rows, p, now)[k].(status := rows[k].status, updatedAt := rows[k].updatedAt) == rows[k]
  {
  }

  /** The lookup filters never look at the status, so a revoke does not
      change which row any lookup finds (only that row's status). */
  lemma RevokePreservesLookup(rows: seq<TokenRow>, p: RevokeTokenParams, now: int, f: GetDetailTokenFilters)
    ensures FirstToken(RevokeMatching(rows, p, now), f) == FirstToken(rows, f)
  {
    var rows' := RevokeMatching(rows, p, now);
    assert forall j :: 0 <= j < |rows| ==> (MatchesTokenFilters(rows'[j], f) <==> MatchesTokenFilters(rows[j], f));
    match FirstToken(rows, f)
    case None =>
    case Some(k) => FirstTokenAt(rows', f, k);
  }

  /** Revoking twice with the same parameters is revoking once (at the
      second time). */
  lemma RevokeIdempotent(rows: seq<TokenRow>, p: RevokeTokenParams, t1: int, t2: int)
    ensures RevokeMatching(RevokeMatching(rows, p, t1), p, t2) == RevokeMatching(rows, p, t2)
  {
  }

  /** The rows `DELETE … WHERE expires_at < before` keeps. */
  function Surviving(rows: seq<TokenRow>, before: int): seq<TokenRow>
  {
    if |rows| == 0 then []
    else Surviving(rows[..|rows| - 1], before) + (if rows[|rows| - 1].expiresAt < before then [] else [rows[|rows| - 1]])
  }

  /** The rows it deletes. */
  function ExpiredCount(rows: seq<TokenRow>, before: int): (n: nat)
    ensures n <= |rows|
  {
    if |rows| == 0 then 0
    else ExpiredCount(rows[..|rows| - 1], before) + (if rows[|rows| - 1].expiresAt < before then 1 else 0)
  }

  /** The delete keeps exactly the rows that do not expire before the
      cutoff, and reports how many it removed. */
  lemma {:induction false} SurvivingExact(rows: seq<TokenRow>, before: int)
    ensures forall row :: row in Surviving(rows, before) <==> row in rows && before <= row.expiresAt
    ensures |Surviving(rows, before)| + ExpiredCount(rows, before) == |rows|
    decreases |rows|
  {
    if |rows| > 0 {
      var init := rows[..|rows| - 1];
      SurvivingExact(init, before);
      assert rows == init + [rows[|rows| - 1]];
    }
  }

  /** A second delete with the same cutoff finds nothing. */
  lemma {:induction false} DeleteIdempotent(rows: seq<TokenRow>, before: int)
    ensures Surviving(Surviving(rows, before), before) == Surviving(rows, before)
    ensures ExpiredCount(Surviving(rows, before), before) == 0
    decreases |rows|
  {
    if |rows| > 0 {
      var init := rows[..|rows| - 1];
      var last := rows[|rows| - 1];
      var s := Surviving(init, before);
      DeleteIdempotent(init, before);
      if before <= last.expiresAt {
        var s' := s + [last];
        assert s'[..|s'| - 1] == s;
      } else {
        assert Surviving(rows, before) == s;
      }
    }
  }

  /** The lookup with the `status = 'active'` gate on a healthy driver. */
  function FindActiveUser(users: seq<UserRow>, f: GetDetailUserFilters): (r: Result<UserRow, RepoError>)
    ensures r.Success? ==> r.value in users && IsActive(r.value.status)
    ensures r.Success? && f.userId.Some? ==> r.value.id == f.userId.value
    ensures r.Success? && f.email.Some? ==> r.value.email == f.email.value
    ensures r.Failure? ==> r.error == ErrNoRowFound
    ensures r.Failure? <==> forall j :: 0 <= j < |users| ==> !MatchesLookup(users[j], true, f)
  {
    match FirstUser(users, true, f)
    case None => Failure(ErrNoRowFound)
    case Some(k) => Success(users[k])
  }

  /** A row that is not active is never found, whatever it matches. */
  lemma InactiveRowsInvisible(users: seq<UserRow>, f: GetDetailUserFilters)
    requires forall j :: 0 <= j < |users| ==> !IsActive(users[j].status)
    ensures FindActiveUser(users, f) == Failure(ErrNoRowFound)
  {
  }

  /** Adding the status gate never lets a row through that the ungated
      lookup rejects: the gated lookup finds something only where the plain
      one does. */
  lemma ActiveLookupNarrowsPlain(users: seq<UserRow>, f: GetDetailUserFilters)
    ensures FindActiveUser(users, f).Success? ==> UserRepository.FindUser(users, f).Success?
  {
    if FindActiveUser(users, f).Success? {
      var k := FirstUser(users, true, f).value;
      assert MatchesLookup(users[k], false, f);
    }
  }

  class Repository {
    /** The `auth_tokens` table. */
    var rows: seq<TokenRow>
    /** The id the database's sequence hands out next. */
    var nextId: nat
    const faults: set<Op>
    /** The `users` table of the same database, owned by the user module. */
    const users: UserRepository.Repository

    constructor (initial: seq<TokenRow>, firstId: nat, faults: set<Op>, users: UserRepository.Repository)
      ensures rows == initial && nextId == firstId && this.faults == faults && this.users == users
    {
      rows := initial;
      nextId := firstId;
      this.faults := faults;
      this.users := users;
    }

    /** SELECT … FROM users WHERE status = 'active' AND <filters> LIMIT 1. */
    function GetDetailUser(f: GetDetailUserFilters): (r: Result<UserRow, RepoError>)
      reads this, users
      ensures OpGetDetailUser in faults ==> r.Failure? && r.error.DbFailure?
      ensures OpGetDetailUser !in faults ==> r == FindActiveUser(users.rows, f)
    {
      if OpGetDetailUser in faults then Failure(DbFailure("failed to get user")) else FindActiveUser(users.rows, f)
    }

    /** INSERT … RETURNING id, created_at. */
    method CreateToken(p: CreateTokenParams, now: int) returns (r: Result<CreateTokenResult, RepoError>)
      modifies this
      ensures OpCreateToken in faults ==> r.Failure? && r.error.DbFailure? && rows == old(rows) && nextId == old(nextId)
      ensures OpCreateToken !in faults ==>
        && r == Success(CreateTokenResult(old(nextId), now))
        && rows == old(rows) + [NewTokenRow(old(nextId), p, now)]
        && nextId == old(nextId) + 1
    {
      if OpCreateToken in faults {
        return Failure(DbFailure("failed to create token"));
      }
      rows := rows + [NewTokenRow(nextId, p, now)];
      r := Success(CreateTokenResult(nextId, now));
      nextId := nextId + 1;
    }

    /** SELECT … LIMIT 1; a missing row is `ErrNoRowFound`. */
    function GetDetailToken(f: GetDetailTokenFilters): (r: Result<TokenRow, RepoError>)
      reads this
      ensures OpGetDetailToken in faults ==> r.Failure? && r.error.DbFailure?
      ensures OpGetDetailToken !in faults ==> r == FindToken(rows, f)
    {
      if OpGetDetailToken in faults then Failure(DbFailure("failed to get token")) else FindToken(rows, f)
    }

    /** UPDATE … WHERE token AND user_id. Success is "some row affected"; no
        row affected is not an error. */
    method RevokeToken(p: RevokeTokenParams, now: int) returns (r: Result<RevokeTokenResult, RepoError>)
      modifies this
      ensures nextId == old(nextId)
      ensures OpRevokeToken in faults ==> r.Failure? && r.error.DbFailure? && rows == old(rows)
      ensures OpRevokeToken !in faults ==>
        && rows == RevokeMatching(old(rows), p, now)
        && r.Success?
        && (r.value.success <==> AffectedCount(old(rows), p) > 0)
        && (r.value.success ==> r.value.revokedAt == Some(now))
        && (!r.value.success ==> r.value == RevokeTokenResult(false, None))
    {
      if OpRevokeToken in faults {
        return Failure(DbFailure("failed to revoke token"));
      }
      var affected := AffectedCount(rows, p);
      rows := RevokeMatching(rows, p, now);
      if affected == 0 {
        return Success(RevokeTokenResult(false, None));
      }
      r := Success(RevokeTokenResult(true, Some(now)));
    }

    /** DELETE … WHERE expires_at < before; the count is the rows removed. */
    method DeleteExpiredTokens(before: int) returns (r: Result<DeleteExpiredTokensResult, RepoError>)
      modifies this
      ensures nextId == old(nextId)
      ensures OpDeleteExpiredTokens in faults ==> r.Failure? && rows == old(rows)
      ensures OpDeleteExpiredTokens !in faults ==>
        && rows == Surviving(old(rows), before)
        && r == Success(DeleteExpiredTokensResult(ExpiredCount(old(rows), before)))
        && r.value.deletedCount == |old(rows)| - |rows|
    {
      if OpDeleteExpiredTokens in faults {
        return Failure(DbFailure("failed to delete expired tokens"));
      }
      SurvivingExact(rows, before);
      var count := ExpiredCount(rows, before);
      rows := Surviving(rows, before);
      r := Success(DeleteExpiredTokensResult(count));
    }
  }
}
