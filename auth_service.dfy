/** The authentication service: login, refresh-token rotation, logout,
    token validation, revocation and the expired-token reaper, over the
    authentication repository. Random token generation and password
    hashing are outside the model: a call to `generateToken` is a `draw`
    parameter (the value it produced, or its failure), and the bcrypt
    comparison is the predicate `matches(hash, password)`. */
module AuthService {
  import opened Wrappers
  import opened Databases
  import opened Durations
  import opened SharedKernel
  import opened DomainAuth
  import opened DomainUser
  import opened AuthRepository
  import UserRepository

  const AccessTokenLifetime: int := 15 * Minute
  const RefreshTokenLifetime: int := 7 * 24 * Hour
  /** `expires_in` of the response, in seconds. */
  const ExpiresInSeconds: int := 15 * 60
  const BearerType := "Bearer"
  /** The reaper deletes tokens that expired more than this long ago. */
  const ReapRetention: int := 24 * Hour
  const InvalidCredentials := "invalid email or password"


  /** The checks of Login before any token is made: lookup, status, then
      password. */
  function CheckCredentials(found: Result<UserRow, RepoError>, password: string, matches: (string, string) -> bool): (r: Result<UserRow, AppError>)
    ensures found.Failure? ==> r == Failure(BadRequest(InvalidCredentials))
    ensures found.Success? && CanLogin(found.value.status).Some? ==>
      r == Failure(BadRequest(CanLogin(found.value.status).value.Message()))
    ensures found.Success? && IsActive(found.value.status) && !matches(found.value.passwordHash, password) ==>
      r == Failure(BadRequest(InvalidCredentials))
    ensures r.Success? <==> found.Success? && IsActive(found.value.status) && matches(found.value.passwordHash, password)
    ensures r.Success? ==> r.value == found.value
  {
    if found.Failure? then Failure(BadRequest(InvalidCredentials))
    else match CanLogin(found.value.status)
      case Some(e) => Failure(BadRequest(e.Message()))
      case None =>
        if matches(found.value.passwordHash, password) then Success(found.value)
        else Failure(BadRequest(InvalidCredentials))
  }

  /** An unknown email (or a failing lookup) and a wrong password for an
      active account are rejected identically. */
  lemma CredentialsRejectionIsGeneric(missing: Result<UserRow, RepoError>, known: Result<UserRow, RepoError>,
                                      password: string, matches: (string, string) -> bool)
    requires missing.Failure?
    requires known.Success? && IsActive(known.value.status) && !matches(known.value.passwordHash, password)
    ensures CheckCredentials(missing, password, matches) == CheckCredentials(known, password, matches)
    ensures CheckCredentials(missing, password, matches) == Failure(BadRequest(InvalidCredentials))
  {
  }

  /** The status is checked first: for an account that may not log in, the
      outcome does not depend on the password or on the hash check. */
  lemma StatusCheckedBeforePassword(found: Result<UserRow, RepoError>, p1: string, p2: string,
                                    m1: (string, string) -> bool, m2: (string, string) -> bool)
    requires found.Success? && !IsActive(found.value.status)
    ensures CheckCredentials(found, p1, m1) == CheckCredentials(found, p2, m2)
    ensures CheckCredentials(found, p1, m1).Failure?
  {
  }

  /** Through the active-only lookup the status messages never reach the
      caller: an inactive or suspended account gets the generic rejection. */
  lemma LoginNeverRevealsStatus(users: seq<UserRow>, email: string, password: string, matches: (string, string) -> bool)
    ensures var r := CheckCredentials(FindActiveUser(users, ByEmail(email)), password, matches);
      r.Success? || r == Failure(BadRequest(InvalidCredentials))
  {
  }

  /** The two rows a successful Login or RefreshToken inserts. */
  function AccessParams(userId: string, access: string, refresh: string, now: int): CreateTokenParams
  {
    CreateTokenParams(userId, access, TokenTypeAccess, now + AccessTokenLifetime, Some(refresh))
  }

  function RefreshParams(userId: string, refresh: string, now: int): CreateTokenParams
  {
    CreateTokenParams(userId, refresh, TokenTypeRefresh, now + RefreshTokenLifetime, None)
  }

  function IssuedRows(firstId: nat, userId: string, access: string, refresh: string, now: int): seq<TokenRow>
  {
    [NewTokenRow(firstId, AccessParams(userId, access, refresh, now), now),
     NewTokenRow(firstId + 1, RefreshParams(userId, refresh, now), now)]
  }

  /** The reply names `row` as its access token, and the seconds it reports
      as `expires_in` are the time from `now` to that row's stored expiry. */
  predicate ReportsStoredExpiry(out: TokenOutput, row: TokenRow, now: int)
  {
    && row.token == out.accessToken
    && row.tokenType == TokenTypeAccess
    && out.expiresIn * Second == row.expiresAt - now
  }

  /** The `expires_in` of the reply that Login and RefreshToken send with a
      new pair agrees with the expiry stored for its access token. */
  lemma ExpiresInAgreesWithStoredExpiry(firstId: nat, userId: string, access: string, refresh: string, now: int)
    ensures ReportsStoredExpiry(TokenOutput(access, refresh, ExpiresInSeconds, BearerType),
                                IssuedRows(firstId, userId, access, refresh, now)[0], now)
  {
  }

  /** The issued pair: both active and owned by the user; an access token
      for 15 minutes that names its refresh token, and an unpaired refresh
      token for 7 days. */
  lemma IssuedPairShape(firstId: nat, userId: string, access: string, refresh: string, now: int)
    ensures var rs := IssuedRows(firstId, userId, access, refresh, now);
      && |rs| == 2
      && rs[0].token == access && rs[1].token == refresh
      && rs[0].userId == userId && rs[1].userId == userId
      && rs[0].status == TokenStatusActive && rs[1].status == TokenStatusActive
      && rs[0].tokenType == TokenTypeAccess && rs[1].tokenType == TokenTypeRefresh
      && rs[0].refreshToken == Some(rs[1].token) && rs[1].refreshToken == None
      && rs[0].expiresAt == now + 15 * Minute && rs[1].expiresAt == now + 7 * 24 * Hour
      && rs[0].createdAt == now && rs[1].createdAt == now
  {
  }

  /** The checks of RefreshToken, in order: the row must exist, be a
      refresh token, be active, and not be past its expiry (`now` equal to
      the expiry is still in time). */
  function CheckRefreshable(found: Result<TokenRow, RepoError>, now: int): (r: Result<TokenRow, AppError>)
    ensures found == Failure(ErrNoRowFound) ==> r == Failure(BadRequest("invalid refresh token"))
    ensures found.Failure? && found.error.DbFailure? ==> r == Failure(StdUnknown(ErrorText(found.error)))
    ensures found.Success? && found.value.tokenType != TokenTypeRefresh ==>
      r == Failure(BadRequest("invalid token type"))
    ensures found.Success? && found.value.tokenType == TokenTypeRefresh && found.value.status != TokenStatusActive ==>
      r == Failure(BadRequest("token is not active"))
    ensures found.Success? && found.value.tokenType == TokenTypeRefresh && found.value.status == TokenStatusActive
            && now > found.value.expiresAt ==>
      r == Failure(BadRequest("refresh token expired"))
    ensures r.Success? <==>
      && found.Success?
      && found.value.tokenType == TokenTypeRefresh
      && found.value.status == TokenStatusActive
      && now <= found.value.expiresAt
    ensures r.Success? ==> r.value == found.value
  {
    match found
    case Failure(e) =>
      if e == ErrNoRowFound then Failure(BadRequest("invalid refresh token")) else Failure(StdUnknown(ErrorText(e)))
    case Success(t) =>
      if t.tokenType != TokenTypeRefresh then Failure(BadRequest("invalid token type"))
      else if t.status != TokenStatusActive then Failure(BadRequest("token is not active"))
      else if now > t.expiresAt then Failure(BadRequest("refresh token expired"))
      else Success(t)
  }

  /** A refresh token issued at `now` can be presented until its expiry
      instant inclusive, and not after, provided the drawn values are new. */
  lemma {:induction false} IssuedRefreshTokenIsRefreshable(rows: seq<TokenRow>, firstId: nat, userId: string,
                                                           access: string, refresh: string, now: int, later: int)
    requires access != refresh
    requires forall j :: 0 <= j < |rows| ==> rows[j].token != refresh
    ensures var found := FindToken(rows + IssuedRows(firstId, userId, access, refresh, now), ByToken(refresh));
      && found.Success? && found.value.userId == userId
      && (CheckRefreshable(found, later).Success? <==> later <= now + RefreshTokenLifetime)
  {
    var rows' := rows + IssuedRows(firstId, userId, access, refresh, now);
    FirstTokenAt(rows', ByToken(refresh), |rows| + 1);
  }

  /** Rotation: once a refresh has passed the checks and its revoke took
      effect, presenting the same token again is rejected as not active,
      whatever was inserted after it and however late. */
  lemma {:induction false} RefreshIsSingleUse(rows: seq<TokenRow>, t: string, now: int, later: int, extra: seq<TokenRow>)
    requires CheckRefreshable(FindToken(rows, ByToken(t)), now).Success?
    ensures var owner := FindToken(rows, ByToken(t)).value.userId;
      CheckRefreshable(FindToken(RevokeMatching(rows, RevokeTokenParams(t, owner), now) + extra, ByToken(t)), later)
        == Failure(BadRequest("token is not active"))
  {
    var k := FirstToken(rows, ByToken(t)).value;
    var owner := rows[k].userId;
    var revoked := RevokeMatching(rows, RevokeTokenParams(t, owner), now);
    RevokePreservesLookup(rows, RevokeTokenParams(t, owner), now, ByToken(t));
    var rows' := revoked + extra;
    assert revoked[k].status == TokenStatusRevoked;
    forall j | 0 <= j < k
      ensures !MatchesTokenFilters(rows'[j], ByToken(t))
    {
      assert rows'[j] == revoked[j];
    }
    FirstTokenAt(rows', ByToken(t), k);
  }

  /** What a successful logout does to the table: the access token is
      revoked, then the refresh token if one was given. */
  function LoggedOut(rows: seq<TokenRow>, input: LogoutInput, owner: string, now: int): seq<TokenRow>
  {
    var afterAccess := RevokeMatching(rows, RevokeTokenParams(input.accessToken, owner), now);
    if input.refreshToken != "" then RevokeMatching(afterAccess, RevokeTokenParams(input.refreshToken, owner), now)
    else afterAccess
  }

  /** After a logout the row the access token resolves to is revoked, so
      it no longer validates. */
  lemma LogoutRevokesAccessToken(rows: seq<TokenRow>, input: LogoutInput, now: int)
    requires FindToken(rows, ByToken(input.accessToken)).Success?
    ensures var owner := FindToken(rows, ByToken(input.accessToken)).value.userId;
      var after := FindToken(LoggedOut(rows, input, owner, now), ByToken(input.accessToken));
      && after.Success?
      && after.value.status == TokenStatusRevoked
      && after.value.(status := TokenStatusActive, updatedAt := None)
         == FindToken(rows, ByToken(input.accessToken)).value.(status := TokenStatusActive, updatedAt := None)
  {
    var owner := FindToken(rows, ByToken(input.accessToken)).value.userId;
    var afterAccess := RevokeMatching(rows, RevokeTokenParams(input.accessToken, owner), now);
    RevokePreservesLookup(rows, RevokeTokenParams(input.accessToken, owner), now, ByToken(input.accessToken));
    RevokePreservesLookup(afterAccess, RevokeTokenParams(input.refreshToken, owner), now, ByToken(input.accessToken));
  }

  /** The reaper never removes a token that has not yet expired, nor one
      that expired less than a day ago. */
  lemma ReaperKeepsRecentTokens(rows: seq<TokenRow>, now: int, row: TokenRow)
    requires row in rows && now - ReapRetention <= row.expiresAt
    ensures row in Surviving(rows, now - ReapRetention)
  {
    SurvivingExact(rows, now - ReapRetention);
  }

  /** Setting an account to any status other than active through the user
      service hides it from the authentication lookup, so it can neither
      log in nor have its tokens validated. */
  lemma DeactivatedAccountIsInvisible(users: seq<UserRow>, id: string, status: UserStatus, now: int, f: GetDetailUserFilters)
    requires status != UserStatusActive
    requires f.userId == Some(id)
    ensures FindActiveUser(UserRepository.UpdateById(users, id, UserRepository.Status(status), now), f) == Failure(ErrNoRowFound)
  {
  }

  /** As written, the row the lookup finds always satisfies the revoke's
      WHERE clause (same token, its own owner) whatever its status, so on a
      healthy store RevokeToken never reports "Token already revoked". */
  lemma AlreadyRevokedIsUnreachable(rows: seq<TokenRow>, t: string)
    requires FindToken(rows, ByToken(t)).Success?
    ensures AffectedCount(rows, RevokeTokenParams(t, FindToken(rows, ByToken(t)).value.userId)) > 0
  {
    var k := FirstToken(rows, ByToken(t)).value;
    AffectedIffSomeMatch(rows, RevokeTokenParams(t, rows[k].userId));
  }

  /** An instance: the table holds one token, already revoked. The lookup
      finds it and the update affects it again, so the revoke is reported
      as a success. */
  lemma RevokedTokenIsRevokedAgain()
    ensures var rows := [TokenRow(1, "u1", "t1", TokenTypeAccess, TokenStatusRevoked, 0, 0, None, Some(0))];
      && FindToken(rows, ByToken("t1")) == Success(rows[0])
      && AffectedCount(rows, RevokeTokenParams("t1", "u1")) == 1
  {
    var rows := [TokenRow(1, "u1", "t1", TokenTypeAccess, TokenStatusRevoked, 0, 0, None, Some(0))];
    assert rows[..0] == [];
  }

  /** The evidently intended revoke: the update is conditioned on the row
      still being active, so an already revoked token affects no row. */
  predicate RevokeMatchesActive(row: TokenRow, p: RevokeTokenParams)
  {
    RevokeMatches(row, p) && row.status == TokenStatusActive
  }

  function RevokeActiveMatching(rows: seq<TokenRow>, p: RevokeTokenParams, now: int): seq<TokenRow>
  {
    seq(|rows|, k requires 0 <= k < |rows| =>
      if RevokeMatchesActive(rows[k], p) then rows[k].(status := TokenStatusRevoked, updatedAt := Some(now)) else rows[k])
  }

  /** The service's RevokeToken on a healthy store with the intended
      update: its message and the table afterwards. */
  function RevokeTokenIntended(rows: seq<TokenRow>, input: RevokeTokenInput, now: int): (r: (MessageOutput, seq<TokenRow>))
    ensures FindToken(rows, ByToken(input.token)).Failure? ==> r == (MessageOutput(false, "Token not found"), rows)
    ensures r.0.success <==>
      && FindToken(rows, ByToken(input.token)).Success?
      && exists k :: 0 <= k < |rows| && rows[k].token == input.token && rows[k].status == TokenStatusActive
                     && rows[k].userId == FindToken(rows, ByToken(input.token)).value.userId
    ensures !r.0.success ==> r.1 == rows
    ensures |r.1| == |rows|
    ensures r.0.success ==>
      forall k :: 0 <= k < |r.1| && r.1[k].token == input.token
                  && r.1[k].userId == FindToken(rows, ByToken(input.token)).value.userId
                  ==> r.1[k].status != TokenStatusActive
  {
    match FindToken(rows, ByToken(input.token))
    case Failure(_) => (MessageOutput(false, "Token not found"), rows)
    case Success(t) =>
      var p := RevokeTokenParams(input.token, t.userId);
      if exists k :: 0 <= k < |rows| && RevokeMatchesActive(rows[k], p) then
        (MessageOutput(true, "Token revoked successfully"), RevokeActiveMatching(rows, p, now))
      else (MessageOutput(false, "Token already revoked"), rows)
  }

  /** With the intended update, "Token already revoked" is reported
      exactly when the token exists but no active row of it remains for its
      owner; in particular for a token whose only row is revoked. */
  lemma IntendedRevokeReportsAlreadyRevoked(rows: seq<TokenRow>, input: RevokeTokenInput, now: int)
    requires FindToken(rows, ByToken(input.token)).Success?
    ensures var owner := FindToken(rows, ByToken(input.token)).value.userId;
      (RevokeTokenIntended(rows, input, now).0 == MessageOutput(false, "Token already revoked")) <==>
        (forall k :: 0 <= k < |rows| && rows[k].token == input.token && rows[k].userId == owner ==>
           rows[k].status != TokenStatusActive)
  {
  }

  /** With the intended update a second revoke of the same token, at any
      later time, reports "Token already revoked" and changes nothing. */
  lemma {:induction false} IntendedSecondRevokeReportsAlreadyRevoked(rows: seq<TokenRow>, input: RevokeTokenInput, now: int, later: int)
    requires FindToken(rows, ByToken(input.token)).Success?
    ensures var rows1 := RevokeTokenIntended(rows, input, now).1;
      RevokeTokenIntended(rows1, input, later) == (MessageOutput(false, "Token already revoked"), rows1)
  {
    var f := ByToken(input.token);
    var k := FirstToken(rows, f).value;
    var p := RevokeTokenParams(input.token, rows[k].userId);
    var rows1 := RevokeTokenIntended(rows, input, now).1;
    assert forall j :: 0 <= j < |rows| ==> (MatchesTokenFilters(rows1[j], f) <==> MatchesTokenFilters(rows[j], f));
    FirstTokenAt(rows1, f, k);
    assert FindToken(rows1, f).value.userId == rows[k].userId;
    assert forall j :: 0 <= j < |rows1| ==> !RevokeMatchesActive(rows1[j], p);
  }

  class Service {
    const authRepo: Repository
    const userRepo: Repository

    constructor (authRepo: Repository, userRepo: Repository)
      ensures this.authRepo == authRepo && this.userRepo == userRepo
    {
      this.authRepo := authRepo;
      this.userRepo := userRepo;
    }

    /** Inserts the access row, then the refresh row; stops at the first
        failure. */
    method IssuePair(userId: string, access: string, refresh: string, now: int) returns (r: Result<TokenOutput, AppError>)
      modifies authRepo
      ensures OpCreateToken in authRepo.faults ==> r.Failure? && r.error.StdUnknown? && authRepo.rows == old(authRepo.rows)
      ensures OpCreateToken !in authRepo.faults ==>
        && r == Success(TokenOutput(access, refresh, ExpiresInSeconds, BearerType))
        && authRepo.rows == old(authRepo.rows) + IssuedRows(old(authRepo.nextId), userId, access, refresh, now)
        && ReportsStoredExpiry(r.value, authRepo.rows[|old(authRepo.rows)|], now)
    {
      var accessRow := authRepo.CreateToken(AccessParams(userId, access, refresh, now), now);
      if accessRow.Failure? {
        return Failure(StdUnknown(ErrorText(accessRow.error)));
      }
      var refreshRow := authRepo.CreateToken(RefreshParams(userId, refresh, now), now);
      match refreshRow
      case Failure(e) =>
        r := Failure(StdUnknown(ErrorText(e)));
      case Success(_) =>
        r := Success(TokenOutput(access, refresh, ExpiresInSeconds, BearerType));
    }

    method Login(input: LoginInput, now: int, matches: (string, string) -> bool,
                 accessDraw: Result<string, string>, refreshDraw: Result<string, string>)
      returns (r: Result<TokenOutput, AppError>)
      modifies authRepo
      ensures var auth := CheckCredentials(old(userRepo.GetDetailUser(ByEmail(input.email))), input.password, matches);
        && (auth.Failure? ==> r == Failure(auth.error) && authRepo.rows == old(authRepo.rows))
        && (auth.Success? && accessDraw.Failure? ==>
              r == Failure(StdUnknown(accessDraw.error)) && authRepo.rows == old(authRepo.rows))
        && (auth.Success? && accessDraw.Success? && refreshDraw.Failure? ==>
              r == Failure(StdUnknown(refreshDraw.error)) && authRepo.rows == old(authRepo.rows))
        && (auth.Success? && accessDraw.Success? && refreshDraw.Success? && OpCreateToken in authRepo.faults ==>
              r.Failure? && r.error.StdUnknown? && authRepo.rows == old(authRepo.rows))
        && (auth.Success? && accessDraw.Success? && refreshDraw.Success? && OpCreateToken !in authRepo.faults ==>
              && r == Success(TokenOutput(accessDraw.value, refreshDraw.value, ExpiresInSeconds, BearerType))
              && authRepo.rows == old(authRepo.rows)
                 + IssuedRows(old(authRepo.nextId), auth.value.id, accessDraw.value, refreshDraw.value, now)
              && ReportsStoredExpiry(r.value, authRepo.rows[|old(authRepo.rows)|], now))
    {
      var auth := CheckCredentials(userRepo.GetDetailUser(ByEmail(input.email)), input.password, matches);
      if auth.Failure? {
        return Failure(auth.error);
      }
      if accessDraw.Failure? {
        return Failure(StdUnknown(accessDraw.error));
      }
      if refreshDraw.Failure? {
        return Failure(StdUnknown(refreshDraw.error));
      }
      r := IssuePair(auth.value.id, accessDraw.value, refreshDraw.value, now);
    }

    /** Checks the presented token, draws the new pair, revokes the old
        token ignoring the outcome, and inserts the pair. */
    method RefreshToken(input: RefreshTokenInput, now: int,
                        accessDraw: Result<string, string>, refreshDraw: Result<string, string>)
      returns (r: Result<TokenOutput, AppError>)
      modifies authRepo
      ensures var checked := CheckRefreshable(old(authRepo.GetDetailToken(ByToken(input.refreshToken))), now);
        && (checked.Failure? ==> r == Failure(checked.error) && authRepo.rows == old(authRepo.rows))
        && (checked.Success? && accessDraw.Failure? ==>
              r == Failure(StdUnknown(accessDraw.error)) && authRepo.rows == old(authRepo.rows))
        && (checked.Success? && accessDraw.Success? && refreshDraw.Failure? ==>
              r == Failure(StdUnknown(refreshDraw.error)) && authRepo.rows == old(authRepo.rows))
        && (checked.Success? && accessDraw.Success? && refreshDraw.Success? ==>
              var revoked :=
                if OpRevokeToken in authRepo.faults then old(authRepo.rows)
                else RevokeMatching(old(authRepo.rows), RevokeTokenParams(input.refreshToken, checked.value.userId), now);
              && (OpCreateToken in authRepo.faults ==> r.Failure? && r.error.StdUnknown? && authRepo.rows == revoked)
              && (OpCreateToken !in authRepo.faults ==>
                    && r == Success(TokenOutput(accessDraw.value, refreshDraw.value, ExpiresInSeconds, BearerType))
                    && authRepo.rows == revoked
                       + IssuedRows(old(authRepo.nextId), checked.value.userId, accessDraw.value, refreshDraw.value, now)
                    && ReportsStoredExpiry(r.value, authRepo.rows[|old(authRepo.rows)|], now)))
    {
      var checked := CheckRefreshable(authRepo.GetDetailToken(ByToken(input.refreshToken)), now);
      if checked.Failure? {
        return Failure(checked.error);
      }
      if accessDraw.Failure? {
        return Failure(StdUnknown(accessDraw.error));
      }
      if refreshDraw.Failure? {
        return Failure(StdUnknown(refreshDraw.error));
      }
      var _ := authRepo.RevokeToken(RevokeTokenParams(input.refreshToken, checked.value.userId), now);
      r := IssuePair(checked.value.userId, accessDraw.value, refreshDraw.value, now);
    }

    /** Two refreshes with the same token on a healthy store: the second is
        rejected as not active whenever the first succeeded. */
    method RefreshReplayIsRejected(input: RefreshTokenInput, now: int, later: int,
                                   draws: seq<Result<string, string>>)
      returns (first: Result<TokenOutput, AppError>, second: Result<TokenOutput, AppError>)
      requires |draws| == 4
      requires OpGetDetailToken !in authRepo.faults && OpRevokeToken !in authRepo.faults
      modifies authRepo
      ensures first.Success? ==> second == Failure(BadRequest("token is not active"))
    {
      ghost var rows0 := authRepo.rows;
      first := RefreshToken(input, now, draws[0], draws[1]);
      ghost var rows1 := authRepo.rows;
      second := RefreshToken(input, later, draws[2], draws[3]);
      if first.Success? {
        var owner := FindToken(rows0, ByToken(input.refreshToken)).value.userId;
        RefreshIsSingleUse(rows0, input.refreshToken, now, later,
                           rows1[|rows0|..]);
        assert rows1 == RevokeMatching(rows0, RevokeTokenParams(input.refreshToken, owner), now) + rows1[|rows0|..];
      }
    }

    /** Never reports an error: every outcome is a success flag and a
        message. */
    method Logout(input: LogoutInput, now: int) returns (out: MessageOutput)
      modifies authRepo
      ensures var found := old(authRepo.GetDetailToken(ByToken(input.accessToken)));
        && (found.Failure? ==> out == MessageOutput(false, "Invalid token") && authRepo.rows == old(authRepo.rows))
        && (found.Success? && OpRevokeToken in authRepo.faults ==>
              out == MessageOutput(false, "Failed to revoke access token") && authRepo.rows == old(authRepo.rows))
        && (found.Success? && OpRevokeToken !in authRepo.faults ==>
              out == MessageOutput(true, "Logged out successfully")
              && authRepo.rows == LoggedOut(old(authRepo.rows), input, found.value.userId, now))
    {
      var found := authRepo.GetDetailToken(ByToken(input.accessToken));
      if found.Failure? {
        return MessageOutput(false, "Invalid token");
      }
      var revoked := authRepo.RevokeToken(RevokeTokenParams(input.accessToken, found.value.userId), now);
      if revoked.Failure? {
        return MessageOutput(false, "Failed to revoke access token");
      }
      if input.refreshToken != "" {
        var _ := authRepo.RevokeToken(RevokeTokenParams(input.refreshToken, found.value.userId), now);
      }
      out := MessageOutput(true, "Logged out successfully");
    }

    /** A token is valid when it is found, active, not past its expiry and
        its owner is found by the active-only lookup; any failure is just
        "not valid". Either kind of token validates. */
    function ValidateToken(input: ValidateTokenInput, now: int): (r: ValidateTokenOutput)
      reads authRepo, userRepo, userRepo.users
      ensures var found := authRepo.GetDetailToken(ByToken(input.token));
        r.valid <==>
          && found.Success?
          && found.value.status == TokenStatusActive
          && now <= found.value.expiresAt
          && userRepo.GetDetailUser(ById(found.value.userId)).Success?
      ensures !r.valid ==> r == ValidateTokenOutput(false, None, None)
      ensures r.valid ==>
        var t := authRepo.GetDetailToken(ByToken(input.token)).value;
        var u := userRepo.GetDetailUser(ById(t.userId)).value;
        && r.payload == Some(TokenPayload(u.id, u.email, u.role, t.tokenType, t.createdAt, t.expiresAt))
        && r.expiresAt == Some(t.expiresAt)
    {
      var found := authRepo.GetDetailToken(ByToken(input.token));
      if found.Failure? || found.value.status != TokenStatusActive || now > found.value.expiresAt then
        ValidateTokenOutput(false, None, None)
      else
        var user := userRepo.GetDetailUser(ById(found.value.userId));
        if user.Failure? then ValidateTokenOutput(false, None, None)
        else
          var t := found.value;
          var u := user.value;
          ValidateTokenOutput(true, Some(TokenPayload(u.id, u.email, u.role, t.tokenType, t.createdAt, t.expiresAt)), Some(t.expiresAt))
    }

    /** A valid token's payload names the token's own owner, who is an
        active account. */
    lemma ValidPayloadNamesActiveOwner(input: ValidateTokenInput, now: int)
      requires ValidateToken(input, now).valid
      ensures var t := authRepo.GetDetailToken(ByToken(input.token)).value;
        && ValidateToken(input, now).payload.value.userId == t.userId
        && t.token == input.token
        && exists u :: u in userRepo.users.rows && u.id == t.userId && IsActive(u.status)
    {
      var t := authRepo.GetDetailToken(ByToken(input.token)).value;
      var u := userRepo.GetDetailUser(ById(t.userId)).value;
      assert u in userRepo.users.rows && u.id == t.userId && IsActive(u.status);
    }

    method RevokeToken(input: RevokeTokenInput, now: int) returns (out: MessageOutput)
      modifies authRepo
      ensures var found := old(authRepo.GetDetailToken(ByToken(input.token)));
        && (found.Failure? ==> out == MessageOutput(false, "Token not found") && authRepo.rows == old(authRepo.rows))
        && (found.Success? && OpRevokeToken in authRepo.faults ==>
              out == MessageOutput(false, "Failed to revoke token") && authRepo.rows == old(authRepo.rows))
        && (found.Success? && OpRevokeToken !in authRepo.faults ==>
              var p := RevokeTokenParams(input.token, found.value.userId);
              && authRepo.rows == RevokeMatching(old(authRepo.rows), p, now)
              && (out == MessageOutput(false, "Token already revoked") <==> AffectedCount(old(authRepo.rows), p) == 0)
              && (AffectedCount(old(authRepo.rows), p) > 0 ==> out == MessageOutput(true, "Token revoked successfully")))
    {
      var found := authRepo.GetDetailToken(ByToken(input.token));
      if found.Failure? {
        return MessageOutput(false, "Token not found");
      }
      var result := authRepo.RevokeToken(RevokeTokenParams(input.token, found.value.userId), now);
      if result.Failure? {
        return MessageOutput(false, "Failed to revoke token");
      }
      if !result.value.success {
        return MessageOutput(false, "Token already revoked");
      }
      out := MessageOutput(true, "Token revoked successfully");
    }

    /** Deletes the tokens that expired more than a day before `now`; a
        failure is only logged. */
    method WorkerDeleteExpiredTokens(now: int)
      modifies authRepo
      ensures OpDeleteExpiredTokens in authRepo.faults ==> authRepo.rows == old(authRepo.rows)
      ensures OpDeleteExpiredTokens !in authRepo.faults ==> authRepo.rows == Surviving(old(authRepo.rows), now - ReapRetention)
    {
      var _ := authRepo.DeleteExpiredTokens(now - ReapRetention);
    }
  }
}
