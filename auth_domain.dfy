/** Tokens and the records of the authentication service and its token
    repository. */
module DomainAuth {
  import opened Wrappers

  datatype TokenType = TokenTypeAccess | TokenTypeRefresh

  datatype TokenStatus = TokenStatusActive | TokenStatusRevoked | TokenStatusExpired

  /** One row of `auth_tokens`. `updatedAt` is not written on insert. */
  datatype TokenRow = TokenRow(
    id: nat,
    userId: string,
    token: string,
    tokenType: TokenType,
    status: TokenStatus,
    expiresAt: int,
    createdAt: int,
    refreshToken: Option<string>,
    updatedAt: Option<int>)

  datatype CreateTokenParams = CreateTokenParams(
    userId: string,
    token: string,
    tokenType: TokenType,
    expiresAt: int,
    refreshToken: Option<string>)

  datatype CreateTokenResult = CreateTokenResult(id: nat, createdAt: int)

  datatype GetDetailTokenFilters = GetDetailTokenFilters(
    token: Option<string>,
    tokenId: Option<nat>,
    userId: Option<string>,
    tokenType: Option<TokenType>)

  /** The filter every service call uses: by token value alone. */
  function ByToken(t: string): GetDetailTokenFilters
  {
    GetDetailTokenFilters(Some(t), None, None, None)
  }

  datatype RevokeTokenParams = RevokeTokenParams(token: string, userId: string)

  /** `revokedAt` is None where the source leaves the zero time. */
  datatype RevokeTokenResult = RevokeTokenResult(success: bool, revokedAt: Option<int>)

  datatype DeleteExpiredTokensResult = DeleteExpiredTokensResult(deletedCount: nat)

  datatype LoginInput = LoginInput(email: string, password: string)

  /** `LoginOutput` and `RefreshTokenOutput` have this one shape. */
  datatype TokenOutput = TokenOutput(accessToken: string, refreshToken: string, expiresIn: int, tokenType: string)

  datatype RefreshTokenInput = RefreshTokenInput(refreshToken: string)

  datatype LogoutInput = LogoutInput(accessToken: string, refreshToken: string)

  /** `LogoutOutput` and `RevokeTokenOutput` have this one shape. */
  datatype MessageOutput = MessageOutput(success: bool, message: string)

  datatype ValidateTokenInput = ValidateTokenInput(token: string)

  datatype RevokeTokenInput = RevokeTokenInput(token: string)

  datatype TokenPayload = TokenPayload(
    userId: string,
    email: string,
    role: string,
    tokenType: TokenType,
    issuedAt: int,
    expiresAt: int)

  /** `expiresAt` is None where the source leaves the zero time. */
  datatype ValidateTokenOutput = ValidateTokenOutput(valid: bool, payload: Option<TokenPayload>, expiresAt: Option<int>)
}
