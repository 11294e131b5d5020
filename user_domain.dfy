/** The user entity and the repository's parameter and result records. A row
    of the `users` table is `UserRow`; both the user module and the
    authentication module read this table. */
module DomainUser {
  import opened Wrappers
  import opened SharedKernel

  type UserRole = string
  type Gender = string

  const UserRoleAdmin: UserRole := "admin"
  const UserRoleUser: UserRole := "user"

  /** One row of `users`; `GetDetailUserResult` in the source. */
  datatype UserRow = UserRow(
    id: string,
    email: string,
    passwordHash: string,
    name: string,
    role: UserRole,
    status: UserStatus,
    phone: Option<string>,
    gender: Option<Gender>,
    createdAt: int,
    updatedAt: int)

  /** The entity the service hands out: a row without its password hash. */
  datatype User = User(
    id: string,
    email: string,
    name: string,
    role: UserRole,
    status: UserStatus,
    gender: Option<Gender>,
    phone: Option<string>,
    createdAt: int,
    updatedAt: int)

  function ToUser(u: UserRow): User
  {
    User(u.id, u.email, u.name, u.role, u.status, u.gender, u.phone, u.createdAt, u.updatedAt)
  }

  datatype CreateUserParams = CreateUserParams(
    email: string,
    passwordHash: string,
    name: string,
    role: UserRole,
    phone: Option<string>,
    gender: Option<Gender>)

  datatype CreateUserResult = CreateUserResult(
    id: string,
    email: string,
    name: string,
    role: UserRole,
    status: UserStatus,
    createdAt: int)

  datatype GetDetailUserFilters = GetDetailUserFilters(userId: Option<string>, email: Option<string>)

  function ById(id: string): GetDetailUserFilters
  {
    GetDetailUserFilters(Some(id), None)
  }

  function ByEmail(email: string): GetDetailUserFilters
  {
    GetDetailUserFilters(None, Some(email))
  }

  datatype PaginationInput = PaginationInput(page: int, pageSize: int)

  /** The library's pagination result, reduced to the page asked for and the
      total the count query found. */
  datatype PaginationOutput = PaginationOutput(page: int, pageSize: int, totalData: nat)

  datatype GetListUserFilters = GetListUserFilters(
    pagination: PaginationInput,
    search: Option<string>,
    status: Option<UserStatus>,
    role: Option<UserRole>)

  datatype GetListUserResult = GetListUserResult(users: seq<UserRow>, pagination: PaginationOutput)

  datatype UpdateUserParams = UpdateUserParams(
    userId: string,
    name: Option<string>,
    phone: Option<string>,
    gender: Option<Gender>)

  datatype UpdatePasswordParams = UpdatePasswordParams(userId: string, newPasswordHash: string)

  datatype UpdateStatusParams = UpdateStatusParams(userId: string, status: UserStatus)

  /** The result of every update: the timestamp written. */
  datatype UpdateResult = UpdateResult(updatedAt: int)

  /** Service inputs and outputs. */
  datatype RegisterInput = RegisterInput(
    email: string,
    password: string,
    name: string,
    phone: Option<string>,
    gender: Option<Gender>)

  datatype RegisterOutput = RegisterOutput(userId: string, email: string, name: string, createdAt: int)

  datatype GetListOutput = GetListOutput(users: seq<User>, pagination: PaginationOutput)

  datatype UpdateProfileOutput = UpdateProfileOutput(user: User, updatedAt: int)

  datatype ChangePasswordInput = ChangePasswordInput(userId: string, oldPassword: string, newPassword: string)

  /** `ChangePasswordOutput` and `UpdateStatusOutput` share this shape. */
  datatype SuccessOutput = SuccessOutput(success: bool, updatedAt: int)

  /** The lookup both repositories share: the first row (in table order)
      that passes the status gate and every given filter. The query has
      `LIMIT 1` and no ordering; the model picks the first row. */
  predicate MatchesLookup(u: UserRow, activeOnly: bool, f: GetDetailUserFilters)
  {
    && (activeOnly ==> u.status == UserStatusActive)
    && (f.userId.Some? ==> u.id == f.userId.value)
    && (f.email.Some? ==> u.email == f.email.value)
  }

  function FirstUser(rows: seq<UserRow>, activeOnly: bool, f: GetDetailUserFilters): (r: Option<nat>)
    ensures r.Some? ==> r.value < |rows| && MatchesLookup(rows[r.value], activeOnly, f)
    ensures r.Some? ==> forall j :: 0 <= j < r.value ==> !MatchesLookup(rows[j], activeOnly, f)
    ensures r.None? ==> forall j :: 0 <= j < |rows| ==> !MatchesLookup(rows[j], activeOnly, f)
    decreases |rows|
  {
    if |rows| == 0 then None
    else if MatchesLookup(rows[0], activeOnly, f) then Some(0)
    else match FirstUser(rows[1..], activeOnly, f)
      case None => None
      case Some(k) => Some(k + 1)
  }
}
