/** The user service: registration, profile reads and updates, password
    change, status change and the filtered list, over the user repository.
    Password hashing is outside the model: a call to bcrypt's
    `GenerateFromPassword` is a `hashDraw` parameter (the hash it produced,
    or its failure), and the comparison is the predicate
    `matches(hash, password)`. */
module UserService {
  import opened Wrappers
  import opened Databases
  import opened SharedKernel
  import opened DomainUser
  import opened UserRepository
  import Decimal

  const DefaultPage := 1
  const DefaultPageSize := 10

  /** Page and page size below 1 fall back to the defaults; positive values
      pass unchanged. */
  function NormalizePagination(p: PaginationInput): (r: PaginationInput)
    ensures r.page >= 1 && r.pageSize >= 1
    ensures p.page > 0 ==> r.page == p.page
    ensures p.pageSize > 0 ==> r.pageSize == p.pageSize
    ensures p.page <= 0 ==> r.page == DefaultPage
    ensures p.pageSize <= 0 ==> r.pageSize == DefaultPageSize
  {
    PaginationInput(if p.page <= 0 then DefaultPage else p.page,
                    if p.pageSize <= 0 then DefaultPageSize else p.pageSize)
  }

  lemma NormalizePaginationIdempotent(p: PaginationInput)
    ensures NormalizePagination(NormalizePagination(p)) == NormalizePagination(p)
  {
  }

  /** How a failed lookup by id surfaces from the service. */
  function NotFoundOr(e: RepoError): (r: AppError)
    ensures e == ErrNoRowFound <==> r == BadRequest("user not found")
  {
    if e == ErrNoRowFound then BadRequest("user not found") else StdUnknown(ErrorText(e))
  }

  /** Register's duplicate test: the lookup returned a row with an id. A
      failed lookup leaves the zero record, whose id is empty, so it reads
      as "no such user". */
  predicate EmailTaken(found: Result<UserRow, RepoError>)
  {
    found.Success? && found.value.id != ""
  }

  /** On a healthy store whose rows all carry an id, the email counts as
      taken exactly when some row has it. */
  lemma EmailTakenIffStored(rows: seq<UserRow>, email: string)
    requires forall k :: 0 <= k < |rows| ==> rows[k].id != ""
    ensures EmailTaken(FindUser(rows, ByEmail(email))) <==> exists k :: 0 <= k < |rows| && rows[k].email == email
  {
    if exists k :: 0 <= k < |rows| && rows[k].email == email {
      var k :| 0 <= k < |rows| && rows[k].email == email;
      assert MatchesLookup(rows[k], false, ByEmail(email));
    }
  }

  /** UpdateProfile answers with the re-read row, or with the row read
      before the update when the re-read fails. */
  function ProfileAfterUpdate(before: UserRow, reread: Result<UserRow, RepoError>): (u: UserRow)
    ensures reread.Success? ==> u == reread.value
    ensures reread.Failure? ==> u == before
  {
    if reread.Success? then reread.value else before
  }

  class Service {
    const userRepo: Repository

    constructor (userRepo: Repository)
      ensures this.userRepo == userRepo
    {
      this.userRepo := userRepo;
    }

    method Register(input: RegisterInput, now: int, hashDraw: Result<string, string>) returns (r: Result<RegisterOutput, AppError>)
      modifies userRepo
      ensures var taken := EmailTaken(old(userRepo.GetDetailUser(ByEmail(input.email))));
        && (taken ==> r == Failure(BadRequest("email already registered")) && userRepo.rows == old(userRepo.rows))
        && (!taken && hashDraw.Failure? ==> r == Failure(StdUnknown(hashDraw.error)) && userRepo.rows == old(userRepo.rows))
        && (!taken && hashDraw.Success? && OpCreateUser in userRepo.faults ==>
              r.Failure? && r.error.StdUnknown? && userRepo.rows == old(userRepo.rows))
        && (!taken && hashDraw.Success? && OpCreateUser !in userRepo.faults ==>
              var id := Decimal.Format(old(userRepo.lastInsertId) + 1);
              && r == Success(RegisterOutput(id, input.email, input.name, now))
              && userRepo.rows == old(userRepo.rows) +
                 [UserRow(id, input.email, hashDraw.value, input.name, UserRoleUser, UserStatusActive,
                          input.phone, input.gender, now, now)])
    {
      var existing := userRepo.GetDetailUser(ByEmail(input.email));
      if EmailTaken(existing) {
        return Failure(BadRequest("email already registered"));
      }
      if hashDraw.Failure? {
        return Failure(StdUnknown(hashDraw.error));
      }
      var created := userRepo.CreateUser(
        CreateUserParams(input.email, hashDraw.value, input.name, UserRoleUser, input.phone, input.gender), now);
      if created.Failure? {
        return Failure(StdUnknown(ErrorText(created.error)));
      }
      r := Success(RegisterOutput(created.value.id, created.value.email, created.value.name, created.value.createdAt));
    }

    function GetProfile(userId: string): (r: Result<User, AppError>)
      reads userRepo
      ensures var found := userRepo.GetDetailUser(ById(userId));
        && (found.Failure? ==> r == Failure(NotFoundOr(found.error)))
        && (found.Success? ==> r == Success(ToUser(found.value)))
    {
      match userRepo.GetDetailUser(ById(userId))
      case Failure(e) => Failure(NotFoundOr(e))
      case Success(u) => Success(ToUser(u))
    }

    /** On a healthy store the profile is found exactly when a row has the
        id, and it is that row without its password hash. */
    lemma GetProfileFindsStoredUser(userId: string)
      requires OpGetDetailUser !in userRepo.faults
      ensures GetProfile(userId).Success? <==> exists k :: 0 <= k < |userRepo.rows| && userRepo.rows[k].id == userId
      ensures GetProfile(userId).Failure? ==> GetProfile(userId).error == BadRequest("user not found")
      ensures GetProfile(userId).Success? ==>
        exists u :: u in userRepo.rows && u.id == userId && GetProfile(userId).value == ToUser(u)
    {
      if exists k :: 0 <= k < |userRepo.rows| && userRepo.rows[k].id == userId {
        var k :| 0 <= k < |userRepo.rows| && userRepo.rows[k].id == userId;
        assert MatchesLookup(userRepo.rows[k], false, ById(userId));
      }
    }

    /** Normalizes the page request, runs the list query and converts each
        row, keeping length and order. */
    method GetList(input: GetListUserFilters) returns (r: Result<GetListOutput, AppError>)
      ensures var f := input.(pagination := NormalizePagination(input.pagination));
        && (OpGetListUser in userRepo.faults ==> r.Failure? && r.error.StdUnknown?)
        && (OpGetListUser !in userRepo.faults ==>
              && r.Success?
              && |r.value.users| == |Listed(userRepo.rows, f)|
              && (forall k :: 0 <= k < |r.value.users| ==> r.value.users[k] == ToUser(Listed(userRepo.rows, f)[k]))
              && r.value.pagination == PaginationOutput(f.pagination.page, f.pagination.pageSize, |Matching(userRepo.rows, f)|))
    {
      var filters := input.(pagination := NormalizePagination(input.pagination));
      var result := userRepo.GetListUser(filters);
      if result.Failure? {
        return Failure(StdUnknown(ErrorText(result.error)));
      }
      var rows := result.value.users;
      var users: seq<User> := [];
      for i := 0 to |rows|
        invariant |users| == i
        invariant forall k :: 0 <= k < i ==> users[k] == ToUser(rows[k])
      {
        users := users + [ToUser(rows[i])];
      }
      r := Success(GetListOutput(users, result.value.pagination));
    }

    /** Looks the user up, writes the provided fields and answers with the
        re-read row. */
    method UpdateProfile(input: UpdateUserParams, now: int) returns (r: Result<UpdateProfileOutput, AppError>)
      modifies userRepo
      ensures var found := old(userRepo.GetDetailUser(ById(input.userId)));
        var change := Profile(input.name, input.phone, input.gender);
        && (found.Failure? ==> r == Failure(NotFoundOr(found.error)) && userRepo.rows == old(userRepo.rows))
        && (found.Success? && OpUpdateUser in userRepo.faults ==>
              r.Failure? && r.error.StdUnknown? && userRepo.rows == old(userRepo.rows))
        && (found.Success? && OpUpdateUser !in userRepo.faults ==>
              && userRepo.rows == UpdateById(old(userRepo.rows), input.userId, change, now)
              && r == Success(UpdateProfileOutput(ToUser(Apply(found.value, change, now)), now)))
    {
      var found := userRepo.GetDetailUser(ById(input.userId));
      if found.Failure? {
        return Failure(NotFoundOr(found.error));
      }
      ghost var before := userRepo.rows;
      var result := userRepo.UpdateUser(input, now);
      if result.Failure? {
        return Failure(StdUnknown(ErrorText(result.error)));
      }
      ReReadSeesUpdate(before, input.userId, Profile(input.name, input.phone, input.gender), now);
      var reread := userRepo.GetDetailUser(ById(input.userId));
      var updated := ProfileAfterUpdate(found.value, reread);
      r := Success(UpdateProfileOutput(ToUser(updated), result.value.updatedAt));
    }

    method ChangePassword(input: ChangePasswordInput, now: int, matches: (string, string) -> bool,
                          hashDraw: Result<string, string>)
      returns (r: Result<SuccessOutput, AppError>)
      modifies userRepo
      ensures var found := old(userRepo.GetDetailUser(ById(input.userId)));
        && (found.Failure? ==> r == Failure(NotFoundOr(found.error)) && userRepo.rows == old(userRepo.rows))
        && (found.Success? && !matches(found.value.passwordHash, input.oldPassword) ==>
              r == Failure(BadRequest("invalid old password")) && userRepo.rows == old(userRepo.rows))
        && (found.Success? && matches(found.value.passwordHash, input.oldPassword) && hashDraw.Failure? ==>
              r == Failure(StdUnknown(hashDraw.error)) && userRepo.rows == old(userRepo.rows))
        && (found.Success? && matches(found.value.passwordHash, input.oldPassword) && hashDraw.Success?
            && OpUpdatePassword in userRepo.faults ==>
              r.Failure? && r.error.StdUnknown? && userRepo.rows == old(userRepo.rows))
        && (found.Success? && matches(found.value.passwordHash, input.oldPassword) && hashDraw.Success?
            && OpUpdatePassword !in userRepo.faults ==>
              && r == Success(SuccessOutput(true, now))
              && userRepo.rows == UpdateById(old(userRepo.rows), input.userId, Password(hashDraw.value), now))
    {
      var found := userRepo.GetDetailUser(ById(input.userId));
      if found.Failure? {
        return Failure(NotFoundOr(found.error));
      }
      if !matches(found.value.passwordHash, input.oldPassword) {
        return Failure(BadRequest("invalid old password"));
      }
      if hashDraw.Failure? {
        return Failure(StdUnknown(hashDraw.error));
      }
      var result := userRepo.UpdatePassword(UpdatePasswordParams(input.userId, hashDraw.value), now);
      if result.Failure? {
        return Failure(StdUnknown(ErrorText(result.error)));
      }
      r := Success(SuccessOutput(true, result.value.updatedAt));
    }

    method UpdateStatus(input: UpdateStatusParams, now: int) returns (r: Result<SuccessOutput, AppError>)
      modifies userRepo
      ensures var found := old(userRepo.GetDetailUser(ById(input.userId)));
        && (found.Failure? ==> r == Failure(NotFoundOr(found.error)) && userRepo.rows == old(userRepo.rows))
        && (found.Success? && OpUpdateStatus in userRepo.faults ==>
              r.Failure? && r.error.StdUnknown? && userRepo.rows == old(userRepo.rows))
        && (found.Success? && OpUpdateStatus !in userRepo.faults ==>
              && r == Success(SuccessOutput(true, now))
              && userRepo.rows == UpdateById(old(userRepo.rows), input.userId, Status(input.status), now))
    {
      var found := userRepo.GetDetailUser(ById(input.userId));
      if found.Failure? {
        return Failure(NotFoundOr(found.error));
      }
      var result := userRepo.UpdateStatus(input, now);
      if result.Failure? {
        return Failure(StdUnknown(ErrorText(result.error)));
      }
      r := Success(SuccessOutput(true, result.value.updatedAt));
    }
  }
}
