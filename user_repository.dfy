/** The `users` table and the statements the user repository runs against
    it. The table is a sequence of rows in insertion order; a failing driver
    is modelled per statement kind by `faults`. */
module UserRepository {
  import opened Wrappers
  import opened Databases
  import opened SharedKernel
  import opened DomainUser
  import Decimal

  datatype Op = OpCreateUser | OpGetDetailUser | OpGetListUser | OpUpdateUser | OpUpdatePassword | OpUpdateStatus

  /** `SELECT … WHERE <filters> LIMIT 1` on a healthy driver: no status gate. */
  function FindUser(rows: seq<UserRow>, f: GetDetailUserFilters): (r: Result<UserRow, RepoError>)
    ensures r.Success? ==> r.value in rows && MatchesLookup(r.value, false, f)
    ensures r.Failure? ==> r.error == ErrNoRowFound
    ensures r.Failure? <==> forall j :: 0 <= j < |rows| ==> !MatchesLookup(rows[j], false, f)
  {
    match FirstUser(rows, false, f)
    case None => Failure(ErrNoRowFound)
    case Some(k) => Success(rows[k])
  }

  /** `LIKE '%pattern%'`: the pattern occurs somewhere in the text. */
  predicate Contains(text: string, pattern: string)
    decreases |text|
  {
    pattern <= text || (|text| > 0 && Contains(text[1..], pattern))
  }

  /** The pattern occurs in the text starting at `i`. */
  predicate OccursAt(text: string, pattern: string, i: int)
  {
    0 <= i && i + |pattern| <= |text| && text[i..i + |pattern|] == pattern
  }

  lemma {:induction false} ContainsIffOccurs(text: string, pattern: string)
    ensures Contains(text, pattern) <==> exists i :: OccursAt(text, pattern, i)
    decreases |text|
  {
    if pattern <= text {
      assert OccursAt(text, pattern, 0);
    } else if |text| > 0 {
      ContainsIffOccurs(text[1..], pattern);
      if exists i :: OccursAt(text[1..], pattern, i) {
        var i :| OccursAt(text[1..], pattern, i);
        assert text[1..][i..i + |pattern|] == text[i + 1..i + 1 + |pattern|];
        assert OccursAt(text, pattern, i + 1);
      }
      if exists i :: OccursAt(text, pattern, i) {
        var i :| OccursAt(text, pattern, i);
        if i > 0 {
          assert text[1..][i - 1..i - 1 + |pattern|] == text[i..i + |pattern|];
          assert OccursAt(text[1..], pattern, i - 1);
        }
      }
    }
  }

  /** The WHERE clause of both the count and the select of the list query. */
  predicate MatchesList(u: UserRow, f: GetListUserFilters)
  {
    && (f.search.Some? ==> Contains(u.name, f.search.value) || Contains(u.email, f.search.value))
    && (f.status.Some? ==> u.status == f.status.value)
    && (f.role.Some? ==> u.role == f.role.value)
  }

  /** The rows passing the WHERE clause, in table order. */
  function Matching(rows: seq<UserRow>, f: GetListUserFilters): seq<UserRow>
  {
    if |rows| == 0 then []
    else Matching(rows[..|rows| - 1], f) + (if MatchesList(rows[|rows| - 1], f) then [rows[|rows| - 1]] else [])
  }

  lemma {:induction false} MatchingExact(rows: seq<UserRow>, f: GetListUserFilters)
    ensures forall u :: u in Matching(rows, f) <==> u in rows && MatchesList(u, f)
    decreases |rows|
  {
    if |rows| > 0 {
      MatchingExact(rows[..|rows| - 1], f);
      assert rows == rows[..|rows| - 1] + [rows[|rows| - 1]];
    }
  }

  /** `ORDER BY created_at DESC`. Rows with equal timestamps have no order
      in SQL; the model fixes one. */
  predicate NewestFirst(s: seq<UserRow>)
  {
    forall i, j :: 0 <= i < j < |s| ==> s[j].createdAt <= s[i].createdAt
  }

  function Insert(u: UserRow, s: seq<UserRow>): (r: seq<UserRow>)
    ensures multiset(r) == multiset(s) + multiset{u}
    ensures |r| == |s| + 1
  {
    if |s| == 0 then [u]
    else if s[0].createdAt <= u.createdAt then [u] + s
    else
      assert s == [s[0]] + s[1..];
      [s[0]] + Insert(u, s[1..])
  }

  lemma {:induction false} InsertNewestFirst(u: UserRow, s: seq<UserRow>)
    requires NewestFirst(s)
    ensures NewestFirst(Insert(u, s))
    decreases |s|
  {
    if |s| > 0 && u.createdAt < s[0].createdAt {
      InsertNewestFirst(u, s[1..]);
      var r := Insert(u, s[1..]);
      forall k | 0 <= k < |r|
        ensures r[k].createdAt <= s[0].createdAt
      {
        assert r[k] in multiset(r);
        if r[k] != u {
          assert r[k] in multiset(s[1..]);
          var m :| 0 <= m < |s[1..]| && s[1..][m] == r[k];
          assert s[m + 1] == r[k];
        }
      }
      assert Insert(u, s) == [s[0]] + r;
    }
  }

  function SortNewestFirst(s: seq<UserRow>): (r: seq<UserRow>)
    ensures multiset(r) == multiset(s)
    ensures NewestFirst(r)
  {
    if |s| == 0 then []
    else
      InsertNewestFirst(s[0], SortNewestFirst(s[1..]));
      assert s == [s[0]] + s[1..];
      Insert(s[0], SortNewestFirst(s[1..]))
  }

  /** What the select returns before the page is cut: every matching row,
      newest first. */
  function Listed(rows: seq<UserRow>, f: GetListUserFilters): seq<UserRow>
  {
    SortNewestFirst(Matching(rows, f))
  }

  /** The listed rows are exactly the matching rows of the table, newest
      first, each as often as it is stored. */
  lemma ListedProperties(rows: seq<UserRow>, f: GetListUserFilters)
    ensures forall u :: u in Listed(rows, f) <==> u in rows && MatchesList(u, f)
    ensures NewestFirst(Listed(rows, f))
    ensures multiset(Listed(rows, f)) == multiset(Matching(rows, f))
  {
    MatchingExact(rows, f);
    forall u
      ensures u in Listed(rows, f) <==> u in Matching(rows, f)
    {
      assert u in Listed(rows, f) <==> u in multiset(Listed(rows, f));
    }
  }

  /** The three in-place changes an UPDATE … WHERE id = ? makes. */
  datatype Change =
    | Profile(name: Option<string>, phone: Option<string>, gender: Option<Gender>)
    | Password(hash: string)
    | Status(status: UserStatus)

  function Apply(u: UserRow, c: Change, now: int): UserRow
  {
    match c
    case Profile(name, phone, gender) =>
      u.(name := if name.Some? then name.value else u.name,
         phone := if phone.Some? then phone else u.phone,
         gender := if gender.Some? then gender else u.gender,
         updatedAt := now)
    case Password(hash) => u.(passwordHash := hash, updatedAt := now)
    case Status(status) => u.(status := status, updatedAt := now)
  }

  /** Each change writes `updated_at` and its own columns and nothing else;
      a profile column is written only when it is provided. */
  lemma ApplyFrame(u: UserRow, c: Change, now: int)
    ensures Apply(u, c, now).updatedAt == now
    ensures Apply(u, c, now).id == u.id && Apply(u, c, now).email == u.email
    ensures Apply(u, c, now).role == u.role && Apply(u, c, now).createdAt == u.createdAt
    ensures c.Profile? ==>
      && Apply(u, c, now).(name := u.name, phone := u.phone, gender := u.gender, updatedAt := u.updatedAt) == u
      && Apply(u, c, now).name == (if c.name.Some? then c.name.value else u.name)
      && (c.phone.None? ==> Apply(u, c, now).phone == u.phone)
      && (c.phone.Some? ==> Apply(u, c, now).phone == c.phone)
      && (c.gender.None? ==> Apply(u, c, now).gender == u.gender)
      && (c.gender.Some? ==> Apply(u, c, now).gender == c.gender)
    ensures c.Password? ==>
      Apply(u, c, now) == u.(passwordHash := c.hash, updatedAt := now)
    ensures c.Status? ==>
      Apply(u, c, now) == u.(status := c.status, updatedAt := now)
  {
  }

  function UpdateById(rows: seq<UserRow>, id: string, c: Change, now: int): seq<UserRow>
  {
    seq(|rows|, k requires 0 <= k < |rows| => if rows[k].id == id then Apply(rows[k], c, now) else rows[k])
  }

  /** Rows with another id are untouched; the table keeps its length. */
  lemma UpdateByIdFrame(rows: seq<UserRow>, id: string, c: Change, now: int)
    ensures |UpdateById(rows, id, c, now)| == |rows|
    ensures forall k :: 0 <= k < |rows| && rows[k].id != id ==> UpdateById(rows, id, c, now)[k] == rows[k]
    ensures forall k :: 0 <= k < |rows| && rows[k].id == id ==> UpdateById(rows, id, c, now)[k] == Apply(rows[k], c, now)
    ensures (forall k :: 0 <= k < |rows| ==> rows[k].id != id) ==> UpdateById(rows, id, c, now) == rows
  {
  }

  /** After an update by id, the lookup by that id finds the changed version
      of the row it found before. */
  lemma {:induction false} ReReadSeesUpdate(rows: seq<UserRow>, id: string, c: Change, now: int)
    requires FindUser(rows, ById(id)).Success?
    ensures FindUser(UpdateById(rows, id, c, now), ById(id)) == Success(Apply(FindUser(rows, ById(id)).value, c, now))
  {
    var k := FirstUser(rows, false, ById(id)).value;
    var rows' := UpdateById(rows, id, c, now);
    assert MatchesLookup(rows'[k], false, ById(id));
    forall j | 0 <= j < k
      ensures !MatchesLookup(rows'[j], false, ById(id))
    {
      assert !MatchesLookup(rows[j], false, ById(id));
    }
    assert FirstUser(rows', false, ById(id)) == Some(k);
  }

  class Repository {
    var rows: seq<UserRow>
    /** The auto-increment counter behind `LastInsertId`. */
    var lastInsertId: nat
    const faults: set<Op>

    constructor (initial: seq<UserRow>, lastId: nat, faults: set<Op>)
      ensures rows == initial && lastInsertId == lastId && this.faults == faults
    {
      rows := initial;
      lastInsertId := lastId;
      this.faults := faults;
    }

    /** INSERT: the new row is active, created and updated now, and its id
        is the decimal text of the new auto-increment value. */
    method CreateUser(p: CreateUserParams, now: int) returns (r: Result<CreateUserResult, RepoError>)
      modifies this
      ensures OpCreateUser in faults ==> r.Failure? && r.error.DbFailure? && rows == old(rows) && lastInsertId == old(lastInsertId)
      ensures OpCreateUser !in faults ==>
        && lastInsertId == old(lastInsertId) + 1
        && rows == old(rows) + [UserRow(Decimal.Format(lastInsertId), p.email, p.passwordHash, p.name, p.role,
                                        UserStatusActive, p.phone, p.gender, now, now)]
        && r == Success(CreateUserResult(Decimal.Format(lastInsertId), p.email, p.name, p.role, UserStatusActive, now))
    {
      if OpCreateUser in faults {
        return Failure(DbFailure("failed to create user"));
      }
      lastInsertId := lastInsertId + 1;
      var id := Decimal.Format(lastInsertId);
      rows := rows + [UserRow(id, p.email, p.passwordHash, p.name, p.role, UserStatusActive, p.phone, p.gender, now, now)];
      r := Success(CreateUserResult(id, p.email, p.name, p.role, UserStatusActive, now));
    }

    function GetDetailUser(f: GetDetailUserFilters): (r: Result<UserRow, RepoError>)
      reads this
      ensures OpGetDetailUser in faults ==> r.Failure? && r.error.DbFailure?
      ensures OpGetDetailUser !in faults ==> r == FindUser(rows, f)
    {
      if OpGetDetailUser in faults then Failure(DbFailure("failed to get user")) else FindUser(rows, f)
    }

    /** The count and the select share the filters; the rows come back
        newest first and are appended one by one. The page cut is the
        pagination library's and is not modelled. */
    method GetListUser(f: GetListUserFilters) returns (r: Result<GetListUserResult, RepoError>)
      ensures OpGetListUser in faults ==> r.Failure? && r.error.DbFailure?
      ensures OpGetListUser !in faults ==> r.Success?
      ensures r.Success? ==>
        && r.value.users == Listed(rows, f)
        && r.value.pagination == PaginationOutput(f.pagination.page, f.pagination.pageSize, |Matching(rows, f)|)
    {
      if OpGetListUser in faults {
        return Failure(DbFailure("failed to list users"));
      }
      var total := |Matching(rows, f)|;
      var selected := Listed(rows, f);
      var users: seq<UserRow> := [];
      for i := 0 to |selected|
        invariant users == selected[..i]
      {
        users := users + [selected[i]];
      }
      r := Success(GetListUserResult(users, PaginationOutput(f.pagination.page, f.pagination.pageSize, total)));
    }

    /** The three updates report success whether or not a row has the id. */
    method UpdateUser(p: UpdateUserParams, now: int) returns (r: Result<UpdateResult, RepoError>)
      modifies this
      ensures lastInsertId == old(lastInsertId)
      ensures OpUpdateUser in faults ==> r.Failure? && rows == old(rows)
      ensures OpUpdateUser !in faults ==>
        r == Success(UpdateResult(now)) && rows == UpdateById(old(rows), p.userId, Profile(p.name, p.phone, p.gender), now)
    {
      if OpUpdateUser in faults {
        return Failure(DbFailure("failed to update user"));
      }
      rows := UpdateById(rows, p.userId, Profile(p.name, p.phone, p.gender), now);
      r := Success(UpdateResult(now));
    }

    method UpdatePassword(p: UpdatePasswordParams, now: int) returns (r: Result<UpdateResult, RepoError>)
      modifies this
      ensures lastInsertId == old(lastInsertId)
      ensures OpUpdatePassword in faults ==> r.Failure? && rows == old(rows)
      ensures OpUpdatePassword !in faults ==>
        r == Success(UpdateResult(now)) && rows == UpdateById(old(rows), p.userId, Password(p.newPasswordHash), now)
    {
      if OpUpdatePassword in faults {
        return Failure(DbFailure("failed to update password"));
      }
      rows := UpdateById(rows, p.userId, Password(p.newPasswordHash), now);
      r := Success(UpdateResult(now));
    }

    method UpdateStatus(p: UpdateStatusParams, now: int) returns (r: Result<UpdateResult, RepoError>)
      modifies this
      ensures lastInsertId == old(lastInsertId)
      ensures OpUpdateStatus in faults ==> r.Failure? && rows == old(rows)
      ensures OpUpdateStatus !in faults ==>
        r == Success(UpdateResult(now)) && rows == UpdateById(old(rows), p.userId, Status(p.status), now)
    {
      if OpUpdateStatus in faults {
        return Failure(DbFailure("failed to update status"));
      }
      rows := UpdateById(rows, p.userId, Status(p.status), now);
      r := Success(UpdateResult(now));
    }
  }
}
