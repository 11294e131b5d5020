/** The account status shared by the authentication and user modules, and the
    rule deciding whether an account may log in. A status is an arbitrary
    string: the three named values are the only ones the code gives meaning to. */
module SharedKernel {
  import opened Wrappers

  type UserStatus = string

  const UserStatusActive: UserStatus := "active"
  const UserStatusInactive: UserStatus := "inactive"
  const UserStatusSuspended: UserStatus := "suspended"

  /** The three domain errors `CanLogin` can return. */
  datatype StatusError = ErrUserInactive | ErrUserSuspended | ErrUserInvalid {
    /** The error text, as `err.Error()` yields it. */
    function Message(): string {
      match this
      case ErrUserInactive => "user account is inactive"
      case ErrUserSuspended => "user account is suspended"
      case ErrUserInvalid => "invalid user account status"
    }
  }

  predicate IsActive(s: UserStatus) {
    s == UserStatusActive
  }

  predicate IsInactive(s: UserStatus) {
    s == UserStatusInactive
  }

  predicate IsSuspended(s: UserStatus) {
    s == UserStatusSuspended
  }

  /** `None` plays Go's nil error: the account may log in. */
  function CanLogin(s: UserStatus): (r: Option<StatusError>)
    ensures r.None? <==> IsActive(s)
    ensures r == Some(ErrUserInactive) <==> IsInactive(s)
    ensures r == Some(ErrUserSuspended) <==> IsSuspended(s)
    ensures r == Some(ErrUserInvalid) <==> !IsActive(s) && !IsInactive(s) && !IsSuspended(s)
  {
    if s == UserStatusActive then None
    else if s == UserStatusInactive then Some(ErrUserInactive)
    else if s == UserStatusSuspended then Some(ErrUserSuspended)
    else Some(ErrUserInvalid)
  }

  /** No status satisfies two of the three predicates. */
  lemma StatusPredicatesExclusive(s: UserStatus)
    ensures !(IsActive(s) && IsInactive(s))
    ensures !(IsActive(s) && IsSuspended(s))
    ensures !(IsInactive(s) && IsSuspended(s))
  {
  }

  /** The three rejections carry three different messages. */
  lemma StatusMessagesDistinct(e1: StatusError, e2: StatusError)
    ensures e1 != e2 ==> e1.Message() != e2.Message()
  {
  }
}
