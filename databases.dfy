/** The two error vocabularies the modules speak: what a repository returns
    (`databases.ErrNoRowFound` or a driver failure) and what a service returns
    (`apperror.BadRequest` or `apperror.StdUnknown`). */
module Databases {

  datatype RepoError = ErrNoRowFound | DbFailure(msg: string)

  datatype AppError = BadRequest(msg: string) | StdUnknown(cause: string)

  /** The text of a repository error, as `err.Error()` yields it. */
  function ErrorText(e: RepoError): string
  {
    match e
    case ErrNoRowFound => "no row found"
    case DbFailure(msg) => msg
  }
}
