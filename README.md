# go-bootstrap-application: a verified model of its core

This project models the core of a Go service skeleton in Dafny, and proves what the code promises about its behaviour. The core covers five areas.

- **Token lifecycle of the auth module.**
  - Login issues an access/refresh token pair.
  - Refreshing rotates the pair and revokes the presented refresh token.
  - Logout and explicit revocation exist.
  - Tokens can be validated.
  - A reaper deletes tokens that expired more than 24 hours ago.
  - These run over a token table (`auth_tokens`) and an active-only user lookup.
- **User management.**
  - Registration rejects duplicate emails.
  - Profiles can be read.
  - A filtered, newest-first listing applies pagination defaults.
  - Partial profile updates, password changes and status changes are supported.
  - All of this runs over a `users` table.
- **Pure classification rules.**
  - The login gate on a user status.
  - Health aggregation over dependency statuses.
  - The single-probe health service.
  - The mapping of health values onto the RPC enums.
- **The diagnostics (pprof) toggle.**
  - A per-command configuration picks the settings.
  - A start/stop state machine is driven by configuration-change notifications.
- **Ordered, error-collecting teardown.** This covers the scheduler, the REST app, the gRPC app and the `scheduler` command.
  - Every registered close action runs once, in order.
  - Failures are collected rather than short-circuited.
  - The result is "no error" exactly when nothing failed.

## How things are represented

- **Time.** An integer count of nanoseconds, the unit of Go's `time.Duration`, from module `Durations`. Each `time.Now()` is a `now` parameter.
- **Tables.** Each database table is a class field holding a sequence of rows. Statements are methods that reassign it: `AuthRepository.Repository.rows` and `UserRepository.Repository.rows`.
  - A `SELECT … LIMIT 1` without `ORDER BY` returns the first matching row in table order.
  - A failing statement is a `faults` set, fixed per repository, naming the statement kinds that fail with a database error.
- **The auth lookup and the users table.** In Go, the auth module's user lookup is a method of the same repository struct as the token statements. So `AuthRepository.Repository` holds a reference to the users table it reads (`users`).
- **Oracles.** Three outside functions become inputs.
  - Random token generation becomes `accessDraw`/`refreshDraw`. Each draw is a `Result`, so a failing random source is modelled.
  - bcrypt hashing becomes `hashDraw`.
  - bcrypt comparison becomes a function parameter `matches`.
- **Close actions.** A close action is a value that carries its name and its outcome. A shared `Lifecycle.Journal` object stands for what the outside world observes of a teardown: it records, in order, each close action invoked and each server step taken (cron stop, jobs drained or deadline reached, server shutdown, graceful stop, listener close, pprof listen and shutdown). It has no counterpart in the source. Every shutdown contract states its effect as the events it appends to the journal.
- **Disagreement resolved by following the code.**
  - `internal/module/auth/service/service_auth.go:41` reads `user.Status`.
  - The auth lookup's result type in `internal/domain/auth/repository.go:100-108` has no status field.
  - The model's single user row has a status. Login's status gate is `SharedKernel.CanLogin`, applied to the row.
  - The lookup filter itself (`status = 'active'`, `internal/module/auth/repository/repo_user_datastore.go:23`) is stated separately, by `AuthRepository.FindActiveUser`. As a result, an inactive or suspended account gets the generic "invalid email or password" message, as `AuthService.LoginNeverRevealsStatus` proves.
- **Undeclared health constants.** `internal/transport/healthcheck/grpc_healthcheck.go:29-31` refers to `StatusHealthCheckDegraded` and `StatusHealthCheckUnhealthy`, which `internal/domain/healthcheck/value_object.go` does not declare. The model gives them the values that `NewStatusHealthCheck` returns: "degraded" and "unhealthy".

## Model

| member | source | states |
|---|---|---|
| SharedKernel.CanLogin | internal/domain/shared/user_status.go:32-43 | login is allowed exactly for "active"; exactly "inactive" yields ErrUserInactive, exactly "suspended" ErrUserSuspended, every other value ErrUserInvalid |
| SharedKernel.StatusPredicatesExclusive | internal/domain/shared/user_status.go:19-29 | no status satisfies two of IsActive, IsInactive, IsSuspended |
| SharedKernel.StatusMessagesDistinct | internal/domain/shared/user_status.go:13-17 | the three status errors carry pairwise different messages |
| DomainHealthCheck.NewStatusHealthCheck | internal/domain/healthcheck/value_object.go:5-28 | the loop with its error list returns the aggregate of the dependency statuses |
| DomainHealthCheck.ErrorCountIsMultiplicity | internal/domain/healthcheck/value_object.go:12-21 | the collected error count is the multiplicity of "error" in the input |
| DomainHealthCheck.AllErrorsIffCountIsTotal | internal/domain/healthcheck/value_object.go:23-25 | the error count equals the input length iff every entry is "error" |
| DomainHealthCheck.NoErrorsIffCountIsZero | internal/domain/healthcheck/value_object.go:10-21 | the error count is zero iff no entry is "error" |
| DomainHealthCheck.AggregateCases | internal/domain/healthcheck/value_object.go:5-28 | empty input is degraded; non-empty with no error is healthy; some but not all errors is degraded; all errors is unhealthy |
| DomainHealthCheck.AggregatePermutationInvariant | internal/domain/healthcheck/value_object.go:12-25 | two inputs with the same multiset of statuses aggregate to the same result |
| HealthCheckService.CheckDependencies | internal/module/healthcheck/service/service_healthcheck.go:21-44 | a successful ping gives "ok" with "Ping Database Successfully", a failed one "error" with the error text; the response time is the measured one; overall healthy iff the ping succeeded, unhealthy iff it failed, never degraded; the timestamp is now |
| TransportHealthCheck.ServiceStatusOf | internal/transport/healthcheck/grpc_healthcheck.go:27-33 | DEGRADED exactly for "degraded", UNHEALTHY exactly for "unhealthy", HEALTHY for every other value |
| TransportHealthCheck.DependencyStatusOf | internal/transport/healthcheck/grpc_healthcheck.go:35-38 | ERROR exactly for "error", OK otherwise |
| TransportHealthCheck.ApiV1HealthCheck | internal/transport/healthcheck/grpc_healthcheck.go:24-53 | the handler always succeeds; it copies the message, response time and timestamp, and maps both statuses |
| TransportHealthCheck.HealthCheckEndToEnd | internal/transport/healthcheck/grpc_healthcheck.go:24-53 | a successful ping is reported HEALTHY with dependency OK, a failed one UNHEALTHY with ERROR and the error text |
| Lifecycle.Join | internal/app/app_scheduler.go:61-66 | joining yields no error iff nothing was collected |
| Lifecycle.Invocations | internal/app/app_scheduler.go:54-59 | one invocation event per close action, in registration order |
| Lifecycle.FailuresAppend | internal/app/app_scheduler.go:54-59 | collecting over two consecutive lists is collecting over each and concatenating |
| Lifecycle.NoFailuresIffAllSucceed | internal/app/app_scheduler.go:54-66 | nothing is collected iff every close action succeeds |
| Lifecycle.FailuresAreCollected | internal/app/app_scheduler.go:54-59 | an error is collected iff some close action fails with it |
| Lifecycle.Invoke | internal/app/app_scheduler.go:55-58 | runs one close action: records its invocation and returns its outcome |
| Lifecycle.CollectCloseErrors | internal/app/app_scheduler.go:54-59 | runs every close action once, in order, regardless of failures, and appends exactly their failures to the errors already collected |
| AppScheduler.LatestNext | internal/app/app_scheduler.go:114-124 | the chosen target is one of the entries' next runs and no entry's next run is later (the maximum) |
| AppScheduler.SchedulerApp.constructor | internal/app/app_scheduler.go:23-35 | the database handle's Close is the one registered close action; the cron entries are kept |
| AppScheduler.SchedulerApp.Shutdown | internal/app/app_scheduler.go:42-67 | the stop wait comes first (drained or deadline), then every close action in order; the result is the join of the failures |
| AppScheduler.SchedulerApp.WaitForNextRun | internal/app/app_scheduler.go:105-132 | false with no entries; otherwise it fires iff the latest next run is not in the past and the wait until it plus one second is shorter than the timeout |
| AppScheduler.ShutdownErrorIffSomeCloseFails | internal/app/app_scheduler.go:61-66 | the scheduler shutdown reports no error iff every close action succeeds |
| AppRestApi.ResolvePort | internal/app/app_rest_api.go:28-30 | a requested port of 0 becomes the configured port; any other value is kept |
| AppRestApi.ResolvePortIdempotent | internal/app/app_rest_api.go:28-30 | resolving an already resolved port changes nothing |
| AppRestApi.ShutdownErrorsCases | internal/app/app_rest_api.go:61-76 | no error iff the server shutdown and every close action succeed; the server's error comes first, followed by the close failures in order |
| AppRestApi.RestApiApp.constructor | internal/app/app_rest_api.go:26-56 | the port is resolved, the address is ":" followed by the port, and the database Close is registered |
| AppRestApi.RestApiApp.ShutdownAndClose | internal/app/app_rest_api.go:58-77 | the server shutdown comes first, then every close action runs even if it failed; the result joins the server error, then the close failures |
| AppGrpcApi.ListenerErrors | internal/app/app_grpc_api.go:57-60 | a listener close that reports net.ErrClosed, or succeeds, contributes nothing; any other failure contributes its error |
| AppGrpcApi.GrpcShutdownErrorFree | internal/app/app_grpc_api.go:57-72 | no error iff the listener did not fail (beyond being already closed) and every close action succeeds |
| AppGrpcApi.GrpcApiApp.constructor | internal/app/app_grpc_api.go:28-51 | the port is resolved as in the REST app and the database Close is registered |
| AppGrpcApi.GrpcApiApp.Shutdown | internal/app/app_grpc_api.go:53-73 | graceful stop, then listener close, then the close actions in order; the result joins the collected errors |
| CmdScheduler.ReleaseActions | cmd/cmd_scheduler.go:37-42 | the logging close, then the config unwatch, then the confy close, which never fails |
| CmdScheduler.ConfyCloseContributesNothing | cmd/cmd_scheduler.go:39-42 | the confy close adds no error to what is collected |
| CmdScheduler.ComposedShutdownErrorFree | cmd/cmd_scheduler.go:46-59 | the composed shutdown reports no error iff every application close action and every release action succeeds |
| CmdScheduler.SchedulerCommand.constructor | cmd/cmd_scheduler.go:27-43 | starts with no release actions |
| CmdScheduler.SchedulerCommand.PreRun | cmd/cmd_scheduler.go:27-43 | starts the diagnostics toggle for "scheduler", then registers the three release actions in order |
| CmdScheduler.SchedulerCommand.Shutdown | cmd/cmd_scheduler.go:45-60 | the scheduler's shutdown runs before every release action; the result joins the scheduler's error and the release failures |
| Pprof.GetPprofConfig | internal/app/pprof.go:83-95 | "scheduler", "restapi" and "grpcapi" select their own configuration; any other name is disabled |
| Pprof.AddressDeterminesPort | internal/app/pprof.go:28 | two ports that give the same ":port" address are equal |
| Pprof.Step | internal/app/pprof.go:44-62 | after a notification the toggle runs iff the configuration is enabled; starting sets the address from the port; enabled while running, or disabled while stopped, changes nothing |
| Pprof.StepEvents | internal/app/pprof.go:44-62 | a notification listens or shuts down exactly when the configuration disagrees with the running flag |
| Pprof.ReplayFollowsLastConfig | internal/app/pprof.go:41-65 | after any non-empty run of notifications, the running flag is the last configuration's enable flag |
| Pprof.TraceAlternates | internal/app/pprof.go:41-65 | listen and shutdown events strictly alternate, starting from the current state; the count is even iff the running flag ends where it began |
| Pprof.NoDoubleStart | internal/app/pprof.go:44-62 | every listen event is followed by a shutdown, never a second listen |
| Pprof.ConfigsFor | internal/app/pprof.go:42-43 | each notification is read through this command's configuration |
| Pprof.PprofServer.Start | internal/app/pprof.go:17-40 | at startup the toggle runs iff this command's configuration is enabled, and that is the only step taken |
| Pprof.PprofServer.OnNotification | internal/app/pprof.go:43-63 | one notification moves the toggle by one step and records its events |
| Pprof.PprofServer.Watch | internal/app/pprof.go:41-65 | a run of notifications leaves the toggle at the replay of their configurations and records the trace |
| Pprof.ListenAndServe | internal/app/pprof.go:49 | a server serves iff it has not been shut down |
| Pprof.ShutdownServer | internal/app/pprof.go:56 | a shut-down server is marked shut down and not serving |
| Pprof.ReusedServerStaysDown | internal/app/pprof.go:44-62 | with the one server object reused, enabling, disabling, then enabling again leaves the toggle running but nothing serving |
| Pprof.ReusedServerNeverRecovers | internal/app/pprof.go:41-65 | once the reused server has been shut down, no later notification brings it back |
| Pprof.StepFresh | internal/app/pprof.go:44-62 | a toggle that builds a new server on each start takes the same toggle steps |
| Pprof.FreshServerServesWhileRunning | internal/app/pprof.go:41-65 | with a new server per start, the server serves exactly while the toggle runs, over any run of notifications |
| Decimal.FormatRoundTrip | internal/module/user/repository/repo_user_datastore.go:45 | parsing the decimal text of an insert id gives the id back |
| Decimal.FormatInjective | internal/module/user/repository/repo_user_datastore.go:45 | distinct insert ids give distinct user id strings |
| Decimal.FormatNonNegative | internal/module/user/repository/repo_user_datastore.go:45 | the text of an id is a non-empty string of digits |
| DomainUser.FirstUser | internal/module/user/repository/repo_user_datastore.go:68-101 | the result is the first row satisfying every given filter; nothing earlier matches; no result means no row matches |
| UserRepository.FindUser | internal/module/user/repository/repo_user_datastore.go:54-104 | the row returned is stored and matches both the id and the email filter when given; ErrNoRowFound iff nothing matches |
| UserRepository.ContainsIffOccurs | internal/module/user/repository/repo_user_datastore.go:124-127 | the search test holds iff the search text occurs at some position of the field |
| UserRepository.MatchingExact | internal/module/user/repository/repo_user_datastore.go:122-140 | a row is kept iff the search text occurs in its name or email, its status matches (if given) and its role matches (if given) |
| UserRepository.Insert | internal/module/user/repository/repo_user_datastore.go:142 | inserting a row adds exactly that row |
| UserRepository.InsertNewestFirst | internal/module/user/repository/repo_user_datastore.go:142 | inserting into a newest-first list keeps it newest first |
| UserRepository.SortNewestFirst | internal/module/user/repository/repo_user_datastore.go:142 | the result is a permutation of its input, ordered by created_at descending |
| UserRepository.ListedProperties | internal/module/user/repository/repo_user_datastore.go:122-167 | the listing holds exactly the matching rows, each as often as stored, newest first |
| UserRepository.ApplyFrame | internal/module/user/repository/repo_user_datastore.go:181-195 | every update sets updated_at and keeps id, email, role and created_at; a profile change sets name/phone/gender only when each is given; a password change alters only the hash; a status change alters only the status |
| UserRepository.UpdateByIdFrame | internal/module/user/repository/repo_user_datastore.go:178-251 | only rows with the id change, each by that update; no row with the id means the table is unchanged |
| UserRepository.ReReadSeesUpdate | internal/module/user/repository/repo_user_datastore.go:54-104 | reading a user back by id after an update returns the updated row |
| UserRepository.Repository.constructor | internal/module/user/repository/repo_user_datastore.go:16-52 | the table starts with the given rows and last insert id |
| UserRepository.Repository.CreateUser | internal/module/user/repository/repo_user_datastore.go:16-52 | appends one row with the next insert id as decimal text, status active and created_at = updated_at = now; a failing insert leaves the table unchanged |
| UserRepository.Repository.GetDetailUser | internal/module/user/repository/repo_user_datastore.go:54-104 | a failing query is a database error; otherwise the plain lookup |
| UserRepository.Repository.GetListUser | internal/module/user/repository/repo_user_datastore.go:106-176 | the loop returns the listing of the matching rows newest first, and the total is the number of matching rows |
| UserRepository.Repository.UpdateUser | internal/module/user/repository/repo_user_datastore.go:178-205 | applies the partial profile update to the rows with the id and succeeds even when there is none |
| UserRepository.Repository.UpdatePassword | internal/module/user/repository/repo_user_datastore.go:207-228 | changes only hash and updated_at of the rows with the id; succeeds even when there is none |
| UserRepository.Repository.UpdateStatus | internal/module/user/repository/repo_user_datastore.go:230-251 | changes only status and updated_at of the rows with the id; succeeds even when there is none |
| UserService.NormalizePagination | internal/module/user/service/service_user.go:86-91 | a page of 0 or less becomes 1 and a size of 0 or less becomes 10; positive values are kept |
| UserService.NormalizePaginationIdempotent | internal/module/user/service/service_user.go:86-91 | normalizing twice is normalizing once |
| UserService.NotFoundOr | internal/module/user/service/service_user.go:63-66 | a missing row becomes "user not found", any other error does not |
| UserService.EmailTakenIffStored | internal/module/user/service/service_user.go:27-32 | Register sees the email as taken iff some stored user has it |
| UserService.ProfileAfterUpdate | internal/module/user/service/service_user.go:135-140 | the reply is the re-read user, or the pre-update user when re-reading fails |
| UserService.Service.constructor | internal/module/user/service/service_user.go:18-24 | the service wraps the given repository |
| UserService.Service.Register | internal/module/user/service/service_user.go:26-57 | a taken email is rejected with "email already registered" and nothing is written, a lookup error counting as "no user"; a hashing failure writes nothing; otherwise one active user with role "user" is stored and returned |
| UserService.Service.GetProfile | internal/module/user/service/service_user.go:59-83 | a missing user is "user not found"; otherwise the stored user |
| UserService.Service.GetProfileFindsStoredUser | internal/module/user/service/service_user.go:59-83 | the profile is found iff some stored user has the id, and a miss is "user not found" |
| UserService.Service.GetList | internal/module/user/service/service_user.go:85-117 | the loop returns the repository's users in the same order and length, with the normalized pagination and the repository's total |
| UserService.Service.UpdateProfile | internal/module/user/service/service_user.go:119-156 | a missing user is rejected before any write; otherwise the partial update is stored and the updated user is returned |
| UserService.Service.ChangePassword | internal/module/user/service/service_user.go:158-191 | a missing user is rejected before any write; a wrong old password gives "invalid old password" and leaves the hash unchanged; otherwise only the hash changes |
| UserService.Service.UpdateStatus | internal/module/user/service/service_user.go:193-213 | a missing user is rejected before any write; otherwise only the status changes |
| AuthRepository.FirstToken | internal/module/auth/repository/repo_auth_datastore.go:52-68 | the result is the first row satisfying every given filter; nothing earlier matches; no result means no row matches |
| AuthRepository.FirstTokenAt | internal/module/auth/repository/repo_auth_datastore.go:52-68 | a row that satisfies the filters, with no matching row before it, is the one the lookup picks |
| AuthRepository.FindToken | internal/module/auth/repository/repo_auth_datastore.go:40-94 | the row returned is stored and satisfies every given filter; ErrNoRowFound iff none does |
| AuthRepository.AffectedIffSomeMatch | internal/module/auth/repository/repo_auth_datastore.go:114-127 | the update affects at least one row iff some row has both the token and the user id |
| AuthRepository.RevokeChangesOnlyMatched | internal/module/auth/repository/repo_auth_datastore.go:97-101 | rows without both the token and the user id are untouched; matched rows get status revoked and updated_at now, whatever their former status, and keep every other field |
| AuthRepository.RevokePreservesLookup | internal/module/auth/repository/repo_auth_datastore.go:97-101 | revoking does not change which row a token lookup finds |
| AuthRepository.RevokeIdempotent | internal/module/auth/repository/repo_auth_datastore.go:97-101 | revoking twice equals revoking once at the later time |
| AuthRepository.SurvivingExact | internal/module/auth/repository/repo_auth_datastore.go:131-148 | exactly the rows expiring strictly before the cutoff are removed; the removed count plus the remaining rows is the old size |
| AuthRepository.DeleteIdempotent | internal/module/auth/repository/repo_auth_datastore.go:131-134 | a second deletion with the same cutoff removes nothing and changes nothing |
| AuthRepository.FindActiveUser | internal/module/auth/repository/repo_user_datastore.go:14-58 | only active users are returned; both the id and the email filter must match when given; ErrNoRowFound iff no active row matches |
| AuthRepository.InactiveRowsInvisible | internal/module/auth/repository/repo_user_datastore.go:23 | a table without an active user yields ErrNoRowFound for every lookup |
| AuthRepository.ActiveLookupNarrowsPlain | internal/module/auth/repository/repo_user_datastore.go:23-31 | an active-only hit is also a hit of the unrestricted lookup |
| AuthRepository.Repository.constructor | internal/module/auth/repository/repo_auth.go:9-13 | the token table starts with the given rows over the given users table |
| AuthRepository.Repository.GetDetailUser | internal/module/auth/repository/repo_user_datastore.go:14-58 | a failing query is a database error; otherwise the active-only lookup over the users table |
| AuthRepository.Repository.CreateToken | internal/module/auth/repository/repo_auth_datastore.go:15-38 | adds exactly one row with the given user, token, type, expiry and pair, status active and created_at now; a failing insert changes nothing |
| AuthRepository.Repository.GetDetailToken | internal/module/auth/repository/repo_auth_datastore.go:40-94 | a failing query is a database error; otherwise the filtered lookup |
| AuthRepository.Repository.RevokeToken | internal/module/auth/repository/repo_auth_datastore.go:96-128 | revokes exactly the matching rows; succeeds iff at least one row was affected, zero rows being success=false with no error |
| AuthRepository.Repository.DeleteExpiredTokens | internal/module/auth/repository/repo_auth_datastore.go:130-149 | removes exactly the rows expiring before the cutoff and returns how many were removed |
| AuthService.ExpiresInAgreesWithStoredExpiry | internal/module/auth/service/service_auth.go:60-89 | the reply sent with a new pair names the stored access row, and its ExpiresIn seconds are exactly the time from now to that row's stored expiry |
| AuthService.CheckCredentials | internal/module/auth/service/service_auth.go:34-48 | an unknown email gives "invalid email or password"; a status that cannot log in gives that status's message; a wrong password for an active user gives the generic message; success iff the user is found, active and the password matches |
| AuthService.CredentialsRejectionIsGeneric | internal/module/auth/service/service_auth.go:37-48 | an unknown email and a wrong password are answered identically |
| AuthService.StatusCheckedBeforePassword | internal/module/auth/service/service_auth.go:41-48 | for a user who cannot log in, the answer does not depend on the password or the hash check |
| AuthService.LoginNeverRevealsStatus | internal/module/auth/repository/repo_user_datastore.go:23 | through the active-only lookup, every failed login reads "invalid email or password" |
| AuthService.IssuedPairShape | internal/module/auth/service/service_auth.go:60-82 | the access row has type access, the refresh pair and expiry now+15min; the refresh row has type refresh, no pair and expiry now+7 days; both belong to the user and are active |
| AuthService.CheckRefreshable | internal/module/auth/service/service_auth.go:93-113 | rejections in order: "invalid refresh token", "invalid token type", "token is not active", "refresh token expired" when now is after the expiry; accepted iff found, refresh type, active and now <= expiry |
| AuthService.IssuedRefreshTokenIsRefreshable | internal/module/auth/service/service_auth.go:60-113 | a freshly issued refresh token is accepted for refresh until its expiry |
| AuthService.RefreshIsSingleUse | internal/module/auth/service/service_auth.go:107-128 | after the owner's revoke of a refreshable token, a later refresh with it gives "token is not active" |
| AuthService.LogoutRevokesAccessToken | internal/module/auth/service/service_auth.go:162-194 | after a logout, every row of the access token for its owner is revoked |
| AuthService.ReaperKeepsRecentTokens | internal/module/auth/service/service_auth.go:261-286 | a token that expired less than 24 hours ago survives the reaper |
| AuthService.DeactivatedAccountIsInvisible | internal/module/auth/repository/repo_user_datastore.go:23 | once a user's status is set to anything but active, the auth lookup by id finds nothing |
| AuthService.AlreadyRevokedIsUnreachable | internal/module/auth/service/service_auth.go:235-259 | whenever the token is found, the revoke update affects a row, so "Token already revoked" cannot be the answer |
| AuthService.RevokedTokenIsRevokedAgain | internal/module/auth/service/service_auth.go:235-259 | a concrete table whose only token is already revoked is answered "Token revoked successfully" |
| AuthService.RevokeTokenIntended | internal/module/auth/service/service_auth.go:235-259 | corrected revoke: an unknown token is "Token not found" and changes nothing; success iff the owner still holds an active row of the token, after which none of the owner's rows of it is active; otherwise nothing changes |
| AuthService.IntendedRevokeReportsAlreadyRevoked | internal/module/auth/service/service_auth.go:235-259 | in the corrected revoke, "Token already revoked" comes back iff the owner holds no active row for the token |
| AuthService.IntendedSecondRevokeReportsAlreadyRevoked | internal/module/auth/service/service_auth.go:235-259 | in the corrected revoke, revoking the same token a second time reports "Token already revoked" |
| AuthService.Service.constructor | internal/module/auth/service/service_auth.go:23-31 | the service wraps the given token and user repositories |
| AuthService.Service.IssuePair | internal/module/auth/service/service_auth.go:63-89 | stores the access row, then the refresh row, and returns both tokens with ExpiresIn 900 and type "Bearer", the ExpiresIn agreeing with the stored access row's expiry; a failing insert writes nothing |
| AuthService.Service.Login | internal/module/auth/service/service_auth.go:33-90 | a credential failure, or a failed draw of either token, writes nothing and returns that error; otherwise exactly the issued pair is appended and returned, its ExpiresIn agreeing with the stored access row's expiry |
| AuthService.Service.RefreshToken | internal/module/auth/service/service_auth.go:92-160 | a rejected token or a failed draw writes nothing; otherwise the presented token is revoked for its owner (a failed revoke is ignored) and a new pair for the same user is appended, the reply's ExpiresIn agreeing with the stored access row's expiry |
| AuthService.Service.RefreshReplayIsRejected | internal/module/auth/service/service_auth.go:107-128 | if a refresh succeeds, replaying the same refresh token gives "token is not active" |
| AuthService.Service.Logout | internal/module/auth/service/service_auth.go:162-194 | never fails: an unknown access token is "Invalid token"; a failed revoke is "Failed to revoke access token"; otherwise the access token and, when given, the refresh token are revoked for the owner |
| AuthService.Service.ValidateToken | internal/module/auth/service/service_auth.go:196-233 | valid iff the token is found, active, not past its expiry, and its owner is found by the active-only lookup; invalid answers carry nothing; a valid one copies the user's id, email, role and the token's type, creation and expiry |
| AuthService.Service.ValidPayloadNamesActiveOwner | internal/module/auth/service/service_auth.go:196-233 | a valid answer names the token's owner, who is a stored active user |
| AuthService.Service.RevokeToken | internal/module/auth/service/service_auth.go:235-259 | "Token not found", then "Failed to revoke token" on a repository error; otherwise the matching rows are revoked and it reports "Token already revoked" iff no row was affected |
| AuthService.Service.WorkerDeleteExpiredTokens | internal/module/auth/service/service_auth.go:261-286 | never fails; removes exactly the tokens that expired before now minus 24 hours |

## Left out

- Token generation: the random bytes and their base64 (URL) encoding in `generateToken` (`internal/module/auth/service/service_auth.go:288-295`) are left out. The model takes each draw as an input, so the 44-character token format is not modelled.
- bcrypt: hashing and comparison are a drawn hash and an uninterpreted `matches` function. The cost factor and salt are not modelled.
- The clock: every `time.Now()` is the one `now` that the operation receives. Its UTC conversion and the `time.Time` precision are not modelled.
- SQL execution: the query builder, the driver, placeholder syntax and the connection are left out. Only the table semantics are modelled.
  - The token statements are written with `$1` placeholders and `RETURNING` (PostgreSQL style), although the service uses a MySQL driver. The model assumes each statement does what its text says.
- Paging: `QuerySqPagination` (offset/limit slicing of the listing) is left out. `UserRepository.Repository.GetListUser` returns every matching row, with the total count.
- Search matching: `LIKE '%…%'` is modelled as exact substring. Collation-dependent case folding and the `%`/`_` wildcards inside the search text are left out.
- Equal-time ordering: rows with equal `created_at` keep no particular order in SQL. In the model they are ordered by an insertion sort; only newest-first order and the permutation are stated.
- Unique email: an index on `email` is not visible in the code. Register's duplicate check is modelled, but a concurrent duplicate insert is not.
- Database faults: a fault is fixed per statement kind. Some paths that need the same kind to succeed once and fail later are therefore unreachable in the methods:
  - Login's second token insert failing after the first succeeded;
  - UpdateProfile's re-read failing after its update succeeded;
  - CreateUser's `LastInsertId` failing after the INSERT stored the row (`internal/module/user/repository/repo_user_datastore.go:39-42`). Register then reports an error although the user exists, and a retried Register answers "email already registered". In the model a failing CreateUser stores nothing.
  The re-read fallback itself is stated by `UserService.ProfileAfterUpdate`.
- Ids: an insert id is an unbounded natural number, shown as decimal text. Token ids are natural numbers drawn from a counter.
- Concurrency is left out, and each piece is modelled as sequential steps:
  - goroutines and the non-atomic load-then-store of `isRunning` in pprof;
  - the cron scheduler and panic recovery in job registration;
  - the `select` between the stop and deadline contexts;
  - signal handling in the graceful-shutdown helper.
- AppScheduler.SchedulerApp.WaitForNextRun: the race between the deadline timer and the wake-up timer when they have equal durations is resolved as not firing (`fired` needs the wait plus one second to be strictly shorter than the timeout); Go's `select` may pick either ready case.
- Network servers: HTTP and gRPC serving, listeners, handler registration and the 10-second shutdown timeout are not modelled. A server's shutdown outcome is an input.
- Pprof.ListenAndServe: models only whether the server serves. Listen errors are logged and swallowed in the source, so they do not appear.
- Logging: all `slog` output, including the reaper's log-only outcome and deleted count, is left out.
- Configuration, CLI and construction: loading, the command tree, DB construction and ping timing are left out. So are the older duplicate app files whose calls no longer match current signatures.
- Duration formatting: `time.Duration.String` in the health response is not modelled. The response time is carried as an integer.
- AuthService.Service.ValidateToken: accepts a token of either type, as written. No type check is added.

## Findings

| source | as written | input that shows it | evidently intended | confidence | as-written member | corrected member |
|---|---|---|---|---|---|---|
| internal/module/auth/service/service_auth.go:235-259 | the token is looked up by its value, then revoked with `WHERE token = ? AND user_id = ?` using the found row's own user id, so the update always matches the found row | a table holding one access token "t1" of user "u1" that is already revoked: revoking "t1" answers "Token revoked successfully", never "Token already revoked" | "Token already revoked" when the token is no longer active, as a second revoke of the same token would be | not executed | AuthService.AlreadyRevokedIsUnreachable | AuthService.IntendedSecondRevokeReportsAlreadyRevoked |
| internal/app/pprof.go:44-62 | one `http.Server` value serves every start; after `Shutdown` its `ListenAndServe` returns `ErrServerClosed` immediately, and that error is swallowed | port 6060 enabled, then disabled, then enabled again: the running flag says running but nothing serves | each start serves until the next stop, for example by building a new server on every start | not executed | Pprof.ReusedServerStaysDown | Pprof.FreshServerServesWhileRunning |
