/** The gRPC health-check handler: it maps the domain health output onto the
    RPC enums and never fails. */
module TransportHealthCheck {
  import opened Wrappers
  import opened DomainHealthCheck
  import opened HealthCheckService

  datatype ServiceStatus =
    | HEALTH_CHECK_SERVICE_STATUS_HEALTHY
    | HEALTH_CHECK_SERVICE_STATUS_DEGRADED
    | HEALTH_CHECK_SERVICE_STATUS_UNHEALTHY

  datatype DependencyStatus =
    | HEALTH_CHECK_DEPENDENCY_STATUS_OK
    | HEALTH_CHECK_DEPENDENCY_STATUS_ERROR

  /** The response time stays a duration here; its `String()` rendering is not modelled. */
  datatype ApiV1HealthCheckDependency = ApiV1HealthCheckDependency(
    message: string,
    responseTime: int,
    status: DependencyStatus)

  datatype ApiV1HealthCheckResponse = ApiV1HealthCheckResponse(
    database: ApiV1HealthCheckDependency,
    status: ServiceStatus,
    timestamp: int)

  /** Overall status: "healthy" is the default, only "degraded" and
      "unhealthy" move it. */
  function ServiceStatusOf(s: StatusHealthCheck): (r: ServiceStatus)
    ensures r == HEALTH_CHECK_SERVICE_STATUS_DEGRADED <==> s == Degraded
    ensures r == HEALTH_CHECK_SERVICE_STATUS_UNHEALTHY <==> s == Unhealthy
    ensures r == HEALTH_CHECK_SERVICE_STATUS_HEALTHY <==> s != Degraded && s != Unhealthy
  {
    if s == Degraded then HEALTH_CHECK_SERVICE_STATUS_DEGRADED
    else if s == Unhealthy then HEALTH_CHECK_SERVICE_STATUS_UNHEALTHY
    else HEALTH_CHECK_SERVICE_STATUS_HEALTHY
  }

  /** Dependency status: only "error" becomes ERROR. */
  function DependencyStatusOf(s: StatusDependency): (r: DependencyStatus)
    ensures r == HEALTH_CHECK_DEPENDENCY_STATUS_ERROR <==> s == StatusDependencyError
  {
    if s == StatusDependencyError then HEALTH_CHECK_DEPENDENCY_STATUS_ERROR
    else HEALTH_CHECK_DEPENDENCY_STATUS_OK
  }

  /** The handler body once the service has produced its output; the error
      half of the result is never used. */
  function ApiV1HealthCheck(output: CheckDependenciesOutput): (r: Result<ApiV1HealthCheckResponse, string>)
    ensures r.Success?
    ensures r.value.database.message == output.database.message
    ensures r.value.database.responseTime == output.database.responseTime
    ensures r.value.database.status == DependencyStatusOf(output.database.status)
    ensures r.value.status == ServiceStatusOf(output.status)
    ensures r.value.timestamp == output.timestamp
  {
    Success(ApiV1HealthCheckResponse(
      ApiV1HealthCheckDependency(
        output.database.message,
        output.database.responseTime,
        DependencyStatusOf(output.database.status)),
      ServiceStatusOf(output.status),
      output.timestamp))
  }

  /** End to end: the RPC reports HEALTHY exactly when the ping succeeded,
      UNHEALTHY exactly when it failed, and never DEGRADED. */
  lemma HealthCheckEndToEnd(ping: PingResult, now: int)
    ensures var r := ApiV1HealthCheck(CheckDependencies(ping, now));
      && (r.value.status == HEALTH_CHECK_SERVICE_STATUS_HEALTHY <==> ping.err.None?)
      && (r.value.status == HEALTH_CHECK_SERVICE_STATUS_UNHEALTHY <==> ping.err.Some?)
      && r.value.status != HEALTH_CHECK_SERVICE_STATUS_DEGRADED
      && (r.value.database.status == HEALTH_CHECK_DEPENDENCY_STATUS_ERROR <==> ping.err.Some?)
  {
  }
}
