/** The single-probe health service: ping the database, describe the outcome,
    and aggregate it. */
module HealthCheckService {
  import opened Wrappers
  import opened DomainHealthCheck

  datatype CheckDependency = CheckDependency(status: StatusDependency, responseTime: int, message: string)

  datatype CheckDependenciesOutput = CheckDependenciesOutput(
    status: StatusHealthCheck,
    timestamp: int,
    database: CheckDependency)

  /** What the repository's `PingDatabase` returns: the measured response time
      (nanoseconds) and, on failure, the error text. */
  datatype PingResult = PingResult(responseTime: int, err: Option<string>)

  const PingSuccessMessage := "Ping Database Successfully"

  /** `now` stands for the UTC clock reading stored as the timestamp. */
  function CheckDependencies(ping: PingResult, now: int): (output: CheckDependenciesOutput)
    ensures output.database.responseTime == ping.responseTime
    ensures ping.err.None? ==>
      output.database.status == StatusDependencyOk && output.database.message == PingSuccessMessage
    ensures ping.err.Some? ==>
      output.database.status == StatusDependencyError && output.database.message == ping.err.value
    ensures output.status == Healthy <==> ping.err.None?
    ensures output.status == Unhealthy <==> ping.err.Some?
    ensures output.status != Degraded
    ensures output.timestamp == now
  {
    var database :=
      if ping.err.Some? then CheckDependency(StatusDependencyError, ping.responseTime, ping.err.value)
      else CheckDependency(StatusDependencyOk, ping.responseTime, PingSuccessMessage);
    CheckDependenciesOutput(Aggregate([database.status]), now, database)
  }
}
