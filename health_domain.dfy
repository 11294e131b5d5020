/** The health aggregation rule: N dependency probe statuses are reduced to one
    overall status. */
module DomainHealthCheck {

  type StatusDependency = string
  type StatusHealthCheck = string

  const StatusDependencyOk: StatusDependency := "ok"
  const StatusDependencyError: StatusDependency := "error"

  const Healthy: StatusHealthCheck := "healthy"
  const Degraded: StatusHealthCheck := "degraded"
  const Unhealthy: StatusHealthCheck := "unhealthy"

  /** The number of probes that report "error". */
  function ErrorCount(deps: seq<StatusDependency>): (n: nat)
    ensures n <= |deps|
    decreases |deps|
  {
    if |deps| == 0 then 0
    else ErrorCount(deps[..|deps| - 1]) + (if deps[|deps| - 1] == StatusDependencyError then 1 else 0)
  }

  /** The reference rule, stated on counts alone: no probes is "degraded";
      otherwise no errors is "healthy", all errors "unhealthy", and anything in
      between "degraded". */
  function Classify(errors: nat, total: nat): StatusHealthCheck
  {
    if total == 0 then Degraded
    else if errors == 0 then Healthy
    else if errors == total then Unhealthy
    else Degraded
  }

  /** The overall status of a list of probe statuses. */
  function Aggregate(deps: seq<StatusDependency>): StatusHealthCheck
  {
    Classify(ErrorCount(deps), |deps|)
  }

  /** The loop of the source: `output` starts "healthy" and drops to
      "degraded" at the first error, every error is appended to
      `errorStatus`, and an error list as long as the input makes the result
      "unhealthy". */
  method NewStatusHealthCheck(dependencyStatus: seq<StatusDependency>) returns (output: StatusHealthCheck)
    ensures output == Aggregate(dependencyStatus)
  {
    if |dependencyStatus| == 0 {
      return Degraded;
    }
    output := Healthy;
    var errorStatus: seq<StatusDependency> := [];
    for i := 0 to |dependencyStatus|
      invariant |errorStatus| == ErrorCount(dependencyStatus[..i])
      invariant forall k :: 0 <= k < |errorStatus| ==> errorStatus[k] == StatusDependencyError
      invariant output == (if |errorStatus| == 0 then Healthy else Degraded)
    {
      assert dependencyStatus[..i + 1][..i] == dependencyStatus[..i];
      var v := dependencyStatus[i];
      if v == StatusDependencyError {
        if output != Degraded {
          output := Degraded;
        }
        errorStatus := errorStatus + [v];
      }
    }
    assert dependencyStatus[..|dependencyStatus|] == dependencyStatus;
    if |errorStatus| == |dependencyStatus| {
      output := Unhealthy;
    }
  }

  /** The error count is the multiplicity of "error" in the input. */
  lemma {:induction false} ErrorCountIsMultiplicity(deps: seq<StatusDependency>)
    ensures ErrorCount(deps) == multiset(deps)[StatusDependencyError]
    decreases |deps|
  {
    if |deps| > 0 {
      var init := deps[..|deps| - 1];
      ErrorCountIsMultiplicity(init);
      assert deps == init + [deps[|deps| - 1]];
    }
  }

  /** All probes report "error" exactly when the error count equals the length. */
  lemma {:induction false} AllErrorsIffCountIsTotal(deps: seq<StatusDependency>)
    ensures ErrorCount(deps) == |deps| <==> forall k :: 0 <= k < |deps| ==> deps[k] == StatusDependencyError
    decreases |deps|
  {
    if |deps| > 0 {
      var init := deps[..|deps| - 1];
      AllErrorsIffCountIsTotal(init);
      assert forall k :: 0 <= k < |init| ==> init[k] == deps[k];
    }
  }

  /** No probe reports "error" exactly when the error count is zero. */
  lemma {:induction false} NoErrorsIffCountIsZero(deps: seq<StatusDependency>)
    ensures ErrorCount(deps) == 0 <==> forall k :: 0 <= k < |deps| ==> deps[k] != StatusDependencyError
    decreases |deps|
  {
    if |deps| > 0 {
      var init := deps[..|deps| - 1];
      NoErrorsIffCountIsZero(init);
      assert forall k :: 0 <= k < |init| ==> init[k] == deps[k];
    }
  }

  /** The aggregation rule in terms of the probes themselves. */
  lemma AggregateCases(deps: seq<StatusDependency>)
    ensures |deps| == 0 ==> Aggregate(deps) == Degraded
    ensures |deps| > 0 && (forall k :: 0 <= k < |deps| ==> deps[k] != StatusDependencyError)
            ==> Aggregate(deps) == Healthy
    ensures Aggregate(deps) == Unhealthy
            <==> |deps| > 0 && forall k :: 0 <= k < |deps| ==> deps[k] == StatusDependencyError
    ensures Aggregate(deps) == Degraded
            <==> |deps| == 0
                 || ((exists k :: 0 <= k < |deps| && deps[k] == StatusDependencyError)
                     && (exists k :: 0 <= k < |deps| && deps[k] != StatusDependencyError))
  {
    AllErrorsIffCountIsTotal(deps);
    NoErrorsIffCountIsZero(deps);
  }

  /** Reordering the probes does not change the overall status. */
  lemma AggregatePermutationInvariant(a: seq<StatusDependency>, b: seq<StatusDependency>)
    requires multiset(a) == multiset(b)
    ensures Aggregate(a) == Aggregate(b)
  {
    ErrorCountIsMultiplicity(a);
    ErrorCountIsMultiplicity(b);
    assert |a| == |multiset(a)| == |multiset(b)| == |b|;
  }
}
