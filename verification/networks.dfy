/** `withRetry`: run a request until it succeeds, waiting longer after each
  * retryable failure, for at most `maxRetries` attempts. */
module NetWorks {
  import opened Wrappers

  /** What an attempt can throw. */
  datatype Failure =
    | ClientRequest(status: int)   // a ClientRequestException with its HTTP status
    | IOError                      // an IOException
    | OtherError                   // any other exception

  /** `canRetry`: a 5xx response or a network error. */
  predicate CanRetry(e: Failure)
  {
    match e
    case ClientRequest(status) => 500 <= status <= 599
    case IOError => true
    case OtherError => false
  }

  /** The outcome of one run of the block. */
  datatype Attempt<T> = Success(value: T) | Failed(failure: Failure)

  /** How `withRetry` ends: the block's value, a non-retryable failure
    * rethrown, or the retries used up (with the last failure, or the
    * "Failed after" exception when the block never ran). */
  datatype RetryOutcome<T> = Returned(value: T) | Rethrown(failure: Failure) | Exhausted(last: Option<Failure>)

  function Min(a: int, b: int): int { if a <= b then a else b }

  /** The wait after the k-th retryable failure: the initial delay, doubled
    * each time and capped at `maxDelay` (`coerceAtMost`). */
  function DelayAt(k: nat, initialDelay: int, maxDelay: int): (d: int)
    ensures k > 0 ==> d <= maxDelay
  {
    if k == 0 then initialDelay else Min(2 * DelayAt(k - 1, initialDelay, maxDelay), maxDelay)
  }

  /** `withRetry`; `block(i)` is the outcome of the i-th run of the block.
    * Returns how it ended, how many times the block ran and the waits. */
  method WithRetry<T>(block: nat -> Attempt<T>, maxRetries: int, initialDelay: int, maxDelay: int)
    returns (r: RetryOutcome<T>, runs: nat, delays: seq<int>)
    ensures maxRetries <= 0 ==> runs == 0 && r == Exhausted(None)
    ensures runs <= (if maxRetries < 0 then 0 else maxRetries)
    ensures forall i :: 0 <= i < runs - 1 ==> block(i).Failed? && CanRetry(block(i).failure)
    ensures r.Returned? ==> runs >= 1 && block(runs - 1) == Success(r.value)
    ensures r.Rethrown? ==> runs >= 1 && block(runs - 1) == Failed(r.failure) && !CanRetry(r.failure)
    ensures r.Exhausted? ==>
      (runs == (if maxRetries < 0 then 0 else maxRetries)
       && (runs > 0 ==> block(runs - 1).Failed? && CanRetry(block(runs - 1).failure) && r.last == Some(block(runs - 1).failure)))
    ensures |delays| == (if r.Exhausted? then runs else runs - 1)
    ensures forall k :: 0 <= k < |delays| ==> delays[k] == DelayAt(k, initialDelay, maxDelay)
  {
    var currentDelay := initialDelay;
    var retryCount := 0;
    var lastError: Option<Failure> := None;
    delays := [];
    runs := 0;
    while retryCount < maxRetries
      invariant 0 <= retryCount == runs == |delays|
      invariant maxRetries > 0 ==> retryCount <= maxRetries
      invariant maxRetries <= 0 ==> retryCount == 0
      invariant forall i :: 0 <= i < runs ==> block(i).Failed? && CanRetry(block(i).failure)
      invariant runs == 0 ==> lastError.None?
      invariant runs > 0 ==> lastError == Some(block(runs - 1).failure)
      invariant currentDelay == DelayAt(runs, initialDelay, maxDelay)
      invariant forall k :: 0 <= k < |delays| ==> delays[k] == DelayAt(k, initialDelay, maxDelay)
      decreases maxRetries - retryCount
    {
      var attempt := block(retryCount);
      runs := runs + 1;
      match attempt
      case Success(v) =>
        return Returned(v), runs, delays;
      case Failed(e) =>
        lastError := Some(e);
        if CanRetry(e) {
          delays := delays + [currentDelay];
          currentDelay := Min(currentDelay * 2, maxDelay);
          retryCount := retryCount + 1;
        } else {
          return Rethrown(e), runs, delays;
        }
    }
    r := Exhausted(lastError);
  }

  /** With a non-negative start below the cap the waits never shrink and
    * never pass the cap. */
  lemma {:induction false} DelaysGrowToCap(k: nat, initialDelay: int, maxDelay: int)
    requires 0 <= initialDelay <= maxDelay
    ensures initialDelay <= DelayAt(k, initialDelay, maxDelay) <= maxDelay
    ensures DelayAt(k, initialDelay, maxDelay) <= DelayAt(k + 1, initialDelay, maxDelay)
  {
    if k > 0 {
      DelaysGrowToCap(k - 1, initialDelay, maxDelay);
    }
  }
}
