/**
 * github_api_request: one GitHub API call with up to MAX_RETRIES attempts.
 *
 * The network is an input: `net(k)` is what the k-th attempt (1-based)
 * observes.  requests' raise_for_status() runs inside the `try`, so every
 * status from 400 to 599 is turned into an HTTPError there and handled by
 * the RequestException branch, before the status checks that follow it.
 */
module GitHubClient {
  import opened Common

  const MaxRetries: nat := 3

  /** What one requests.get call produced. */
  datatype Attempt<P> =
    | TimedOut
    | ConnectionFailed
    | Answered(status: int, payload: P, rateLimitRemaining: Option<string>)

  /** The exception that github_api_request lets escape. */
  datatype Failure =
    | Timeout                // requests.exceptions.Timeout, re-raised
    | RequestError           // another RequestException, re-raised
    | HttpError(status: int) // the HTTPError of raise_for_status, re-raised
    | RetriesExhausted       // "Failed to get a successful response after 3 attempts."

  datatype Outcome<P> = Success(payload: P) | Raised(failure: Failure)

  /** The branch of the attempt loop that handles one attempt. */
  datatype Handler =
    | TimeoutHandler     // except requests.exceptions.Timeout
    | ExceptionHandler   // except requests.exceptions.RequestException
    | Ok                 // status 200: return
    | RateLimitWait      // 403 with X-RateLimit-Remaining "0": sleep until the reset
    | RateLimitPass      // 403 with another X-RateLimit-Remaining: fall through
    | OtherStatus        // else: log, and on the last attempt raise_for_status()

  /** requests' Response.raise_for_status raises for client and server errors only. */
  predicate RaisesForStatus(status: int) {
    400 <= status < 600
  }

  predicate IsOk<P>(a: Attempt<P>) {
    a.Answered? && a.status == 200
  }

  /**
   * The branch taken, in the order the source tests them.  The rate-limit
   * branches can never be taken: a 403 has already been raised.
   */
  function HandlerOf<P>(a: Attempt<P>): (h: Handler)
    ensures h != RateLimitWait && h != RateLimitPass
    ensures h == Ok <==> IsOk(a)
    ensures h == ExceptionHandler <==> a.ConnectionFailed? || (a.Answered? && RaisesForStatus(a.status))
    ensures h == OtherStatus <==> a.Answered? && a.status != 200 && !RaisesForStatus(a.status)
  {
    match a
    case TimedOut => TimeoutHandler
    case ConnectionFailed => ExceptionHandler
    case Answered(status, _, remaining) =>
      if RaisesForStatus(status) then ExceptionHandler
      else if status == 200 then Ok
      else if status == 403 && remaining.Some? then
        (if remaining == Some("0") then RateLimitWait else RateLimitPass)
      else OtherStatus
  }

  /** The exception raised when the last attempt observes `a` (and it is not a 200). */
  function FinalFailure<P>(a: Attempt<P>): Failure {
    match a
    case TimedOut => Timeout
    case ConnectionFailed => RequestError
    case Answered(status, _, _) =>
      if RaisesForStatus(status) then HttpError(status) else RetriesExhausted
  }

  /**
   * The attempt loop.  `requests` is the number of requests issued.  The
   * call succeeds exactly when one of the first three attempts answers 200,
   * with the first such answer; otherwise all three attempts are made and
   * the exception is the one the third attempt leads to.
   */
  method Request<P>(net: nat -> Attempt<P>) returns (out: Outcome<P>, requests: nat)
    ensures 1 <= requests <= MaxRetries
    ensures forall k :: 1 <= k < requests ==> !IsOk(net(k))
    ensures out.Success? <==> IsOk(net(requests))
    ensures out.Success? <==> exists k :: 1 <= k <= MaxRetries && IsOk(net(k))
    ensures out.Success? ==> out.payload == net(requests).payload
    ensures out.Raised? ==> requests == MaxRetries && out.failure == FinalFailure(net(MaxRetries))
  {
    var attempt := 1;
    requests := 0;
    while attempt <= MaxRetries
      invariant 1 <= attempt <= MaxRetries + 1
      invariant requests == attempt - 1
      invariant forall k :: 1 <= k < attempt ==> !IsOk(net(k))
      invariant attempt == MaxRetries + 1 ==> FinalFailure(net(MaxRetries)) == RetriesExhausted
    {
      requests := attempt;
      var reply := net(attempt);
      match HandlerOf(reply) {
        case TimeoutHandler =>
          if attempt == MaxRetries { return Raised(Timeout), requests; }
        case ExceptionHandler =>
          if attempt == MaxRetries {
            var failure := if reply.Answered? then HttpError(reply.status) else RequestError;
            return Raised(failure), requests;
          }
        case Ok =>
          return Success(reply.payload), requests;
        case RateLimitWait =>
          // sleeps until X-RateLimit-Reset, then continues
        case RateLimitPass =>
        case OtherStatus =>
          // raise_for_status() on the last attempt does not raise for these statuses
      }
      attempt := attempt + 1;
    }
    out := Raised(RetriesExhausted);
  }
}
