/**
 * fetchWithRetry: up to three attempts at one request, a fixed one-second
 * pause after each failed attempt but the last. The network is the function
 * `network`, giving what attempt number k (1, 2 or 3) sees; the pauses are
 * counted, and their total length added up, instead of waited for.
 */
module Retry {
  import opened Options

  const MAX_ATTEMPTS: nat := 3
  /** The pause after a failed attempt, in milliseconds. */
  const BACKOFF_MS: nat := 1000

  /** The part of a fetch Response the loop looks at. */
  datatype Response = Response(ok: bool, status: int)

  /** What one call of fetch does: resolve with a response, or reject with a transport error. */
  datatype Attempt = Delivered(response: Response) | TransportError(reason: string)

  /** The value a failed attempt throws: Error(`HTTP ${status}`) for a bad status, or fetch's own error. */
  datatype FetchError = HttpError(status: int) | NetworkError(reason: string)

  /** How fetchWithRetry settles: it returns a response or throws an error. */
  datatype Outcome = Returned(response: Response) | Thrown(error: FetchError)

  predicate Succeeds(a: Attempt) {
    a.Delivered? && a.response.ok
  }

  /** The error a failed attempt throws: a bad status becomes an HTTP error, a rejection passes through. */
  function ErrorOf(a: Attempt): (e: FetchError)
    requires !Succeeds(a)
    ensures e.HttpError? <==> a.Delivered?
    ensures e.HttpError? ==> e.status == a.response.status && !a.response.ok
    ensures e.NetworkError? ==> e.reason == a.reason
  {
    match a
    case Delivered(response) => HttpError(response.status)
    case TransportError(reason) => NetworkError(reason)
  }

  /**
   * The first successful attempt is returned at once; before it every attempt
   * failed and was followed by one pause of BACKOFF_MS. If all three fail,
   * the third attempt's error is thrown after exactly two pauses.
   */
  method FetchWithRetry(network: nat -> Attempt) returns (outcome: Outcome, attempts: nat, delays: nat, waitedMs: nat)
    ensures 1 <= attempts <= MAX_ATTEMPTS
    ensures forall k :: 1 <= k < attempts ==> !Succeeds(network(k))
    ensures outcome.Returned? ==> Succeeds(network(attempts)) && outcome.response == network(attempts).response
    ensures outcome.Returned? ==> outcome.response.ok
    ensures outcome.Thrown? ==>
              attempts == MAX_ATTEMPTS && !Succeeds(network(MAX_ATTEMPTS)) && outcome.error == ErrorOf(network(MAX_ATTEMPTS))
    ensures delays == if outcome.Returned? then attempts - 1 else MAX_ATTEMPTS - 1
    ensures waitedMs == delays * BACKOFF_MS
  {
    var lastError: Option<FetchError> := None;  // `let lastError;` starts out undefined
    var attempt: nat := 1;
    delays, waitedMs := 0, 0;
    while attempt <= MAX_ATTEMPTS
      invariant 1 <= attempt <= MAX_ATTEMPTS + 1
      invariant forall k :: 1 <= k < attempt ==> !Succeeds(network(k))
      invariant lastError == if attempt > 1 then Some(ErrorOf(network(attempt - 1))) else None
      invariant delays == if attempt <= MAX_ATTEMPTS then attempt - 1 else MAX_ATTEMPTS - 1
      invariant waitedMs == delays * BACKOFF_MS
    {
      var result := network(attempt);
      if Succeeds(result) {
        return Returned(result.response), attempt, delays, waitedMs;
      }
      lastError := Some(ErrorOf(result));
      if attempt < MAX_ATTEMPTS {
        delays := delays + 1;
        waitedMs := waitedMs + BACKOFF_MS;
      }
      attempt := attempt + 1;
    }
    return Thrown(lastError.value), MAX_ATTEMPTS, delays, waitedMs;
  }
}
