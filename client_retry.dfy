/**
 * The retry loops of the Semantic Scholar and PubMed clients
 * (`fetchWithRetry` in app.mjs) and Semantic Scholar's request pacing
 * (`enforceRateLimit`).
 *
 * Both loops have the same shape: an OK response is returned; a 429 with
 * retries left sleeps the rate-limit delay; every other failure (another
 * status, or a network error) is thrown inside the `try` and caught by the
 * `catch`, which retries with `baseDelay * 2^retryCount` while retries are
 * left. Response number `k` (counting from 0) is `responses(k)`.
 */
module ClientRetry {
  import opened Wrappers
  import opened JsText
  import RateLimiting

  datatype Response = Response(status: int, retryAfter: Option<string>) | NetworkError

  /** `response.ok`. */
  predicate Succeeded(r: Response) {
    r.Response? && 200 <= r.status <= 299
  }

  predicate RateLimited(r: Response) {
    r.Response? && r.status == 429
  }

  datatype Failure = HttpStatus(status: int) | Network

  function FailureOf(r: Response): Failure {
    if r.NetworkError? then Network else HttpStatus(r.status)
  }

  /** The settled response (or the error thrown), the number of requests made, and the sleeps between them. */
  datatype Fetch = Fetch(result: Result<Response, Failure>, attempts: nat, delays: seq<nat>)

  /** What Node's `setTimeout` waits for a delay value: a delay below 1 ms, or `NaN`, waits 1 ms. */
  function TimerDelay(v: Option<int>): (d: nat)
    ensures d >= 1
    ensures v.Some? && v.value >= 1 ==> d == v.value
  {
    match v
    case Some(n) => if n >= 1 then n else 1
    case None => 1
  }

  /** `Number(text) * 1000`: a number of seconds as milliseconds, `NaN` staying `NaN`. */
  function SecondsToMillis(v: Option<int>): Option<int> {
    match v
    case Some(n) => Some(n * 1000)
    case None => None
  }

  function Backoff(baseDelay: nat, retryCount: nat): nat {
    baseDelay * RateLimiting.Pow2(retryCount)
  }

  /**
   * `fetchWithRetry(url, options, retryCount)` with `maxRetries`,
   * `baseDelay`, and `rateLimitDelay(retryCount, Retry-After)` for a 429.
   */
  function FetchWithRetry(responses: nat -> Response, maxRetries: nat, baseDelay: nat,
                          rateLimitDelay: (nat, Option<string>) -> nat, retryCount: nat): (f: Fetch)
    decreases maxRetries - retryCount
    ensures 1 <= f.attempts <= (if retryCount <= maxRetries then maxRetries - retryCount else 0) + 1
    ensures |f.delays| == f.attempts - 1
    ensures forall k :: retryCount <= k < retryCount + f.attempts - 1 ==> !Succeeded(responses(k))
    ensures f.result.Ok? <==> Succeeded(responses(retryCount + f.attempts - 1))
    ensures f.result.Ok? ==> f.result.value == responses(retryCount + f.attempts - 1)
    ensures f.result.Err? ==>
      f.result.error == FailureOf(responses(retryCount + f.attempts - 1)) && retryCount + f.attempts - 1 >= maxRetries
    ensures forall k :: 0 <= k < |f.delays| ==>
      f.delays[k] == if RateLimited(responses(retryCount + k))
        then rateLimitDelay(retryCount + k, responses(retryCount + k).retryAfter)
        else Backoff(baseDelay, retryCount + k)
  {
    var r := responses(retryCount);
    if Succeeded(r) then Fetch(Ok(r), 1, [])
    else if retryCount < maxRetries then
      var d := if RateLimited(r) then rateLimitDelay(retryCount, r.retryAfter) else Backoff(baseDelay, retryCount);
      var rest := FetchWithRetry(responses, maxRetries, baseDelay, rateLimitDelay, retryCount + 1);
      Fetch(rest.result, rest.attempts + 1, [d] + rest.delays)
    else
      Fetch(Err(FailureOf(r)), 1, [])
  }

  /** A header value is used only when it is a non-empty string. */
  predicate HasHeader(h: Option<string>) {
    h.Some? && h.value != ""
  }

  /**
   * Semantic Scholar's 429 delay: `parseInt(Retry-After, 10) * 1000`, or
   * `2000 * 2^retryCount` without the header; a header that parses to no
   * positive number leaves the timer its 1 ms minimum.
   */
  function SemanticScholarRateLimitDelay(retryCount: nat, retryAfter: Option<string>): (d: nat)
    ensures !HasHeader(retryAfter) ==> d == Backoff(2000, retryCount)
    ensures HasHeader(retryAfter) && ParseInt(retryAfter.value).Some? && ParseInt(retryAfter.value).value >= 1 ==>
      d == ParseInt(retryAfter.value).value * 1000
    ensures HasHeader(retryAfter) && (ParseInt(retryAfter.value).None? || ParseInt(retryAfter.value).value < 1) ==>
      d == 1
  {
    if HasHeader(retryAfter) then TimerDelay(SecondsToMillis(ParseInt(retryAfter.value)))
    else Backoff(2000, retryCount)
  }

  /** Semantic Scholar: at most 2 retries, base delay 2000 ms. */
  function SemanticScholarFetch(responses: nat -> Response): (f: Fetch)
    ensures 1 <= f.attempts <= 3
    ensures f.result.Err? ==> f.attempts == 3
  {
    FetchWithRetry(responses, 2, 2000, SemanticScholarRateLimitDelay, 0)
  }

  /**
   * PubMed's 429 delay as written: the `Retry-After` string itself is handed
   * to `setTimeout`, which reads it as milliseconds.
   */
  function PubMedRateLimitDelayAsWritten(retryCount: nat, retryAfter: Option<string>): (d: nat)
    ensures !HasHeader(retryAfter) ==> d == Backoff(400, retryCount)
    ensures HasHeader(retryAfter) && ToNumber(retryAfter.value).Some? && ToNumber(retryAfter.value).value >= 1 ==>
      d == ToNumber(retryAfter.value).value
    ensures HasHeader(retryAfter) && (ToNumber(retryAfter.value).None? || ToNumber(retryAfter.value).value < 1) ==>
      d == 1
  {
    if HasHeader(retryAfter) then TimerDelay(ToNumber(retryAfter.value)) else Backoff(400, retryCount)
  }

  /** PubMed's 429 delay with `Retry-After` read as seconds, as HTTP defines it. */
  function PubMedRateLimitDelay(retryCount: nat, retryAfter: Option<string>): (d: nat)
    ensures !HasHeader(retryAfter) ==> d == Backoff(400, retryCount)
    ensures HasHeader(retryAfter) && ToNumber(retryAfter.value).Some? && ToNumber(retryAfter.value).value >= 1 ==>
      d == ToNumber(retryAfter.value).value * 1000
    ensures HasHeader(retryAfter) && (ToNumber(retryAfter.value).None? || ToNumber(retryAfter.value).value < 1) ==>
      d == 1
  {
    if HasHeader(retryAfter) then TimerDelay(SecondsToMillis(ToNumber(retryAfter.value))) else Backoff(400, retryCount)
  }

  /**
   * `Retry-After: 5` asks for five seconds; the code as written waits 5 ms.
   * Read as seconds, PubMed waits what Semantic Scholar waits for the same header.
   */
  lemma PubMedRetryAfterSeconds(retryCount: nat, n: nat)
    ensures n >= 1 ==> PubMedRateLimitDelayAsWritten(retryCount, Some(NatToString(n))) == n
    ensures n >= 1 ==>
      PubMedRateLimitDelay(retryCount, Some(NatToString(n))) == n * 1000
        == SemanticScholarRateLimitDelay(retryCount, Some(NatToString(n)))
    ensures n == 0 ==>
      PubMedRateLimitDelayAsWritten(retryCount, Some(NatToString(n))) == 1
        == PubMedRateLimitDelay(retryCount, Some(NatToString(n)))
        == SemanticScholarRateLimitDelay(retryCount, Some(NatToString(n)))
  {
    ToNumberOfNatToString(n);
    ParseIntOfNatToString(n);
  }

  /** The sleep PubMed's loop takes after response `k`, for a given 429 delay. */
  function PubMedSleep(rateLimitDelay: (nat, Option<string>) -> nat, r: Response, k: nat): nat {
    if RateLimited(r) then rateLimitDelay(k, r.retryAfter) else Backoff(400, k)
  }

  /** PubMed as written: at most 3 retries, base delay 400 ms, and the 429 delay read as milliseconds. */
  function PubMedFetch(responses: nat -> Response): (f: Fetch)
    ensures 1 <= f.attempts <= 4
    ensures f.result.Err? ==> f.attempts == 4
    ensures f.result.Ok? <==> Succeeded(responses(f.attempts - 1))
    ensures forall k :: 0 <= k < |f.delays| ==>
      f.delays[k] == PubMedSleep(PubMedRateLimitDelayAsWritten, responses(k), k)
  {
    FetchWithRetry(responses, 3, 400, PubMedRateLimitDelayAsWritten, 0)
  }

  /** PubMed with the corrected 429 delay, read as seconds. */
  function PubMedFetchCorrected(responses: nat -> Response): (f: Fetch)
    ensures 1 <= f.attempts <= 4
    ensures f.result.Err? ==> f.attempts == 4
    ensures f.result.Ok? <==> Succeeded(responses(f.attempts - 1))
    ensures forall k :: 0 <= k < |f.delays| ==>
      f.delays[k] == PubMedSleep(PubMedRateLimitDelay, responses(k), k)
  {
    FetchWithRetry(responses, 3, 400, PubMedRateLimitDelay, 0)
  }

  /** The 429 delay decides only how long the loop sleeps, never how many requests it makes or what it settles with. */
  lemma {:induction false} FetchIgnoresDelay(responses: nat -> Response, maxRetries: nat, baseDelay: nat,
                                             d1: (nat, Option<string>) -> nat, d2: (nat, Option<string>) -> nat, retryCount: nat)
    ensures FetchWithRetry(responses, maxRetries, baseDelay, d1, retryCount).result
      == FetchWithRetry(responses, maxRetries, baseDelay, d2, retryCount).result
    ensures FetchWithRetry(responses, maxRetries, baseDelay, d1, retryCount).attempts
      == FetchWithRetry(responses, maxRetries, baseDelay, d2, retryCount).attempts
    decreases maxRetries - retryCount
  {
    if !Succeeded(responses(retryCount)) && retryCount < maxRetries {
      FetchIgnoresDelay(responses, maxRetries, baseDelay, d1, d2, retryCount + 1);
    }
  }

  /**
   * The PubMed loop as written and corrected make the same requests and
   * settle the same way; their sleeps differ only after a 429 carrying a
   * `Retry-After` header.
   */
  lemma PubMedFetchAsWrittenVsCorrected(responses: nat -> Response)
    ensures PubMedFetch(responses).result == PubMedFetchCorrected(responses).result
    ensures PubMedFetch(responses).attempts == PubMedFetchCorrected(responses).attempts
    ensures forall k ::
      0 <= k < |PubMedFetch(responses).delays| && !(RateLimited(responses(k)) && HasHeader(responses(k).retryAfter))
      ==> PubMedFetch(responses).delays[k] == PubMedFetchCorrected(responses).delays[k]
  {
    FetchIgnoresDelay(responses, 3, 400, PubMedRateLimitDelayAsWritten, PubMedRateLimitDelay, 0);
  }

  /** Without `Retry-After` headers, every PubMed sleep is the plain exponential back-off, whatever failed. */
  lemma {:induction false} PubMedSleepsWithoutHeader(responses: nat -> Response, retryCount: nat)
    requires forall k :: !HasHeader(if responses(k).Response? then responses(k).retryAfter else None)
    ensures forall k :: 0 <= k < |FetchWithRetry(responses, 3, 400, PubMedRateLimitDelayAsWritten, retryCount).delays| ==>
      FetchWithRetry(responses, 3, 400, PubMedRateLimitDelayAsWritten, retryCount).delays[k] == Backoff(400, retryCount + k)
  {
    var f := FetchWithRetry(responses, 3, 400, PubMedRateLimitDelayAsWritten, retryCount);
    forall k | 0 <= k < |f.delays| ensures f.delays[k] == Backoff(400, retryCount + k) {
      var r := responses(retryCount + k);
      assert !HasHeader(if r.Response? then r.retryAfter else None);
    }
  }

  const SemanticScholarMinGap: int := 1200

  /** How long `enforceRateLimit` sleeps at `now` when the previous request went out at `last`. */
  function PacingWait(now: int, last: int): (w: nat)
    ensures w > 0 <==> now - last < SemanticScholarMinGap
    ensures now + w >= last + SemanticScholarMinGap
    ensures w == 0 || now + w == last + SemanticScholarMinGap
  {
    if now - last < SemanticScholarMinGap then SemanticScholarMinGap - (now - last) else 0
  }

  /** The Semantic Scholar client's pacing state: 50 requests a minute, one every 1200 ms. */
  class SemanticScholarPacer {
    var lastRequestTime: int

    constructor ()
      ensures lastRequestTime == 0
    {
      lastRequestTime := 0;
    }

    /**
     * `enforceRateLimit` entered at `now`: sleep until 1200 ms after the
     * previous request, then record the time the clock shows on waking.
     */
    method EnforceRateLimit(now: int, wokeAt: int) returns (wait: nat)
      modifies this
      ensures wait == PacingWait(now, old(lastRequestTime))
      ensures lastRequestTime == wokeAt
    {
      wait := PacingWait(now, lastRequestTime);
      lastRequestTime := wokeAt;
    }
  }
}
