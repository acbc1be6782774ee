/**
 * The request limiter the Gemini translator and the API clients share
 * (`RateLimiter` in app.mjs): a FIFO queue worked off one task at a time,
 * a minimum spacing between requests per API key, and a bounded retry of
 * throttling errors with capped exponential back-off.
 *
 * The clock (`Date.now()`) and the jitter (`Math.random() * 1000`) are
 * parameters; times are milliseconds.
 */
module RateLimiting {
  import opened Wrappers

  /** `Math.pow(2, n)`. */
  function Pow2(n: nat): (r: nat)
    ensures r >= 1
  {
    if n == 0 then 1 else 2 * Pow2(n - 1)
  }

  const MaxBackoff: real := 50000.0

  function Min(a: real, b: real): real {
    if a <= b then a else b
  }

  /** `calculateBackoff(retryCount)` for the jitter `Math.random()` drew. */
  function CalculateBackoff(retryCount: nat, jitter: real): (r: real)
    ensures r <= MaxBackoff
    ensures 0.0 <= jitter < 1000.0 ==>
      Min((Pow2(retryCount) * 2000) as real, MaxBackoff) <= r < Min((Pow2(retryCount) * 2000) as real + 1000.0, MaxBackoff + 1.0)
  {
    Min((Pow2(retryCount) * 2000) as real + jitter, MaxBackoff)
  }

  lemma {:induction false} Pow2Monotone(m: nat, n: nat)
    requires m < n
    ensures 2 * Pow2(m) <= Pow2(n)
    decreases n
  {
    if m + 1 < n {
      Pow2Monotone(m, n - 1);
    }
  }

  /**
   * A later retry never waits less than an earlier one, whatever the two
   * jitters were: consecutive base delays are at least 2000 ms apart, more
   * than the jitter can make up.
   */
  lemma BackoffMonotone(m: nat, jm: real, n: nat, jn: real)
    requires m <= n
    requires 0.0 <= jm < 1000.0 && 0.0 <= jn < 1000.0
    requires m == n ==> jm <= jn
    ensures CalculateBackoff(m, jm) <= CalculateBackoff(n, jn)
  {
    if m < n {
      Pow2Monotone(m, n);
    }
  }

  /** What one call of the wrapped function did. */
  datatype Outcome<V> = Returned(value: V) | Threw(status: Option<int>)

  /** `error.status` is 429, 503 or 401. */
  predicate Retriable(status: Option<int>) {
    status == Some(429) || status == Some(503) || status == Some(401)
  }

  /** The result of `executeWithRetry`, how many times it called the function, and the back-offs it slept. */
  datatype Run<V> = Run(result: Result<V, Option<int>>, attempts: nat, delays: seq<real>)

  /**
   * `executeWithRetry(fn, apiKey, retryCount)`: the call made at retry count
   * `k` has outcome `fn(k)`, and the back-off slept before retry `k + 1` used
   * jitter `jitter(k)`.
   */
  function ExecuteWithRetry<V>(fn: nat -> Outcome<V>, jitter: nat -> real, maxRetries: nat, retryCount: nat): (r: Run<V>)
    decreases maxRetries - retryCount
    ensures 1 <= r.attempts <= (if retryCount <= maxRetries then maxRetries - retryCount else 0) + 1
    ensures |r.delays| == r.attempts - 1
    ensures forall k :: 0 <= k < |r.delays| ==> r.delays[k] == CalculateBackoff(retryCount + k, jitter(retryCount + k))
    ensures forall k :: retryCount <= k < retryCount + r.attempts - 1 ==> fn(k).Threw? && Retriable(fn(k).status)
    ensures r.result.Ok? ==> fn(retryCount + r.attempts - 1) == Returned(r.result.value)
    ensures r.result.Err? ==>
      && fn(retryCount + r.attempts - 1) == Threw(r.result.error)
      && (!Retriable(r.result.error) || retryCount + r.attempts - 1 >= maxRetries)
  {
    match fn(retryCount)
    case Returned(v) => Run(Ok(v), 1, [])
    case Threw(status) =>
      if Retriable(status) && retryCount < maxRetries then
        var rest := ExecuteWithRetry(fn, jitter, maxRetries, retryCount + 1);
        Run(rest.result, rest.attempts + 1, [CalculateBackoff(retryCount, jitter(retryCount))] + rest.delays)
      else
        Run(Err(status), 1, [])
  }

  /** With every back-off jitter in range, the whole run sleeps at most `maxRetries * 50000` ms. */
  lemma {:induction false} TotalBackoffBound<V>(fn: nat -> Outcome<V>, jitter: nat -> real, maxRetries: nat, retryCount: nat)
    requires retryCount <= maxRetries
    ensures SumOf(ExecuteWithRetry(fn, jitter, maxRetries, retryCount).delays)
      <= (maxRetries - retryCount) as real * MaxBackoff
    decreases maxRetries - retryCount
  {
    var r := ExecuteWithRetry(fn, jitter, maxRetries, retryCount);
    if r.attempts > 1 {
      TotalBackoffBound(fn, jitter, maxRetries, retryCount + 1);
    }
  }

  function SumOf(xs: seq<real>): real {
    if xs == [] then 0.0 else xs[0] + SumOf(xs[1..])
  }

  /** `minDelay - timeSinceLastRequest` when that is positive, else no wait. */
  function WaitBefore(now: int, lastRequest: Option<int>, requestsPerMinute: nat): (w: real)
    requires requestsPerMinute > 0
    ensures w >= 0.0
    ensures w > 0.0 <==> (now - LastOrZero(lastRequest)) as real < 60000.0 / requestsPerMinute as real
    ensures w > 0.0 ==> (now - LastOrZero(lastRequest)) as real + w == 60000.0 / requestsPerMinute as real
  {
    var elapsed := (now - LastOrZero(lastRequest)) as real;
    var minDelay := 60000.0 / requestsPerMinute as real;
    if elapsed < minDelay then minDelay - elapsed else 0.0
  }

  /** `this.lastRequestTime[apiKey] || 0`. */
  function LastOrZero(t: Option<int>): int {
    match t
    case Some(v) => v
    case None => 0
  }

  /** A queued request: `id` stands for its `fn`/`resolve`/`reject`. */
  datatype Task = Task(id: nat, apiKey: string)

  class RateLimiter {
    const requestsPerMinute: nat
    const maxRetries: nat
    var queue: seq<Task>
    var processing: bool
    var lastRequestTime: map<string, int>
    var retryCount: map<string, int>

    constructor (requestsPerMinute: nat, maxRetries: nat)
      requires requestsPerMinute > 0
      ensures this.requestsPerMinute == requestsPerMinute && this.maxRetries == maxRetries
      ensures queue == [] && !processing && lastRequestTime == map[] && retryCount == map[]
    {
      this.requestsPerMinute := requestsPerMinute;
      this.maxRetries := maxRetries;
      queue := [];
      processing := false;
      lastRequestTime := map[];
      retryCount := map[];
    }

    ghost predicate Valid()
      reads this
    {
      requestsPerMinute > 0
    }

    /**
     * `addToQueue` at time `now`: the task joins the back of the queue, and
     * the `processQueue` call it makes without awaiting runs its synchronous
     * start at once, so an idle limiter starts the head of the queue.
     */
    method AddToQueue(t: Task, now: int) returns (started: Option<Task>, wait: real)
      requires Valid()
      modifies this
      ensures Valid()
      ensures started.Some? <==> !old(processing)
      ensures started.Some? ==>
        && started.value == (old(queue) + [t])[0] && queue == (old(queue) + [t])[1..] && processing
        && wait == WaitBefore(now, if started.value.apiKey in lastRequestTime
          then Some(lastRequestTime[started.value.apiKey]) else None, requestsPerMinute)
      ensures started.None? ==> queue == old(queue) + [t] && processing && wait == 0.0
      ensures lastRequestTime == old(lastRequestTime) && retryCount == old(retryCount)
    {
      queue := queue + [t];
      started, wait := StartNext(now);
    }

    /**
     * The synchronous start of `processQueue` at time `now`: nothing happens
     * while a task is running or the queue is empty; otherwise the head of the
     * queue is taken and the wait before it runs is returned.
     */
    method StartNext(now: int) returns (started: Option<Task>, wait: real)
      requires Valid()
      modifies this
      ensures Valid()
      ensures started.Some? <==> !old(processing) && old(queue) != []
      ensures started.Some? ==> started.value == old(queue)[0] && queue == old(queue)[1..] && processing
      ensures started.Some? ==>
        wait == WaitBefore(now, if started.value.apiKey in lastRequestTime
          then Some(lastRequestTime[started.value.apiKey]) else None, requestsPerMinute)
      ensures started.None? ==> queue == old(queue) && processing == old(processing) && wait == 0.0
      ensures lastRequestTime == old(lastRequestTime) && retryCount == old(retryCount)
    {
      if processing || |queue| == 0 {
        return None, 0.0;
      }
      processing := true;
      var t := queue[0];
      queue := queue[1..];
      var last := if t.apiKey in lastRequestTime then Some(lastRequestTime[t.apiKey]) else None;
      wait := WaitBefore(now, last, requestsPerMinute);
      started := Some(t);
    }

    /**
     * The rest of `processQueue` once `executeWithRetry` settled at time
     * `now`: only a success records the request time and clears the retry
     * count; either way the limiter is free again.
     */
    method Finish(apiKey: string, succeeded: bool, now: int)
      requires Valid()
      modifies this
      ensures Valid()
      ensures !processing && queue == old(queue)
      ensures lastRequestTime == if succeeded then old(lastRequestTime)[apiKey := now] else old(lastRequestTime)
      ensures retryCount == if succeeded then old(retryCount)[apiKey := 0] else old(retryCount)
    {
      if succeeded {
        lastRequestTime := lastRequestTime[apiKey := now];
        retryCount := retryCount[apiKey := 0];
      }
      processing := false;
    }
  }

  /** The request times the limiter holds after the first `n` tasks ran, task `j` finishing at `clock(2 * j + 1)`. */
  function Recorded(times: map<string, int>, tasks: seq<Task>, n: nat, outcome: nat -> bool, clock: nat -> int): map<string, int>
    requires n <= |tasks|
  {
    if n == 0 then times
    else
      var before := Recorded(times, tasks, n - 1, outcome, clock);
      if outcome(n - 1) then before[tasks[n - 1].apiKey := clock(2 * (n - 1) + 1)] else before
  }

  /** The retry counts after the first `n` tasks ran: each success resets its key's count. */
  function Reset(counts: map<string, int>, tasks: seq<Task>, n: nat, outcome: nat -> bool): map<string, int>
    requires n <= |tasks|
  {
    if n == 0 then counts
    else
      var before := Reset(counts, tasks, n - 1, outcome);
      if outcome(n - 1) then before[tasks[n - 1].apiKey := 0] else before
  }

  /** The wait before task `n`: `WaitBefore` from the last recorded request with its key. */
  function DrainWait(times: map<string, int>, tasks: seq<Task>, n: nat, outcome: nat -> bool, clock: nat -> int,
                     requestsPerMinute: nat): real
    requires n < |tasks| && requestsPerMinute > 0
  {
    var recorded := Recorded(times, tasks, n, outcome, clock);
    WaitBefore(clock(2 * n), if tasks[n].apiKey in recorded then Some(recorded[tasks[n].apiKey]) else None,
               requestsPerMinute)
  }

  /**
   * A key's recorded time that the start did not hold comes from a task with
   * that key which succeeded, finishing at that time.
   */
  lemma {:induction false} RecordedBySuccess(times: map<string, int>, tasks: seq<Task>, n: nat, outcome: nat -> bool,
                                             clock: nat -> int, key: string)
    requires n <= |tasks|
    requires key in Recorded(times, tasks, n, outcome, clock) && key !in times
    ensures exists j ::
      && 0 <= j < n && tasks[j].apiKey == key && outcome(j)
      && Recorded(times, tasks, n, outcome, clock)[key] == clock(2 * j + 1)
  {
    var before := Recorded(times, tasks, n - 1, outcome, clock);
    if outcome(n - 1) && tasks[n - 1].apiKey == key {
      assert Recorded(times, tasks, n, outcome, clock)[key] == clock(2 * (n - 1) + 1);
    } else {
      RecordedBySuccess(times, tasks, n - 1, outcome, clock, key);
    }
  }

  /**
   * `addToQueue` for each task in turn at time `now`, none of them awaited:
   * on an idle limiter the first call starts the head of the queue, and the
   * rest only queue behind it.
   */
  method Enqueue(limiter: RateLimiter, tasks: seq<Task>, now: int) returns (started: Option<Task>, wait: real)
    requires limiter.Valid()
    modifies limiter
    ensures limiter.Valid()
    ensures started.Some? <==> !old(limiter.processing) && tasks != []
    ensures started.Some? ==>
      && started.value == (old(limiter.queue) + tasks)[0] && limiter.queue == (old(limiter.queue) + tasks)[1..]
      && limiter.processing
      && wait == WaitBefore(now, if started.value.apiKey in limiter.lastRequestTime
        then Some(limiter.lastRequestTime[started.value.apiKey]) else None, limiter.requestsPerMinute)
    ensures started.None? ==>
      limiter.queue == old(limiter.queue) + tasks && limiter.processing == old(limiter.processing) && wait == 0.0
    ensures limiter.lastRequestTime == old(limiter.lastRequestTime) && limiter.retryCount == old(limiter.retryCount)
  {
    started, wait := None, 0.0;
    var i := 0;
    while i < |tasks|
      invariant i <= |tasks| && limiter.Valid()
      invariant started.Some? <==> !old(limiter.processing) && i > 0
      invariant started.Some? ==>
        && started.value == (old(limiter.queue) + tasks[..i])[0]
        && limiter.queue == (old(limiter.queue) + tasks[..i])[1..] && limiter.processing
        && wait == WaitBefore(now, if started.value.apiKey in limiter.lastRequestTime
          then Some(limiter.lastRequestTime[started.value.apiKey]) else None, limiter.requestsPerMinute)
      invariant started.None? ==>
        limiter.queue == old(limiter.queue) + tasks[..i] && limiter.processing == old(limiter.processing) && wait == 0.0
      invariant limiter.lastRequestTime == old(limiter.lastRequestTime) && limiter.retryCount == old(limiter.retryCount)
    {
      ghost var before := old(limiter.queue) + tasks[..i];
      assert old(limiter.queue) + tasks[..i + 1] == before + [tasks[i]];
      var s, w := limiter.AddToQueue(tasks[i], now);
      if s.Some? {
        started, wait := s, w;
      } else if started.Some? {
        assert before != [];
        assert (before + [tasks[i]])[0] == before[0] && (before + [tasks[i]])[1..] == before[1..] + [tasks[i]];
      }
      i := i + 1;
    }
    assert tasks[..i] == tasks;
  }

  /**
   * The rest of one round of `processQueue` while the task `running` runs:
   * a further `processQueue` call meanwhile starts nothing; the task settles
   * at `finishedAt`; and the call the `finally` block schedules starts the
   * next queued task at `next`, or finds the queue empty.
   */
  method RunHead(limiter: RateLimiter, running: Task, succeeded: bool, finishedAt: int, next: int)
    returns (busy: Option<Task>, started: Option<Task>, wait: real)
    requires limiter.Valid() && limiter.processing
    modifies limiter
    ensures limiter.Valid()
    ensures busy.None?
    ensures limiter.lastRequestTime ==
      if succeeded then old(limiter.lastRequestTime)[running.apiKey := finishedAt] else old(limiter.lastRequestTime)
    ensures limiter.retryCount == if succeeded then old(limiter.retryCount)[running.apiKey := 0] else old(limiter.retryCount)
    ensures started.Some? <==> old(limiter.queue) != []
    ensures started.Some? ==>
      && started.value == old(limiter.queue)[0] && limiter.queue == old(limiter.queue)[1..] && limiter.processing
      && wait == WaitBefore(next, if started.value.apiKey in limiter.lastRequestTime
        then Some(limiter.lastRequestTime[started.value.apiKey]) else None, limiter.requestsPerMinute)
    ensures started.None? ==> limiter.queue == [] && !limiter.processing
  {
    var idleWait;
    busy, idleWait := limiter.StartNext(finishedAt);
    limiter.Finish(running.apiKey, succeeded, finishedAt);
    started, wait := limiter.StartNext(next);
  }

  /** One round of the drain: the task that started, its wait, and what a second start attempt during it started. */
  datatype Round = Round(started: Task, wait: real, overlapping: Option<Task>)

  /**
   * The limiter in action: an idle limiter with an empty queue is handed
   * `tasks` by `addToQueue` calls made together, which starts the first at
   * `clock(0)`; task `n` settles at `clock(2 * n + 1)` (successfully when
   * `outcome` says so) and the next one starts at `clock(2 * n + 2)`, with a
   * second start attempt while each one runs. Round `n` starts task `n`
   * after `DrainWait`, and its second attempt starts nothing, so no two
   * tasks overlap.
   */
  method Drain(limiter: RateLimiter, tasks: seq<Task>, outcome: nat -> bool, clock: nat -> int)
    returns (rounds: seq<Round>)
    requires limiter.Valid() && !limiter.processing && limiter.queue == []
    modifies limiter
    ensures |rounds| == |tasks| && forall n :: 0 <= n < |tasks| ==>
      rounds[n] == Round(tasks[n], DrainWait(old(limiter.lastRequestTime), tasks, n, outcome, clock, limiter.requestsPerMinute), None)
    ensures limiter.queue == [] && !limiter.processing
    ensures limiter.lastRequestTime == Recorded(old(limiter.lastRequestTime), tasks, |tasks|, outcome, clock)
    ensures limiter.retryCount == Reset(old(limiter.retryCount), tasks, |tasks|, outcome)
  {
    ghost var times, counts := limiter.lastRequestTime, limiter.retryCount;
    var first, wait := Enqueue(limiter, tasks, clock(0));
    assert [] + tasks == tasks;
    assert Recorded(times, tasks, 0, outcome, clock) == times && Reset(counts, tasks, 0, outcome) == counts;
    rounds := [];
    var n := 0;
    while n < |tasks|
      invariant n <= |tasks| && limiter.Valid()
      invariant n < |tasks| ==>
        && limiter.processing && limiter.queue == tasks[n + 1..]
        && wait == DrainWait(times, tasks, n, outcome, clock, limiter.requestsPerMinute)
      invariant n == |tasks| ==> !limiter.processing && limiter.queue == []
      invariant |rounds| == n && forall m :: 0 <= m < n ==>
        rounds[m] == Round(tasks[m], DrainWait(times, tasks, m, outcome, clock, limiter.requestsPerMinute), None)
      invariant limiter.lastRequestTime == Recorded(times, tasks, n, outcome, clock)
      invariant limiter.retryCount == Reset(counts, tasks, n, outcome)
    {
      var r;
      r, wait := DrainRound(limiter, tasks, n, outcome, clock, wait, times, counts);
      rounds := rounds + [r];
      n := n + 1;
    }
  }

  /**
   * Round `n` of `Drain`: task `n`, started after `wait`, runs and settles;
   * the limiter's maps advance by its outcome, and the next task starts
   * after the wait returned.
   */
  method DrainRound(limiter: RateLimiter, tasks: seq<Task>, n: nat, outcome: nat -> bool, clock: nat -> int, wait: real,
                    ghost times: map<string, int>, ghost counts: map<string, int>)
    returns (r: Round, nextWait: real)
    requires n < |tasks|
    requires limiter.Valid() && limiter.processing && limiter.queue == tasks[n + 1..]
    requires wait == DrainWait(times, tasks, n, outcome, clock, limiter.requestsPerMinute)
    requires limiter.lastRequestTime == Recorded(times, tasks, n, outcome, clock)
    requires limiter.retryCount == Reset(counts, tasks, n, outcome)
    modifies limiter
    ensures limiter.Valid()
    ensures r == Round(tasks[n], DrainWait(times, tasks, n, outcome, clock, limiter.requestsPerMinute), None)
    ensures n + 1 < |tasks| ==>
      && limiter.processing && limiter.queue == tasks[n + 2..]
      && nextWait == DrainWait(times, tasks, n + 1, outcome, clock, limiter.requestsPerMinute)
    ensures n + 1 == |tasks| ==> !limiter.processing && limiter.queue == []
    ensures limiter.lastRequestTime == Recorded(times, tasks, n + 1, outcome, clock)
    ensures limiter.retryCount == Reset(counts, tasks, n + 1, outcome)
  {
    var busy, next;
    busy, next, nextWait := RunHead(limiter, tasks[n], outcome(n), clock(2 * n + 1), clock(2 * (n + 1)));
    r := Round(tasks[n], wait, busy);
    if n + 1 < |tasks| {
      assert tasks[n + 1..][0] == tasks[n + 1] && tasks[n + 1..][1..] == tasks[n + 2..];
    }
  }
}
