/**
 * The retry middleware: call the inner client, and on an error call it again
 * after a capped exponential backoff, up to `max_retries` more times.
 * Durations are natural numbers of nanoseconds.
 */
module Retry {
  import opened Common
  import opened Http

  const Millisecond: nat := 1_000_000
  const Second: nat := 1_000_000_000

  /** The settings of a `Retry`: how many retries, and the bounds of the delay between them. */
  datatype Config = Config(maxRetries: nat, minDelay: nat, maxDelay: nat)

  /** `Retry::new`: the given number of retries, delays from 100 ms up to 5 s. */
  function New(maxRetries: nat): (c: Config)
    ensures c.maxRetries == maxRetries
    ensures c.minDelay == 100 * Millisecond && c.maxDelay == 5 * Second
  {
    Config(maxRetries, 100 * Millisecond, 5 * Second)
  }

  /** `Retry::min_delay`: changes the lower delay and nothing else. */
  function WithMinDelay(c: Config, delay: nat): (r: Config)
    ensures r.minDelay == delay
    ensures r.maxRetries == c.maxRetries && r.maxDelay == c.maxDelay
  {
    c.(minDelay := delay)
  }

  /** `Retry::max_delay`: changes the upper delay and nothing else. */
  function WithMaxDelay(c: Config, delay: nat): (r: Config)
    ensures r.maxDelay == delay
    ensures r.maxRetries == c.maxRetries && r.minDelay == c.minDelay
  {
    c.(maxDelay := delay)
  }

  function Pow2(k: nat): (p: nat)
    ensures p >= 1
  {
    if k == 0 then 1 else 2 * Pow2(k - 1)
  }

  lemma {:induction false} Pow2Monotone(j: nat, k: nat)
    requires j <= k
    ensures Pow2(j) <= Pow2(k)
    decreases k
  {
    if j < k {
      Pow2Monotone(j, k - 1);
    }
  }

  /** The delay slept after the `attempts`-th failure: the lower delay doubled once per earlier failure, capped. */
  function Backoff(c: Config, attempts: nat): nat
    requires attempts >= 1
  {
    var d := c.minDelay * Pow2(attempts - 1);
    if d < c.maxDelay then d else c.maxDelay
  }

  /** The delay never exceeds the upper bound, and is the doubled lower delay while that is below it. */
  lemma BackoffCapped(c: Config, attempts: nat)
    requires attempts >= 1
    ensures Backoff(c, attempts) <= c.maxDelay
    ensures c.minDelay * Pow2(attempts - 1) <= c.maxDelay ==> Backoff(c, attempts) == c.minDelay * Pow2(attempts - 1)
    ensures attempts == 1 ==> Backoff(c, attempts) == if c.minDelay < c.maxDelay then c.minDelay else c.maxDelay
  {
  }

  /** Later retries never wait less than earlier ones. */
  lemma BackoffMonotone(c: Config, j: nat, k: nat)
    requires 1 <= j <= k
    ensures Backoff(c, j) <= Backoff(c, k)
  {
    Pow2Monotone(j - 1, k - 1);
    assert c.minDelay * Pow2(j - 1) <= c.minDelay * Pow2(k - 1) by {
      MulMonotone(c.minDelay, Pow2(j - 1), Pow2(k - 1));
    }
  }

  lemma MulMonotone(a: nat, x: nat, y: nat)
    requires x <= y
    ensures a * x <= a * y
  {
  }

  /**
   * The inner client as the loop sees it: what the attempt numbered `k`
   * (counting from 0) answers for a request, and the request as that attempt
   * leaves it behind (a transport may take the body or the whole request).
   */
  type Attempts = (nat, Request) -> (Result<Response, HttpError>, Request)

  /**
   * What one call of `respond` does: the outcome, the requests the inner
   * client was given, the delays slept between attempts, and the request the
   * caller is left with.
   */
  datatype Trace = Trace(outcome: Result<Response, HttpError>, sent: seq<Request>, delays: seq<nat>, after: Request)

  /** The request handed to the next attempt: the one left behind, or a snapshot to replay. */
  function NextRequest(snapshot: Option<Request>, left: Request): (r: Request)
    ensures snapshot.Some? ==> r == snapshot.value
    ensures snapshot.None? ==> r == left
  {
    if snapshot.Some? then snapshot.value else left
  }

  /**
   * The attempts from number `k` on, starting with `request`. An answer ends
   * the loop; an error ends it once `k + 1` exceeds the allowed retries, and
   * otherwise is followed by the backoff delay and the next attempt.
   */
  function Run(c: Config, inner: Attempts, request: Request, k: nat, snapshot: Option<Request>): (t: Trace)
    requires k <= c.maxRetries
    ensures 1 <= |t.sent| <= c.maxRetries + 1 - k && t.sent[0] == request
    ensures |t.delays| == |t.sent| - 1
    decreases c.maxRetries - k
  {
    var (outcome, left) := inner(k, request);
    if outcome.Ok? || k + 1 > c.maxRetries then Trace(outcome, [request], [], left)
    else
      var tail := Run(c, inner, NextRequest(snapshot, left), k + 1, snapshot);
      Trace(tail.outcome, [request] + tail.sent, [Backoff(c, k + 1)] + tail.delays, tail.after)
  }

  /** `Retry::respond` as written: every attempt is given the request the previous one left behind. */
  function Respond(c: Config, inner: Attempts, request: Request): (t: Trace)
    ensures |t.sent| <= c.maxRetries + 1
  {
    Run(c, inner, request, 0, None)
  }

  /** The corrected `respond`: every attempt is given a snapshot of the caller's request. */
  function Replaying(c: Config, inner: Attempts, request: Request): (t: Trace)
    ensures forall i :: 0 <= i < |t.sent| ==> t.sent[i] == request
  {
    RunReplays(c, inner, request, 0);
    Run(c, inner, request, 0, Some(request))
  }

  /** With a snapshot of `request`, every attempt is sent `request`. */
  lemma {:induction false} RunReplays(c: Config, inner: Attempts, request: Request, k: nat)
    requires k <= c.maxRetries
    ensures forall i :: 0 <= i < |Run(c, inner, request, k, Some(request)).sent| ==>
      Run(c, inner, request, k, Some(request)).sent[i] == request
    decreases c.maxRetries - k
  {
    var t := Run(c, inner, request, k, Some(request));
    if !(inner(k, request).0.Ok? || k + 1 > c.maxRetries) {
      assert NextRequest(Some(request), inner(k, request).1) == request;
      RunReplays(c, inner, request, k + 1);
      var tail := Run(c, inner, request, k + 1, Some(request));
      assert t.sent == [request] + tail.sent;
      forall i | 0 <= i < |t.sent| ensures t.sent[i] == request {
        if i > 0 { assert t.sent[i] == tail.sent[i - 1]; }
      }
    } else {
      assert t.sent == [request];
    }
  }

  /** The attempt loop of `Retry::respond`, with the delays it sleeps recorded instead of slept. */
  method Attempt(c: Config, inner: Attempts, request: Request)
    returns (result: Result<Response, HttpError>, sent: seq<Request>, delays: seq<nat>, after: Request)
    ensures Trace(result, sent, delays, after) == Respond(c, inner, request)
  {
    var attempts: nat := 0;
    var current := request;
    sent, delays := [], [];
    ghost var whole := Run(c, inner, request, 0, None);
    assert [] + whole.sent == whole.sent && [] + whole.delays == whole.delays;
    while true
      invariant attempts <= c.maxRetries
      invariant whole.outcome == Run(c, inner, current, attempts, None).outcome
      invariant whole.after == Run(c, inner, current, attempts, None).after
      invariant whole.sent == sent + Run(c, inner, current, attempts, None).sent
      invariant whole.delays == delays + Run(c, inner, current, attempts, None).delays
      decreases c.maxRetries - attempts
    {
      var answer := inner(attempts, current);
      var outcome, left := answer.0, answer.1;
      ghost var before := sent;
      sent := sent + [current];
      if outcome.Ok? {
        RunStops(c, inner, current, attempts);
        return outcome, sent, delays, left;
      }
      ghost var k := attempts;
      attempts := attempts + 1;
      if attempts > c.maxRetries {
        RunStops(c, inner, current, k);
        return outcome, sent, delays, left;
      }
      var delay := Backoff(c, attempts);
      AttemptStep(c, inner, whole, before, delays, current, left, k);
      delays := delays + [delay];
      current := left;
    }
  }

  /** An answer, or an error with no retry left, ends the run with that one attempt. */
  lemma RunStops(c: Config, inner: Attempts, current: Request, k: nat)
    requires k <= c.maxRetries
    requires inner(k, current).0.Ok? || k + 1 > c.maxRetries
    ensures Run(c, inner, current, k, None) == Trace(inner(k, current).0, [current], [], inner(k, current).1)
  {
  }

  /** After a failed attempt that is retried, the trace still splits into what was done and the rest. */
  lemma AttemptStep(c: Config, inner: Attempts, whole: Trace, sent: seq<Request>, delays: seq<nat>,
                    current: Request, left: Request, k: nat)
    requires k + 1 <= c.maxRetries && inner(k, current).0.Err? && left == inner(k, current).1
    requires whole.outcome == Run(c, inner, current, k, None).outcome
    requires whole.after == Run(c, inner, current, k, None).after
    requires whole.sent == sent + Run(c, inner, current, k, None).sent
    requires whole.delays == delays + Run(c, inner, current, k, None).delays
    ensures whole.outcome == Run(c, inner, left, k + 1, None).outcome
    ensures whole.after == Run(c, inner, left, k + 1, None).after
    ensures whole.sent == (sent + [current]) + Run(c, inner, left, k + 1, None).sent
    ensures whole.delays == (delays + [Backoff(c, k + 1)]) + Run(c, inner, left, k + 1, None).delays
  {
    var rest := Run(c, inner, left, k + 1, None);
    assert Run(c, inner, current, k, None).sent == [current] + rest.sent;
    assert Run(c, inner, current, k, None).delays == [Backoff(c, k + 1)] + rest.delays;
    assert sent + ([current] + rest.sent) == (sent + [current]) + rest.sent;
    assert delays + ([Backoff(c, k + 1)] + rest.delays) == (delays + [Backoff(c, k + 1)]) + rest.delays;
  }
}

/** Properties of the attempt loop. */
module RetryProperties {
  import opened Common
  import opened Http
  import opened Retry

  /**
   * How a run from attempt `k` unfolds: every attempt but the last failed, was
   * followed by the backoff for its number, and handed the next attempt its
   * request; the last attempt's answer or error is the outcome.
   */
  ghost predicate Unfolds(c: Config, inner: Attempts, k: nat, snapshot: Option<Request>, t: Trace)
    requires 1 <= |t.sent| && |t.delays| == |t.sent| - 1
  {
    (forall i :: 0 <= i < |t.sent| - 1 ==>
       inner(k + i, t.sent[i]).0.Err?
       && t.delays[i] == Backoff(c, k + i + 1)
       && t.sent[i + 1] == NextRequest(snapshot, inner(k + i, t.sent[i]).1))
    && (t.outcome, t.after) == inner(k + |t.sent| - 1, t.sent[|t.sent| - 1])
  }

  lemma {:induction false} RunUnfolds(c: Config, inner: Attempts, request: Request, k: nat, snapshot: Option<Request>)
    requires k <= c.maxRetries
    ensures Unfolds(c, inner, k, snapshot, Run(c, inner, request, k, snapshot))
    decreases c.maxRetries - k
  {
    var (outcome, left) := inner(k, request);
    if !(outcome.Ok? || k + 1 > c.maxRetries) {
      var next := NextRequest(snapshot, left);
      RunUnfolds(c, inner, next, k + 1, snapshot);
      var tail := Run(c, inner, next, k + 1, snapshot);
      UnfoldsCons(c, inner, k, snapshot, request, tail);
    }
  }

  /** A failed attempt put in front of the run that follows it. */
  lemma UnfoldsCons(c: Config, inner: Attempts, k: nat, snapshot: Option<Request>, request: Request, tail: Trace)
    requires 1 <= |tail.sent| && |tail.delays| == |tail.sent| - 1
    requires inner(k, request).0.Err?
    requires tail.sent[0] == NextRequest(snapshot, inner(k, request).1)
    requires Unfolds(c, inner, k + 1, snapshot, tail)
    ensures var t := Trace(tail.outcome, [request] + tail.sent, [Backoff(c, k + 1)] + tail.delays, tail.after);
      Unfolds(c, inner, k, snapshot, t)
  {
    var t := Trace(tail.outcome, [request] + tail.sent, [Backoff(c, k + 1)] + tail.delays, tail.after);
    forall i | 0 <= i < |t.sent| - 1
      ensures inner(k + i, t.sent[i]).0.Err? && t.delays[i] == Backoff(c, k + i + 1)
        && t.sent[i + 1] == NextRequest(snapshot, inner(k + i, t.sent[i]).1)
    {
      if i > 0 {
        assert t.sent[i] == tail.sent[i - 1] && t.sent[i + 1] == tail.sent[i];
        assert t.delays[i] == tail.delays[i - 1];
        assert k + i == (k + 1) + (i - 1);
      }
    }
    assert t.sent[|t.sent| - 1] == tail.sent[|tail.sent| - 1];
  }

  /** An error is returned only after every allowed attempt failed. */
  lemma {:induction false} RunGivesUp(c: Config, inner: Attempts, request: Request, k: nat, snapshot: Option<Request>)
    requires k <= c.maxRetries
    ensures var t := Run(c, inner, request, k, snapshot);
      t.outcome.Err? ==> |t.sent| == c.maxRetries + 1 - k
    decreases c.maxRetries - k
  {
    var (outcome, left) := inner(k, request);
    if !(outcome.Ok? || k + 1 > c.maxRetries) {
      RunGivesUp(c, inner, NextRequest(snapshot, left), k + 1, snapshot);
    }
  }

  /**
   * `Retry::respond`: an answer of any status is the last attempt's and every
   * earlier attempt failed; an error comes after `max_retries + 1` failed
   * attempts and is the last one's; between attempts `i` and `i + 1` the loop
   * waits `Backoff(c, i + 1)`; each attempt is given the request the previous
   * attempt left behind.
   */
  lemma RespondOutcome(c: Config, inner: Attempts, request: Request)
    ensures var t := Respond(c, inner, request);
      Unfolds(c, inner, 0, None, t)
      && (t.outcome.Err? ==> |t.sent| == c.maxRetries + 1)
  {
    RunUnfolds(c, inner, request, 0, None);
    RunGivesUp(c, inner, request, 0, None);
  }

  /** An answer at the first attempt is returned at once. */
  lemma AnswerReturnedAtOnce(c: Config, inner: Attempts, request: Request)
    requires inner(0, request).0.Ok?
    ensures Respond(c, inner, request) == Trace(inner(0, request).0, [request], [], inner(0, request).1)
  {
  }

  /** Without retries the inner client is called exactly once. */
  lemma NoRetriesOneAttempt(c: Config, inner: Attempts, request: Request)
    requires c.maxRetries == 0
    ensures var t := Respond(c, inner, request);
      t.sent == [request] && t.delays == [] && (t.outcome, t.after) == inner(0, request)
  {
  }

  /** A client that fails its first `n` attempts and then answers is answered after `n + 1` calls, if allowed. */
  lemma {:induction false} SucceedsAfterFailures(c: Config, inner: Attempts, request: Request, k: nat, n: nat)
    requires k <= n <= c.maxRetries
    requires forall j: nat, r :: inner(j, r).0.Ok? <==> j >= n
    ensures var t := Run(c, inner, request, k, None);
      t.outcome.Ok? && |t.sent| == n + 1 - k
    decreases n - k
  {
    if k < n {
      assert inner(k, request).0.Err?;
      SucceedsAfterFailures(c, inner, inner(k, request).1, k + 1, n);
    } else {
      assert inner(k, request).0.Ok?;
    }
  }

  /** A client that always fails is called `max_retries + 1` times and its error is returned. */
  lemma {:induction false} AlwaysFailing(c: Config, inner: Attempts, request: Request, k: nat)
    requires k <= c.maxRetries
    requires forall j: nat, r :: inner(j, r).0.Err?
    ensures var t := Run(c, inner, request, k, None);
      t.outcome.Err? && |t.sent| == c.maxRetries + 1 - k
    decreases c.maxRetries - k
  {
    assert inner(k, request).0.Err?;
    if k + 1 <= c.maxRetries {
      AlwaysFailing(c, inner, inner(k, request).1, k + 1);
    }
  }

  /** A client that takes the request body, fails once, then answers. */
  function TakesBody(k: nat, r: Request): (Result<Response, HttpError>, Request) {
    (if k == 0 then Err(HttpError(None, "connection reset")) else Ok(Response(OK, [], [])), r.(body := []))
  }

  /**
   * As written, the retry of a request with a body is sent without it: the
   * first attempt took the body and the loop hands the same request on.
   */
  lemma RetryLosesBody(body: seq<byte>)
    requires body != []
    ensures var request := Request(POST, "https://example.com/", [], body);
      var t := Respond(New(1), TakesBody, request);
      |t.sent| == 2 && t.sent[1].body == [] && t.sent[1].body != request.body
  {
    var request := Request(POST, "https://example.com/", [], body);
    var c := New(1);
    var rest := Run(c, TakesBody, request.(body := []), 1, None);
    assert rest.sent == [request.(body := [])];
    assert Run(c, TakesBody, request, 0, None).sent == [request] + rest.sent;
  }

  /** Replaying a snapshot, the retry is sent the caller's body. */
  lemma ReplayKeepsBody(body: seq<byte>)
    requires body != []
    ensures var request := Request(POST, "https://example.com/", [], body);
      var t := Replaying(New(1), TakesBody, request);
      |t.sent| == 2 && t.sent[1].body == body && t.outcome.Ok?
  {
    var request := Request(POST, "https://example.com/", [], body);
    var c := New(1);
    var rest := Run(c, TakesBody, request, 1, Some(request));
    assert rest.sent == [request] && rest.outcome.Ok?;
    assert Run(c, TakesBody, request, 0, Some(request)).sent == [request] + rest.sent;
  }
}
