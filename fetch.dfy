/**
 * safe_get: one HTTP GET made with a bounded number of attempts and a linear
 * backoff between them. The network is given as the outcome of each attempt
 * (`net(k)` is what the k-th request, counted from 0, gives); the sleeps are
 * recorded instead of taken.
 */
module Fetch {
  import opened Basics

  /** safe_get's default arguments, which every caller in the scraper uses. */
  const DEFAULT_RETRIES: int := 3
  const DEFAULT_BACKOFF: nat := 2

  /**
   * What one request gives: a response whose status is not an error, or a
   * RequestException (a transport error, or an error status that
   * raise_for_status turns into one; 4xx and 5xx alike).
   */
  datatype Attempt<+R> = Responded(response: R) | RequestFailed

  /** What one safe_get call did: its return value, the requests it made, and the sleep taken after each failure. */
  datatype Trace<+R> = Trace(result: Option<R>, attempts: nat, sleeps: seq<nat>)

  /** The sleeps after n failures in a row: backoff * 1, backoff * 2, ..., backoff * n. */
  function Schedule(backoff: nat, n: nat): (s: seq<nat>)
    ensures |s| == n
    ensures forall k :: 0 <= k < n ==> s[k] == backoff * (k + 1)
  {
    if n == 0 then [] else Schedule(backoff, n - 1) + [backoff * n]
  }

  /** How many requests safe_get may make: range(retries) is empty when retries <= 0. */
  function MaxAttempts(retries: int): nat {
    if retries <= 0 then 0 else retries
  }

  /** What safe_get does from attempt k on. */
  function RetryFrom<R>(net: nat -> Attempt<R>, k: nat, retries: int, backoff: nat): Trace<R>
    decreases retries - k
  {
    if retries <= k then Trace(None, 0, [])
    else match net(k)
      case Responded(response) => Trace(Some(response), 1, [])
      case RequestFailed =>
        var later := RetryFrom(net, k + 1, retries, backoff);
        Trace(later.result, later.attempts + 1, [backoff * (k + 1)] + later.sleeps)
  }

  /** What a whole safe_get call does. */
  function Retry<R>(net: nat -> Attempt<R>, retries: int, backoff: nat): Trace<R> {
    RetryFrom(net, 0, retries, backoff)
  }

  lemma {:induction false} RetryFromCases<R>(net: nat -> Attempt<R>, k: nat, retries: int, backoff: nat)
    ensures var t := RetryFrom(net, k, retries, backoff);
      && (t.result.None? <==> forall j :: k <= j < retries ==> net(j).RequestFailed?)
      && (t.result.None? ==> t.attempts == MaxAttempts(retries - k) && |t.sleeps| == t.attempts)
      && (t.result.Some? ==>
            1 <= t.attempts && k + t.attempts <= retries && |t.sleeps| == t.attempts - 1
            && net(k + t.attempts - 1) == Responded(t.result.value))
      && (forall j :: k <= j < k + |t.sleeps| ==> net(j).RequestFailed?)
      && (forall i :: 0 <= i < |t.sleeps| ==> t.sleeps[i] == backoff * (k + i + 1))
    decreases retries - k
  {
    if k < retries && net(k).RequestFailed? {
      RetryFromCases(net, k + 1, retries, backoff);
    }
  }

  /**
   * safe_get returns the first response among its first `retries` attempts and
   * makes no request and no sleep after it; it sleeps backoff * (k + 1) after the
   * k-th failure, the last one included; it returns None exactly when every
   * allowed attempt failed, and then it has made exactly `retries` requests
   * (none when retries <= 0).
   */
  lemma RetryReturnsFirstResponse<R>(net: nat -> Attempt<R>, retries: int, backoff: nat)
    ensures var t := Retry(net, retries, backoff);
      && t.attempts <= MaxAttempts(retries)
      && (t.result.None? <==> forall j :: 0 <= j < retries ==> net(j).RequestFailed?)
      && (t.result.None? ==> t.attempts == MaxAttempts(retries) && t.sleeps == Schedule(backoff, t.attempts))
      && (t.result.Some? ==>
            t.attempts >= 1 && net(t.attempts - 1) == Responded(t.result.value)
            && (forall j :: 0 <= j < t.attempts - 1 ==> net(j).RequestFailed?)
            && t.sleeps == Schedule(backoff, t.attempts - 1))
  {
    RetryFromCases(net, 0, retries, backoff);
    var t := Retry(net, retries, backoff);
    assert t.sleeps == Schedule(backoff, |t.sleeps|);
  }

  /** With the defaults and a server that always fails: three requests, then sleeps of 2, 4 and 6, then None. */
  lemma DefaultsWhenAllFail<R>(net: nat -> Attempt<R>)
    requires forall j :: 0 <= j < DEFAULT_RETRIES ==> net(j).RequestFailed?
    ensures Retry(net, DEFAULT_RETRIES, DEFAULT_BACKOFF) == Trace(None, 3, [2, 4, 6])
  {
    RetryReturnsFirstResponse(net, DEFAULT_RETRIES, DEFAULT_BACKOFF);
    assert Schedule(2, 3) == [2, 4, 6];
  }

  /** With a positive backoff every wait is longer than the one before. */
  lemma ScheduleIncreasing(backoff: nat, n: nat, i: nat, j: nat)
    requires backoff > 0 && i < j < n
    ensures Schedule(backoff, n)[i] < Schedule(backoff, n)[j]
  {
    assert backoff * (j + 1) == backoff * (i + 1) + backoff * (j - i);
  }

  function Sum(s: seq<nat>): nat {
    if s == [] then 0 else Sum(s[..|s| - 1]) + s[|s| - 1]
  }

  /** The arithmetic step of ScheduleTotal: b*n*(n+1) exceeds b*(n-1)*n by 2*b*n. */
  lemma TriangleStep(b: nat, n: nat)
    requires n > 0
    ensures b * n * (n + 1) == b * (n - 1) * n + 2 * (b * n)
  {
    var x := b * n;
    assert b * n * (n + 1) == x * n + x;
    assert b * (n - 1) == x - b;
    assert (x - b) * n == x * n - x;
  }

  /** After n failures safe_get has slept backoff * n * (n + 1) / 2 in all. */
  lemma {:induction false} ScheduleTotal(backoff: nat, n: nat)
    ensures 2 * Sum(Schedule(backoff, n)) == backoff * n * (n + 1)
  {
    if n > 0 {
      ScheduleTotal(backoff, n - 1);
      var s := Schedule(backoff, n);
      assert s[..n - 1] == Schedule(backoff, n - 1);
      assert Sum(s) == Sum(Schedule(backoff, n - 1)) + backoff * n;
      TriangleStep(backoff, n);
    }
  }

  /**
   * safe_get(url, retries, backoff) where `net` is what the server does for url.
   * Returns the response (None when every attempt failed), the number of
   * requests made and the sleeps taken, in order.
   */
  method SafeGet<R>(net: nat -> Attempt<R>, retries: int, backoff: nat) returns (result: Option<R>, attempts: nat, sleeps: seq<nat>)
    ensures Trace(result, attempts, sleeps) == Retry(net, retries, backoff)
  {
    attempts, sleeps := 0, [];
    var attempt: nat := 0;
    while attempt < retries
      invariant attempts == attempt
      invariant var later := RetryFrom(net, attempt, retries, backoff);
        Retry(net, retries, backoff) == Trace(later.result, attempt + later.attempts, sleeps + later.sleeps)
      decreases retries - attempt
    {
      attempts := attempts + 1;
      var outcome := net(attempt);
      if outcome.Responded? {
        assert RetryFrom(net, attempt, retries, backoff) == Trace(Some(outcome.response), 1, []);
        result := Some(outcome.response);
        return;
      }
      ghost var later := RetryFrom(net, attempt + 1, retries, backoff);
      assert RetryFrom(net, attempt, retries, backoff) == Trace(later.result, later.attempts + 1, [backoff * (attempt + 1)] + later.sleeps);
      assert sleeps + ([backoff * (attempt + 1)] + later.sleeps) == (sleeps + [backoff * (attempt + 1)]) + later.sleeps;
      sleeps := sleeps + [backoff * (attempt + 1)];
      attempt := attempt + 1;
    }
    result := None;
  }
}
