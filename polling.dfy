/**
 * Bounded polling for an element that the host page may render late. The
 * page's answer to the n-th query is the input `poll(n)`; the 500 ms pause
 * between queries is not modelled, only how many queries are made.
 */
module Polling {
  import opened Wrappers

  /** The retry budget used by every caller. */
  const DefaultMaxRetries: nat := 3

  /** The rejection message, naming the selector. */
  function NotFoundMessage(selector: string): (r: string)
    ensures |r| == |selector| + 7 && r[3..3 + |selector|] == selector
  {
    var r := "元素 " + selector + " 未找到";
    assert r[3..3 + |selector|] == selector;
    r
  }

  /** The first of the queries 0 .. n-1 that finds the element, or n when none does. */
  function FirstHit<T>(poll: nat -> Option<T>, n: nat): (k: nat)
    ensures k <= n
    ensures forall i :: 0 <= i < k ==> poll(i).None?
    ensures k < n ==> poll(k).Some?
  {
    if n == 0 then 0
    else
      var k := FirstHit(poll, n - 1);
      if k < n - 1 then k
      else if poll(n - 1).Some? then n - 1
      else n
  }

  /** What the wait settles with: the element of the first successful query among the first `maxRetries + 1`. */
  function PollResult<T>(poll: nat -> Option<T>, maxRetries: nat): (r: Option<T>)
    ensures r.None? <==> forall i :: 0 <= i <= maxRetries ==> poll(i).None?
    ensures r.Some? ==> exists k :: 0 <= k <= maxRetries && poll(k) == r && forall i :: 0 <= i < k ==> poll(i).None?
  {
    var k := FirstHit(poll, maxRetries + 1);
    if k <= maxRetries then poll(k) else None
  }

  /**
   * Queries once, then once more after each failure while the retry count is
   * below `maxRetries`. It resolves with the first element found and rejects,
   * naming the selector, only when all `maxRetries + 1` queries failed.
   */
  method WaitForElement<T>(selector: string, poll: nat -> Option<T>, maxRetries: nat)
    returns (r: Result<T, string>, queries: nat)
    ensures 1 <= queries <= maxRetries + 1
    ensures forall i :: 0 <= i < queries - 1 ==> poll(i).None?
    ensures r.Ok? ==> poll(queries - 1) == Some(r.value)
    ensures r.Err? ==> queries == maxRetries + 1 && poll(maxRetries).None? && r.error == NotFoundMessage(selector)
    ensures r.Ok? <==> PollResult(poll, maxRetries).Some?
    ensures r.Ok? ==> PollResult(poll, maxRetries) == Some(r.value)
  {
    var retries: nat := 0;
    var el := poll(0);
    queries := 1;
    while el.None? && retries < maxRetries
      invariant queries == retries + 1 <= maxRetries + 1
      invariant el == poll(queries - 1)
      invariant forall i :: 0 <= i < queries - 1 ==> poll(i).None?
      decreases maxRetries - retries
    {
      retries := retries + 1;
      el := poll(queries);
      queries := queries + 1;
    }
    if el.Some? {
      r := Ok(el.value);
    } else {
      r := Err(NotFoundMessage(selector));
    }
  }

  /** The outcome depends on the first `maxRetries + 1` answers only: later answers are never asked for. */
  lemma {:induction false} PollResultIgnoresLaterQueries<T>(p: nat -> Option<T>, q: nat -> Option<T>, maxRetries: nat)
    requires forall i :: 0 <= i <= maxRetries ==> p(i) == q(i)
    ensures PollResult(p, maxRetries) == PollResult(q, maxRetries)
  {
    FirstHitAgrees(p, q, maxRetries + 1);
  }

  lemma {:induction false} FirstHitAgrees<T>(p: nat -> Option<T>, q: nat -> Option<T>, n: nat)
    requires forall i :: 0 <= i < n ==> p(i) == q(i)
    ensures FirstHit(p, n) == FirstHit(q, n)
  {
    if n > 0 {
      FirstHitAgrees(p, q, n - 1);
    }
  }
}
