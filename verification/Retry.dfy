/** Handling one message: bounded retries with capped doubling and jitter. Durations are in nanoseconds. */
module Retry {
  import opened Numbers

  const MAX_RETRIES: nat := 3
  const BASE_RETRY_DELAY := 500000000
  const MAX_RETRY_DELAY := 30000000000

  /** `base` * 2^`k`. */
  function Doubled(base: int, k: nat): int {
    if k == 0 then base else 2 * Doubled(base, k - 1)
  }

  /**
   * What the world does while a message is processed. `handles(k)` is the handler's answer on
   * attempt k, `cancelled(k)` whether the context ends the wait before it, `draw(k)` a random number.
   */
  datatype Delivery = Delivery(decodes: bool, handles: nat -> bool, cancelled: nat -> bool, draw: nat -> nat)

  datatype Outcome = Handled | Undecodable | Cancelled | Exhausted

  /** Attempt `k` succeeds, is the first to, and no wait up to it was cancelled. */
  predicate SucceedsAt(d: Delivery, k: nat) {
    && d.decodes && d.handles(k)
    && (forall j: nat :: j < k ==> !d.handles(j))
    && (forall j: nat :: 1 <= j <= k ==> !d.cancelled(j))
  }

  /** The context ends the wait before attempt `k`, and neither a wait nor an attempt ended the loop before. */
  predicate CancelledAt(d: Delivery, k: nat) {
    && d.decodes && k >= 1 && d.cancelled(k)
    && (forall j: nat :: j < k ==> !d.handles(j))
    && (forall j: nat :: 1 <= j < k ==> !d.cancelled(j))
  }

  predicate Succeeds(d: Delivery, maxRetries: nat) {
    exists k: nat :: k <= maxRetries && SucceedsAt(d, k)
  }

  /** `rand.Int63n`, which panics on a bound that is not positive. */
  function Int63n(bound: int, draw: nat): (n: int)
    requires bound > 0
    ensures 0 <= n < bound
  {
    draw % bound
  }

  /** The delay before jitter of the `k`-th wait, counting from 0. */
  function Delay(base: int, cap: int, k: nat): int { Min(Doubled(base, k), cap) }

  /**
   * The handler runs at most `maxRetries` + 1 times, and the message counts as handled iff some
   * attempt succeeds in time. A cancelled wait ends the attempts at once. The k-th wait is at least its delay and less than one and a half of it.
   */
  method ProcessMessage(d: Delivery, maxRetries: nat, base: int, cap: int)
    returns (outcome: Outcome, attempts: nat, waits: seq<int>)
    requires 2 <= base <= cap
    ensures outcome.Handled? <==> Succeeds(d, maxRetries)
    ensures outcome.Undecodable? <==> !d.decodes
    ensures outcome.Handled? ==> attempts > 0 && SucceedsAt(d, attempts - 1)
    ensures outcome.Cancelled? <==> exists k: nat :: k <= maxRetries && CancelledAt(d, k)
    ensures outcome.Cancelled? ==> CancelledAt(d, attempts)
    ensures outcome.Exhausted? ==> attempts == maxRetries + 1
    ensures attempts <= maxRetries + 1
    ensures |waits| == if outcome.Undecodable? then 0 else if outcome.Cancelled? then attempts else attempts - 1
    ensures forall k :: 0 <= k < |waits| ==> Delay(base, cap, k) <= waits[k] && 2 * waits[k] < 3 * Delay(base, cap, k)
  {
    attempts, waits := 0, [];
    if !d.decodes {
      return Undecodable, attempts, waits;
    }
    var delay := base;
    var attempt := 0;
    while attempt <= maxRetries
      invariant attempts == attempt <= maxRetries + 1
      invariant |waits| == if attempt == 0 then 0 else attempt - 1
      invariant delay == Delay(base, cap, |waits|) && 2 <= delay
      invariant forall j: nat :: j < attempt ==> !d.handles(j)
      invariant forall j: nat :: 1 <= j < attempt ==> !d.cancelled(j)
      invariant forall k :: 0 <= k < |waits| ==> Delay(base, cap, k) <= waits[k] && 2 * waits[k] < 3 * Delay(base, cap, k)
    {
      if attempt > 0 {
        var jitter := Int63n(delay / 2, d.draw(attempt));
        waits := waits + [delay + jitter];
        if d.cancelled(attempt) {
          assert CancelledAt(d, attempt);
          return Cancelled, attempts, waits;
        }
        DelayDoubles(base, cap, |waits| - 1);
        delay := Min(delay * 2, cap);
      }
      attempts := attempts + 1;
      if d.handles(attempt) {
        assert SucceedsAt(d, attempt);
        return Handled, attempts, waits;
      }
      attempt := attempt + 1;
    }
    outcome := Exhausted;
  }

  /** Doubling the capped delay and capping again is capping the doubled delay. */
  lemma {:induction false} DelayDoubles(base: int, cap: int, k: nat)
    requires 2 <= base <= cap
    ensures Delay(base, cap, k + 1) == Min(2 * Delay(base, cap, k), cap)
    ensures Delay(base, cap, k) >= 2 && Delay(base, cap, k + 1) >= 2
  {
    if k == 0 {
    } else {
      DelayDoubles(base, cap, k - 1);
    }
  }

  function Sum(waits: seq<int>): int {
    if waits == [] then 0 else Sum(waits[..|waits| - 1]) + waits[|waits| - 1]
  }

  /** With the shipped constants the waits of one message are at least 0.5, 1 and 2 s and add up to less than 5.25 s. */
  lemma TotalWait(waits: seq<int>)
    requires |waits| <= MAX_RETRIES
    requires forall k :: 0 <= k < |waits| ==> 2 * waits[k] < 3 * Delay(BASE_RETRY_DELAY, MAX_RETRY_DELAY, k)
    ensures Sum(waits) < 5250000000
    ensures forall k :: 0 <= k < |waits| ==> Delay(BASE_RETRY_DELAY, MAX_RETRY_DELAY, k) == [500000000, 1000000000, 2000000000][k]
  {
    var b := BASE_RETRY_DELAY;
    assert Doubled(b, 0) == b && Doubled(b, 1) == 2 * b && Doubled(b, 2) == 4 * b;
    if |waits| == 3 {
      assert waits[..2][..1] == waits[..1] && waits[..1][..0] == [];
    } else if |waits| == 2 {
      assert waits[..1][..0] == [];
    } else if |waits| == 1 {
      assert waits[..0] == [];
    }
  }
}
