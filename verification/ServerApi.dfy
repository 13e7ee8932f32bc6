/** The server-side fetch helper: reads are retried a bounded number of times, everything else is sent once. */
module ServerApi {
  import opened Wrappers

  const READ_RETRY_DELAYS_MS: seq<int> := [250, 500, 750, 1000, 1250, 1500]

  /**
   * What one `fetch` comes to. `Unreachable` is anything thrown by it; `retryAfter` is the header of a reply.
   */
  datatype Reply = Unreachable | Response(status: int, retryAfter: Option<Header>)

  /**
   * A Retry-After header as the parsers see it: what `parseInt` reads (`None` for NaN), and what
   * `Date.parse` reads as milliseconds from now (`None` for NaN). An empty header counts as absent.
   */
  datatype Header = Header(empty: bool, seconds: Option<int>, dateFromNowMs: Option<int>)

  datatype Final = Success(status: int) | ApiError(status: int) | NetworkError | GaveUp

  /** `upper` is the HTTP method upper-cased; an absent method is a GET. */
  predicate IsRetryableReadMethod(upper: Option<string>) {
    var normalized := match upper case None => "GET" case Some(m) => m;
    normalized == "GET" || normalized == "HEAD"
  }

  /** The header starts with a number of seconds. */
  predicate Counts(h: Header) { h.seconds.Some? && h.seconds.value >= 0 }

  function ParseRetryAfterMs(value: Option<Header>): (ms: Option<int>)
    ensures ms.Some? ==> ms.value >= 0
    ensures ms.None? <==> value.None? || value.value.empty || (!Counts(value.value) && value.value.dateFromNowMs.None?)
  {
    if value.None? || value.value.empty then None
    else if value.value.seconds.Some? && value.value.seconds.value >= 0 then Some(value.value.seconds.value * 1000)
    else
      match value.value.dateFromNowMs
      case None => None
      case Some(d) => Some(if d >= 0 then d else 0)
  }

  predicate IsOk(r: Reply) { r.Response? && 200 <= r.status <= 299 }

  /** A failure that a read may try again after. */
  predicate Passing(r: Reply) { r.Unreachable? || r.status == 429 || r.status >= 500 }

  /** Attempt `n` (from 0) ends the call. */
  predicate Ends(canRetry: bool, replies: nat -> Reply, n: nat) {
    !canRetry || n == |READ_RETRY_DELAYS_MS| || IsOk(replies(n)) || !Passing(replies(n))
  }

  /** The first attempt from `n` on that must end the call: the seventh at the latest. */
  function FirstEnd(canRetry: bool, replies: nat -> Reply, n: nat): (k: nat)
    requires n <= |READ_RETRY_DELAYS_MS|
    ensures n <= k <= |READ_RETRY_DELAYS_MS| && Ends(canRetry, replies, k)
    ensures forall j: nat :: n <= j < k ==> !Ends(canRetry, replies, j)
    decreases |READ_RETRY_DELAYS_MS| - n
  {
    if Ends(canRetry, replies, n) then n else FirstEnd(canRetry, replies, n + 1)
  }

  /** The wait, in milliseconds, that reply `n` and the delay table ask for. */
  ghost predicate WaitsAsAsked(reply: Reply, n: nat, wait: int) {
    if reply.Unreachable? || reply.retryAfter.None? || reply.retryAfter.value.empty then wait == 250 * (n + 1)
    else
      match reply.retryAfter.value
      case Header(_, seconds, date) =>
        if seconds.Some? && seconds.value >= 0 then wait == seconds.value * 1000
        else if date.Some? then wait >= 0 && wait >= date.value && (wait == 0 || wait == date.value)
        else wait == 250 * (n + 1)
  }

  /** A read got nothing, was told to come back later, or met a server error. */
  ghost predicate WorthRepeating(verb: Option<string>, reply: Reply) {
    && (verb.None? || verb.value in ["GET", "HEAD"])
    && (reply.Unreachable? || reply.status == 429 || reply.status >= 500)
  }

  /**
   * The call ends with the first attempt that must end it, and with that attempt's reply; it never
   * falls out of the loop. Between attempts it waits what the last reply or the table says.
   */
  method Call(verb: Option<string>, replies: nat -> Reply) returns (final: Final, fetches: nat, waits: seq<int>)
    ensures 1 <= fetches <= 7 && fetches - 1 == FirstEnd(IsRetryableReadMethod(verb), replies, 0)
    ensures forall n: nat :: n < fetches - 1 ==> WorthRepeating(verb, replies(n))
    ensures fetches < 7 ==> !WorthRepeating(verb, replies(fetches - 1))
    ensures match replies(fetches - 1)
            case Unreachable => final == NetworkError
            case Response(status, _) => final == if 200 <= status <= 299 then Success(status) else ApiError(status)
    ensures |waits| == fetches - 1
    ensures forall n :: 0 <= n < |waits| ==> WaitsAsAsked(replies(n), n, waits[n]) && waits[n] >= 0
  {
    var canRetry := IsRetryableReadMethod(verb);
    fetches, waits := 0, [];
    var attempt := 0;
    while attempt <= |READ_RETRY_DELAYS_MS|
      invariant fetches == attempt == |waits| <= |READ_RETRY_DELAYS_MS|
      invariant forall n: nat :: n < attempt ==> !Ends(canRetry, replies, n)
      invariant forall n :: 0 <= n < |waits| ==> WaitsAsAsked(replies(n), n, waits[n]) && waits[n] >= 0
      decreases |READ_RETRY_DELAYS_MS| - attempt
    {
      var res := replies(attempt);
      fetches := fetches + 1;
      if res.Unreachable? {
        if !canRetry || attempt == |READ_RETRY_DELAYS_MS| {
          return NetworkError, fetches, waits;
        }
        waits := waits + [READ_RETRY_DELAYS_MS[attempt]];
      } else if !IsOk(res) {
        var shouldRetry := canRetry && attempt < |READ_RETRY_DELAYS_MS| && (res.status == 429 || res.status >= 500);
        if !shouldRetry {
          return ApiError(res.status), fetches, waits;
        }
        var retryAfterMs := ParseRetryAfterMs(res.retryAfter);
        waits := waits + [if retryAfterMs.Some? then retryAfterMs.value else READ_RETRY_DELAYS_MS[attempt]];
      } else {
        return Success(res.status), fetches, waits;
      }
      attempt := attempt + 1;
    }
    assert false;
  }
}
