/** Responses of the store's API and the rate-limit retry wrapper
    (`shopify_request`). The transport is an oracle: the responses the server
    would send, in the order it would send them. */
module Http {
  import opened Wrappers
  import opened Shop

  /** Status the server answers with when the client is rate limited. */
  const TooManyRequests: int := 429

  /** Seconds to wait when a rate-limited response carries no `Retry-After`. */
  const DefaultRetryAfter: nat := 5

  /** A response: status code, the `Retry-After` header (as a number of
      seconds, which `time.sleep` only accepts when it is not negative), the
      `Link` header (the empty string when absent) and the `articles` and
      `blogs` lists of its JSON body (empty when absent). */
  datatype Response = Response(status: int, retryAfter: Option<nat>, link: string, articles: seq<Article>, blogs: seq<Blog>)

  /** The seconds `shopify_request` sleeps after a rate-limited response. */
  function Backoff(r: Response): nat
  {
    r.retryAfter.GetOr(DefaultRetryAfter)
  }

  /** Outcome of one `shopify_request` call over the oracle: the response it
      returns with the sleeps it did before, or the oracle ran out while the
      loop was still retrying. */
  datatype Retried = Returned(response: Response, backoffs: seq<nat>) | Exhausted(backoffs: seq<nat>)

  /** The retry loop of `shopify_request`: the response returned is the first
      one in the stream that is not 429; one sleep of that response's backoff
      precedes it for every 429 skipped. */
  function Retry(stream: seq<Response>): (o: Retried)
    ensures o.Returned? ==> |o.backoffs| < |stream| && o.response == stream[|o.backoffs|] && o.response.status != TooManyRequests
    ensures o.Exhausted? ==> |o.backoffs| == |stream|
    ensures forall i :: 0 <= i < |o.backoffs| ==> stream[i].status == TooManyRequests && o.backoffs[i] == Backoff(stream[i])
  {
    if |stream| == 0 then Exhausted([])
    else if stream[0].status != TooManyRequests then Returned(stream[0], [])
    else
      match Retry(stream[1..])
      case Returned(r, b) => Returned(r, [Backoff(stream[0])] + b)
      case Exhausted(b) => Exhausted([Backoff(stream[0])] + b)
  }

  /** The responses successive `shopify_request` calls hand to their callers
      when they all draw from one oracle stream. */
  function Delivered(stream: seq<Response>): seq<Response>
    decreases |stream|
  {
    match Retry(stream)
    case Returned(r, b) => [r] + Delivered(stream[|b| + 1..])
    case Exhausted(_) => []
  }

  /** The stream with every rate-limited response removed. */
  function WithoutRateLimited(stream: seq<Response>): seq<Response>
  {
    if |stream| == 0 then []
    else if stream[0].status == TooManyRequests then WithoutRateLimited(stream[1..])
    else [stream[0]] + WithoutRateLimited(stream[1..])
  }

  /** Callers of `shopify_request` see exactly the oracle's non-429 responses,
      in order: none is lost, none is duplicated, no 429 ever reaches them. */
  lemma {:induction false} DeliveredIsWithoutRateLimited(stream: seq<Response>)
    ensures Delivered(stream) == WithoutRateLimited(stream)
    decreases |stream|
  {
    if |stream| == 0 {
    } else if stream[0].status != TooManyRequests {
      DeliveredIsWithoutRateLimited(stream[1..]);
    } else {
      var tail := stream[1..];
      DeliveredIsWithoutRateLimited(tail);
      match Retry(tail)
      case Returned(r, b) =>
        assert stream[|b| + 2..] == tail[|b| + 1..];
      case Exhausted(_) =>
    }
  }

  /** No response handed to a caller is rate limited. */
  lemma {:induction false} NoRateLimitedDelivered(stream: seq<Response>)
    ensures forall r :: r in Delivered(stream) ==> r.status != TooManyRequests
    decreases |stream|
  {
    DeliveredIsWithoutRateLimited(stream);
    WithoutRateLimitedFilters(stream);
  }

  /** `WithoutRateLimited` keeps the non-429 responses only. */
  lemma {:induction false} WithoutRateLimitedFilters(stream: seq<Response>)
    ensures forall r :: r in WithoutRateLimited(stream) <==> r in stream && r.status != TooManyRequests
    decreases |stream|
  {
    if |stream| > 0 {
      WithoutRateLimitedFilters(stream[1..]);
      assert stream == [stream[0]] + stream[1..];
    }
  }

  /** A 429 with `Retry-After: 2` followed by a 200: the call sleeps 2 seconds
      and returns the 200; without the header it sleeps 5. */
  lemma RetryScenario(ok: Response)
    requires ok.status == 200
    ensures Retry([Response(429, Some(2), "", [], []), ok]) == Returned(ok, [2])
    ensures Retry([Response(429, None, "", [], []), ok]) == Returned(ok, [5])
  {
  }
}
