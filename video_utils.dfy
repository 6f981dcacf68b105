/** `src/lib/video-utils.ts`: fetching with retries and exponential backoff, and
    downloading a generated video as base 64.

    The network is a script: `attempts[k]` is what the k-th request produced,
    either a thrown error or a response. Sleeping is recorded, not performed. */
module VideoUtils {
  import opened Outcomes
  import Text
  import Base64

  const DefaultRetries: nat := 3
  const DefaultDelay: nat := 1000

  /** A fetch response: its status line, its body read as text, and its body as bytes. */
  datatype Response = Response(status: int, statusText: string, text: string, body: seq<Base64.byte>)
  {
    /** `response.ok` of the Fetch standard: a status in the range 200-299. */
    predicate Ok() {
      200 <= status <= 299
    }
  }

  /** What one request produced. */
  datatype Attempt = Threw(error: string) | Answered(response: Response)

  /** An attempt after which `fetchWithRetry` tries again when retries remain. */
  predicate Retryable(a: Attempt) {
    a.Threw? || !a.response.Ok()
  }

  /** The outcome of `fetchWithRetry` with the trace of its effects:
      the URL of every request made, and every delay slept, in order. */
  datatype Fetched = Fetched(result: Result<Response>, requests: seq<string>, sleeps: seq<nat>)

  function Pow2(k: nat): nat {
    if k == 0 then 1 else 2 * Pow2(k - 1)
  }

  /** The first `n` delays of a backoff that starts at `delay` and doubles. */
  function Backoff(delay: nat, n: nat): seq<nat>
    decreases n
  {
    if n == 0 then [] else [delay] + Backoff(delay * 2, n - 1)
  }

  /** The k-th sleep of a backoff lasts `delay * 2^k`. */
  lemma {:induction false} BackoffDoubles(delay: nat, n: nat, k: nat)
    requires k < n
    ensures |Backoff(delay, n)| == n && Backoff(delay, n)[k] == delay * Pow2(k)
    decreases n
  {
    if k == 0 {
      assert |Backoff(delay, n)| == n by { BackoffLength(delay, n); }
    } else {
      BackoffDoubles(delay * 2, n - 1, k - 1);
      assert delay * 2 * Pow2(k - 1) == delay * Pow2(k);
    }
  }

  lemma {:induction false} BackoffLength(delay: nat, n: nat)
    ensures |Backoff(delay, n)| == n
    decreases n
  {
    if n > 0 {
      BackoffLength(delay * 2, n - 1);
    }
  }

  /** `fetchWithRetry(url, options, retries, delay)`. A thrown error or a non-ok
      response is retried after sleeping `delay`, with one retry fewer and the delay
      doubled; once no retries remain a thrown error is re-thrown and a non-ok
      response is returned as it is. */
  function FetchWithRetry(url: string, attempts: seq<Attempt>, retries: nat, delay: nat): (f: Fetched)
    requires |attempts| > retries
    ensures 1 <= |f.requests| <= retries + 1
    ensures forall i :: 0 <= i < |f.requests| ==> f.requests[i] == url
    ensures f.sleeps == Backoff(delay, |f.requests| - 1)
    ensures forall k :: 0 <= k < |f.requests| - 1 ==> Retryable(attempts[k])
    ensures |f.requests| == retries + 1 || !Retryable(attempts[|f.requests| - 1])
    ensures match attempts[|f.requests| - 1]
            case Threw(e) => f.result == Failure(e)
            case Answered(response) => f.result == Success(response)
    decreases retries
  {
    if Retryable(attempts[0]) && retries > 0 then
      var next := FetchWithRetry(url, attempts[1..], retries - 1, delay * 2);
      Fetched(next.result, [url] + next.requests, [delay] + next.sleeps)
    else
      match attempts[0]
      case Threw(error) => Fetched(Failure(error), [url], [])
      case Answered(response) => Fetched(Success(response), [url], [])
  }

  /** With the default arguments the sleeps are 1000, 2000 and 4000 ms, as far as
      they go, and at most four requests are made. */
  lemma DefaultBackoff(url: string, attempts: seq<Attempt>)
    requires |attempts| > DefaultRetries
    ensures var f := FetchWithRetry(url, attempts, DefaultRetries, DefaultDelay);
            |f.requests| <= 4 && f.sleeps <= [1000, 2000, 4000]
  {
    var f := FetchWithRetry(url, attempts, DefaultRetries, DefaultDelay);
    var n := |f.requests| - 1;
    assert Backoff(1000, 3) == [1000, 2000, 4000];
    forall k | 0 <= k < n ensures f.sleeps[k] == [1000, 2000, 4000][k] {
      BackoffDoubles(1000, n, k);
      BackoffDoubles(1000, 3, k);
    }
  }

  /** A request that fails twice and then succeeds: the successful response is
      returned after sleeping 1000 ms and then 2000 ms. */
  lemma FailTwiceThenSucceed(url: string, first: Attempt, second: Attempt, ok: Response, unused: Attempt)
    requires Retryable(first) && Retryable(second) && ok.Ok()
    ensures var f := FetchWithRetry(url, [first, second, Answered(ok), unused], DefaultRetries, DefaultDelay);
            f.result == Success(ok) && f.requests == [url, url, url] && f.sleeps == [1000, 2000]
  {
    var attempts := [first, second, Answered(ok), unused];
    var f := FetchWithRetry(url, attempts, DefaultRetries, DefaultDelay);
    assert Retryable(attempts[0]) && Retryable(attempts[1]) && !Retryable(attempts[2]);
    assert |f.requests| == 3;
  }

  /** A media part of a generated message: the URL it points at, if any. */
  datatype MediaPart = MediaPart(url: Option<string>)

  const NoUrlMessage := "Media part does not have a URL."
  const KeyParameter := "key="

  /** The URL actually downloaded: `"&key=" + apiKey` is appended when the URL has no
      `key=` anywhere in it and a key is configured, even if the URL has no query. */
  function AuthorizedUrl(url: string, apiKey: Option<string>): (r: string)
    ensures r != url <==> !Text.Contains(url, KeyParameter) && Text.Truthy(apiKey)
    ensures r == url || r == url + "&" + KeyParameter + apiKey.value
  {
    if !Text.Contains(url, KeyParameter) && Text.Truthy(apiKey) then url + "&" + KeyParameter + apiKey.value
    else url
  }

  /** Authorizing an already authorized URL changes nothing. */
  lemma AuthorizedUrlIdempotent(url: string, apiKey: Option<string>)
    ensures AuthorizedUrl(AuthorizedUrl(url, apiKey), apiKey) == AuthorizedUrl(url, apiKey)
  {
    var r := AuthorizedUrl(url, apiKey);
    if r != url {
      Text.ContainsMiddle(url + "&", KeyParameter, apiKey.value);
    }
  }

  const FetchFailedPrefix := "Failed to fetch video: "

  /** The message of the error thrown for a non-ok final response: it names the
      status text and carries the response body as text. */
  function FetchFailedMessage(response: Response): (message: string)
    ensures FetchFailedPrefix <= message
    ensures Text.Contains(message, response.statusText) && Text.Contains(message, response.text)
  {
    Text.ContainsMiddle(FetchFailedPrefix, response.statusText, ". Details: " + response.text);
    assert FetchFailedPrefix + response.statusText + (". Details: " + response.text)
        == FetchFailedPrefix + response.statusText + ". Details: " + response.text;
    Text.ContainsMiddle(FetchFailedPrefix + response.statusText + ". Details: ", response.text, "");
    assert FetchFailedPrefix + response.statusText + ". Details: " + response.text + ""
        == FetchFailedPrefix + response.statusText + ". Details: " + response.text;
    FetchFailedPrefix + response.statusText + ". Details: " + response.text
  }

  /** `downloadVideo(media)`, with the configured key as a parameter: the base 64
      encoding of the downloaded body, or the error it throws. */
  function DownloadVideo(media: MediaPart, apiKey: Option<string>, attempts: seq<Attempt>): (r: Result<string>)
    requires |attempts| > DefaultRetries
    ensures !Text.Truthy(media.url) ==> r == Failure(NoUrlMessage)
    ensures Text.Truthy(media.url) ==>
      var fetched := FetchWithRetry(AuthorizedUrl(media.url.value, apiKey), attempts, DefaultRetries, DefaultDelay);
      match fetched.result
      case Failure(e) => r == Failure(e)
      case Success(response) =>
        (r.Success? <==> response.Ok())
        && (r.Success? ==> r.value == Base64.Encode(response.body) && Base64.Decode(r.value) == Some(response.body))
        && (r.Failure? ==> Text.Contains(r.error, response.statusText) && Text.Contains(r.error, response.text))
  {
    if !Text.Truthy(media.url) then Failure(NoUrlMessage)
    else
      var downloadUrl := AuthorizedUrl(media.url.value, apiKey);
      match FetchWithRetry(downloadUrl, attempts, DefaultRetries, DefaultDelay).result
      case Failure(e) => Failure(e)
      case Success(response) =>
        if !response.Ok() then
          Failure(FetchFailedMessage(response))
        else
          Base64.DecodeEncode(response.body);
          Success(Base64.Encode(response.body))
  }
}
