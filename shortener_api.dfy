/**
 * The handlers of the URL shortener (url-shortener/app/main.py) over one
 * `URLStore`. Each handler body runs under the module's lock, so each is one
 * sequential method (or, for the read-only stats, one function) on the store.
 * Request bodies are JSON objects whose values are told apart only as
 * strings or not; responses are a status with a payload.
 */
module ShortenerApi {
  import opened Wrappers
  import opened Text
  import opened UrlStore
  import opened ShortenerUtils

  /** A JSON value of the request body. */
  datatype Json = JString(s: string) | JOther

  /** `request.get_json()`: no (or a falsy) JSON body, or a JSON object. */
  datatype Payload = NoJson | Object(fields: map<string, Json>)

  /** The JSON payloads and the redirect of the handlers. */
  datatype ApiBody =
    | ApiError(error: string)
    | Shortened(shortCode: string, shortUrl: string)
    | RedirectTo(location: string)
    | Stats(url: string, clicks: nat, createdAt: string)

  datatype ApiResp = ApiResp(status: int, body: ApiBody)

  /** Prefix of every `short_url` (main.py:43). */
  const ShortUrlBase := "http://localhost:5000/"

  /** The 500 of the `except Exception` in shorten_url (main.py:45-46). */
  const InternalServerError := ApiResp(500, ApiError("Internal server error"))

  /** A code as generate_short_code() returns it: six characters of the alphabet. */
  predicate IsDrawnCode(code: string) {
    |code| == 6 && forall i :: 0 <= i < |code| ==> code[i] in Alphabet
  }

  /** `len(short_code) != 6 or not short_code.isalnum()` fails (main.py:50, 63). */
  predicate CodeShapeOk(code: string) { |code| == 6 && IsAlnumString(code) }

  /** Every code the generator can return passes the handlers' shape check,
      so a freshly allocated code can always be looked up. */
  lemma DrawnCodePassesShape(code: string)
    requires IsDrawnCode(code)
    ensures CodeShapeOk(code)
  {
    AlphabetIsAlnum();
    forall i | 0 <= i < |code| ensures IsAsciiAlnum(code[i]) {
      assert code[i] in Alphabet;
    }
  }

  /** The outcome of shorten_url's checks (main.py:28-34): a response, or
      the stripped URL to store. */
  datatype Checked = Reject(resp: ApiResp) | Accept(url: string)

  /** shorten_url before the store is touched: a missing body or `url` key
      is 400, a non-string `url` makes `.strip()` raise (the 500), and a
      stripped URL that is_valid_url refuses is 400. */
  function ShortenCheck(payload: Payload): (c: Checked)
    ensures c.Accept? <==>
              && payload.Object? && "url" in payload.fields && payload.fields["url"].JString?
              && IsValidUrl(Strip(payload.fields["url"].s))
    ensures c.Accept? ==> c.url == Strip(payload.fields["url"].s) && UrlPattern(c.url)
    ensures (payload.NoJson? || "url" !in payload.fields) ==> c == Reject(ApiResp(400, ApiError("URL Is Not Found")))
    ensures payload.Object? && "url" in payload.fields && payload.fields["url"].JOther? ==>
              c == Reject(InternalServerError)
    ensures payload.Object? && "url" in payload.fields && payload.fields["url"].JString? &&
            !IsValidUrl(Strip(payload.fields["url"].s)) ==>
              c == Reject(ApiResp(400, ApiError("Invalid URL Formate")))
    ensures c.Reject? ==> c.resp.status in {400, 500}
  {
    if payload.NoJson? || payload.fields == map[] || "url" !in payload.fields then
      Reject(ApiResp(400, ApiError("URL Is Not Found")))
    else
      match payload.fields["url"]
      case JOther => Reject(InternalServerError)
      case JString(s) =>
        if !IsValidUrl(Strip(s)) then Reject(ApiResp(400, ApiError("Invalid URL Formate")))
        else Accept(Strip(s))
  }

  /** shorten_url (main.py:26-46). `draws` are the successive results of
      generate_short_code(); the loop keeps the first one that is not in the
      store, and some draw is free whenever the loop is reached. */
  method ShortenUrl(store: URLStore, payload: Payload, draws: seq<string>, createdAt: string) returns (r: ApiResp)
    requires store.Valid()
    requires forall k :: 0 <= k < |draws| ==> IsDrawnCode(draws[k])
    requires ShortenCheck(payload).Accept? ==> exists k :: 0 <= k < |draws| && draws[k] !in store.records
    modifies store
    ensures store.Valid()
    ensures ShortenCheck(payload).Reject? ==>
              r == ShortenCheck(payload).resp && store.records == old(store.records) && store.order == old(store.order)
    ensures ShortenCheck(payload).Accept? ==> r.status == 200 && r.body.Shortened?
    ensures ShortenCheck(payload).Accept? && r.body.Shortened? ==>
              var code := r.body.shortCode;
              && r.body.shortUrl == ShortUrlBase + code
              && code !in old(store.records)
              && (exists k :: 0 <= k < |draws| && draws[k] == code &&
                             forall m :: 0 <= m < k ==> draws[m] in old(store.records))
              && store.records == old(store.records)[code := UrlRecord(ShortenCheck(payload).url, createdAt, 0)]
              && store.order == old(store.order) + [code]
              && CodeShapeOk(code)
              && GetStats(store, code) == ApiResp(200, Stats(ShortenCheck(payload).url, 0, createdAt))
  {
    var checked := ShortenCheck(payload);
    if checked.Reject? {
      return checked.resp;
    }
    var code := AllocateCode(store, checked.url, draws, createdAt);
    r := ApiResp(200, Shortened(code, ShortUrlBase + code));
  }

  /** The allocation loop of shorten_url (main.py:36-40): redraw while the
      code is taken, then store the URL under the first free draw. */
  method AllocateCode(store: URLStore, url: string, draws: seq<string>, createdAt: string) returns (code: string)
    requires store.Valid()
    requires forall k :: 0 <= k < |draws| ==> IsDrawnCode(draws[k])
    requires exists k :: 0 <= k < |draws| && draws[k] !in store.records
    modifies store
    ensures store.Valid()
    ensures code !in old(store.records) && CodeShapeOk(code)
    ensures exists k :: 0 <= k < |draws| && draws[k] == code &&
                        forall m :: 0 <= m < k ==> draws[m] in old(store.records)
    ensures store.records == old(store.records)[code := UrlRecord(url, createdAt, 0)]
    ensures store.order == old(store.order) + [code]
  {
    var k := 0;
    code := draws[0];
    while store.GetUrl(code).Some?
      invariant 0 <= k < |draws| && code == draws[k]
      invariant forall m :: 0 <= m < k ==> draws[m] in store.records
      invariant store.records == old(store.records) && store.order == old(store.order)
      decreases |draws| - k
    {
      k := k + 1;
      code := draws[k];
    }
    assert draws[k] == code && forall m :: 0 <= m < k ==> draws[m] in old(store.records);
    store.StoreUrl(code, url, createdAt);
    DrawnCodePassesShape(code);
  }

  /** redirect_url (main.py:48-59): 404 for a malformed or unknown code;
      otherwise one more click and a 302 to the stored URL. */
  method RedirectUrl(store: URLStore, code: string) returns (r: ApiResp)
    requires store.Valid()
    modifies store
    ensures store.Valid() && store.order == old(store.order)
    ensures !CodeShapeOk(code) ==>
              r == ApiResp(404, ApiError("Invalid short code format")) && store.records == old(store.records)
    ensures CodeShapeOk(code) && code !in old(store.records) ==>
              r == ApiResp(404, ApiError("Short code not found")) && store.records == old(store.records)
    ensures CodeShapeOk(code) && code in old(store.records) ==>
              && r == ApiResp(302, RedirectTo(old(store.records)[code].url))
              && store.records == old(store.records)[code := old(store.records)[code].(clicks := old(store.records)[code].clicks + 1)]
  {
    if !CodeShapeOk(code) {
      return ApiResp(404, ApiError("Invalid short code format"));
    }
    var data := store.GetUrl(code);
    if data.None? {
      return ApiResp(404, ApiError("Short code not found"));
    }
    store.IncrementClicks(code);
    r := ApiResp(302, RedirectTo(data.value.url));
  }

  /** get_stats (main.py:61-76): 404 for a malformed or unknown code,
      otherwise the record's URL, clicks and creation time. */
  function GetStats(store: URLStore, code: string): (r: ApiResp)
    reads store
    ensures !CodeShapeOk(code) ==> r == ApiResp(404, ApiError("Invalid short code format"))
    ensures CodeShapeOk(code) ==> (r.status == 200 <==> code in store.records)
    ensures CodeShapeOk(code) && code !in store.records ==> r == ApiResp(404, ApiError("Short code not found"))
    ensures r.status == 200 ==>
              r.body == Stats(store.records[code].url, store.records[code].clicks, store.records[code].createdAt)
  {
    if !CodeShapeOk(code) then ApiResp(404, ApiError("Invalid short code format"))
    else match store.GetUrl(code)
      case None => ApiResp(404, ApiError("Short code not found"))
      case Some(data) => ApiResp(200, Stats(data.url, data.clicks, data.createdAt))
  }
}
