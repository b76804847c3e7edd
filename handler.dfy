/** The `/api/price` endpoint as a pure classifier: from the query, the
    outcome of the call to the Steam market and the clock reading, it
    determines the upstream request (if any) and the response the endpoint
    sends back — its HTTP code, its `ok` flag, its CDN cache policy and its
    JSON payload.

    The fetch and the JSON parse are not performed here; their outcome is the
    `Upstream` input. The clock is the `now` input. */
module PriceHandler {
  import opened Wrappers
  import opened PriceNumber

  /** The query parameters the endpoint reads; `None` is an absent parameter. */
  datatype Query = Query(name: Option<string>, currency: Option<string>, appid: Option<string>)

  /** Steam's currency code for euros. */
  const DefaultCurrency: string := "3"

  /** Steam's application id for Counter-Strike 2. */
  const DefaultAppId: string := "730"

  /** A destructuring default: it applies only to an absent parameter, so an
      empty `currency=` stays empty. */
  function OrDefault(p: Option<string>, default: string): (r: string)
    ensures p.None? ==> r == default
    ensures p.Some? ==> r == p.value
  {
    match p
    case None => default
    case Some(v) => v
  }

  /** The `name` test: an absent or empty name is falsy. */
  predicate NamePresent(q: Query): (r: bool)
    ensures !r <==> q.name.None? || |q.name.value| == 0
  {
    q.name.Some? && q.name.value != []
  }

  /** What the endpoint reads from a parsed, non-falsy JSON reply:
      `success` is whether `data.success === true`, and the two price fields
      are `None` when absent. */
  datatype SteamReply = SteamReply(success: bool, lowestPrice: Option<string>, medianPrice: Option<string>)

  /** The body of the upstream reply as `r.json()` sees it: not JSON at all,
      a falsy JSON value (`null`, `false`, `0`, `""`), or any other value. */
  datatype Body = NotJson | JsonFalsy | JsonValue(reply: SteamReply)

  /** The outcome of the call to the Steam market: the call threw (the
      message is `String(err)`), or a reply arrived with a status and a body. */
  datatype Upstream = Threw(message: string) | Received(status: int, body: Body)

  /** The request sent upstream: the item name and the effective currency and
      application id. */
  datatype UpstreamRequest = UpstreamRequest(name: string, currency: string, appid: string)

  /** A `Cache-Control: s-maxage=…, stale-while-revalidate=…` header, in seconds. */
  datatype CacheControl = CacheControl(sMaxAge: nat, staleWhileRevalidate: nat)

  /** The cache policy for failures, short so that Steam is not hammered. */
  const ShortCache: CacheControl := CacheControl(30, 30)

  /** The cache policy for prices: five minutes at the CDN. */
  const LongCache: CacheControl := CacheControl(300, 300)

  const MissingNameError: string := "missing ?name="
  const BadJsonError: string := "bad json"

  /** The JSON payload besides its `ok` flag. */
  datatype Payload =
    | MissingName(error: string)
    | BadJson(status: int, error: string)
    | Rejected(status: int, body: Option<SteamReply>)
    | Prices(lowest: Option<real>, median: Option<real>, name: string, currency: string, appid: string, ts: int)
    | Crashed(error: string)

  datatype Response = Response(code: int, ok: bool, cacheControl: Option<CacheControl>, payload: Payload)

  /** One call of the endpoint: the request it sent upstream, if it sent
      one, and the response it gave. */
  datatype Exchange = Exchange(request: Option<UpstreamRequest>, response: Response)

  /** The only upstream outcome that yields prices: status 200, a parsed,
      non-falsy body, and `success === true`. */
  predicate Succeeded(upstream: Upstream): (r: bool)
    ensures upstream.Threw? ==> !r
    ensures upstream.Received? && upstream.body.NotJson? ==> !r
    ensures upstream.Received? && upstream.body.JsonFalsy? ==> !r
    ensures upstream.Received? && upstream.body.JsonValue? ==>
      (!r <==> upstream.status != 200 || !upstream.body.reply.success)
  {
    && upstream.Received?
    && upstream.status == 200
    && upstream.body.JsonValue?
    && upstream.body.reply.success
  }

  /** A response with the shape every response of the endpoint has: a 400
      carries no cache header and no prices; a 200 is cached for five minutes
      exactly when it is `ok`, and for thirty seconds otherwise; `ok` goes
      with prices, and prices are never the bogus 0.25. */
  predicate WellFormed(r: Response)
  {
    && (r.code == 400 || r.code == 200)
    && (r.code == 400 <==> r.cacheControl.None?)
    && (r.code == 400 ==> !r.ok && r.payload.MissingName?)
    && (r.ok <==> r.cacheControl == Some(LongCache))
    && (r.code == 200 && !r.ok ==> r.cacheControl == Some(ShortCache))
    && (r.ok <==> r.payload.Prices?)
    && (r.payload.Prices? ==> r.payload.lowest != Some(0.25) && r.payload.median != Some(0.25))
  }

  /** The endpoint. Without a name it answers 400 at once and asks Steam
      nothing. With one it asks Steam, and answers 200 in every case: with
      prices when Steam succeeded, and otherwise with `ok: false` and the
      reason — a thrown error, a body that is not JSON (checked before the
      status), or a rejected reply. */
  function Handle(q: Query, upstream: Upstream, now: int): (x: Exchange)
    ensures x.request.None? <==> !NamePresent(q)
    ensures x.request.Some? ==>
      x.request.value == UpstreamRequest(q.name.value, OrDefault(q.currency, DefaultCurrency), OrDefault(q.appid, DefaultAppId))
    ensures x.response.code == (if NamePresent(q) then 200 else 400)
    ensures x.response.ok <==> NamePresent(q) && Succeeded(upstream)
    ensures !NamePresent(q) ==> x.response.payload == MissingName(MissingNameError)
    ensures NamePresent(q) && upstream.Threw? ==> x.response.payload == Crashed(upstream.message)
    ensures NamePresent(q) && upstream.Received? && upstream.body.NotJson? ==>
      x.response.payload == BadJson(upstream.status, BadJsonError)
    ensures NamePresent(q) && upstream.Received? && upstream.body.JsonFalsy? ==>
      x.response.payload == Rejected(upstream.status, None)
    ensures NamePresent(q) && upstream.Received? && upstream.body.JsonValue? && !Succeeded(upstream) ==>
      x.response.payload == Rejected(upstream.status, Some(upstream.body.reply))
    ensures x.response.ok ==>
      var reply := upstream.body.reply;
      x.response.payload == Prices(ToNum(reply.lowestPrice), ToNum(reply.medianPrice),
        x.request.value.name, x.request.value.currency, x.request.value.appid, now)
    ensures WellFormed(x.response)
  {
    if !NamePresent(q) then
      Exchange(None, Response(400, false, None, MissingName(MissingNameError)))
    else
      var request := UpstreamRequest(q.name.value, OrDefault(q.currency, DefaultCurrency), OrDefault(q.appid, DefaultAppId));
      Exchange(Some(request), Answer(request, upstream, now))
  }

  /** The response once the request has gone upstream. */
  function Answer(request: UpstreamRequest, upstream: Upstream, now: int): (r: Response)
    ensures r.code == 200
    ensures r.ok <==> Succeeded(upstream)
    ensures r.cacheControl == Some(if r.ok then LongCache else ShortCache)
    ensures WellFormed(r)
  {
    match upstream
    case Threw(message) => Response(200, false, Some(ShortCache), Crashed(message))
    case Received(status, body) =>
      match body
      case NotJson => Response(200, false, Some(ShortCache), BadJson(status, BadJsonError))
      case JsonFalsy => Response(200, false, Some(ShortCache), Rejected(status, None))
      case JsonValue(reply) =>
        if status != 200 || !reply.success then
          Response(200, false, Some(ShortCache), Rejected(status, Some(reply)))
        else
          Response(200, true, Some(LongCache),
            Prices(ToNum(reply.lowestPrice), ToNum(reply.medianPrice), request.name, request.currency, request.appid, now))
  }

  /** Without a name nothing depends on Steam or on the clock. */
  lemma MissingNameIgnoresUpstream(q: Query, u1: Upstream, u2: Upstream, t1: int, t2: int)
    requires !NamePresent(q)
    ensures Handle(q, u1, t1) == Handle(q, u2, t2)
    ensures Handle(q, u1, t1).response == Response(400, false, None, MissingName(MissingNameError))
  {
  }

  /** Each way the lookup can fail after the name check — a thrown error,
      a body that is not JSON, a falsy body, a status other than 200, or a
      `success` that is not exactly `true` — gives a 200 with `ok: false`
      and the thirty-second cache. */
  lemma FailuresAreShortCached(q: Query, upstream: Upstream, now: int)
    requires NamePresent(q)
    requires || upstream.Threw?
             || upstream.body.NotJson?
             || upstream.body.JsonFalsy?
             || upstream.status != 200
             || !upstream.body.reply.success
    ensures Handle(q, upstream, now).response.code == 200
    ensures !Handle(q, upstream, now).response.ok
    ensures Handle(q, upstream, now).response.cacheControl == Some(ShortCache)
  {
  }

  /** Steam's success gives `ok: true`, the five-minute cache, and the two
      prices normalised by `toNum`, neither of them 0.25. */
  lemma SuccessGivesPrices(q: Query, reply: SteamReply, now: int)
    requires NamePresent(q) && reply.success
    ensures var r := Handle(q, Received(200, JsonValue(reply)), now).response;
      && r.ok && r.code == 200 && r.cacheControl == Some(LongCache)
      && r.payload.lowest == ToNum(reply.lowestPrice)
      && r.payload.median == ToNum(reply.medianPrice)
      && r.payload.lowest != Some(0.25) && r.payload.median != Some(0.25)
  {
  }

  /** The clock only reaches the `ts` field of a successful response. */
  lemma ClockOnlyStampsPrices(q: Query, upstream: Upstream, t1: int, t2: int)
    ensures var r1, r2 := Handle(q, upstream, t1).response, Handle(q, upstream, t2).response;
      && (r1.ok ==> r1 == r2.(payload := r2.payload.(ts := t1)))
      && (!r1.ok ==> r1 == r2)
  {
  }

  /** The query defaults: an absent `currency` or `appid` becomes `"3"` or
      `"730"`; a given one, even an empty one, is passed on unchanged. */
  lemma RequestDefaults(q: Query, upstream: Upstream, now: int)
    requires NamePresent(q)
    ensures var request := Handle(q, upstream, now).request.value;
      && request.name == q.name.value
      && (q.currency.None? ==> request.currency == "3")
      && (q.currency.Some? ==> request.currency == q.currency.value)
      && (q.appid.None? ==> request.appid == "730")
      && (q.appid.Some? ==> request.appid == q.appid.value)
  {
  }
}
