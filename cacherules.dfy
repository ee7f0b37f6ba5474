/**
 * The rules both cache implementations share: which responses `put`
 * accepts, what it stores, and what `match` does with a stored entry
 * (serve it, serve it stale and ask for a refresh, or evict it).
 */
module CacheRules {
  import opened Wrappers
  import opened Http
  import opened Directives
  import opened Freshness
  import opened BlobStore

  /**
   * The errors the cache throws: four `TypeError`s of `put`, the `URIError`
   * of `keys`, and the `RangeError` or `TypeError` of the `Response`
   * constructor when `match` rebuilds a response from a stored status.
   */
  datatype Failure =
    | NotOk(status: int)
    | NotGet(httpMethod: string)
    | PartialContent
    | VaryWildcard
    | MalformedKey(key: string)
    | StatusOutOfRange(status: int)
    | BodyWithNullBodyStatus(status: int)

  /** The response's `vary` header contains `*`. */
  predicate HasVaryWildcard(hs: Headers) {
    match Get(hs, "vary")
    case Some(v) => '*' in v
    case None => false
  }

  /**
   * The checks of `put`, in the order it makes them: the status must be ok,
   * the method GET, the status not 206, and `vary` must not contain `*`.
   */
  function CheckPut(request: Request, response: Response): (r: Outcome<Failure>)
    ensures r == Pass <==>
      IsOk(response.status) && request.httpMethod == "GET" && response.status != 206
      && !HasVaryWildcard(response.headers)
    ensures r == Fail(NotOk(response.status)) <==> !IsOk(response.status)
    ensures r == Fail(NotGet(request.httpMethod)) <==>
      IsOk(response.status) && request.httpMethod != "GET"
    ensures r == Fail(PartialContent) <==>
      IsOk(response.status) && request.httpMethod == "GET" && response.status == 206
    ensures r == Fail(VaryWildcard) <==>
      IsOk(response.status) && request.httpMethod == "GET" && response.status != 206
      && HasVaryWildcard(response.headers)
  {
    if !IsOk(response.status) then Fail(NotOk(response.status))
    else if request.httpMethod != "GET" then Fail(NotGet(request.httpMethod))
    else if response.status == 206 then Fail(PartialContent)
    else if HasVaryWildcard(response.headers) then Fail(VaryWildcard)
    else Pass
  }

  /**
   * `vary` contains `*` exactly when one of the response's header entries
   * is named `vary`, in any letter case, and has a `*` in its value: joining
   * several values with ", " adds no `*`.
   */
  lemma VaryWildcardIffAnyHeader(hs: Headers)
    ensures HasVaryWildcard(hs) <==> exists i | 0 <= i < |hs| :: SameName(hs[i].0, "vary") && '*' in hs[i].1
  {
    StarInValues(hs, "vary");
    var vs := Values(hs, "vary");
    NoValuesIffAbsent(hs, "vary");
    if vs != [] {
      StarInCombine(vs);
    }
  }

  lemma {:induction false} StarInCombine(vs: seq<string>)
    requires vs != []
    ensures '*' in Combine(vs) <==> exists j | 0 <= j < |vs| :: '*' in vs[j]
  {
    if |vs| > 1 {
      StarInCombine(vs[1..]);
      assert forall j | 1 <= j < |vs| :: vs[j] == vs[1..][j - 1];
      assert '*' !in ", ";
    }
  }

  lemma {:induction false} StarInValues(hs: Headers, name: string)
    ensures (exists j | 0 <= j < |Values(hs, name)| :: '*' in Values(hs, name)[j])
      <==> exists i | 0 <= i < |hs| :: SameName(hs[i].0, name) && '*' in hs[i].1
  {
    if hs != [] {
      StarInValues(hs[1..], name);
      var vs, tail := Values(hs, name), Values(hs[1..], name);
      var head := if SameName(hs[0].0, name) then [hs[0].1] else [];
      assert vs == head + tail;
      if exists j | 0 <= j < |vs| :: '*' in vs[j] {
        var j :| 0 <= j < |vs| && '*' in vs[j];
        if j >= |head| {
          assert '*' in tail[j - |head|];
          var i :| 0 <= i < |hs[1..]| && SameName(hs[1..][i].0, name) && '*' in hs[1..][i].1;
          assert hs[i + 1] == hs[1..][i];
        }
      }
      if exists i | 0 <= i < |hs| :: SameName(hs[i].0, name) && '*' in hs[i].1 {
        var i :| 0 <= i < |hs| && SameName(hs[i].0, name) && '*' in hs[i].1;
        if i == 0 {
          assert vs[0] == hs[0].1;
        } else {
          assert hs[1..][i - 1] == hs[i];
          var j :| 0 <= j < |tail| && '*' in tail[j];
          assert vs[|head| + j] == tail[j];
        }
      }
    }
  }

  /** A 206 response is never stored, whatever the request. */
  lemma PartialContentRejected(request: Request, response: Response)
    requires response.status == 206
    ensures CheckPut(request, response).Fail?
  {
  }

  /** The entry a successful `put` writes: the body, with status, headers and the time of the write. */
  function Stored(response: Response, now: int): (e: Entry)
    ensures e.metadata.timestamp == now
    ensures Served(e, false).body == response.body && Served(e, false).status == response.status
    ensures forall n :: !SameName(n, "cache") ==> Get(Served(e, false).headers, n) == Get(response.headers, n)
  {
    Entry(response.body, Metadata(Some(response.status), response.headers, now))
  }

  /** The verdict for a stored entry, from its own `cache-control` header. */
  function VerdictOf(e: Entry, now: int): (v: Verdict)
    ensures v == Fresh <==> now - e.metadata.timestamp <= 1000 * MaxAge(e.metadata.headers)
    ensures v == Expired <==>
      now - e.metadata.timestamp > 1000 * (MaxAge(e.metadata.headers) + StaleWhileRevalidate(e.metadata.headers))
  {
    Classify(MaxAge(e.metadata.headers), StaleWhileRevalidate(e.metadata.headers), e.metadata.timestamp, now)
  }

  /**
   * The response `match` rebuilds: the stored body, the stored status (200
   * when the metadata has none) and the stored headers with `cache` set to
   * `HIT` or `STALE`.
   */
  function Served(e: Entry, stale: bool): (r: Response)
    ensures r.body == e.body
    ensures r.status == e.metadata.status.GetOr(200)
    ensures Get(r.headers, "cache") == Some(if stale then "STALE" else "HIT")
    ensures forall n :: !SameName(n, "cache") ==> Get(r.headers, n) == Get(e.metadata.headers, n)
  {
    Response(e.metadata.status.GetOr(200), Set(e.metadata.headers, "cache", if stale then "STALE" else "HIT"), e.body)
  }

  /**
   * The null-body statuses of the Fetch Standard: a response with one of
   * these statuses cannot carry a body.
   */
  predicate IsNullBodyStatus(status: int) {
    status == 101 || status == 103 || status == 204 || status == 205 || status == 304
  }

  /**
   * What `new Response(body, {status})` throws for a non-null body, in the
   * order the Fetch Standard's "initialize a response" checks: a status
   * outside 200 to 599 is a `RangeError`, then a null-body status is a
   * `TypeError`.
   */
  function RebuildError(status: int): (r: Option<Failure>)
    ensures r.None? <==> 200 <= status <= 599 && status != 204 && status != 205 && status != 304
    ensures r == Some(StatusOutOfRange(status)) <==> status < 200 || 599 < status
    ensures r == Some(BodyWithNullBodyStatus(status)) <==> status == 204 || status == 205 || status == 304
  {
    if status < 200 || 599 < status then Some(StatusOutOfRange(status))
    else if IsNullBodyStatus(status) then Some(BodyWithNullBodyStatus(status))
    else None
  }

  /** `match` can rebuild a response with this status around the stored body. */
  predicate Servable(response: Response) {
    RebuildError(response.status).None?
  }

  /**
   * What `match` returns or throws, the refresh it asks for, and the store
   * afterwards.
   */
  datatype MatchOutcome = MatchOutcome(response: Option<Response>, error: Option<Failure>, refresh: Option<string>, after: Blobs) {
    /** `match` found a live entry: it returned a response or threw. */
    predicate Settled() {
      response.Some? || error.Some?
    }
  }

  /**
   * `match` once the store key is known: read the entry; a miss leaves the
   * store alone; an Expired entry is deleted and reported as a miss; a Stale
   * one asks for a refresh of `url` and is served with `cache: STALE`; a
   * Fresh one is served with `cache: HIT`. Rebuilding the response throws
   * when the stored status is one the `Response` constructor refuses, after
   * the refresh was asked for.
   */
  function MatchAt(b: Blobs, name: string, key: string, url: string, now: int): (m: MatchOutcome)
    ensures !m.Settled() <==> key !in Ns(b, name).entries || VerdictOf(Ns(b, name).entries[key], now) == Expired
    ensures m.refresh.Some? <==> key in Ns(b, name).entries && VerdictOf(Ns(b, name).entries[key], now) == Stale
    ensures m.refresh.Some? ==> m.refresh == Some(url)
    ensures m.Settled() ==> m.error == RebuildError(Ns(b, name).entries[key].metadata.status.GetOr(200))
    ensures m.response.Some? ==> m.error.None? && m.response.value == Served(Ns(b, name).entries[key], m.refresh.Some?)
    ensures m.after == if !m.Settled() && key in Ns(b, name).entries then RemoveIn(b, name, key) else b
  {
    match Ns(b, name).Lookup(key)
    case None => MatchOutcome(None, None, None, b)
    case Some(e) =>
      var v := VerdictOf(e, now);
      var refresh := if v == Stale then Some(url) else None;
      if v == Expired then MatchOutcome(None, None, None, RemoveIn(b, name, key))
      else match RebuildError(e.metadata.status.GetOr(200))
        case Some(f) => MatchOutcome(None, Some(f), refresh, b)
        case None => MatchOutcome(Some(Served(e, v == Stale)), None, refresh, b)
  }

  /**
   * With no stale-while-revalidate window (in particular with no directive at
   * all) `match` never serves `STALE` and never asks for a refresh: an entry
   * older than its max-age is deleted and reported as a miss.
   */
  lemma NeverStaleWithoutSwr(b: Blobs, name: string, key: string, url: string, now: int)
    requires key in Ns(b, name).entries
    requires StaleWhileRevalidate(Ns(b, name).entries[key].metadata.headers) == 0
    ensures var m := MatchAt(b, name, key, url, now);
      var e := Ns(b, name).entries[key];
      && m.refresh == None
      && (m.response.Some? ==> Get(m.response.value.headers, "cache") == Some("HIT"))
      && (!m.Settled() <==> now - e.metadata.timestamp > 1000 * MaxAge(e.metadata.headers))
  {
    var e := Ns(b, name).entries[key];
    NoStaleWithoutSwr(MaxAge(e.metadata.headers), e.metadata.timestamp, now);
  }

  /** `m` serves `response` as fresh: its body and status, `cache: HIT`, and no refresh. */
  predicate FreshHit(m: MatchOutcome, response: Response) {
    && m.response.Some?
    && m.response.value.body == response.body
    && m.response.value.status == response.status
    && Get(m.response.value.headers, "cache") == Some("HIT")
    && m.refresh == None
  }

  /**
   * `put` then `match` at the same instant: a `cache: HIT` with the body and
   * status that were put and no refresh; or, for a status the `Response`
   * constructor refuses, its error. The store stays as `put` left it.
   */
  lemma PutThenMatchHit(b: Blobs, name: string, key: string, url: string, response: Response, now: int)
    ensures var after := StoreIn(b, name, key, Stored(response, now));
      var m := MatchAt(after, name, key, url, now);
      && m.after == after
      && (Servable(response) ==> FreshHit(m, response))
      && (!Servable(response) ==> m.response.None? && m.error == RebuildError(response.status) && m.refresh == None)
  {
    var e := Stored(response, now);
    FreshWhenJustWritten(MaxAge(e.metadata.headers), StaleWhileRevalidate(e.metadata.headers), now);
  }

  /**
   * The life of an entry with `cache-control: max-age=1,
   * stale-while-revalidate=1` written at time `t`: a HIT up to one second, STALE
   * with a refresh up to two seconds, then deleted and a miss. While it lives,
   * a status the `Response` constructor refuses throws instead of serving.
   */
  lemma OneSecondWindows(b: Blobs, name: string, key: string, url: string, response: Response, t: int, now: int)
    requires CacheControl(response.headers) == "max-age=1, stale-while-revalidate=1"
    ensures var after := StoreIn(b, name, key, Stored(response, t));
      var m := MatchAt(after, name, key, url, now);
      && (now - t <= 2000 ==> m.after == after && m.error == RebuildError(response.status) && (m.response.Some? <==> Servable(response)))
      && (now - t <= 1000 ==> m.refresh == None && (m.response.Some? ==> Get(m.response.value.headers, "cache") == Some("HIT")))
      && (1000 < now - t <= 2000 ==> m.refresh == Some(url) && (m.response.Some? ==> Get(m.response.value.headers, "cache") == Some("STALE")))
      && (now - t > 2000 ==> !m.Settled() && m.refresh == None && Ns(m.after, name).Lookup(key) == None && key !in Ns(m.after, name).order)
  {
    MaxAgeOneSwrOne(response.headers);
  }

  /**
   * With `cache-control: max-age=100` and no stale-while-revalidate window, an
   * entry is live at 99.9 seconds (served when its status is servable) and
   * already deleted, not STALE, at 100.1 seconds.
   */
  lemma HundredSecondBoundary(b: Blobs, name: string, key: string, url: string, response: Response, t: int)
    requires CacheControl(response.headers) == "max-age=100"
    ensures var after := StoreIn(b, name, key, Stored(response, t));
      && MatchAt(after, name, key, url, t + 99_900).Settled()
      && (MatchAt(after, name, key, url, t + 99_900).response.Some? <==> Servable(response))
      && MatchAt(after, name, key, url, t + 99_900).refresh == None
      && !MatchAt(after, name, key, url, t + 100_100).Settled()
      && MatchAt(after, name, key, url, t + 100_100).refresh == None
  {
    MaxAgeHundred(response.headers);
  }

  /**
   * `put` accepts what `match` cannot return: a GET request with an empty
   * 204 response passes every check of `put`, and matching it back throws
   * the `TypeError` of a body with a null-body status.
   */
  lemma NoContentPutThenMatchThrows(b: Blobs, name: string, key: string, url: string, request: Request, now: int)
    requires request.httpMethod == "GET"
    ensures var response := Response(204, [], []);
      var m := MatchAt(StoreIn(b, name, key, Stored(response, now)), name, key, url, now);
      && CheckPut(request, response) == Pass
      && m.response.None? && m.error == Some(BodyWithNullBodyStatus(204))
  {
    PutThenMatchHit(b, name, key, url, Response(204, [], []), now);
  }

  /**
   * The checks of `put` with the one it lacks: after the four checks, a
   * status that `match` could not rebuild into a response is refused too.
   */
  function CheckServablePut(request: Request, response: Response): (r: Outcome<Failure>)
    ensures r == Pass <==> CheckPut(request, response) == Pass && Servable(response)
    ensures CheckPut(request, response).Fail? ==> r == CheckPut(request, response)
    ensures CheckPut(request, response) == Pass && !Servable(response) ==> r == Fail(BodyWithNullBodyStatus(response.status))
  {
    match CheckPut(request, response)
    case Fail(f) => Fail(f)
    case Pass =>
      match RebuildError(response.status)
      case Some(f) => Fail(f)
      case None => Pass
  }

  /** With the corrected checks, whatever `put` stores is served back as a HIT. */
  lemma ServablePutThenMatchHit(b: Blobs, name: string, key: string, url: string, request: Request, response: Response, now: int)
    requires CheckServablePut(request, response) == Pass
    ensures FreshHit(MatchAt(StoreIn(b, name, key, Stored(response, now)), name, key, url, now), response)
  {
    PutThenMatchHit(b, name, key, url, response, now);
  }
}
