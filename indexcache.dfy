/**
 * `BlobCache` of src/index.ts: the same Cache interface over one namespace of
 * the blob store, but keyed by the raw URL (no percent-encoding) and listing
 * the keys back as they are.
 */
module IndexCache {
  import opened Wrappers
  import opened Http
  import opened BlobStore
  import opened CacheRules
  import Cache

  /** The exception `match` raises as written: destructuring the store's `null` for a missing key. */
  datatype MatchError = NullEntry(url: string)

  /**
   * `match(request)` as written: a non-GET `Request` is a miss without
   * reading; a missing key makes the destructuring of the store's result throw.
   */
  function MatchAsWritten(b: Blobs, name: string, request: RequestInfo, now: int): (r: Result<MatchOutcome, MatchError>)
    ensures r.Err? <==>
      !(request.RequestObject? && request.request.httpMethod != "GET")
      && request.Url() !in Ns(b, Cache.StoreName(name)).entries
    ensures r.Err? ==> r.error == NullEntry(request.Url())
    ensures r.Ok? ==> r.value == MatchOn(b, name, request, now)
  {
    if request.RequestObject? && request.request.httpMethod != "GET" then Ok(MatchOutcome(None, None, None, b))
    else if request.Url() !in Ns(b, Cache.StoreName(name)).entries then Err(NullEntry(request.Url()))
    else Ok(MatchAt(b, Cache.StoreName(name), request.Url(), request.Url(), now))
  }

  /** As written, matching a URL that was never put throws instead of reporting a miss. */
  lemma MatchOfMissingUrlThrows(name: string, url: string, now: int)
    ensures MatchAsWritten(map[], name, UrlString(url), now) == Err(NullEntry(url))
  {
  }

  /**
   * `match(request)` as intended (and as src/cache.ts does it): a missing key
   * is a miss that leaves the store alone.
   */
  function MatchOn(b: Blobs, name: string, request: RequestInfo, now: int): (m: MatchOutcome)
    ensures request.RequestObject? && request.request.httpMethod != "GET" ==> m == MatchOutcome(None, None, None, b)
    ensures request.Url() !in Ns(b, Cache.StoreName(name)).entries ==> m == MatchOutcome(None, None, None, b)
    ensures m.after == b || m.after == RemoveIn(b, Cache.StoreName(name), request.Url())
  {
    if request.RequestObject? && request.request.httpMethod != "GET" then MatchOutcome(None, None, None, b)
    else MatchAt(b, Cache.StoreName(name), request.Url(), request.Url(), now)
  }

  /** `put(request, response)` as a function of the store: written under the raw URL when every check passes. */
  function PutOn(b: Blobs, name: string, request: Request, response: Response, now: int): (r: Blobs)
    ensures CheckPut(request, response).Fail? ==> r == b
    ensures CheckPut(request, response) == Pass ==>
      Ns(r, Cache.StoreName(name)).Lookup(request.url) == Some(Stored(response, now))
    ensures forall k :: k != request.url ==> Ns(r, Cache.StoreName(name)).Lookup(k) == Ns(b, Cache.StoreName(name)).Lookup(k)
    ensures forall other :: other != Cache.StoreName(name) ==> Ns(r, other) == Ns(b, other)
    ensures AllValid(b) ==> AllValid(r)
  {
    if CheckPut(request, response) == Pass then StoreIn(b, Cache.StoreName(name), request.url, Stored(response, now))
    else b
  }

  /** `addAll`: the adds one after the other, each failure ignored. */
  function AddAllOn(b: Blobs, name: string, items: seq<(RequestInfo, Response)>, now: int): (r: Blobs)
    ensures forall other :: other != Cache.StoreName(name) ==> Ns(r, other) == Ns(b, other)
    ensures forall k | forall i | 0 <= i < |items| :: items[i].0.Url() != k ::
      Ns(r, Cache.StoreName(name)).Lookup(k) == Ns(b, Cache.StoreName(name)).Lookup(k)
    ensures AllValid(b) ==> AllValid(r)
  {
    if items == [] then b
    else
      var last := items[|items| - 1];
      PutOn(AddAllOn(b, name, items[..|items| - 1], now), name, ToRequest(last.0), last.1, now)
  }

  /** `keys(request?)` over the listed keys: every key, or only the keys equal to the filter's URL. */
  function RawKeys(ks: seq<string>, filter: Option<Request>): (r: seq<string>)
    ensures forall k :: k in r <==> k in ks && (filter.None? || k == filter.value.url)
    ensures filter.None? ==> r == ks
  {
    if ks == [] then []
    else
      var init, key := ks[..|ks| - 1], ks[|ks| - 1];
      assert ks == init + [key];
      RawKeys(init, filter) + (if filter.None? || filter.value.url == key then [key] else [])
  }

  class BlobCache {
    const name: string
    const service: BlobService

    constructor(name: string, service: BlobService)
      ensures this.name == name && this.service == service
    {
      this.name := name;
      this.service := service;
    }

    /**
     * `put`: throws on the first failed check and writes nothing; otherwise
     * overwrites the entry under the raw URL.
     */
    method Put(request: Request, response: Response, now: int) returns (r: Outcome<Failure>)
      modifies service
      ensures r == CheckPut(request, response)
      ensures r.Fail? ==> service.blobs == old(service.blobs)
      ensures r.Pass? ==> service.blobs == StoreIn(old(service.blobs), Cache.StoreName(name), request.url, Stored(response, now))
    {
      r := CheckPut(request, response);
      if r.Pass? {
        service.Set(Cache.StoreName(name), request.url, Stored(response, now));
      }
    }

    /** `match`, with a missing key reported as a miss. */
    method Match(request: RequestInfo, now: int) returns (response: Option<Response>, error: Option<Failure>, refresh: Option<string>)
      modifies service
      ensures MatchOutcome(response, error, refresh, service.blobs) == MatchOn(old(service.blobs), name, request, now)
    {
      var url := request.Url();
      if request.RequestObject? && request.request.httpMethod != "GET" {
        return None, None, None;
      }
      var found := service.GetWithMetadata(Cache.StoreName(name), url);
      if found.None? {
        return None, None, None;
      }
      var e := found.value;
      var verdict := VerdictOf(e, now);
      if verdict == Freshness.Expired {
        service.Delete(Cache.StoreName(name), url);
        return None, None, None;
      }
      var stale := verdict == Freshness.Stale;
      refresh := if stale then Some(url) else None;
      error := RebuildError(e.metadata.status.GetOr(200));
      response := if error.None? then Some(Served(e, stale)) else None;
    }

    /** `matchAll`: no request (or an empty URL) gives none; otherwise the one match or none, or what `match` throws. */
    method MatchAll(request: Option<RequestInfo>, now: int) returns (responses: seq<Response>, error: Option<Failure>, refresh: Option<string>)
      modifies service
      ensures |responses| <= 1
      ensures request.None? || request == Some(UrlString("")) ==>
        responses == [] && error == None && refresh == None && service.blobs == old(service.blobs)
      ensures request.Some? && request != Some(UrlString("")) ==>
        var m := MatchOn(old(service.blobs), name, request.value, now);
        && responses == (if m.response.Some? then [m.response.value] else [])
        && error == m.error && refresh == m.refresh && service.blobs == m.after
    {
      if request.None? || request == Some(UrlString("")) {
        return [], None, None;
      }
      var res;
      res, error, refresh := Match(request.value, now);
      responses := if res.Some? then [res.value] else [];
    }

    /** `delete`: removes the entry and reports true whether or not it existed. */
    method Delete(request: Request) returns (deleted: bool)
      modifies service
      ensures deleted
      ensures service.blobs == RemoveIn(old(service.blobs), Cache.StoreName(name), request.url)
    {
      service.Delete(Cache.StoreName(name), request.url);
      deleted := true;
    }

    /** `keys(request?)`: the listed keys as they are, filtered to the request's URL when one is given. */
    method Keys(filter: Option<Request>) returns (keys: seq<string>)
      ensures keys == RawKeys(Ns(service.blobs, Cache.StoreName(name)).order, filter)
    {
      var blobs := service.List(Cache.StoreName(name));
      keys := [];
      for i := 0 to |blobs|
        invariant keys == RawKeys(blobs[..i], filter)
      {
        assert blobs[..i + 1][..i] == blobs[..i];
        if filter.None? || filter.value.url == blobs[i] {
          keys := keys + [blobs[i]];
        }
      }
      assert blobs[..|blobs|] == blobs;
    }

    /** `add`: the fetched response (given here) is `put` under `new Request(request)`. */
    method Add(request: RequestInfo, fetched: Response, now: int) returns (r: Outcome<Failure>)
      modifies service
      ensures r == CheckPut(ToRequest(request), fetched)
      ensures service.blobs == PutOn(old(service.blobs), name, ToRequest(request), fetched, now)
    {
      r := Put(ToRequest(request), fetched, now);
    }

    /** `addAll`: every add, one after the other; failures are ignored. */
    method AddAll(items: seq<(RequestInfo, Response)>, now: int)
      modifies service
      ensures service.blobs == AddAllOn(old(service.blobs), name, items, now)
    {
      for i := 0 to |items|
        invariant service.blobs == AddAllOn(old(service.blobs), name, items[..i], now)
      {
        assert items[..i + 1][..i] == items[..i];
        var _ := Add(items[i].0, items[i].1, now);
      }
      assert items[..|items|] == items;
    }
  }

  // ---- properties ----

  /**
   * `put` then `match` of the same request, or of its bare URL, at the same
   * instant is a HIT; for a 204, 205 or 304 response it throws instead.
   */
  lemma PutThenMatchHit(b: Blobs, name: string, request: Request, response: Response, now: int)
    requires CheckPut(request, response) == Pass
    ensures var after := PutOn(b, name, request, response, now);
      forall info | info == RequestObject(request) || info == UrlString(request.url) ::
        var m := MatchOn(after, name, info, now);
        && (Servable(response) ==> FreshHit(m, response))
        && (!Servable(response) ==> m.response.None? && m.error == Some(BodyWithNullBodyStatus(response.status)))
  {
    var after := PutOn(b, name, request, response, now);
    CacheRules.PutThenMatchHit(b, Cache.StoreName(name), request.url, request.url, response, now);
    var m := MatchAt(after, Cache.StoreName(name), request.url, request.url, now);
    assert !Servable(response) ==> m.error == Some(BodyWithNullBodyStatus(response.status));
    forall info | info == RequestObject(request) || info == UrlString(request.url)
      ensures MatchOn(after, name, info, now) == m
    {
      assert info.Url() == request.url;
    }
  }

  /**
   * With no stale-while-revalidate window on the stored entry (or no entry),
   * `match` never serves `STALE` and never asks for a refresh.
   */
  lemma NeverStaleWithoutSwr(b: Blobs, name: string, info: RequestInfo, now: int)
    requires var ns := Ns(b, Cache.StoreName(name));
      info.Url() in ns.entries ==> Directives.StaleWhileRevalidate(ns.entries[info.Url()].metadata.headers) == 0
    ensures var m := MatchOn(b, name, info, now);
      && m.refresh == None
      && (m.response.Some? ==> Get(m.response.value.headers, "cache") == Some("HIT"))
  {
    if info.Url() in Ns(b, Cache.StoreName(name)).entries {
      CacheRules.NeverStaleWithoutSwr(b, Cache.StoreName(name), info.Url(), info.Url(), now);
    }
  }

  /** Deleting twice leaves the store as deleting once. */
  lemma DeleteIdempotent(b: Blobs, name: string, url: string)
    ensures var once := RemoveIn(b, Cache.StoreName(name), url);
      RemoveIn(once, Cache.StoreName(name), url) == once
  {
    var sn := Cache.StoreName(name);
    Cache.DropIdempotent(Ns(b, sn).order, url);
    assert Ns(b, sn).entries - {url} - {url} == Ns(b, sn).entries - {url};
  }

  /** A filtered listing keeps exactly the occurrences of the filter's URL. */
  lemma {:induction false} RawKeysOfUrl(ks: seq<string>, request: Request)
    ensures RawKeys(ks, Some(request)) == Occurrences(ks, request.url)
  {
    if ks != [] {
      RawKeysOfUrl(ks[..|ks| - 1], request);
    }
  }

  /**
   * In a valid namespace, `keys(request)` is `[request.url]` when that URL is
   * stored and empty otherwise; `keys()` is the whole listing.
   */
  lemma KeysOfStoredUrl(ns: Namespace, request: Request)
    requires ns.Valid()
    ensures RawKeys(ns.order, Some(request)) == (if request.url in ns.entries then [request.url] else [])
  {
    RawKeysOfUrl(ns.order, request);
    ListedOnce(ns.order, request.url);
  }

  /**
   * From an empty store, putting one request and then matching any request
   * gives the same response, error and refresh here as in src/cache.ts: the two
   * classes differ only in how they name the key.
   */
  lemma AgreesWithCache(name: string, request: Request, response: Response, t: int, info: RequestInfo, now: int)
    ensures var mi := MatchOn(PutOn(map[], name, request, response, t), name, info, now);
      var mc := Cache.MatchOn(Cache.PutOn(map[], name, request, response, t), name, info, now);
      mi.response == mc.response && mi.error == mc.error && mi.refresh == mc.refresh
  {
    if info.Url() != request.url {
      Cache.ToKeyInjective(info.Url(), request.url);
    }
  }
}
