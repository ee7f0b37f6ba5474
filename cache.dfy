/**
 * `BlobCache` of src/cache.ts: the Cache interface over one namespace of the
 * blob store, with every URL percent-encoded into its store key.
 */
module Cache {
  import opened Wrappers
  import opened Http
  import opened Freshness
  import opened Directives
  import opened UriComponent
  import opened BlobStore
  import opened CacheRules

  /** `toKey(url)`: the percent-encoded URL, which decodes back to the URL. */
  function ToKey(url: string): (key: string)
    ensures KeySafe(key)
    ensures Decode(key) == Some(url)
  {
    DecodeEncode(url);
    Encode(url)
  }

  /** Distinct URLs never share a store key. */
  lemma ToKeyInjective(u: string, v: string)
    requires u != v
    ensures ToKey(u) != ToKey(v)
  {
    if ToKey(u) == ToKey(v) {
      EncodeInjective(u, v);
    }
  }

  /** The namespace a cache called `name` uses in the store: the prefix, then the name itself. */
  function StoreName(name: string): (r: string)
    ensures |r| == 10 + |name| && r[..10] == "blobcache-" && r[10..] == name
  {
    "blobcache-" + name
  }

  lemma StoreNameInjective(a: string, b: string)
    requires a != b
    ensures StoreName(a) != StoreName(b)
  {
    assert StoreName(a)[10..] == a && StoreName(b)[10..] == b;
  }

  /** `match(request)` as a function of the store: a non-GET `Request` is a miss without reading. */
  function MatchOn(b: Blobs, name: string, request: RequestInfo, now: int): (m: MatchOutcome)
    ensures request.RequestObject? && request.request.httpMethod != "GET" ==> m == MatchOutcome(None, None, None, b)
    ensures ToKey(request.Url()) !in Ns(b, StoreName(name)).entries ==> m == MatchOutcome(None, None, None, b)
    ensures m.after == b || m.after == RemoveIn(b, StoreName(name), ToKey(request.Url()))
  {
    if request.RequestObject? && request.request.httpMethod != "GET" then MatchOutcome(None, None, None, b)
    else MatchAt(b, StoreName(name), ToKey(request.Url()), request.Url(), now)
  }

  /** `put(request, response)` as a function of the store: written only when every check passes. */
  function PutOn(b: Blobs, name: string, request: Request, response: Response, now: int): (r: Blobs)
    ensures CheckPut(request, response).Fail? ==> r == b
    ensures CheckPut(request, response) == Pass ==>
      Ns(r, StoreName(name)).Lookup(ToKey(request.url)) == Some(Stored(response, now))
    ensures forall k :: k != ToKey(request.url) ==> Ns(r, StoreName(name)).Lookup(k) == Ns(b, StoreName(name)).Lookup(k)
    ensures forall other :: other != StoreName(name) ==> Ns(r, other) == Ns(b, other)
    ensures AllValid(b) ==> AllValid(r)
  {
    if CheckPut(request, response) == Pass then StoreIn(b, StoreName(name), ToKey(request.url), Stored(response, now))
    else b
  }

  /** `addAll`: the adds one after the other, each failure ignored. */
  function AddAllOn(b: Blobs, name: string, items: seq<(RequestInfo, Response)>, now: int): (r: Blobs)
    ensures forall other :: other != StoreName(name) ==> Ns(r, other) == Ns(b, other)
    ensures forall k | forall i | 0 <= i < |items| :: ToKey(items[i].0.Url()) != k ::
      Ns(r, StoreName(name)).Lookup(k) == Ns(b, StoreName(name)).Lookup(k)
    ensures AllValid(b) ==> AllValid(r)
  {
    if items == [] then b
    else
      var last := items[|items| - 1];
      PutOn(AddAllOn(b, name, items[..|items| - 1], now), name, ToRequest(last.0), last.1, now)
  }

  /** `keys` keeps a listed key when there is no filter or it is the filter's key. */
  predicate Selected(filter: Option<Request>, key: string) {
    filter.None? || ToKey(filter.value.url) == key
  }

  /**
   * `keys(request?)` over the listed keys: the selected keys decoded, in list
   * order, or the `URIError` of the first selected key that does not decode.
   */
  function ListedKeys(ks: seq<string>, filter: Option<Request>): (r: Result<seq<string>, Failure>)
    ensures r.Ok? ==> |r.value| <= |ks|
  {
    if ks == [] then Ok([])
    else
      var key := ks[|ks| - 1];
      match ListedKeys(ks[..|ks| - 1], filter)
      case Err(f) => Err(f)
      case Ok(urls) =>
        if !Selected(filter, key) then Ok(urls)
        else match Decode(key)
          case None => Err(MalformedKey(key))
          case Some(u) => Ok(urls + [u])
  }

  /** A failed listing names a selected listed key that does not decode. */
  lemma {:induction false} ListedKeysErrIsMalformed(ks: seq<string>, filter: Option<Request>)
    ensures ListedKeys(ks, filter).Err? ==> exists i | 0 <= i < |ks| ::
      && ListedKeys(ks, filter) == Err(MalformedKey(ks[i]))
      && Selected(filter, ks[i]) && Decode(ks[i]).None?
  {
    if ks != [] {
      var init := ks[..|ks| - 1];
      ListedKeysErrIsMalformed(init, filter);
      if ListedKeys(init, filter).Err? {
        var i :| 0 <= i < |init| && ListedKeys(init, filter) == Err(MalformedKey(init[i])) && Selected(filter, init[i]) && Decode(init[i]).None?;
        assert ks[i] == init[i];
      }
    }
  }

  /** Once a prefix of the listing fails, the whole listing fails the same way. */
  lemma {:induction false} ListedKeysErrSticks(ks: seq<string>, i: nat, filter: Option<Request>)
    requires i <= |ks| && ListedKeys(ks[..i], filter).Err?
    ensures ListedKeys(ks, filter) == ListedKeys(ks[..i], filter)
    decreases |ks| - i
  {
    if i < |ks| {
      assert ks[..i + 1][..i] == ks[..i];
      ListedKeysErrSticks(ks, i + 1, filter);
    } else {
      assert ks[..i] == ks;
    }
  }

  class BlobCache {
    const name: string
    const service: BlobService

    constructor(name: string, service: BlobService)
      ensures this.name == name && this.service == service
    {
      this.name := name;
      this.service := service;
    }

    /** `put`: throws on the first failed check and writes nothing; otherwise overwrites the entry. */
    method Put(request: Request, response: Response, now: int) returns (r: Outcome<Failure>)
      modifies service
      ensures r == CheckPut(request, response)
      ensures r.Fail? ==> service.blobs == old(service.blobs)
      ensures r.Pass? ==> service.blobs == StoreIn(old(service.blobs), StoreName(name), ToKey(request.url), Stored(response, now))
    {
      r := CheckPut(request, response);
      if r.Pass? {
        service.Set(StoreName(name), ToKey(request.url), Stored(response, now));
      }
    }

    /** `match`: the served response or the error thrown (if any), and the refresh it requests (if any). */
    method Match(request: RequestInfo, now: int) returns (response: Option<Response>, error: Option<Failure>, refresh: Option<string>)
      modifies service
      ensures MatchOutcome(response, error, refresh, service.blobs) == MatchOn(old(service.blobs), name, request, now)
    {
      var url := request.Url();
      if request.RequestObject? && request.request.httpMethod != "GET" {
        return None, None, None;
      }
      var key := ToKey(url);
      var found := service.GetWithMetadata(StoreName(name), key);
      if found.None? {
        return None, None, None;
      }
      var e := found.value;
      var verdict := VerdictOf(e, now);
      if verdict == Expired {
        service.Delete(StoreName(name), key);
        return None, None, None;
      }
      var stale := verdict == Stale;
      refresh := if stale then Some(url) else None;
      error := RebuildError(e.metadata.status.GetOr(200));
      response := if error.None? then Some(Served(e, stale)) else None;
    }

    /** `matchAll`: no request (or an empty URL) gives none; otherwise the one match or none, or what `match` throws. */
    method MatchAll(request: Option<RequestInfo>, now: int) returns (responses: seq<Response>, error: Option<Failure>, refresh: Option<string>)
      modifies service
      ensures |responses| <= 1
      ensures request.None? || request == Some(UrlString("")) ==>
        responses == [] && error == None && refresh == None && service.blobs == old(service.blobs)
      ensures request.Some? && request != Some(UrlString("")) ==>
        var m := MatchOn(old(service.blobs), name, request.value, now);
        && responses == (if m.response.Some? then [m.response.value] else [])
        && error == m.error && refresh == m.refresh && service.blobs == m.after
    {
      if request.None? || request == Some(UrlString("")) {
        return [], None, None;
      }
      var res;
      res, error, refresh := Match(request.value, now);
      responses := if res.Some? then [res.value] else [];
    }

    /** `delete`: removes the entry and reports true whether or not it existed. */
    method Delete(request: Request) returns (deleted: bool)
      modifies service
      ensures deleted
      ensures service.blobs == RemoveIn(old(service.blobs), StoreName(name), ToKey(request.url))
    {
      service.Delete(StoreName(name), ToKey(request.url));
      deleted := true;
    }

    /** `keys(request?)`: the decoded listed keys, filtered to the request's key when one is given. */
    method Keys(filter: Option<Request>) returns (r: Result<seq<string>, Failure>)
      ensures r == ListedKeys(Ns(service.blobs, StoreName(name)).order, filter)
    {
      var blobs := service.List(StoreName(name));
      var keys: seq<string> := [];
      for i := 0 to |blobs|
        invariant ListedKeys(blobs[..i], filter) == Ok(keys)
      {
        var key := blobs[i];
        assert blobs[..i + 1][..i] == blobs[..i];
        if filter.None? || ToKey(filter.value.url) == key {
          var decoded := Decode(key);
          if decoded.None? {
            ListedKeysErrSticks(blobs, i + 1, filter);
            return Err(MalformedKey(key));
          }
          keys := keys + [decoded.value];
        }
      }
      assert blobs[..|blobs|] == blobs;
      r := Ok(keys);
    }

    /** `add`: the fetched response (given here) is `put` under `new Request(request)`. */
    method Add(request: RequestInfo, fetched: Response, now: int) returns (r: Outcome<Failure>)
      modifies service
      ensures r == CheckPut(ToRequest(request), fetched)
      ensures service.blobs == PutOn(old(service.blobs), name, ToRequest(request), fetched, now)
    {
      r := Put(ToRequest(request), fetched, now);
    }

    /** `addAll`: every add, one after the other; failures are ignored. */
    method AddAll(items: seq<(RequestInfo, Response)>, now: int)
      modifies service
      ensures service.blobs == AddAllOn(old(service.blobs), name, items, now)
    {
      for i := 0 to |items|
        invariant service.blobs == AddAllOn(old(service.blobs), name, items[..i], now)
      {
        assert items[..i + 1][..i] == items[..i];
        var _ := Add(items[i].0, items[i].1, now);
      }
      assert items[..|items|] == items;
    }
  }

  // ---- properties ----

  /**
   * `put` then `match` of the same request at the same instant is a HIT
   * with the body and status that were put; so is a `match` by the bare URL.
   * A 204, 205 or 304 response passes `put`'s checks, but matching it back
   * throws instead.
   */
  lemma PutThenMatchHit(b: Blobs, name: string, request: Request, response: Response, now: int)
    requires CheckPut(request, response) == Pass
    ensures var after := PutOn(b, name, request, response, now);
      forall info | info == RequestObject(request) || info == UrlString(request.url) ::
        var m := MatchOn(after, name, info, now);
        && (Servable(response) ==> FreshHit(m, response))
        && (!Servable(response) ==> m.response.None? && m.error == Some(BodyWithNullBodyStatus(response.status)))
  {
    var after := PutOn(b, name, request, response, now);
    CacheRules.PutThenMatchHit(b, StoreName(name), ToKey(request.url), request.url, response, now);
    forall info | info == RequestObject(request) || info == UrlString(request.url)
      ensures MatchOn(after, name, info, now) == MatchAt(after, StoreName(name), ToKey(request.url), request.url, now)
    {
      assert info.Url() == request.url;
    }
  }

  /** Deleting twice leaves the store as deleting once. */
  lemma DeleteIdempotent(b: Blobs, name: string, url: string)
    ensures var once := RemoveIn(b, StoreName(name), ToKey(url));
      RemoveIn(once, StoreName(name), ToKey(url)) == once
  {
    var sn, k := StoreName(name), ToKey(url);
    DropIdempotent(Ns(b, sn).order, k);
    assert Ns(b, sn).entries - {k} - {k} == Ns(b, sn).entries - {k};
  }

  lemma {:induction false} DropIdempotent(ks: seq<string>, k: string)
    ensures Drop(Drop(ks, k), k) == Drop(ks, k)
  {
    if ks != [] {
      DropIdempotent(ks[1..], k);
      if ks[0] != k {
        assert ([ks[0]] + Drop(ks[1..], k))[1..] == Drop(ks[1..], k);
      }
    }
  }

  /** A filtered listing decodes only the filter's own key, so it names the URL. */
  lemma {:induction false} ListedKeysOfUrl(ks: seq<string>, request: Request)
    ensures ListedKeys(ks, Some(request)) == Ok(seq(|Occurrences(ks, ToKey(request.url))|, _ => request.url))
  {
    if ks != [] {
      var init, key := ks[..|ks| - 1], ks[|ks| - 1];
      ListedKeysOfUrl(init, request);
      var n := |Occurrences(init, ToKey(request.url))|;
      if key == ToKey(request.url) {
        assert seq(n, _ => request.url) + [request.url] == seq(n + 1, _ => request.url);
      }
    } else {
      assert seq(0, _ => request.url) == [];
    }
  }

  /**
   * In a valid namespace, `keys(request)` is `[request.url]` when that URL is
   * stored and empty otherwise.
   */
  lemma KeysOfStoredUrl(ns: Namespace, request: Request)
    requires ns.Valid()
    ensures ListedKeys(ns.order, Some(request)) == Ok(if ToKey(request.url) in ns.entries then [request.url] else [])
  {
    ListedKeysOfUrl(ns.order, request);
    ListedOnce(ns.order, ToKey(request.url));
    assert seq(1, _ => request.url) == [request.url];
  }

  /** Keys written by `put` are listed back as the URLs that were put, in list order. */
  lemma {:induction false} KeysListPutUrls(urls: seq<string>)
    ensures ListedKeys(seq(|urls|, i requires 0 <= i < |urls| => ToKey(urls[i])), None) == Ok(urls)
  {
    if urls != [] {
      var ks := seq(|urls|, i requires 0 <= i < |urls| => ToKey(urls[i]));
      var init := urls[..|urls| - 1];
      var last := urls[|urls| - 1];
      KeysListPutUrls(init);
      assert ks[..|ks| - 1] == seq(|init|, i requires 0 <= i < |init| => ToKey(init[i]));
      assert ks[|ks| - 1] == ToKey(last) && Decode(ToKey(last)) == Some(last);
      assert init + [last] == urls;
    }
  }

  /**
   * Two puts with distinct URLs into an empty cache: `keys()` lists exactly
   * the two URLs, and `keys(r1)` only the first.
   */
  lemma {:induction false} TwoPutsListed(name: string, r1: Request, p1: Response, r2: Request, p2: Response, t1: int, t2: int)
    requires CheckPut(r1, p1) == Pass && CheckPut(r2, p2) == Pass && r1.url != r2.url
    ensures var b := PutOn(PutOn(map[], name, r1, p1, t1), name, r2, p2, t2);
      && ListedKeys(Ns(b, StoreName(name)).order, None) == Ok([r1.url, r2.url])
      && ListedKeys(Ns(b, StoreName(name)).order, Some(r1)) == Ok([r1.url])
  {
    TwoPutsStored(name, r1, p1, r2, p2, t1, t2);
    var b := PutOn(PutOn(map[], name, r1, p1, t1), name, r2, p2, t2);
    TwoKeysListed(Ns(b, StoreName(name)), r1, r2);
  }

  lemma TwoPutsStored(name: string, r1: Request, p1: Response, r2: Request, p2: Response, t1: int, t2: int)
    requires CheckPut(r1, p1) == Pass && CheckPut(r2, p2) == Pass && r1.url != r2.url
    ensures var ns := Ns(PutOn(PutOn(map[], name, r1, p1, t1), name, r2, p2, t2), StoreName(name));
      ns.Valid() && ns.order == [ToKey(r1.url), ToKey(r2.url)]
  {
    var b1 := PutOn(map[], name, r1, p1, t1);
    FirstPutStored(name, r1, p1, t1);
    ToKeyInjective(r1.url, r2.url);
    PutOnNamespace(b1, name, r2, p2, t2);
  }

  lemma FirstPutStored(name: string, r: Request, p: Response, t: int)
    requires CheckPut(r, p) == Pass
    ensures var ns := Ns(PutOn(map[], name, r, p, t), StoreName(name));
      ns.Valid() && ns.order == [ToKey(r.url)] && ns.entries.Keys == {ToKey(r.url)}
  {
    PutOnNamespace(map[], name, r, p, t);
    assert Ns(map[], StoreName(name)) == EmptyNamespace;
  }

  /** A `put` that passes the checks stores the entry in the cache's namespace. */
  lemma PutOnNamespace(b: Blobs, name: string, r: Request, p: Response, t: int)
    requires CheckPut(r, p) == Pass
    ensures Ns(PutOn(b, name, r, p, t), StoreName(name)) == Ns(b, StoreName(name)).Store(ToKey(r.url), Stored(p, t))
  {
  }

  lemma TwoKeysListed(ns: Namespace, r1: Request, r2: Request)
    requires ns.Valid() && ns.order == [ToKey(r1.url), ToKey(r2.url)]
    ensures ListedKeys(ns.order, None) == Ok([r1.url, r2.url])
    ensures ListedKeys(ns.order, Some(r1)) == Ok([r1.url])
  {
    var urls := [r1.url, r2.url];
    assert ns.order == seq(|urls|, i requires 0 <= i < |urls| => ToKey(urls[i]));
    KeysListPutUrls(urls);
    KeysOfStoredUrl(ns, r1);
  }

  /**
   * An entry put at time 0 with `max-age=1, stale-while-revalidate=1` and
   * matched at 3 seconds is a miss, and `keys` no longer lists it.
   */
  lemma {:induction false} ExpiredEntryCleanedUp(b: Blobs, name: string, request: Request, response: Response)
    requires AllValid(b) && CheckPut(request, response) == Pass
    requires CacheControl(response.headers) == "max-age=1, stale-while-revalidate=1"
    ensures var m := MatchOn(PutOn(b, name, request, response, 0), name, RequestObject(request), 3000);
      && !m.Settled()
      && ListedKeys(Ns(m.after, StoreName(name)).order, Some(request)) == Ok([])
  {
    var sn, key := StoreName(name), ToKey(request.url);
    var after := PutOn(b, name, request, response, 0);
    OneSecondWindows(b, sn, key, request.url, response, 0, 3000);
    var m := MatchOn(after, name, RequestObject(request), 3000);
    assert AllValid(m.after);
    KeysOfStoredUrl(Ns(m.after, sn), request);
  }

  /** After `addAll`, every item whose response passed the checks is stored. */
  lemma {:induction false} AddAllStoresAccepted(b: Blobs, name: string, items: seq<(RequestInfo, Response)>, now: int, i: nat)
    requires i < |items| && CheckPut(ToRequest(items[i].0), items[i].1) == Pass
    ensures ToKey(items[i].0.Url()) in Ns(AddAllOn(b, name, items, now), StoreName(name)).entries
  {
    var init := items[..|items| - 1];
    if i < |items| - 1 {
      AddAllStoresAccepted(b, name, init, now, i);
      assert init[i] == items[i];
    }
  }
}
