# blobcache in Dafny

A model of blobcache's HTTP-response cache. The cache implements the service-worker
`Cache` interface (`put`, `match`, `matchAll`, `delete`, `keys`, `add`, `addAll`) on top
of an external key-value blob store, and adds freshness rules driven by the stored
`cache-control` header:

- a response younger than `max-age` is served with `cache: HIT`;
- one inside the following `stale-while-revalidate` window is served with
  `cache: STALE` and triggers a refresh of its URL;
- anything older is deleted and reported as a miss.

A `BlobCacheStorage` registry (the `CacheStorage` interface) keeps named caches in
insertion order. It matches either one named cache or the first cache that answers.

The model has these modules:

- `Wrappers`: `Option`, `Result` and `Outcome`.
- `Http`: requests, responses and header lists, with the case-insensitive `get`/`set`
  of a `Headers` object.
- `Directives`: `max-age` and `stale-while-revalidate` read the way the code reads them.
  The code takes the leftmost match of `<name>=(\d+)`, or 0 when there is none.
- `Freshness`: the Fresh/Stale/Expired verdict. It uses the code's age in seconds, and
  its contract restates it in whole milliseconds.
- `UriComponent`: ECMAScript `encodeURIComponent`/`decodeURIComponent` over UTF-8, with
  `URIError` as `None`.
- `BlobStore`: the blob store. It is one `BlobService` object that holds every namespace.
  Each namespace holds a key → (body, metadata) map and the order in which `list`
  returns the keys.
- `CacheRules`: the rules both cache classes share. They cover `put` validation, the
  stored entry, the served response, and the `match` decision once the store key is
  known.
- `Cache`: src/cache.ts. Keys are percent-encoded URLs, and `keys` decodes them.
- `IndexCache`: src/index.ts, the older copy of the class. Keys are the raw URLs.
- `CacheStorage`: src/cachestorage.ts.

Each cache class has a function of the store that specifies each operation (`MatchOn`,
`PutOn`, `AddAllOn`, `ListedKeys`/`RawKeys`). Its methods are proved against those
functions, and the lemmas state the properties of the functions.

The registry's scan (`ScanWith`) is stated for any per-cache `match` that is `Local`:
it reads and changes only its own cache's namespace, and a hit changes nothing.
`MatchStepIsLocal` proves this of the `match` of src/cache.ts, so the general lemmas
apply to the registry's own `Scan`.

The clock, the fetched response and the stale refresh are explicit:

- `now` (milliseconds) is a parameter.
- `add` receives the response `fetch` would have produced.
- `match` returns the URL whose refresh it requests instead of starting it.
- What `match` throws is returned as an `error`: the `Response` constructor refuses a
  stored status outside 200–599, or a 204, 205 or 304 status with a body.

Two consequences of the code:

- With no `cache-control` header, both directives read as 0. An entry is then Expired
  (deleted, a miss) as soon as any time has passed. It is never served stale with a
  refresh.
- With `max-age=100` and no `stale-while-revalidate`, a `match` at 100.1 seconds is
  already a miss that deletes the entry, not a STALE hit (`CacheRules.HundredSecondBoundary`).

## Model

| member | source | states |
|---|---|---|
| Http.ToRequest | src/cache.ts:33-35 | `new Request(info)` keeps the URL; a bare URL string becomes a GET request, and a `Request` is kept as it is, method included |
| Http.Get | src/cache.ts:68 | `headers.get(name)` is absent exactly when no header has that name (case-insensitively); a single value is returned unchanged |
| Http.Set | src/cache.ts:125 | after `headers.set(name, v)` the header reads exactly `v` and every other header reads as before |
| Directives.FirstMatch | src/cache.ts:105-107 | the regex search finds a match of `<name>\d` at or after the start position, and no match lies between the two; none means no match at all |
| Directives.DigitRun | src/cache.ts:106 | the greedy `\d+` capture is a prefix made of digits that stops at the first non-digit |
| Directives.Directive | src/cache.ts:105-112 | the directive is 0 when the pattern never matches, and otherwise the decimal value of the digits after its leftmost match |
| Directives.DirectiveAt | src/cache.ts:105-112 | when `<name>=` stands at position i, its first letter occurs nowhere before i, and digits follow up to a non-digit or the end, the directive is the decimal value of those digits |
| Directives.CacheControl | src/cache.ts:104 | an absent `cache-control` header reads as the empty string, a present one as its combined value |
| Directives.MaxAge | src/cache.ts:105-108 | max-age is the number after the leftmost `max-age=<digit>` in `cache-control`, or 0 when there is no such match |
| Directives.StaleWhileRevalidate | src/cache.ts:109-112 | stale-while-revalidate is the number after the leftmost `stale-while-revalidate=<digit>`, or 0 when there is no such match |
| Directives.MissingHeaderGivesZero | src/cache.ts:104-112 | without a `cache-control` header both max-age and stale-while-revalidate are 0 |
| Directives.MaxAgeHundred | src/cache.ts:105-112 | `max-age=100` reads as max-age 100 and stale-while-revalidate 0 |
| Directives.MaxAgeOneSwrOne | src/cache.ts:105-112 | `max-age=1, stale-while-revalidate=1` reads as 1 and 1 |
| Directives.LeftmostWins | src/cache.ts:106 | with two `max-age` directives the leftmost one counts |
| Freshness.Classify | src/cache.ts:113-123 | with d the milliseconds since the write: Expired iff d > 1000·(maxAge+swr), Stale iff 1000·maxAge < d ≤ 1000·(maxAge+swr), Fresh iff d ≤ 1000·maxAge |
| Freshness.VerdictMonotone | src/cache.ts:113-123 | as the clock advances an entry only moves Fresh → Stale → Expired |
| Freshness.NoStaleWithoutSwr | src/cache.ts:115-123 | with swr = 0 an entry is never Stale; it is Expired exactly when older than max-age |
| Freshness.FreshWhenJustWritten | src/cache.ts:113-123 | an entry read at the instant of its write is Fresh |
| UriComponent.Encode | src/cache.ts:12-14 | the percent-encoded key contains only unreserved characters and `%` |
| UriComponent.EncodeWellEscaped | src/cache.ts:12-14 | every `%` of the encoding is followed by two upper-case hex digits |
| UriComponent.Decode | src/cache.ts:154 | a key without `%` decodes to itself, and decoding never makes a string longer |
| UriComponent.DecodeEncode | src/cache.ts:154 | decoding an encoded URL gives the URL back (never a `URIError`) |
| UriComponent.DecodeEncodeChar | src/cache.ts:154 | decoding consumes one encoded character (its 1 to 4 UTF-8 escapes) and continues with the rest |
| UriComponent.EncodeInjective | src/cache.ts:12-14 | distinct URLs have distinct encodings |
| BlobStore.Drop | src/cache.ts:143 | the listing without the key keeps every other key and stays duplicate-free |
| BlobStore.DropAppend | src/cache.ts:143 | dropping a key works piece by piece (`Drop(a + b) == Drop(a) + Drop(b)`), so the remaining keys keep their order |
| BlobStore.Namespace.Lookup | src/cache.ts:93-99 | a lookup finds an entry exactly when the key is stored |
| BlobStore.Namespace.Store | src/cache.ts:78-80 | `set` makes the key read the new entry, leaves other keys alone, appends a new key to the listing and keeps an overwritten key's place |
| BlobStore.Namespace.Remove | src/cache.ts:143 | `delete` makes the key absent and unlisted and leaves other keys alone |
| BlobStore.StoreIn | src/cache.ts:78-80 | a write changes only its own namespace and keeps every namespace valid |
| BlobStore.RemoveIn | src/cache.ts:119 | a delete changes only its own namespace and keeps every namespace valid |
| BlobStore.ListedOnce | src/cache.ts:150-152 | in a listing without duplicates a key occurs once if listed and not at all otherwise |
| BlobStore.BlobService.Set | src/cache.ts:78-80 | the store after `set` is `StoreIn` of the store before |
| BlobStore.BlobService.GetWithMetadata | src/cache.ts:93-95 | returns the stored entry, or none for a missing key |
| BlobStore.BlobService.Delete | src/cache.ts:119 | the store after `delete` is `RemoveIn` of the store before |
| BlobStore.BlobService.List | src/cache.ts:150 | returns the namespace's keys in listing order |
| CacheRules.CheckPut | src/cache.ts:52-70 | `put` passes iff the status is 200–299, the method GET, the status not 206 and `vary` has no `*`; otherwise it fails with the first of those checks that fails, in that order |
| CacheRules.VaryWildcardIffAnyHeader | src/cache.ts:68 | `vary` contains `*` exactly when some header entry named `vary`, in any letter case, has a `*` in its value |
| CacheRules.PartialContentRejected | src/cache.ts:62-66 | a 206 response is never stored |
| CacheRules.Stored | src/cache.ts:72-80 | the stored entry carries the write time, and serving it gives back the body, the status and every header but `cache` that were put |
| CacheRules.VerdictOf | src/cache.ts:113-123 | an entry is Fresh iff at most max-age seconds old, and Expired iff more than max-age + stale-while-revalidate seconds old, both read from its own headers |
| CacheRules.Served | src/cache.ts:123-137 | the served response has the stored body, the stored status (200 when missing), `cache: HIT` or `STALE`, and otherwise the stored headers |
| CacheRules.RebuildError | src/cache.ts:134-137 | `new Response(body, {status})` throws a `RangeError` iff the status is outside 200–599, then a `TypeError` iff it is 204, 205 or 304, and succeeds otherwise |
| CacheRules.MatchAt | src/cache.ts:93-137 | a miss (no response, no error) iff the key is absent or Expired; Expired entries are deleted and nothing else changes; a refresh of the URL is requested iff the entry is Stale, also when rebuilding then throws; a live entry gives the rebuild error of its status, or `Served(entry)` when there is none |
| CacheRules.NeverStaleWithoutSwr | src/cache.ts:109-132 | with swr = 0 `match` never serves STALE or requests a refresh, and misses exactly when the entry is older than max-age |
| CacheRules.PutThenMatchHit | src/cache.ts:52-137 | `put` then `match` at the same instant changes nothing; it is a HIT with the body and status put and no refresh, or the rebuild error when the status is one the `Response` constructor refuses |
| CacheRules.OneSecondWindows | src/cache.ts:113-137 | `max-age=1, stale-while-revalidate=1`: HIT up to 1 s, STALE with a refresh up to 2 s (in both, the rebuild error instead of a response for a refused status), then deleted and unlisted |
| CacheRules.HundredSecondBoundary | src/cache.ts:113-121 | `max-age=100`: live with no refresh at 99.9 s (served iff the status is servable); at 100.1 s a miss with no refresh |
| CacheRules.NoContentPutThenMatchThrows | src/cache.ts:52-137 | a GET with an empty 204 response passes every check of `put`, and matching it back throws the `TypeError` of a body with a null-body status |
| CacheRules.CheckServablePut | src/cache.ts:52-70 | the corrected checks pass iff `put`'s checks pass and the status is one `match` can rebuild; a failed `put` check is reported unchanged |
| CacheRules.ServablePutThenMatchHit | src/cache.ts:52-137 | with the corrected checks, whatever is stored is matched back at the same instant as a HIT with the body and status put |
| Cache.ToKey | src/cache.ts:12-14 | the store key is key-safe and decodes back to the URL |
| Cache.ToKeyInjective | src/cache.ts:12-14 | distinct URLs never share a store key |
| Cache.StoreName | src/cache.ts:30 | the namespace is `blobcache-` followed by the cache name, which can be read back from it |
| Cache.StoreNameInjective | src/cache.ts:30 | distinct cache names use distinct store namespaces |
| Cache.MatchOn | src/cache.ts:83-138 | a non-GET `Request` or an unstored URL is a miss that changes nothing; the only change `match` can make is deleting the URL's own entry |
| Cache.PutOn | src/cache.ts:52-81 | a failed check changes nothing; otherwise the URL's key reads the stored entry; no other key and no other namespace changes, and valid namespaces stay valid |
| Cache.AddAllOn | src/cache.ts:37-39 | `addAll` changes no other namespace and no key that none of the items names, and keeps namespaces valid |
| Cache.ListedKeys | src/cache.ts:147-159 | a listing lists at most one URL per listed key |
| Cache.ListedKeysErrIsMalformed | src/cache.ts:152-156 | a failed listing names a selected listed key that does not decode |
| Cache.ListedKeysErrSticks | src/cache.ts:152-156 | once decoding a selected key throws, `keys` throws that error |
| Cache.BlobCache.constructor | src/cache.ts:23-31 | the cache has the given name and store |
| Cache.BlobCache.Put | src/cache.ts:52-81 | returns the `CheckPut` verdict; on failure the store is unchanged, on success the entry (body, status, headers, now) is written under `toKey(url)` |
| Cache.BlobCache.Match | src/cache.ts:83-138 | response, error, refresh and the new store are those of `MatchOn` on the old store |
| Cache.BlobCache.MatchAll | src/cache.ts:41-50 | no request or an empty URL gives no responses and no change; otherwise the match result (or its error) as a list of at most one |
| Cache.BlobCache.Delete | src/cache.ts:140-145 | always returns true; the key is removed from the store |
| Cache.BlobCache.Keys | src/cache.ts:147-159 | returns `ListedKeys` of the listing: the selected keys decoded in listing order, or the first `URIError` |
| Cache.BlobCache.Add | src/cache.ts:33-35 | `put(new Request(request), fetched)`: the same verdict and store effect |
| Cache.BlobCache.AddAll | src/cache.ts:37-39 | the store after `addAll` is every add applied in turn, failures ignored |
| Cache.PutThenMatchHit | src/cache.ts:52-138 | after `put`, matching the request or its bare URL at the same instant is a HIT with the body and status put; for a 204, 205 or 304 response it throws the null-body `TypeError` instead |
| Cache.DeleteIdempotent | src/cache.ts:140-145 | deleting twice leaves the store as deleting once |
| Cache.DropIdempotent | src/cache.ts:143 | dropping a key from a listing twice equals dropping it once |
| Cache.ListedKeysOfUrl | src/cache.ts:147-159 | `keys(request)` lists the request's URL once per occurrence of its key |
| Cache.KeysOfStoredUrl | src/cache.ts:147-159 | in a valid namespace `keys(request)` is `[url]` when stored and `[]` otherwise |
| Cache.KeysListPutUrls | src/cache.ts:147-159 | keys written by `put` are listed back by `keys()` as the exact URLs, in order |
| Cache.TwoPutsListed | src/cache.ts:52-81 | two puts of distinct URLs into an empty cache: `keys()` is both URLs in put order, `keys(r1)` only the first |
| Cache.ExpiredEntryCleanedUp | src/cache.ts:113-121 | an entry with `max-age=1, stale-while-revalidate=1` matched at 3 s is a miss and no longer listed |
| Cache.AddAllStoresAccepted | src/cache.ts:37-39 | after `addAll`, every item whose response passed the checks is stored |
| IndexCache.MatchAsWritten | src/index.ts:73-90 | as written, `match` throws exactly when the request is GET-able and its URL is not stored; otherwise it agrees with `MatchOn` |
| IndexCache.MatchOfMissingUrlThrows | src/index.ts:84-90 | matching a URL on an empty store throws instead of missing |
| IndexCache.MatchOn | src/index.ts:73-127 | a non-GET `Request` or a URL that is not stored is a miss that changes nothing; the only change `match` can make is deleting the URL's own entry |
| IndexCache.PutOn | src/index.ts:42-71 | a failed check changes nothing; otherwise the raw URL reads the stored entry; no other key and no other namespace changes, and valid namespaces stay valid |
| IndexCache.AddAllOn | src/index.ts:27-29 | `addAll` changes no other namespace and no key that none of the items names, and keeps namespaces valid |
| IndexCache.RawKeys | src/index.ts:136-148 | `keys(request?)` holds exactly the listed keys equal to the request's URL, or every listed key unchanged without a request |
| IndexCache.BlobCache.constructor | src/index.ts:19-21 | the cache has the given name and store |
| IndexCache.BlobCache.Put | src/index.ts:42-71 | returns the `CheckPut` verdict; on failure the store is unchanged, on success the entry is written under the raw URL |
| IndexCache.BlobCache.Match | src/index.ts:73-127 | response, error, refresh and the new store are those of `MatchOn` on the old store |
| IndexCache.BlobCache.MatchAll | src/index.ts:31-40 | no request or an empty URL gives no responses; otherwise the match result (or its error) as a list of at most one |
| IndexCache.BlobCache.Delete | src/index.ts:129-134 | always returns true; the raw URL is removed from the store |
| IndexCache.BlobCache.Keys | src/index.ts:136-148 | returns `RawKeys` of the listing |
| IndexCache.BlobCache.Add | src/index.ts:23-25 | `put(new Request(request), fetched)`: the same verdict and store effect |
| IndexCache.BlobCache.AddAll | src/index.ts:27-29 | the store after `addAll` is every add applied in turn, failures ignored |
| IndexCache.PutThenMatchHit | src/index.ts:42-127 | after `put`, matching the request or its bare URL at the same instant is a HIT with the body and status put; for a 204, 205 or 304 response it throws the null-body `TypeError` instead |
| IndexCache.NeverStaleWithoutSwr | src/index.ts:106-121 | with swr = 0 on the stored entry `match` never serves STALE or requests a refresh |
| IndexCache.DeleteIdempotent | src/index.ts:129-134 | deleting twice leaves the store as deleting once |
| IndexCache.RawKeysOfUrl | src/index.ts:141-144 | the filtered listing is exactly the occurrences of the request's URL |
| IndexCache.KeysOfStoredUrl | src/index.ts:136-148 | in a valid namespace `keys(request)` is `[url]` when stored and `[]` otherwise |
| IndexCache.AgreesWithCache | src/index.ts:42-127 | from an empty store, put then match answers the same response, error and refresh as the src/cache.ts class |
| CacheStorage.Opened | src/cachestorage.ts:20-27 | opening adds the name if missing, keeps the other names and keeps them duplicate-free |
| CacheStorage.Restriction | src/cachestorage.ts:45 | `match` is restricted to one cache exactly when `cacheName` is given and not empty |
| CacheStorage.MatchIn | src/cachestorage.ts:45-47 | a non-empty cache name that is not registered gives a miss that changes nothing |
| CacheStorage.ScanWith | src/cachestorage.ts:48-53 | the scan never requests a refresh unless a cache returned a response or threw |
| CacheStorage.Scan | src/cachestorage.ts:48-53 | the unnamed `match` requests no refresh unless it settles, and changes no namespace outside the registered caches |
| CacheStorage.BlobCacheStorage.constructor | src/cachestorage.ts:15-18 | a new registry is empty and valid |
| CacheStorage.BlobCacheStorage.Open | src/cachestorage.ts:20-27 | a registered name returns the same cache and changes nothing; a new name registers a fresh cache of that name at the end |
| CacheStorage.BlobCacheStorage.Has | src/cachestorage.ts:29-31 | true iff the name is registered |
| CacheStorage.BlobCacheStorage.Delete | src/cachestorage.ts:33-35 | returns whether the name was registered; afterwards it is not, and the other names keep their order |
| CacheStorage.BlobCacheStorage.Keys | src/cachestorage.ts:37-39 | the registered names in insertion order, without duplicates |
| CacheStorage.BlobCacheStorage.Match | src/cachestorage.ts:41-54 | response, error, refresh and new store are `MatchIn`: the named cache alone, or the scan in registration order, which stops at the first response or error |
| CacheStorage.FirstOfIsFirstHit | src/cachestorage.ts:48-53 | the first answer is a miss iff all miss, and otherwise the earliest answer that returns a response or throws |
| CacheStorage.MatchOnOwnNamespace | src/cache.ts:83-138 | a cache's `match` reads and changes only its own namespace, and a `match` that returns a response or throws changes nothing |
| CacheStorage.MatchStepIsLocal | src/cache.ts:83-138 | the `match` of src/cache.ts, as a function of store and cache name, is `Local` |
| CacheStorage.ScanAfterOutside | src/cachestorage.ts:48-53 | with any `Local` per-cache `match`, the scan leaves namespaces of unscanned names alone |
| CacheStorage.MissKeepsLater | src/cachestorage.ts:48-52 | with any `Local` per-cache `match` and distinct names, a miss by the first cache changes nothing a later cache sees |
| CacheStorage.ScanAfterOfWith | src/cachestorage.ts:48-53 | with any `Local` per-cache `match` and distinct names, after the scan each cache's namespace is as its own `match` left it if every earlier cache missed, and untouched otherwise |
| CacheStorage.ScanAfterOf | src/cachestorage.ts:48-53 | the same for the caches of src/cache.ts |
| CacheStorage.ScanIsFirstAnswer | src/cachestorage.ts:48-53 | with any `Local` per-cache `match` and distinct names, the scan answers as the first cache that answers alone on the initial store |
| CacheStorage.ScanFirstHitWith | src/cachestorage.ts:48-53 | with any `Local` per-cache `match` and distinct names, the scan misses iff every cache misses alone, and otherwise gives the answer of the first cache that returns a response or throws |
| CacheStorage.ScanFirstHit | src/cachestorage.ts:48-53 | the same for the caches of src/cache.ts: an unnamed `match` answers as the first registered cache that returns a response or throws |
| CacheStorage.ReopenMovesToEnd | src/cachestorage.ts:20-27 | a deleted name that is opened again moves to the end of `keys()`; opening a registered name changes nothing |
| CacheStorage.SecondCacheAnswers | src/cachestorage.ts:41-54 | with the entry only in the second cache, an unnamed match answers as that cache: its HIT, or the null-body error for a 204, 205 or 304; naming the first cache misses, unless that name is empty |

## Left out

- Store I/O: the blob store is an in-memory `BlobService`. Network failures are not modelled, and neither are the `storeOptions` that select a site.
- Listing order: `list` is assumed to return keys in first-write order. The real store does not promise an order.
- `Date.now()` is a `now` parameter in milliseconds.
- `fetch` in `add` is the `fetched` parameter. A rejected fetch is not modelled.
- The stale refresh at src/cache.ts:131 and src/index.ts:120 is returned as a URL, not run. Its later `put`, and races between refreshes, are not modelled.
- Each call on a cache or on the registry is atomic in the model, although the code awaits inside them and other calls can interleave. A `put` that lands between `match`'s `getWithMetadata` and its `delete` of an expired entry (src/cache.ts:93-119) would be lost; an `open` or `delete` during the registry's `match` is seen by its live iteration of the `Map` (src/cachestorage.ts:48). Neither is modelled.
- Entries without a timestamp: every stored entry carries one in the model. An entry written by another writer without one would get a NaN age in the code (src/cache.ts:113-121); every comparison with NaN is false, so it would always be a HIT. That case is not modelled.
- `addAll` runs the adds one after the other. `Promise.allSettled` interleaving is not modelled.
- The `date` header that `match` sets from the timestamp (src/cache.ts:126, src/index.ts:116) is not added to the served response. It needs `toUTCString` date formatting.
- CacheRules.Served: because the `date` header is left out, the served headers are the stored ones with only `cache` changed.
- `new Headers(metadata.headers)` in `match` would also throw for a stored header name or value that is not valid HTTP. Stored headers are taken as valid.
- `new Request(url)` URL parsing and normalisation: a URL is taken as the given string.
- Header normalisation by `[...response.headers]` (lower-cased, sorted, combined names) is not modelled. The header list is stored as given, and reads through `get` are case-insensitive.
- `parseInt` precision: directive values are unbounded naturals.
- Bodies are byte sequences, not streams. A stored entry whose `data` reads as falsy is not modelled.
- Strings are sequences of Unicode scalar values, so lone UTF-16 surrogates are not representable. `encodeURIComponent` would reject them.
- `console.log`.
- `keys()` returns the URLs rather than `Request` objects built from them.
- Cache and `CacheStorage` query options other than `cacheName` are not modelled. The code ignores them too.
- IndexCache.BlobCache.Put: the store write is treated as finished when `put` returns, but src/index.ts:68 does not await it. A read that races the write is not modelled.

## Findings

| source | as written | input that shows it | evidently intended | confidence | as-written member | corrected member |
|---|---|---|---|---|---|---|
| src/index.ts:84-90 | `match` destructures the result of `getWithMetadata` | a URL that was never put, for example `match("https://example.com/a")` on an empty cache; `IndexCache.MatchOfMissingUrlThrows` proves the throw | a miss that changes nothing, as src/cache.ts:93-99 does with `response?.data` | high (the store returns `null` for a missing key), not executed | IndexCache.MatchAsWritten | IndexCache.MatchOn |
| src/cache.ts:134-137 | `put` (src/cache.ts:52-81, and src/index.ts:42-71 alike) accepts every 2xx status but 206, and `match` (here, and src/index.ts:123-126) rebuilds the response with `new Response(data, {status})` | `put` of a GET request with an empty 204 response, then `match` of it: the `Response` constructor refuses a body with status 204 and throws a `TypeError` (also 205; 304 never passes `put`) | whatever `put` accepts, `match` returns; the smallest correction refuses such statuses in `put` | medium (the store returns a stream even for an empty value), not executed | CacheRules.NoContentPutThenMatchThrows | CacheRules.CheckServablePut |

The store's `getWithMetadata` returns `null` for a missing key, so the destructuring throws a `TypeError`. The `IndexCache.BlobCache` methods use the corrected `MatchOn`.

For the null-body statuses, `CacheRules.ServablePutThenMatchHit` proves the intended property of the corrected checks: whatever they let `put` store, `match` serves back as a HIT. The cache classes keep `put`'s checks as written, and their `match` returns the constructor's error, so `PutThenMatchHit` states both outcomes.
