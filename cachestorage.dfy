/**
 * `BlobCacheStorage` of src/cachestorage.ts: the CacheStorage registry of
 * named `BlobCache`s, all writing through one blob store. The registry's map
 * iterates in insertion order, which `names` records.
 */
module CacheStorage {
  import opened Wrappers
  import opened Http
  import opened BlobStore
  import opened CacheRules
  import Cache

  /** `open(name)` on the list of names: a new name goes to the end; a known one stays where it is. */
  function Opened(names: seq<string>, name: string): (r: seq<string>)
    ensures name in r
    ensures forall n :: n in r <==> n in names || n == name
    ensures NoDuplicates(names) ==> NoDuplicates(r)
  {
    if name in names then names else names + [name]
  }

  /** The cache name a `match` is restricted to: `options.cacheName` when it is given and not empty. */
  function Restriction(cacheName: Option<string>): (r: Option<string>)
    ensures r.Some? <==> cacheName.Some? && cacheName.value != ""
    ensures r.Some? ==> r == cacheName
  {
    if cacheName.Some? && cacheName.value != "" then cacheName else None
  }

  /** A cache's `match` as a function of the store and the cache's name. */
  type Step = (Blobs, string) -> MatchOutcome

  /** The `match` of src/cache.ts for one request at one instant. */
  function MatchStep(request: RequestInfo, now: int): Step {
    (c, n) => Cache.MatchOn(c, n, request, now)
  }

  /**
   * `match` across the caches named in `names`, in that order: each cache's
   * own `match` runs on the store the previous ones left (a miss on an
   * expired entry deletes it) until one of them returns a response or
   * throws.
   */
  function ScanWith(step: Step, b: Blobs, names: seq<string>): (m: MatchOutcome)
    ensures !m.Settled() ==> m.refresh.None?
    decreases |names|
  {
    if names == [] then MatchOutcome(None, None, None, b)
    else
      var first := step(b, names[0]);
      if first.Settled() then first
      else ScanWith(step, first.after, names[1..])
  }

  /**
   * The scan with the `match` of src/cache.ts: it requests no refresh unless
   * it settles, and it changes no namespace outside the scanned caches.
   */
  function Scan(b: Blobs, names: seq<string>, request: RequestInfo, now: int): (m: MatchOutcome)
    ensures !m.Settled() ==> m.refresh.None?
    ensures forall other | forall n | n in names :: Cache.StoreName(n) != other ::
      Ns(m.after, other) == Ns(b, other)
  {
    ScanOutside(b, names, request, now);
    ScanWith(MatchStep(request, now), b, names)
  }

  lemma ScanOutside(b: Blobs, names: seq<string>, request: RequestInfo, now: int)
    ensures forall other | forall n | n in names :: Cache.StoreName(n) != other ::
      Ns(ScanWith(MatchStep(request, now), b, names).after, other) == Ns(b, other)
  {
    MatchStepIsLocal(request, now);
    forall other | forall n | n in names :: Cache.StoreName(n) != other
      ensures Ns(ScanWith(MatchStep(request, now), b, names).after, other) == Ns(b, other)
    {
      ScanAfterOutside(MatchStep(request, now), b, names, other);
    }
  }

  /** `match(request, {cacheName})` on the store: the named cache alone, a miss for an unknown name, or the scan. */
  function MatchIn(b: Blobs, names: seq<string>, request: RequestInfo, cacheName: Option<string>, now: int): (m: MatchOutcome)
    ensures Restriction(cacheName).Some? && Restriction(cacheName).value !in names ==> m == MatchOutcome(None, None, None, b)
  {
    match Restriction(cacheName)
    case Some(n) => if n in names then Cache.MatchOn(b, n, request, now) else MatchOutcome(None, None, None, b)
    case None => Scan(b, names, request, now)
  }

  class BlobCacheStorage {
    /** The store every cache of this registry writes through. */
    const service: BlobService
    /** The registered names, in the order they were first opened. */
    var names: seq<string>
    var caches: map<string, Cache.BlobCache>

    /** Every registered name is listed once, and its cache has that name and this store. */
    predicate Valid()
      reads this
    {
      && NoDuplicates(names)
      && (forall n | n in names :: n in caches)
      && (forall n | n in caches :: n in names && caches[n].name == n && caches[n].service == service)
    }

    constructor(service: BlobService)
      ensures Valid()
      ensures this.service == service && names == [] && caches == map[]
    {
      this.service := service;
      names := [];
      caches := map[];
    }

    /** `open(name)`: the registered cache, or a new one registered under `name`. */
    method Open(name: string) returns (c: Cache.BlobCache)
      requires Valid()
      modifies this
      ensures Valid()
      ensures names == Opened(old(names), name)
      ensures c.name == name && c.service == service
      ensures name in old(caches) ==> c == old(caches)[name] && caches == old(caches)
      ensures name !in old(caches) ==> fresh(c) && caches == old(caches)[name := c]
    {
      if name in caches {
        c := caches[name];
      } else {
        c := new Cache.BlobCache(name, service);
        caches := caches[name := c];
        names := names + [name];
      }
    }

    /** `has(name)`: whether `name` is registered. */
    method Has(name: string) returns (found: bool)
      requires Valid()
      ensures found <==> name in names
    {
      found := name in caches;
    }

    /** `delete(name)`: unregisters `name` (its entries stay in the store) and reports whether it was registered. */
    method Delete(name: string) returns (existed: bool)
      requires Valid()
      modifies this
      ensures Valid()
      ensures existed <==> name in old(names)
      ensures caches == old(caches) - {name}
      ensures names == Drop(old(names), name)
    {
      existed := name in caches;
      caches := caches - {name};
      names := Drop(names, name);
    }

    /** `keys()`: the registered names, in the order they were first opened. */
    method Keys() returns (ks: seq<string>)
      requires Valid()
      ensures ks == names
      ensures NoDuplicates(ks) && forall n :: n in ks <==> n in caches
    {
      ks := names;
    }

    /**
     * `match(request, {cacheName})`: the named cache's answer (none for an
     * unknown name), or without a name the first answer of the registered
     * caches in order.
     */
    method Match(request: RequestInfo, cacheName: Option<string>, now: int)
      returns (response: Option<Response>, error: Option<Failure>, refresh: Option<string>)
      requires Valid()
      modifies service
      ensures MatchOutcome(response, error, refresh, service.blobs) == MatchIn(old(service.blobs), names, request, cacheName, now)
    {
      if cacheName.Some? && cacheName.value != "" {
        if cacheName.value in caches {
          response, error, refresh := caches[cacheName.value].Match(request, now);
        } else {
          response, error, refresh := None, None, None;
        }
        return;
      }
      for i := 0 to |names|
        invariant Scan(old(service.blobs), names, request, now) == Scan(service.blobs, names[i..], request, now)
      {
        assert names[i..][1..] == names[i + 1..];
        response, error, refresh := caches[names[i]].Match(request, now);
        if response.Some? || error.Some? {
          return;
        }
      }
      response, error, refresh := None, None, None;
    }
  }

  // ---- properties ----

  /** What a `match` answers, without the store it leaves: the response or the error, and the refresh. */
  datatype Reply = Reply(response: Option<Response>, error: Option<Failure>, refresh: Option<string>) {
    predicate Settled() {
      response.Some? || error.Some?
    }
  }

  function ReplyOf(m: MatchOutcome): (r: Reply)
    ensures r.Settled() == m.Settled()
  {
    Reply(m.response, m.error, m.refresh)
  }

  /** What the cache called `name` answers to `match` on its own. */
  function Answer(step: Step, b: Blobs, name: string): Reply {
    ReplyOf(step(b, name))
  }

  /** What each cache in `names` answers when asked alone on the same store `b`. */
  function Alone(step: Step, b: Blobs, names: seq<string>): (rs: seq<Reply>)
    ensures |rs| == |names|
  {
    seq(|names|, j requires 0 <= j < |names| => Answer(step, b, names[j]))
  }

  /** The first answer that settles, or none: the reference the scan is compared against. */
  function FirstOf(rs: seq<Reply>): Reply {
    if rs == [] then Reply(None, None, None)
    else if rs[0].Settled() then rs[0]
    else FirstOf(rs[1..])
  }

  /** `FirstOf` settles exactly when some answer settles, and then is the first answer that does. */
  lemma {:induction false} FirstOfIsFirstHit(rs: seq<Reply>)
    ensures !FirstOf(rs).Settled() <==> forall j | 0 <= j < |rs| :: !rs[j].Settled()
    ensures FirstOf(rs).Settled() ==> exists j | 0 <= j < |rs| :: FirstOf(rs) == rs[j] && forall k | 0 <= k < j :: !rs[k].Settled()
  {
    if rs != [] && !rs[0].Settled() {
      var rest := rs[1..];
      FirstOfIsFirstHit(rest);
      if FirstOf(rest).Settled() {
        var j :| 0 <= j < |rest| && FirstOf(rest) == rest[j] && forall k | 0 <= k < j :: !rest[k].Settled();
        assert rs[j + 1] == rest[j];
        forall k | 0 <= k < j + 1
          ensures !rs[k].Settled()
        {
          if k > 0 {
            assert rs[k] == rest[k - 1];
          }
        }
      } else {
        forall j | 0 <= j < |rs|
          ensures !rs[j].Settled()
        {
          if j > 0 {
            assert rs[j] == rest[j - 1];
          }
        }
      }
    }
  }

  /**
   * `step` reads and changes only the namespace of the cache it runs, and a
   * step that settles changes nothing.
   */
  ghost predicate Local(step: Step) {
    && (forall c, d, n {:trigger step(c, n), step(d, n)} | Ns(c, Cache.StoreName(n)) == Ns(d, Cache.StoreName(n)) ::
          && Answer(step, c, n) == Answer(step, d, n)
          && Ns(step(c, n).after, Cache.StoreName(n)) == Ns(step(d, n).after, Cache.StoreName(n)))
    && (forall c, n, other | other != Cache.StoreName(n) :: Ns(step(c, n).after, other) == Ns(c, other))
    && (forall c, n | step(c, n).Settled() :: step(c, n).after == c)
  }

  /** A cache's `match` reads and changes only its own namespace, and one that settles changes nothing. */
  lemma MatchOnOwnNamespace(b: Blobs, c: Blobs, name: string, request: RequestInfo, now: int)
    requires Ns(b, Cache.StoreName(name)) == Ns(c, Cache.StoreName(name))
    ensures var mb, mc := Cache.MatchOn(b, name, request, now), Cache.MatchOn(c, name, request, now);
      && ReplyOf(mb) == ReplyOf(mc)
      && Ns(mb.after, Cache.StoreName(name)) == Ns(mc.after, Cache.StoreName(name))
      && (forall other :: other != Cache.StoreName(name) ==> Ns(mb.after, other) == Ns(b, other))
      && (mb.Settled() ==> mb.after == b)
  {
  }

  /** The `match` of src/cache.ts is local. */
  lemma MatchStepIsLocal(request: RequestInfo, now: int)
    ensures Local(MatchStep(request, now))
  {
    forall c, d, n | Ns(c, Cache.StoreName(n)) == Ns(d, Cache.StoreName(n))
      ensures Answer(MatchStep(request, now), c, n) == Answer(MatchStep(request, now), d, n)
      ensures Ns(Cache.MatchOn(c, n, request, now).after, Cache.StoreName(n)) == Ns(Cache.MatchOn(d, n, request, now).after, Cache.StoreName(n))
    {
      MatchOnOwnNamespace(c, d, n, request, now);
    }
    forall c, n
      ensures forall other | other != Cache.StoreName(n) :: Ns(Cache.MatchOn(c, n, request, now).after, other) == Ns(c, other)
      ensures Cache.MatchOn(c, n, request, now).Settled() ==> Cache.MatchOn(c, n, request, now).after == c
    {
      MatchOnOwnNamespace(c, c, n, request, now);
    }
  }

  /** The scan leaves alone every namespace that belongs to none of the scanned caches. */
  lemma {:induction false} ScanAfterOutside(step: Step, b: Blobs, names: seq<string>, other: string)
    requires Local(step)
    requires forall n | n in names :: Cache.StoreName(n) != other
    ensures Ns(ScanWith(step, b, names).after, other) == Ns(b, other)
    decreases |names|
  {
    if names != [] {
      var first := step(b, names[0]);
      if !first.Settled() {
        ScanAfterOutside(step, first.after, names[1..], other);
      }
    }
  }

  /** Every cache before position `j` misses when asked alone on `b`. */
  predicate MissBefore(step: Step, b: Blobs, names: seq<string>, j: nat)
    requires j <= |names|
  {
    forall k | 0 <= k < j :: !step(b, names[k]).Settled()
  }

  /** After the first cache misses, the later caches see their namespaces and answers unchanged. */
  lemma MissKeepsLater(step: Step, b: Blobs, names: seq<string>, j: nat)
    requires Local(step) && NoDuplicates(names) && 0 < j < |names|
    requires !step(b, names[0]).Settled()
    ensures var after := step(b, names[0]).after;
      && names[1..][j - 1] == names[j]
      && Ns(after, Cache.StoreName(names[j])) == Ns(b, Cache.StoreName(names[j]))
      && Ns(step(after, names[j]).after, Cache.StoreName(names[j])) == Ns(step(b, names[j]).after, Cache.StoreName(names[j]))
      && (MissBefore(step, b, names, j) <==> MissBefore(step, after, names[1..], j - 1))
  {
    var after := step(b, names[0]).after;
    var rest := names[1..];
    forall k | 0 < k < |names|
      ensures Ns(after, Cache.StoreName(names[k])) == Ns(b, Cache.StoreName(names[k]))
      ensures step(after, names[k]).Settled() == step(b, names[k]).Settled()
    {
      Cache.StoreNameInjective(names[0], names[k]);
      assert Answer(step, after, names[k]) == Answer(step, b, names[k]);
    }
    forall k | 0 <= k < j - 1
      ensures rest[k] == names[k + 1]
    {
    }
  }

  /**
   * The namespace of the `j`-th scanned cache after the scan: as that cache's
   * own `match` leaves it when every earlier cache missed (the hit itself
   * changes nothing), and untouched when an earlier cache answered.
   */
  lemma {:induction false} ScanAfterOfWith(step: Step, b: Blobs, names: seq<string>, j: nat)
    requires Local(step) && NoDuplicates(names) && j < |names|
    ensures Ns(ScanWith(step, b, names).after, Cache.StoreName(names[j])) ==
      if MissBefore(step, b, names, j)
      then Ns(step(b, names[j]).after, Cache.StoreName(names[j]))
      else Ns(b, Cache.StoreName(names[j]))
    decreases |names|
  {
    var first := step(b, names[0]);
    var rest := names[1..];
    if !first.Settled() {
      assert NoDuplicates(rest);
      if j == 0 {
        forall n | n in rest
          ensures Cache.StoreName(n) != Cache.StoreName(names[0])
        {
          Cache.StoreNameInjective(names[0], n);
        }
        ScanAfterOutside(step, first.after, rest, Cache.StoreName(names[0]));
      } else {
        MissKeepsLater(step, b, names, j);
        ScanAfterOfWith(step, first.after, rest, j - 1);
      }
    }
  }

  /** `ScanAfterOfWith` for the `match` of src/cache.ts. */
  lemma ScanAfterOf(b: Blobs, names: seq<string>, request: RequestInfo, now: int, j: nat)
    requires NoDuplicates(names) && j < |names|
    ensures var step := MatchStep(request, now);
      Ns(Scan(b, names, request, now).after, Cache.StoreName(names[j])) ==
        if MissBefore(step, b, names, j)
        then Ns(step(b, names[j]).after, Cache.StoreName(names[j]))
        else Ns(b, Cache.StoreName(names[j]))
  {
    MatchStepIsLocal(request, now);
    ScanAfterOfWith(MatchStep(request, now), b, names, j);
  }

  /**
   * With distinct names the scan answers as the first cache that answers
   * alone on the initial store: a miss that deletes an expired entry of one
   * cache never changes what a later cache answers.
   */
  lemma {:induction false} ScanIsFirstAnswer(step: Step, b: Blobs, names: seq<string>)
    requires Local(step) && NoDuplicates(names)
    ensures ReplyOf(ScanWith(step, b, names)) == FirstOf(Alone(step, b, names))
    decreases |names|
  {
    if names != [] {
      var first := step(b, names[0]);
      var rest := names[1..];
      var rs := Alone(step, b, names);
      assert rs[0] == Answer(step, b, names[0]);
      if !first.Settled() {
        assert NoDuplicates(rest);
        forall j | 0 <= j < |rest|
          ensures Answer(step, first.after, rest[j]) == rs[1..][j]
        {
          assert names[0] != rest[j] && rest[j] == names[j + 1];
          Cache.StoreNameInjective(names[0], rest[j]);
          assert Ns(first.after, Cache.StoreName(rest[j])) == Ns(b, Cache.StoreName(rest[j]));
        }
        assert Alone(step, first.after, rest) == rs[1..];
        ScanIsFirstAnswer(step, first.after, rest);
      }
    }
  }

  /**
   * With distinct names, the scan misses exactly when every cache misses
   * alone, and otherwise answers (returns or throws) as the first cache in
   * order that does so alone.
   */
  lemma ScanFirstHitWith(step: Step, b: Blobs, names: seq<string>)
    requires Local(step) && NoDuplicates(names)
    ensures var m := ScanWith(step, b, names);
      && (!m.Settled() <==> forall j | 0 <= j < |names| :: !step(b, names[j]).Settled())
      && (m.Settled() ==> exists j | 0 <= j < |names| ::
            && ReplyOf(m) == Answer(step, b, names[j])
            && forall k | 0 <= k < j :: !step(b, names[k]).Settled())
  {
    ScanIsFirstAnswer(step, b, names);
    var rs := Alone(step, b, names);
    FirstOfIsFirstHit(rs);
    assert forall j | 0 <= j < |names| :: rs[j] == Answer(step, b, names[j]);
  }

  /**
   * With distinct names, `match` without a cache name misses exactly when
   * every registered cache misses alone, and otherwise answers as the first
   * cache in `keys()` order that returns a response or throws.
   */
  lemma ScanFirstHit(b: Blobs, names: seq<string>, request: RequestInfo, now: int)
    requires NoDuplicates(names)
    ensures var m, step := Scan(b, names, request, now), MatchStep(request, now);
      && (!m.Settled() <==> forall j | 0 <= j < |names| :: !step(b, names[j]).Settled())
      && (m.Settled() ==> exists j | 0 <= j < |names| ::
            && ReplyOf(m) == Answer(step, b, names[j])
            && forall k | 0 <= k < j :: !step(b, names[k]).Settled())
  {
    MatchStepIsLocal(request, now);
    ScanFirstHitWith(MatchStep(request, now), b, names);
  }

  /** Re-opening a name that was deleted moves it to the end of `keys()`. */
  lemma ReopenMovesToEnd(names: seq<string>, name: string)
    requires NoDuplicates(names) && name in names
    ensures Opened(Drop(names, name), name) == Drop(names, name) + [name]
    ensures Opened(names, name) == names
  {
  }

  /**
   * Two caches `a` and `b`, the request stored fresh only in `b`: a `match`
   * without a cache name answers as `b` does (a HIT, or the error of a
   * status the `Response` constructor refuses), and with `cacheName: a`
   * misses unless `a` is the empty name, which restricts nothing.
   */
  lemma SecondCacheAnswers(st: Blobs, a: string, b: string, request: Request, response: Response, now: int)
    requires a != b && CheckPut(request, response) == Pass
    requires Ns(st, Cache.StoreName(a)) == EmptyNamespace
    ensures var after := Cache.PutOn(st, b, request, response, now);
      var m := MatchIn(after, [a, b], RequestObject(request), None, now);
      && m == Cache.MatchOn(after, b, RequestObject(request), now)
      && (Servable(response) ==> m.response.Some? && Get(m.response.value.headers, "cache") == Some("HIT"))
      && (!Servable(response) ==> m.response.None? && m.error == Some(BodyWithNullBodyStatus(response.status)))
      && (a != "" ==> !MatchIn(after, [a, b], RequestObject(request), Some(a), now).Settled())
      && (a == "" ==> MatchIn(after, [a, b], RequestObject(request), Some(a), now) == m)
  {
    var after := Cache.PutOn(st, b, request, response, now);
    var ma := Cache.MatchOn(after, a, RequestObject(request), now);
    var mb := Cache.MatchOn(after, b, RequestObject(request), now);
    assert !ma.Settled() && ma.after == after by {
      Cache.StoreNameInjective(a, b);
      assert Ns(after, Cache.StoreName(a)) == EmptyNamespace;
    }
    Cache.PutThenMatchHit(st, b, request, response, now);
    assert Scan(after, [b], RequestObject(request), now) == mb;
    assert [a, b][1..] == [b];
    assert Scan(after, [a, b], RequestObject(request), now) == mb;
    assert MatchIn(after, [a, b], RequestObject(request), None, now) == mb;
    if a != "" {
      assert MatchIn(after, [a, b], RequestObject(request), Some(a), now) == ma by {
        assert Restriction(Some(a)) == Some(a) && a in [a, b];
      }
    }
  }
}
