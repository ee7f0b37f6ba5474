/**
 * The external blob store the cache writes through: named namespaces, each a
 * map from key to (body, metadata) plus the order in which `list` returns the
 * keys. A key is appended to that order on its first write and keeps its
 * place when overwritten.
 */
module BlobStore {
  import opened Wrappers
  import opened Http

  /** The metadata the cache stores beside a body; `status` may be missing in a foreign entry. */
  datatype Metadata = Metadata(status: Option<int>, headers: Headers, timestamp: int)

  datatype Entry = Entry(body: Bytes, metadata: Metadata)

  predicate NoDuplicates(ks: seq<string>) {
    forall i, j | 0 <= i < j < |ks| :: ks[i] != ks[j]
  }

  /** `ks` without `k`, the rest in order. */
  function Drop(ks: seq<string>, k: string): (r: seq<string>)
    ensures forall x :: x in r <==> x in ks && x != k
    ensures NoDuplicates(ks) ==> NoDuplicates(r)
  {
    if ks == [] then []
    else if ks[0] == k then Drop(ks[1..], k)
    else
      assert NoDuplicates(ks) ==> ks[0] !in ks[1..];
      [ks[0]] + Drop(ks[1..], k)
  }

  /** `Drop` keeps the order of what remains: it works piece by piece. */
  lemma {:induction false} DropAppend(a: seq<string>, b: seq<string>, k: string)
    ensures Drop(a + b, k) == Drop(a, k) + Drop(b, k)
  {
    if a != [] {
      assert (a + b)[0] == a[0] && (a + b)[1..] == a[1..] + b;
      DropAppend(a[1..], b, k);
    } else {
      assert a + b == b;
    }
  }

  datatype Namespace = Namespace(entries: map<string, Entry>, order: seq<string>) {

    /** `list` names every stored key once. */
    predicate Valid() {
      && NoDuplicates(order)
      && (forall k | k in order :: k in entries)
      && (forall k | k in entries :: k in order)
    }

    /** `getWithMetadata(key)`: absent when nothing is stored under `key`. */
    function Lookup(key: string): (r: Option<Entry>)
      ensures r.Some? <==> key in entries
    {
      if key in entries then Some(entries[key]) else None
    }

    /** `set(key, body, { metadata })`: overwrites, and lists a new key last. */
    function Store(key: string, e: Entry): (r: Namespace)
      ensures r.Lookup(key) == Some(e)
      ensures forall k :: k != key ==> r.Lookup(k) == Lookup(k)
      ensures Valid() ==> r.Valid()
      ensures key in entries ==> r.order == order
      ensures key !in entries ==> r.order == order + [key]
    {
      Namespace(entries[key := e], if key in entries then order else order + [key])
    }

    /** `delete(key)`: idempotent; a missing key is not an error. */
    function Remove(key: string): (r: Namespace)
      ensures r.Lookup(key) == None
      ensures forall k :: k != key ==> r.Lookup(k) == Lookup(k)
      ensures Valid() ==> r.Valid()
      ensures forall k :: k in r.order <==> k in order && k != key
    {
      Namespace(entries - {key}, Drop(order, key))
    }
  }

  const EmptyNamespace := Namespace(map[], [])

  /** Every namespace of the store, by name. */
  type Blobs = map<string, Namespace>

  /** A namespace never written reads as empty. */
  function Ns(b: Blobs, name: string): Namespace {
    if name in b then b[name] else EmptyNamespace
  }

  predicate AllValid(b: Blobs) {
    forall name | name in b :: b[name].Valid()
  }

  /** The store state after `set` in namespace `name`. */
  function StoreIn(b: Blobs, name: string, key: string, e: Entry): (r: Blobs)
    ensures Ns(r, name) == Ns(b, name).Store(key, e)
    ensures forall other :: other != name ==> Ns(r, other) == Ns(b, other)
    ensures AllValid(b) ==> AllValid(r)
  {
    b[name := Ns(b, name).Store(key, e)]
  }

  /** The store state after `delete` in namespace `name`. */
  function RemoveIn(b: Blobs, name: string, key: string): (r: Blobs)
    ensures Ns(r, name) == Ns(b, name).Remove(key)
    ensures forall other :: other != name ==> Ns(r, other) == Ns(b, other)
    ensures AllValid(b) ==> AllValid(r)
  {
    b[name := Ns(b, name).Remove(key)]
  }

  /** In a valid namespace `k` is listed once if stored and not at all otherwise. */
  lemma {:induction false} ListedOnce(ks: seq<string>, k: string)
    requires NoDuplicates(ks)
    ensures Occurrences(ks, k) == if k in ks then [k] else []
  {
    if ks != [] {
      var init := ks[..|ks| - 1];
      assert NoDuplicates(init);
      ListedOnce(init, k);
      if ks[|ks| - 1] == k {
        assert k !in init;
      } else {
        assert k in ks ==> k in init;
      }
    }
  }

  /** The entries of `ks` equal to `k`, in order. */
  function Occurrences(ks: seq<string>, k: string): seq<string> {
    if ks == [] then []
    else Occurrences(ks[..|ks| - 1], k) + (if ks[|ks| - 1] == k then [k] else [])
  }

  /**
   * The store: one object shared by every cache, holding all namespaces.
   * Its methods are the store's primitive operations.
   */
  class BlobService {
    var blobs: Blobs

    constructor()
      ensures blobs == map[]
    {
      blobs := map[];
    }

    method Set(name: string, key: string, e: Entry)
      modifies this
      ensures blobs == StoreIn(old(blobs), name, key, e)
    {
      blobs := StoreIn(blobs, name, key, e);
    }

    method GetWithMetadata(name: string, key: string) returns (found: Option<Entry>)
      ensures found == Ns(blobs, name).Lookup(key)
    {
      found := Ns(blobs, name).Lookup(key);
    }

    method Delete(name: string, key: string)
      modifies this
      ensures blobs == RemoveIn(old(blobs), name, key)
    {
      blobs := RemoveIn(blobs, name, key);
    }

    method List(name: string) returns (keys: seq<string>)
      ensures keys == Ns(blobs, name).order
    {
      keys := Ns(blobs, name).order;
    }
  }
}
