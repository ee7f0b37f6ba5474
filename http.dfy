/**
 * The Fetch-standard values the cache works on: requests, responses and
 * header lists, with the case-insensitive `get` and `set` of a `Headers`
 * object.
 */
module Http {
  import opened Wrappers

  type Byte = b: int | 0 <= b < 256
  type Bytes = seq<Byte>

  /** A header list: (name, value) pairs in order. */
  type Headers = seq<(string, string)>

  datatype Request = Request(url: string, httpMethod: string)

  /** `RequestInfo`: either a bare URL string or a `Request` object. */
  datatype RequestInfo = UrlString(url: string) | RequestObject(request: Request) {
    function Url(): string {
      match this
      case UrlString(u) => u
      case RequestObject(r) => r.url
    }
  }

  /** `new Request(info)`: a string becomes a GET request for that URL; a `Request` is copied, method included. */
  function ToRequest(info: RequestInfo): (r: Request)
    ensures r.url == info.Url()
    ensures info.UrlString? ==> r.httpMethod == "GET"
    ensures info.RequestObject? ==> r == info.request
  {
    match info
    case UrlString(u) => Request(u, "GET")
    case RequestObject(r) => r
  }

  datatype Response = Response(status: int, headers: Headers, body: Bytes)

  /** `response.ok`: the status is in the range 200 to 299. */
  predicate IsOk(status: int) {
    200 <= status <= 299
  }

  function LowerChar(c: char): char {
    if 'A' <= c <= 'Z' then (c as int + 32) as char else c
  }

  /** ASCII lower-casing, the byte-case-insensitive comparison of header names. */
  function Lower(s: string): (r: string)
    ensures |r| == |s|
  {
    seq(|s|, i requires 0 <= i < |s| => LowerChar(s[i]))
  }

  predicate SameName(a: string, b: string) {
    Lower(a) == Lower(b)
  }

  /** The values of every header called `name`, in list order. */
  function Values(hs: Headers, name: string): seq<string> {
    if hs == [] then []
    else (if SameName(hs[0].0, name) then [hs[0].1] else []) + Values(hs[1..], name)
  }

  /** Several values of one header are combined with ", ". */
  function Combine(vs: seq<string>): string
    requires vs != []
  {
    if |vs| == 1 then vs[0] else vs[0] + ", " + Combine(vs[1..])
  }

  /** `headers.get(name)`: the combined values, or absent when no header has that name. */
  function Get(hs: Headers, name: string): (r: Option<string>)
    ensures r.None? <==> forall i | 0 <= i < |hs| :: !SameName(hs[i].0, name)
    ensures forall v :: Values(hs, name) == [v] ==> r == Some(v)
  {
    NoValuesIffAbsent(hs, name);
    var vs := Values(hs, name);
    if vs == [] then None else Some(Combine(vs))
  }

  lemma {:induction false} NoValuesIffAbsent(hs: Headers, name: string)
    ensures Values(hs, name) == [] <==> forall i | 0 <= i < |hs| :: !SameName(hs[i].0, name)
  {
    if hs != [] {
      NoValuesIffAbsent(hs[1..], name);
      assert forall i | 1 <= i < |hs| :: hs[i] == hs[1..][i - 1];
    }
  }

  /** The list without any header called `name`. */
  function Without(hs: Headers, name: string): (r: Headers)
    ensures Values(r, name) == []
    ensures forall other :: !SameName(other, name) ==> Values(r, other) == Values(hs, other)
  {
    if hs == [] then []
    else if SameName(hs[0].0, name) then Without(hs[1..], name)
    else [hs[0]] + Without(hs[1..], name)
  }

  /** The first header called `name` gets `value`; every later one is removed. */
  function ReplaceFirst(hs: Headers, name: string, value: string): (r: Headers)
    ensures Values(hs, name) != [] ==> Values(r, name) == [value]
    ensures forall other :: !SameName(other, name) ==> Values(r, other) == Values(hs, other)
  {
    if hs == [] then []
    else if SameName(hs[0].0, name) then [(hs[0].0, value)] + Without(hs[1..], name)
    else [hs[0]] + ReplaceFirst(hs[1..], name, value)
  }

  lemma {:induction false} ValuesAppend(hs: Headers, h: (string, string), name: string)
    ensures Values(hs + [h], name) == Values(hs, name) + (if SameName(h.0, name) then [h.1] else [])
  {
    if hs != [] {
      assert (hs + [h])[1..] == hs[1..] + [h];
      ValuesAppend(hs[1..], h, name);
    }
  }

  /**
   * `headers.set(name, value)`: afterwards `name` has exactly the one value
   * and every other header reads as before.
   */
  function Set(hs: Headers, name: string, value: string): (r: Headers)
    ensures Get(r, name) == Some(value)
    ensures forall other :: !SameName(other, name) ==> Get(r, other) == Get(hs, other)
  {
    if Values(hs, name) == [] then
      forall other | !SameName(other, name)
        ensures Get(hs + [(name, value)], other) == Get(hs, other)
      {
        ValuesAppend(hs, (name, value), other);
        assert Values(hs + [(name, value)], other) == Values(hs, other);
      }
      ValuesAppend(hs, (name, value), name);
      hs + [(name, value)]
    else
      ReplaceFirst(hs, name, value)
  }
}
