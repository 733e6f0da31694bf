/** An in-memory stand-in for the browser's CacheStorage (the global
    `caches`): an ordered registry of named caches, each mapping a request
    URL to a stored response. Only the operations the service worker calls
    are modelled: open, addAll, keys, delete and match. */
module CacheStorage {
  import opened JsRuntime

  /** `undefined` or a value, as a promise from `caches.match` resolves. */
  datatype Option<T> = None | Some(value: T)

  /** A response, reduced to what the worker hands back to the page. */
  datatype Response = Response(status: int, body: string)

  /** What one network `fetch` settles to: a response, or a rejection. */
  datatype NetResult = Fetched(response: Response) | NetworkError

  /** An outgoing request: its HTTP method (`verb`) and its URL. */
  datatype Request = Request(verb: string, url: string)

  /** No element occurs twice. */
  predicate Distinct<T(==)>(s: seq<T>)
  {
    forall i, j | 0 <= i < j < |s| :: s[i] != s[j]
  }

  /** `s` with every occurrence of `x` removed, the rest in order. */
  function Erase(s: seq<string>, x: string): (r: seq<string>)
    ensures forall y :: y in r <==> y in s && y != x
    ensures |r| <= |s|
  {
    if s == [] then []
    else if s[0] == x then Erase(s[1..], x)
    else [s[0]] + Erase(s[1..], x)
  }

  lemma {:induction false} EraseAbsent(s: seq<string>, x: string)
    requires x !in s
    ensures Erase(s, x) == s
  {
    if s != [] {
      EraseAbsent(s[1..], x);
    }
  }

  lemma {:induction false} EraseAppend(a: seq<string>, b: seq<string>, x: string)
    ensures Erase(a + b, x) == Erase(a, x) + Erase(b, x)
  {
    if a == [] {
      assert a + b == b;
    } else {
      assert (a + b)[1..] == a[1..] + b;
      EraseAppend(a[1..], b, x);
    }
  }

  /** Deleting a name that occurs once, between `a` and `b`, leaves `a + b`. */
  lemma {:induction false} EraseSingle(a: seq<string>, x: string, b: seq<string>)
    requires x !in a && x !in b
    ensures Erase(a + [x] + b, x) == a + b
  {
    var ax := a + [x];
    EraseAppend(ax, b, x);
    EraseAppend(a, [x], x);
    EraseAbsent(a, x);
    EraseAbsent(b, x);
    assert [x][1..] == [];
    assert Erase([x], x) == [];
    assert Erase(ax, x) == a + [];
  }

  lemma {:induction false} EraseDistinct(s: seq<string>, x: string)
    requires Distinct(s)
    ensures Distinct(Erase(s, x))
  {
    if s != [] {
      assert Distinct(s[1..]) by {
        forall i, j | 0 <= i < j < |s[1..]| ensures s[1..][i] != s[1..][j] {
          assert s[1..][i] == s[i + 1] && s[1..][j] == s[j + 1];
        }
      }
      EraseDistinct(s[1..], x);
      if s[0] != x {
        var t := Erase(s[1..], x);
        assert s[0] !in s[1..];
        assert s[0] !in t;
        assert Erase(s, x) == [s[0]] + t;
      }
    }
  }

  /** `caches.match` over the registry: the response stored for `url` in the
      first cache, in `names` order, that holds an entry for it. */
  function FirstMatch(names: seq<string>, stores: map<string, map<string, Response>>, url: string): (r: Option<Response>)
    requires forall n | n in names :: n in stores
    ensures r.None? <==> forall n | n in names :: url !in stores[n]
    ensures r.Some? ==> exists i | 0 <= i < |names| ::
      && url in stores[names[i]]
      && stores[names[i]][url] == r.value
      && forall j | 0 <= j < i :: url !in stores[names[j]]
  {
    if names == [] then None
    else if url in stores[names[0]] then
      assert url in stores[names[0]];
      Some(stores[names[0]][url])
    else
      var r := FirstMatch(names[1..], stores, url);
      if r.Some? then
        var i :| 0 <= i < |names[1..]| && url in stores[names[1..][i]] && stores[names[1..][i]][url] == r.value
          && forall j | 0 <= j < i :: url !in stores[names[1..][j]];
        assert forall j | 0 <= j < i + 1 :: url !in stores[names[j]] by {
          forall j | 0 <= j < i + 1 ensures url !in stores[names[j]] {
            if j > 0 { assert names[j] == names[1..][j - 1]; }
          }
        }
        r
      else
        r
  }

  /** The registry of every cache persisted for the origin. */
  class Registry {
    /** Cache names in creation order: what `caches.keys()` resolves to. */
    var names: seq<string>
    /** Each cache's entries, keyed by request URL. */
    var stores: map<string, map<string, Response>>

    ghost predicate Valid()
      reads this
    {
      && Distinct(names)
      && forall n :: n in stores <==> n in names
    }

    constructor ()
      ensures Valid() && names == [] && stores == map[]
    {
      names := [];
      stores := map[];
    }

    /** `caches.match(req)`: only GET requests are matched (the Cache API's
        default); the search runs over every cache in the registry. */
    function Lookup(req: Request): (r: Option<Response>)
      reads this
      requires Valid()
      ensures r.Some? <==> req.verb == "GET" && exists n | n in names :: req.url in stores[n]
      ensures r.Some? ==> exists n | n in names :: req.url in stores[n] && stores[n][req.url] == r.value
    {
      if req.verb != "GET" then None
      else FirstMatch(names, stores, req.url)
    }

    /** `caches.open(name)`: the named cache, created empty (and registered
        last) when it does not exist yet. */
    method Open(name: string)
      requires Valid()
      modifies this
      ensures Valid() && name in names
      ensures names == if name in old(names) then old(names) else old(names) + [name]
      ensures stores == if name in old(names) then old(stores) else old(stores)[name := map[]]
    {
      if name !in names {
        names := names + [name];
        stores := stores[name := map[]];
      }
    }

    /** `cache.addAll(urls)` on the cache `name`: every URL is fetched with a
        GET; the batch is all-or-nothing, and it is refused when a URL occurs
        twice or any fetch fails. */
    method AddAll(name: string, urls: seq<string>, net: Request -> NetResult) returns (ok: bool)
      requires Valid() && name in names
      modifies this
      ensures Valid() && names == old(names)
      ensures ok <==> Distinct(urls) && forall u | u in urls :: net(Request("GET", u)).Fetched?
      ensures ok ==> stores == old(stores)[name := old(stores)[name] + Responses(urls, net)]
      ensures !ok ==> stores == old(stores)
    {
      ok := Distinct(urls) && forall u | u in urls :: net(Request("GET", u)).Fetched?;
      if ok {
        stores := stores[name := stores[name] + Responses(urls, net)];
      }
    }

    /** `caches.delete(name)`: drops the named cache; resolves to whether
        there was one. */
    method Delete(name: string) returns (found: bool)
      requires Valid()
      modifies this
      ensures Valid()
      ensures found <==> name in old(names)
      ensures names == Erase(old(names), name)
      ensures stores == old(stores) - {name}
    {
      found := name in names;
      EraseDistinct(names, name);
      names := Erase(names, name);
      stores := stores - {name};
    }
  }

  /** The entries a successful `addAll(urls)` writes: each URL with the
      response its GET fetched. */
  function Responses(urls: seq<string>, net: Request -> NetResult): (m: map<string, Response>)
    ensures forall u | u in urls && net(Request("GET", u)).Fetched? :: u in m && m[u] == net(Request("GET", u)).response
    ensures forall u | u in m :: u in urls
  {
    map u | u in urls && net(Request("GET", u)).Fetched? :: net(Request("GET", u)).response
  }
}
