/** The offline cache manager: a versioned, prefix-scoped cache filled with a
    fixed asset manifest on install, cleared of older versions on activate,
    and consulted before the network on every fetch. Each event handler is a
    method over the cache registry; the network is the parameter `net`. */
module ServiceWorker {
  import opened JsRuntime
  import opened CacheStorage

  const APP_PREFIX: string := "FoodFest-"
  const VERSION: string := "version_01"
  const CACHE_NAME: string := APP_PREFIX + VERSION

  /** The asset manifest: relative paths that must be available offline. */
  const FILES_TO_CACHE: seq<string> := [
    "./index.html",
    "./events.html",
    "./tickets.html",
    "./schedule.html",
    "./assets/css/style.css",
    "./assets/css/bootstrap.css",
    "./assets/css/tickets.css",
    "./dist/app.bundle.js",
    "./dist/events.bundle.js",
    "./dist/tickets.bundle.js",
    "./dist/schedule.bundle.js"
  ]

  /** The current cache name is the prefix followed by the version, so it
      carries the prefix itself: the keep filter alone would drop it. */
  lemma CacheNameCarriesPrefix()
    ensures CACHE_NAME == "FoodFest-version_01"
    ensures StartsWith(CACHE_NAME, APP_PREFIX)
    ensures !Truthy(StringIndexOf(CACHE_NAME, APP_PREFIX))
  {
    IndexOfTruthyIffNotPrefix(CACHE_NAME, APP_PREFIX);
  }

  /** The manifest lists eleven paths, none twice. */
  lemma ManifestShape()
    ensures |FILES_TO_CACHE| == 11
    ensures Distinct(FILES_TO_CACHE)
  {
  }

  // ---------------------------------------------------------------------
  // install

  /** The install handler: open (or create) the current cache and add the
      whole manifest to it in one all-or-nothing batch. */
  method Install(caches: Registry, net: Request -> NetResult) returns (ok: bool)
    requires caches.Valid()
    modifies caches
    ensures caches.Valid()
    ensures caches.names == if CACHE_NAME in old(caches.names) then old(caches.names) else old(caches.names) + [CACHE_NAME]
    ensures ok <==> forall p | p in FILES_TO_CACHE :: net(Request("GET", p)).Fetched?
    ensures ok ==> forall p | p in FILES_TO_CACHE ::
      p in caches.stores[CACHE_NAME] && caches.stores[CACHE_NAME][p] == net(Request("GET", p)).response
    ensures ok ==> (caches.stores[CACHE_NAME] ==
      (if CACHE_NAME in old(caches.names) then old(caches.stores)[CACHE_NAME] else map[]) + Responses(FILES_TO_CACHE, net))
    ensures ok ==> forall p | p in FILES_TO_CACHE :: caches.Lookup(Request("GET", p)).Some?
    ensures !ok ==> caches.stores[CACHE_NAME] == if CACHE_NAME in old(caches.names) then old(caches.stores)[CACHE_NAME] else map[]
    ensures forall n | n in old(caches.names) && n != CACHE_NAME :: caches.stores[n] == old(caches.stores)[n]
  {
    caches.Open(CACHE_NAME);
    ManifestShape();
    ok := caches.AddAll(CACHE_NAME, FILES_TO_CACHE, net);
  }

  // ---------------------------------------------------------------------
  // activate

  /** `keyList.filter(key => key.indexOf(APP_PREFIX))`: the registered names
      whose indexOf result is truthy, in registry order. That is exactly the
      names that do not start with the prefix, including names that contain
      it further along. */
  function KeepFilter(keyList: seq<string>): (r: seq<string>)
    ensures forall k :: k in r <==> k in keyList && !StartsWith(k, APP_PREFIX)
    ensures |r| <= |keyList|
  {
    if keyList == [] then []
    else
      var n := |keyList| - 1;
      var key := keyList[n];
      assert keyList == keyList[..n] + [key];
      IndexOfTruthyIffNotPrefix(key, APP_PREFIX);
      KeepFilter(keyList[..n]) + (if Truthy(StringIndexOf(key, APP_PREFIX)) then [key] else [])
  }

  /** The keep-list after `cacheKeeplist.push(CACHE_NAME)`: the filtered
      names and then the current cache name, whether or not it is registered. */
  function KeepList(keyList: seq<string>): (r: seq<string>)
    ensures forall k :: k in r <==> (k in keyList && !StartsWith(k, APP_PREFIX)) || k == CACHE_NAME
    ensures |r| > 0 && r[|r| - 1] == CACHE_NAME
  {
    KeepFilter(keyList) + [CACHE_NAME]
  }

  /** The names, in order, for which `keep.indexOf(key) === -1`: those the
      delete loop hands to `caches.delete`. */
  function Dropped(keyList: seq<string>, keep: seq<string>): (r: seq<string>)
    ensures forall k :: k in r <==> k in keyList && k !in keep
  {
    if keyList == [] then []
    else
      var n := |keyList| - 1;
      var key := keyList[n];
      assert keyList == keyList[..n] + [key];
      Dropped(keyList[..n], keep) + (if ArrayIndexOf(keep, key) == -1 then [key] else [])
  }

  /** The names, in order, that the delete loop leaves alone. */
  function Retained(keyList: seq<string>, keep: seq<string>): (r: seq<string>)
    ensures forall k :: k in r <==> k in keyList && k in keep
  {
    if keyList == [] then []
    else
      var n := |keyList| - 1;
      var key := keyList[n];
      assert keyList == keyList[..n] + [key];
      Retained(keyList[..n], keep) + (if ArrayIndexOf(keep, key) == -1 then [] else [key])
  }

  /** Every registered name is either retained or dropped, never both. */
  lemma {:induction false} RetainedAndDroppedPartition(keyList: seq<string>, keep: seq<string>)
    ensures multiset(Retained(keyList, keep)) + multiset(Dropped(keyList, keep)) == multiset(keyList)
  {
    if keyList != [] {
      var n := |keyList| - 1;
      assert keyList == keyList[..n] + [keyList[n]];
      RetainedAndDroppedPartition(keyList[..n], keep);
    }
  }

  /** When the keep-list covers every name, the delete loop keeps them all. */
  lemma {:induction false} RetainedAll(keyList: seq<string>, keep: seq<string>)
    requires forall k | k in keyList :: k in keep
    ensures Retained(keyList, keep) == keyList
    ensures Dropped(keyList, keep) == []
  {
    if keyList != [] {
      var n := |keyList| - 1;
      assert keyList == keyList[..n] + [keyList[n]];
      RetainedAll(keyList[..n], keep);
    }
  }

  /** The names activation deletes from the registry `keyList`. */
  function StaleCaches(keyList: seq<string>): (r: seq<string>)
  {
    Dropped(keyList, KeepList(keyList))
  }

  /** The registry as activation leaves it. */
  function Surviving(keyList: seq<string>): (r: seq<string>)
  {
    Retained(keyList, KeepList(keyList))
  }

  /** A registered name is deleted exactly when it starts with the prefix
      and is not the current cache name. */
  lemma StaleIff(keyList: seq<string>, k: string)
    ensures k in StaleCaches(keyList) <==> k in keyList && StartsWith(k, APP_PREFIX) && k != CACHE_NAME
  {
  }

  /** Activation deletes only what it does not keep: names outside the
      prefix are never deleted, and the registry loses nothing else. */
  lemma ActivateSplitsRegistry(keyList: seq<string>)
    ensures forall k | k in keyList && !StartsWith(k, APP_PREFIX) :: k in Surviving(keyList) && k !in StaleCaches(keyList)
    ensures multiset(Surviving(keyList)) + multiset(StaleCaches(keyList)) == multiset(keyList)
  {
    RetainedAndDroppedPartition(keyList, KeepList(keyList));
  }

  /** After activation the only name carrying the prefix is the current one. */
  lemma OnlyCurrentVersionSurvives(keyList: seq<string>)
    ensures forall k | k in Surviving(keyList) :: StartsWith(k, APP_PREFIX) ==> k == CACHE_NAME
  {
  }

  /** Activating the registry that activation left behind deletes nothing
      and changes nothing. */
  lemma ActivateIdempotent(keyList: seq<string>)
    ensures StaleCaches(Surviving(keyList)) == []
    ensures Surviving(Surviving(keyList)) == Surviving(keyList)
  {
    var s := Surviving(keyList);
    RetainedAll(s, KeepList(s));
  }

  /** Extending the walked prefix by one name extends the retained and the
      dropped names by that name, on the side the keep-list decides. */
  lemma {:induction false} FiltersGrow(keyList: seq<string>, i: nat, keep: seq<string>)
    requires i < |keyList|
    ensures Retained(keyList[..i + 1], keep) ==
      Retained(keyList[..i], keep) + (if ArrayIndexOf(keep, keyList[i]) == -1 then [] else [keyList[i]])
    ensures Dropped(keyList[..i + 1], keep) ==
      Dropped(keyList[..i], keep) + (if ArrayIndexOf(keep, keyList[i]) == -1 then [keyList[i]] else [])
  {
    assert keyList[..i + 1][..i] == keyList[..i];
  }

  /** One turn of the delete loop over a registry without repeated names,
      whose walked part has left `done` in place: deleting the current name
      removes just that one position. */
  lemma {:induction false} DeleteLoopStep(keyList: seq<string>, i: nat, done: seq<string>)
    requires Distinct(keyList) && i < |keyList|
    requires forall k | k in done :: k in keyList[..i]
    ensures Erase(done + keyList[i..], keyList[i]) == done + keyList[i + 1..]
  {
    var key := keyList[i];
    assert keyList[i..] == [key] + keyList[i + 1..];
    assert done + keyList[i..] == done + [key] + keyList[i + 1..];
    assert key !in keyList[..i];
    assert key !in keyList[i + 1..];
    EraseSingle(done, key, keyList[i + 1..]);
  }

  /** One turn of the delete loop that keeps the current name. */
  lemma KeepLoopStep(keyList: seq<string>, i: nat, done: seq<string>)
    requires i < |keyList|
    ensures done + keyList[i..] == (done + [keyList[i]]) + keyList[i + 1..]
  {
    assert keyList[i..] == [keyList[i]] + keyList[i + 1..];
  }

  /** The callback that the delete loop maps over the registry: it calls
      `caches.delete` on the `i`-th name when the keep-list lacks it, and
      reports whether it did. */
  method DeleteIfNotKept(caches: Registry, keyList: seq<string>, keep: seq<string>, i: nat) returns (deleting: bool)
    requires Distinct(keyList) && i < |keyList|
    requires caches.Valid()
    requires caches.names == Retained(keyList[..i], keep) + keyList[i..]
    modifies caches
    ensures caches.Valid()
    ensures deleting <==> keyList[i] !in keep
    ensures caches.names == Retained(keyList[..i + 1], keep) + keyList[i + 1..]
    ensures forall n | n in caches.stores :: n in old(caches.stores) && caches.stores[n] == old(caches.stores)[n]
  {
    var key := keyList[i];
    ghost var done := Retained(keyList[..i], keep);
    FiltersGrow(keyList, i, keep);
    deleting := ArrayIndexOf(keep, key) == -1;
    if deleting {
      assert done + [] == done;
      DeleteLoopStep(keyList, i, done);
      var found := caches.Delete(key);
    } else {
      KeepLoopStep(keyList, i, done);
    }
  }

  /** The activate handler: compute the keep-list from the registry, then
      walk the registry and delete each name the keep-list lacks. Returns
      the names passed to `caches.delete`, in order. */
  method Activate(caches: Registry) returns (deleted: seq<string>)
    requires caches.Valid()
    modifies caches
    ensures caches.Valid()
    ensures deleted == StaleCaches(old(caches.names))
    ensures caches.names == Surviving(old(caches.names))
    ensures forall n | n in caches.names :: caches.stores[n] == old(caches.stores)[n]
  {
    var keyList := caches.names;
    var cacheKeeplist := KeepFilter(keyList);
    cacheKeeplist := cacheKeeplist + [CACHE_NAME];
    assert cacheKeeplist == KeepList(keyList);
    deleted := [];
    assert keyList[..0] == [];
    for i := 0 to |keyList|
      invariant Distinct(keyList)
      invariant caches.Valid()
      invariant caches.names == Retained(keyList[..i], cacheKeeplist) + keyList[i..]
      invariant deleted == Dropped(keyList[..i], cacheKeeplist)
      invariant forall n | n in caches.stores :: n in old(caches.stores) && caches.stores[n] == old(caches.stores)[n]
    {
      var deleting := DeleteIfNotKept(caches, keyList, cacheKeeplist, i);
      FiltersGrow(keyList, i, cacheKeeplist);
      if deleting {
        deleted := deleted + [keyList[i]];
      }
    }
    assert keyList[..|keyList|] == keyList;
  }

  // ---------------------------------------------------------------------
  // fetch

  /** The fetch handler: answer with the response `caches.match` finds in any
      registered cache, and only when there is none, with the result of one
      network fetch. `sent` lists the requests that went to the network. */
  method HandleFetch(caches: Registry, request: Request, net: Request -> NetResult) returns (reply: NetResult, sent: seq<Request>)
    requires caches.Valid()
    ensures sent == [] <==> request.verb == "GET" && exists n | n in caches.names :: request.url in caches.stores[n]
    ensures sent == [] ==> exists n | n in caches.names :: request.url in caches.stores[n] && reply == Fetched(caches.stores[n][request.url])
    ensures sent != [] ==> sent == [request] && reply == net(request)
    ensures caches.Lookup(request).Some? ==> reply == Fetched(caches.Lookup(request).value)
  {
    var cached := caches.Lookup(request);
    if cached.Some? {
      reply, sent := Fetched(cached.value), [];
    } else {
      reply, sent := net(request), [request];
    }
  }

  /** Once install has succeeded, every manifest path is answered from the
      cache with no network request, whatever the network does later. */
  method InstallThenFetch(caches: Registry, net: Request -> NetResult, later: Request -> NetResult, path: string)
    returns (ok: bool, reply: NetResult, sent: seq<Request>)
    requires caches.Valid() && path in FILES_TO_CACHE
    modifies caches
    ensures caches.Valid()
    ensures ok <==> forall p | p in FILES_TO_CACHE :: net(Request("GET", p)).Fetched?
    ensures ok ==> sent == [] && reply.Fetched?
    ensures ok ==> exists n | n in caches.names :: path in caches.stores[n] && reply == Fetched(caches.stores[n][path])
    ensures ok ==> reply == Fetched(caches.Lookup(Request("GET", path)).value)
  {
    ok := Install(caches, net);
    reply, sent := HandleFetch(caches, Request("GET", path), later);
  }

  // ---------------------------------------------------------------------
  // worked examples

  /** A name that holds the prefix only past position 0 has a truthy
      (positive) indexOf, so the filter keeps it and activation spares it. */
  lemma MidStringPrefixKept()
    ensures StringIndexOf("Old-FoodFest-cache", APP_PREFIX) == 4
    ensures "Old-FoodFest-cache" in Surviving(["Old-FoodFest-cache"])
  {
    var s := "Old-FoodFest-cache";
    assert OccursAt(s, APP_PREFIX, 4);
    forall k: nat | k < 4 ensures !OccursAt(s, APP_PREFIX, k) {
      assert s[k..k + |APP_PREFIX|][0] == s[k] != APP_PREFIX[0];
    }
  }

  /** The delete loop over three names of which only the first is missing
      from the keep-list. */
  lemma DeleteLoopOverThree(a: string, b: string, c: string, keep: seq<string>)
    requires a !in keep && b in keep && c in keep
    ensures Dropped([a, b, c], keep) == [a]
    ensures Retained([a, b, c], keep) == [b, c]
  {
    var keys := [a, b, c];
    assert keys[..2][..1] == [a] && keys[..2] == [a, b] && [a][..0] == [];
    assert Dropped([a], keep) == [a] && Retained([a], keep) == [];
    assert Dropped([a, b], keep) == [a] && Retained([a, b], keep) == [b];
  }

  /** Activation on a registry holding an older version, the current one and
      another application's cache. */
  lemma ActivateExample(older: string, current: string, other: string)
    requires older == "FoodFest-version_00" && current == "FoodFest-version_01" && other == "OtherApp-cache"
    ensures StaleCaches([older, current, other]) == [older]
    ensures Surviving([older, current, other]) == [current, other]
  {
    assert StartsWith(older, APP_PREFIX);
    assert current == CACHE_NAME;
    assert older != CACHE_NAME by { assert older[18] != CACHE_NAME[18]; }
    assert !StartsWith(other, APP_PREFIX) by { assert other[0] != APP_PREFIX[0]; }
    DeleteLoopOverThree(older, current, other, KeepList([older, current, other]));
  }
}
