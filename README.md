# FoodFest offline cache manager, modelled in Dafny

The service worker of the FoodFest static site keeps one versioned cache
named `APP_PREFIX + VERSION` ("FoodFest-version_01"). It does three things:

- **Install** opens that cache and adds the eleven-path asset manifest to it.
- **Activate** lists every cache of the origin. It builds a keep-list of the
  names whose `indexOf(APP_PREFIX)` is truthy, appends the current cache
  name, and deletes every registered name that the keep-list lacks.
- **Fetch** answers each request with the response that `caches.match` finds
  in any registered cache. When there is none, it answers with one network
  `fetch`.

The project has three modules:

- `JsRuntime` (`js_runtime.dfy`): the ECMAScript built-ins the handlers rely
  on. These are number truthiness, `String.prototype.indexOf` and
  `Array.prototype.indexOf`.
- `CacheStorage` (`cache_storage.dfy`): an in-memory stand-in for the
  browser's `caches`. The class `Registry` holds the ordered cache names
  (`names: seq<string>`) and each cache's entries
  (`stores: map<string, map<string, Response>>`). Its methods model `open`,
  `addAll` and `delete`; its function `Lookup` models `match`.
- `ServiceWorker` (`service_worker.dfy`): the constants, the three handlers,
  and the lemmas about them.

The network is the parameter `net: Request -> NetResult`. Activation's
decisions are the specification functions `KeepFilter`, `KeepList`,
`Dropped`/`StaleCaches` and `Retained`/`Surviving`. The `Activate` method's
loop is proved to compute exactly those.

Two points of the code are easy to misread:

- The activate filter uses `key.indexOf(APP_PREFIX)` as a boolean. This is a
  starts-with test, not a contains test.
  `indexOf` returns 0 only when the key starts with the prefix, and 0 is the
  only falsy value it can return; both -1 and later positions are truthy. So
  the filter keeps a key exactly when the key does not start with the prefix
  (`IndexOfTruthyIffNotPrefix`, `KeepFilter`). A name that contains the prefix
  only later on is kept (`MidStringPrefixKept`).
- The fetch handler consults `caches.match`, which searches every registered
  cache in creation order, not only the current one. `Lookup` and `FirstMatch`
  model that search.

## Model

| member | source | states |
|---|---|---|
| `ServiceWorker.CacheNameCarriesPrefix` | service-worker.js:2-4 | the cache name is "FoodFest-version_01"; it starts with the prefix, so its indexOf is 0 and falsy |
| `ServiceWorker.ManifestShape` | service-worker.js:7-19 | the manifest has 11 paths and no path occurs twice |
| `ServiceWorker.Install` | service-worker.js:22-30 | the current cache is registered, created last when it is new. Install succeeds exactly when every manifest path fetches. On success, the current cache holds its earlier entries plus every manifest path with its fetched response, and every path is found by match. On failure, the current cache is left as it was. Other caches are unchanged |
| `CacheStorage.Registry.Open` | service-worker.js:25 | opening an existing cache changes nothing; opening a new name appends it and creates it empty |
| `CacheStorage.Registry.AddAll` | service-worker.js:27 | all-or-nothing: it succeeds exactly when the URLs are distinct and all fetch. Then it writes each URL with its response; otherwise nothing changes |
| `JsRuntime.IndexOfFrom` | service-worker.js:39 | indexOf returns -1 exactly when the string never occurs; otherwise it returns the least position where it occurs |
| `JsRuntime.IndexOfTruthyIffNotPrefix` | service-worker.js:38-40 | the indexOf result is truthy if and only if the key does not start with the prefix |
| `ServiceWorker.KeepFilter` | service-worker.js:38-40 | the filtered names are exactly the registered names that do not start with the prefix |
| `ServiceWorker.KeepList` | service-worker.js:42 | after the push, the keep-list holds exactly the unprefixed registered names and the current cache name, which is always its last entry |
| `JsRuntime.ArrayIndexOf` | service-worker.js:47 | the array indexOf is -1 exactly when the name is absent; otherwise it is the first position of the name |
| `ServiceWorker.Dropped` | service-worker.js:46-50 | the names handed to delete are exactly the registered names missing from the keep-list |
| `ServiceWorker.Retained` | service-worker.js:46-50 | the names left alone are exactly the registered names on the keep-list |
| `ServiceWorker.StaleIff` | service-worker.js:38-50 | a name is deleted if and only if it is registered, starts with the prefix and is not the current cache name |
| `ServiceWorker.ActivateSplitsRegistry` | service-worker.js:45-52 | unprefixed names survive and are never deleted; the survivors and the deleted names together are exactly the registry, as a multiset |
| `ServiceWorker.OnlyCurrentVersionSurvives` | service-worker.js:38-50 | after activation, the only surviving name that carries the prefix is the current cache name |
| `ServiceWorker.ActivateIdempotent` | service-worker.js:36-52 | activating the registry that activation left behind deletes nothing and leaves it unchanged |
| `ServiceWorker.Activate` | service-worker.js:33-55 | the loop deletes exactly the stale names, in registry order. The registry becomes the survivors in their original order, and each surviving cache keeps its entries |
| `ServiceWorker.DeleteIfNotKept` | service-worker.js:46-50 | the map callback deletes the current name exactly when the keep-list lacks it; the registry then holds the names kept so far followed by the names not yet visited, and no remaining cache changes its entries |
| `CacheStorage.Registry.Delete` | service-worker.js:49 | delete reports whether the name was registered; it removes the name from the registry, with its cache, and leaves the rest in order |
| `ServiceWorker.MidStringPrefixKept` | service-worker.js:38-40 | "Old-FoodFest-cache" has indexOf 4, which is truthy, so activation spares it |
| `ServiceWorker.ActivateExample` | service-worker.js:36-52 | the registry [version_00, version_01, OtherApp-cache] loses only version_00 |
| `CacheStorage.FirstMatch` | service-worker.js:63 | match finds nothing exactly when no cache holds the URL. Otherwise it returns the response of the first cache, in registry order, that holds it |
| `CacheStorage.Registry.Lookup` | service-worker.js:63 | match finds a response exactly for a GET whose URL some registered cache holds, and the response is one stored for that URL |
| `ServiceWorker.HandleFetch` | service-worker.js:58-68 | with a cached match, the reply is that stored response and no network request is made. Otherwise exactly one request goes to the network, and its result is the reply |
| `ServiceWorker.InstallThenFetch` | service-worker.js:63-65 | the registry stays consistent; after a successful install, a GET for any manifest path makes no network request, and the reply is the response that match finds, which is one stored for that path in a registered cache |

## Left out

- Logging (`console.log`) is left out; it has no effect on state.
- Event registration (`self.addEventListener`) and the promise plumbing (`e.waitUntil`, `e.respondWith`) are left out. Each handler is a method over the registry.
- The `Promise.all` over the deletes runs them in parallel. The model deletes one name at a time, in registry order. Deletes of distinct names are independent, so the final registry is the same.
- The browser's worker lifecycle (installing, waiting, active, redundant) is enforced by the host, not by this code, so it is left out.
- `webpack.config.js` is build configuration and is not part of this model.
- Request matching is by URL, and only GET requests match. `Vary` headers, query options and URL resolution of the relative manifest paths against the worker's location are left out. Paths are stored as written.
- Responses carry only a status and a body. `addAll`'s rejection of a non-2xx response is folded into `NetworkError` in `net`.
- Within one event, the network is a fixed function, so a URL fetched twice gives the same result. Timing, retries and aborts are left out.
- `caches.delete` and `caches.open` cannot fail in the in-memory registry. A host-side storage failure is left out.
- JavaScript strings are sequences of UTF-16 code units, while the model's strings are sequences of Unicode scalar values. `indexOf` positions can therefore differ after a character outside the Basic Multilingual Plane. Position 0, the only position the activate filter tests, is the same in both.
