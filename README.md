# TacMap service worker, modelled in Dafny

TacMap is an offline-capable map application. Its service worker, `sw.js`, routes each request the page makes to one of three places:

- **Map tiles** go to a size-limited tile cache, `tacmap-tiles-v1`. The cache is read first. A tile that is missing is fetched and stored. Once the cache holds more than 2000 tiles, the oldest ones are deleted in FIFO order.
- **PeerJS / WebRTC signaling traffic** always goes to the network.
- **Everything else** is served from the shell cache, `tacmap-v1`, with stale-while-revalidate: the cached copy is returned and the entry is refreshed in the background.

The worker also handles three lifecycle and control events:

- **Install** caches the six core assets in one batch.
- **Activate** deletes every cache that is not one of the two current ones.
- **Messages** from the page: `"skipWaiting"` and `"clearTileCache"`.

The model works as follows.

- **The browser's Cache Storage is explicit state.** The class `CacheApi.CacheStorage` maps cache names to `CacheApi.Store` values. A store is the list of request keys in insertion order (the order `cache.keys()` returns) together with the entries.
- **The network is an input.** A `Fetch.NetworkResult` is either a delivered `Fetch.Response`, of any status, or a rejection.
- **A request** is its method, its URL, and that URL's hostname and pathname (`ServiceWorker.Request`). The URL stands for the request URL without its fragment, because the Cache API ignores fragments when it matches. The Cache API keys entries by that URL and only ever holds GET requests. A lookup for any other method finds nothing, and a put of one stores nothing. The policies take this as a flag, `isGet`.
- **Install** resolves each core asset against `base`, the URL of the directory that holds the worker script, as the Cache API does with a relative URL (`Policy.Resolve`).
- **Module `Classifier`** decides the route. It models `String.prototype.includes` and the regex `/\/\d+\/\d+\/\d+/` as recursive searches. Each search is proved equal to a reference definition: "there is a split of the text around the occurrence".
- **Module `Policy`** states each caching policy as a function from (store, key, network outcome) to (response served, new store). It also holds the lemmas about those policies.
- **Module `ServiceWorker`** holds the event handlers as methods over a `CacheStorage`. They keep the source's imperative form: the deletion loop of `trimTileCache`, the deletion of stale caches during activate, and the opens, matches, puts and deletes. The `ensures` of each method ties its result and the new Cache Storage to the `Policy` function.

Two facts about the code are easy to get wrong:

- **The tile-host list** has ten entries (`sw.js:61-69`).
- **Eviction removes 101 tiles, not 100.** The fetch that makes the count 2001 deletes `2001 - 2000 + 100 = 101` keys (`sw.js:116-117`). So after 2101 distinct ok fetches into an empty cache, the 101 oldest are gone. `Policy.FirstFetchesFromEmpty` proves that the cache then holds `ks[101..]`.

One consequence is worth stating. Only a response whose status is 200–299 is stored (`sw.js:82`). An opaque cross-origin response reports status 0, so a tile delivered that way is always passed through and never cached (`Policy.TileMiss`).

## Model

| member | source | states |
|---|---|---|
| Strings.ContainsIff | sw.js:70 | `includes` as a recursive search holds exactly when the substring occurs somewhere in the string (a split `pre + sub + post` exists) |
| Strings.ContainsInfix | sw.js:50 | whatever text surrounds a substring, `includes` finds it |
| Strings.ContainsSplits | sw.js:50 | a successful `includes` has found a real occurrence |
| Strings.DigitRun | sw.js:71 | the leading run of `\d` characters: within the string, all digits, and followed by a non-digit or by the end |
| Strings.DigitRunAfterDigits | sw.js:71 | digits before a text lengthen its leading digit run by exactly their number |
| Classifier.SomeHostInIff | sw.js:70 | `tileHosts.some(h => hostname.includes(h))` holds exactly when some listed host is contained in the hostname |
| Classifier.ZxySplitMatches | sw.js:71 | every occurrence of `/digits/digits/digits`, anywhere in the path and whatever follows it, is matched by the regex |
| Classifier.ZxyMatchSplits | sw.js:71 | every regex match is an occurrence of `/digits/digits/digits` in the path |
| Classifier.ZxyTextMatches | sw.js:71 | a path that starts with `/a/b/c`, where each of `a`, `b`, `c` is one or more digits, matches at its first character |
| Classifier.SegmentHead | sw.js:71 | a matched segment splits into a slash, a non-empty digit string and the rest |
| Classifier.TileRequestIff | sw.js:60-72 | `isTileRequest` holds exactly when the hostname contains a listed tile host or the path contains a z/x/y triple |
| Classifier.Classify | sw.js:44-56 | the route is Tile exactly when `isTileRequest` holds; it is Signaling exactly when `isTileRequest` fails and the hostname contains `peerjs` or the path contains `peer`; otherwise it is Shell |
| Classifier.HostMatchIsTile | sw.js:61-70 | any hostname with a listed host inside it is routed to the tile cache, whatever the path |
| Classifier.SubdomainIsTile | sw.js:62 | every subdomain of `tile.openstreetmap.org` is a tile host |
| Classifier.PathMatchIsTile | sw.js:71 | a z/x/y triple anywhere in the path makes a tile request, whatever the host |
| Classifier.TileBeforeSignaling | sw.js:44-53 | a URL that passes both the tile test and the signaling test goes to the tile cache |
| Classifier.PeerPathIsTile | sw.js:44-53 | a `/peer/z/x/y…` path contains `peer` and is still routed as a tile |
| CacheApi.Without | sw.js:84 | removing a key keeps exactly the other keys and distinctness; for a duplicate-free list, the length drops by exactly one when the key was present |
| CacheApi.WithoutAppend | sw.js:84 | removing a key from a concatenation removes it from each part, so the kept keys stay in their order |
| CacheApi.WithoutSingleton | sw.js:84 | a one-key list loses its key exactly when it is the key removed |
| CacheApi.PutMovesToEnd | sw.js:84 | `cache.put` of a stored key moves it to the end; the keys before and after it keep their order |
| CacheApi.DistinctAround | sw.js:84 | in a key list without duplicates, a key appears neither before nor after its own place |
| CacheApi.Store.Put | sw.js:84 | after `cache.put`, the key holds the new response and is the newest key; a key that was absent is appended; all other entries are unchanged |
| CacheApi.Store.Delete | sw.js:119 | after `cache.delete`, the key has no entry; every other entry is unchanged; deleting the oldest key drops the first element of the key list |
| CacheApi.StoreOf | sw.js:76 | `caches.open` yields the existing cache of that name, or a well-formed one with no keys in which every lookup misses |
| CacheApi.StoreExt | sw.js:115 | a cache is determined by its key order and what each key matches |
| CacheApi.CacheStorage.Open | sw.js:76 | opening creates the named cache if it is missing and changes nothing else |
| CacheApi.CacheStorage.Names | sw.js:30 | `caches.keys()` lists exactly the existing cache names |
| CacheApi.CacheStorage.DeleteCache | sw.js:33 | `caches.delete(name)` removes that cache, reports whether it existed, and leaves the other caches alone |
| CacheApi.CacheStorage.Match | sw.js:77 | `cache.match` returns the stored response for a GET request's key, if there is one; a request with any other method finds nothing |
| CacheApi.CacheStorage.EntryKeys | sw.js:115 | `cache.keys()` returns the keys oldest first |
| CacheApi.CacheStorage.Put | sw.js:84 | `cache.put` on an open cache: the new store is `Store.Put` for a GET request and the old one otherwise, and no other cache changes |
| CacheApi.CacheStorage.DeleteEntry | sw.js:119 | `cache.delete(key)` reports whether an entry existed; the new store is `Store.Delete`; no other cache changes |
| CacheApi.CacheStorage.AddAll | sw.js:22 | `cache.addAll` succeeds exactly when the whole batch is fetched ok; the batch is then stored; otherwise nothing changes |
| CacheApi.FetchBatch | sw.js:22 | the batch fetch yields responses exactly when every asset is delivered with an ok status; the responses are then those of the assets, in order |
| CacheApi.PutAll | sw.js:22 | storing a batch never touches a key outside the batch |
| CacheApi.PutAllStoresEach | sw.js:22 | after a batch of distinct keys, each key holds its own response |
| CacheApi.AfterAddAll | sw.js:22 | the batch commits exactly when every fetch of it succeeds ok; the committed cache is well-formed, and keys outside the batch match what they matched before |
| CacheApi.AddAllSpec | sw.js:22 | `cache.addAll` commits exactly when every asset of the batch arrives with an ok status; for distinct keys each then holds its response, and every other entry is as before |
| Policy.TrimCount | sw.js:116-117 | above 2000 keys, the number deleted leaves exactly 1900 keys |
| Policy.Trim | sw.js:114-122 | a trimmed cache is well-formed and holds at most 2000 keys; a cache of at most 2000 keys keeps its key list |
| Policy.DropOldest | sw.js:118-120 | after `count` deletions, exactly the keys from position `count` on are left, with their responses, and the deleted keys match nothing |
| Policy.DropOldestStep | sw.js:118-120 | one pass of the deletion loop is one more key dropped from the front |
| Policy.DropNothing | sw.js:116 | a trim that deletes nothing leaves the cache as it was |
| Policy.TrimSpec | sw.js:114-122 | a cache of at most 2000 keys is left alone; a larger one keeps exactly its 1900 newest keys, in order, with their responses, and its oldest `n - 2000 + 100` keys are gone |
| Policy.TileOutcome | sw.js:75-93 | the cache after a tile request is well-formed, and it changes only when the request misses and the network delivers an ok response; for a request with another method than GET, it changes only through the trim |
| Policy.TileHit | sw.js:77-78 | a stored tile is returned as it is, regardless of the network, and the cache does not change |
| Policy.TileMiss | sw.js:80-92 | on a miss, the network's response is returned even when it is not ok; a rejection becomes the 404 "Offline" tile; anything but an ok response leaves the cache unchanged |
| Policy.TileAppended | sw.js:82-86 | a missed tile delivered ok is appended to the key list, and the trim then keeps the newest keys |
| Policy.TileStored | sw.js:82-86 | a missed tile delivered ok ends up stored as the newest key and holds its response; the other survivors keep theirs; a cache within the limit stays within it |
| Policy.TileKeepsLimit | sw.js:16 | no tile request, with any method, takes a cache that holds at most 2000 tiles over 2000 |
| Policy.NonGetTilePassesThrough | sw.js:77-92 | a tile request with another method than GET is answered by the network or the offline 404; the trim still runs, so the surviving keys keep their responses, and a cache within the limit does not change |
| Policy.ClearedTileCacheMisses | sw.js:129-131 | after the tile cache is cleared, the next tile request is answered from the network, or with the offline 404 |
| Policy.FirstFetchesFromEmpty | sw.js:114-122 | when up to 2101 distinct tiles are fetched ok into an empty cache, all are kept while there are at most 2000; from the 2001st on, the cache holds exactly the fetches after the first 101, in FIFO order |
| Policy.ShellOutcome | sw.js:96-111 | the shell cache after a request is well-formed, and it changes only when a GET request is answered ok by the network |
| Policy.ShellResponse | sw.js:107-110 | the cached copy wins; with no cached copy, the network's response of any status is returned; with no network either, the 503 "TacMap is offline" |
| Policy.ShellRevalidates | sw.js:100-105 | the fetch always runs: an ok response to a GET replaces the entry for this key only; any other outcome, or any other method, leaves the cache unchanged |
| Policy.NonGetShellPassesThrough | sw.js:96-111 | a request with another method than GET is answered by the network or the offline 503, and the shell cache does not change |
| Policy.StaleNames | sw.js:32 | the names to delete are existing names, and never `tacmap-v1` or `tacmap-tiles-v1` |
| Policy.ActivateKeepsCurrent | sw.js:30-33 | what survives the filter is exactly the current names that existed |
| Policy.CoreAssetsDistinct | sw.js:5-12 | no core asset is listed twice |
| Policy.CoreAssetsRelative | sw.js:5-12 | every core asset is written relative to the worker's directory, as `./name` |
| Policy.Resolve | sw.js:22 | a `./name` asset resolves to the base URL followed by `name` |
| Policy.ResolveInjective | sw.js:22 | two different `./` assets resolve to two different URLs |
| Policy.ResolveAll | sw.js:22 | resolving a list resolves each asset in its place |
| Policy.ResolveAllDistinct | sw.js:22 | a list of different `./` assets resolves to a list of different URLs |
| Policy.InstallSpec | sw.js:19-24 | the install batch succeeds exactly when all six resolved core-asset URLs arrive ok; each URL then holds its response, and every other entry is as before |
| Policy.InstalledAssetServedOffline | sw.js:19-24 | after a committed install, each core asset is served from the shell cache with no network, as the response the install fetched |
| ServiceWorker.TrimTileCache | sw.js:114-122 | the deletion loop leaves the tile cache equal to `Trim` of what it was, and no other cache changes |
| ServiceWorker.StoreTile | sw.js:84-86 | `cache.put` then `trimTileCache`: the tile cache becomes `Trim` of the cache after the put, and no other cache changes |
| ServiceWorker.FetchTile | sw.js:80-92 | on a miss, the response and the new tile cache are `TileOutcome` of the opened cache; no other cache changes |
| ServiceWorker.TileCacheFirst | sw.js:75-93 | the response and the new tile cache are `TileOutcome` of the cache as it was opened, for the request's URL and method; no other cache changes |
| ServiceWorker.Revalidate | sw.js:100-105 | the background fetch yields the network's response, or nothing on a rejection; the shell cache becomes `Revalidated`, and no other cache changes |
| ServiceWorker.StaleWhileRevalidate | sw.js:96-111 | the response and the new shell cache are `ShellOutcome` of the cache as it was opened, for the request's URL and method; no other cache changes |
| ServiceWorker.OnFetch | sw.js:40-57 | tile requests get `TileOutcome`, and only the tile cache changes; signaling requests get the network's own result, and nothing changes; all others get `ShellOutcome`, and only the shell cache changes |
| ServiceWorker.OpenAndAddAll | sw.js:21-22 | opening a cache and adding a batch: the result and the new cache are those of `AfterAddAll` |
| ServiceWorker.OnInstall | sw.js:19-25 | install succeeds, and goes on to `skipWaiting`, exactly when the batch of core assets resolved against `base` commits; otherwise the shell cache is only created |
| ServiceWorker.OnActivate | sw.js:28-37 | every stale cache is deleted; the surviving names are the existing ones among `tacmap-v1` and `tacmap-tiles-v1` |
| ServiceWorker.OnMessage | sw.js:125-132 | `"skipWaiting"` calls `skipWaiting`; `"clearTileCache"` deletes only the tile cache; any other message changes nothing |
| ServiceWorker.ClearThenFetchTile | sw.js:129-131 | after `clearTileCache`, a tile request is answered by the network, and the tile cache starts again from empty |
| ServiceWorker.ServeCachedTile | sw.js:76-78 | a tile request that finds its tile stored returns the stored copy, whatever the network says, and changes no cache |
| ServiceWorker.FetchTileTwice | sw.js:77-87 | a tile that was missed and delivered ok is served from the cache the second time, whatever the network says, and the second request changes nothing |

## Left out

- URL parsing (`new URL`) is not modelled. A request arrives as its method, its URL, and that URL's hostname and pathname. Cache entries are matched by URL alone, so headers, `Vary` matching and the `ignoreMethod` options are not modelled.
- `Request.url` stands for the request URL without its fragment; the Cache API ignores fragments when matching. Stripping the fragment is not modelled. A page that asks for `./tacmap-v8.html#view` is modelled as asking for `./tacmap-v8.html`, so it finds the entry that install stored.
- A `cache.put` of a request with another method than GET rejects its promise with a `TypeError`. Neither `tileCacheFirst` nor `staleWhileRevalidate` awaits that promise, so the model stores nothing and carries on with the same response (the tile trim still runs). The unhandled rejection itself is not modelled.
- Relative URLs are resolved only in the form the core assets use, `./name`, which becomes the base URL followed by `name` (`Policy.Resolve`). Other relative forms (`../`, `/`, a query, a fragment) and URL normalisation are not modelled; such a key is used as it is written. `base` is assumed to end in `/`.
- Concurrency and promise interleaving are not modelled:
  - `cache.put` and `trimTileCache` are not awaited in `tileCacheFirst` (`sw.js:84-86`). The model runs them in order: the put completes before the trim lists the keys.
  - The background revalidation of `staleWhileRevalidate` is settled within the same request.
  - Concurrent requests are not modelled.
- The network, the clock and response bodies as streams are inputs or are left out. `response.clone()` is the identity, because the model has no body streams.
- The Cache API's refusal to store a 206 partial response is not modelled. Neither are quota errors or a rejected `caches.open`.
- A cache of that name that does not exist yet is treated as empty. The order in which `caches.keys()` lists cache names is not modelled, because nothing in the worker depends on it.
- The 404 offline tile is modelled with no headers. The `Content-Type` that the `Response` constructor adds by default for a string body is not modelled.
- `self.skipWaiting()` and `self.clients.claim()` only change the browser's lifecycle state. `skipWaiting` becomes a result of the install and message handlers, and `clients.claim` is not modelled.
- Message data is modelled as a string. Other structured-clone values compare unequal to both messages, so they behave like an unknown string.
- `CACHE_VERSION` (`sw.js:2`) is declared but never used, so it is not modelled.
