/**
 * The event handlers of sw.js over an explicit Cache Storage. The network is an
 * input: the outcome `fetch` would settle to for this request.
 */
module ServiceWorker {
  import opened Wrappers
  import opened Fetch
  import opened CacheApi
  import opened Classifier
  import opened Policy

  /**
   * A request as the `fetch` listener sees it: its method (`request.method`), its URL
   * without the fragment (the part the Cache API compares), and that URL's hostname and pathname.
   */
  datatype Request = Request(verb: string, url: Key, hostname: string, pathname: string)
  {
    /** Only GET requests are looked up in, and stored into, a cache. */
    predicate IsGet() {
      verb == "GET"
    }
  }

  /** The messages the page can post. */
  const SkipWaitingMessage: string := "skipWaiting"
  const ClearTileCacheMessage: string := "clearTileCache"

  /** `trimTileCache(cache)`: deletes the oldest keys of the tile cache, one at a time. */
  method TrimTileCache(caches: CacheStorage)
    requires caches.Valid() && TileCache in caches.stores
    modifies caches
    ensures caches.Valid()
    ensures caches.stores == old(caches.stores)[TileCache := Trim(old(caches.stores)[TileCache])]
  {
    ghost var before, s := caches.stores, caches.stores[TileCache];
    var keys := caches.EntryKeys(TileCache);
    if |keys| > MaxTileCache {
      var toDelete := |keys| - MaxTileCache + TrimHeadroom;
      assert toDelete == TrimCount(|s.keys|);
      DropNothing(s);
      for i := 0 to toDelete
        invariant caches.Valid()
        invariant caches.stores == before[TileCache := DropOldest(s, i)]
      {
        DropOldestStep(s, i);
        var _ := caches.DeleteEntry(TileCache, keys[i]);
      }
    } else {
      DropNothing(s);
    }
  }

  /** The tile branch's `cache.put(request, response.clone())` followed by `trimTileCache(cache)`. */
  method StoreTile(caches: CacheStorage, isGet: bool, key: Key, r: Response)
    requires caches.Valid() && TileCache in caches.stores
    modifies caches
    ensures caches.Valid()
    ensures caches.stores == old(caches.stores)[TileCache := Trim(old(caches.stores)[TileCache].PutRequest(isGet, key, r))]
  {
    ghost var before, s := caches.stores, caches.stores[TileCache];
    caches.Put(TileCache, isGet, key, r);
    TrimTileCache(caches);
    UpdateTwice(before, TileCache, s.PutRequest(isGet, key, r), Trim(s.PutRequest(isGet, key, r)));
  }

  /** `tileCacheFirst(request)`. */
  method TileCacheFirst(caches: CacheStorage, request: Request, net: NetworkResult) returns (response: Response)
    requires caches.Valid()
    modifies caches
    ensures caches.Valid()
    ensures var out := TileOutcome(StoreOf(old(caches.stores), TileCache), request.url, request.IsGet(), net);
      response == out.response && caches.stores == old(caches.stores)[TileCache := out.store]
  {
    ghost var before, s := caches.stores, StoreOf(caches.stores, TileCache);
    caches.Open(TileCache);
    assert caches.stores == before[TileCache := s];
    var cached := caches.Match(TileCache, request.IsGet(), request.url);
    if cached.Some? {
      assert TileOutcome(s, request.url, request.IsGet(), net) == Served(cached.value, s);
      return cached.value;
    }
    response := FetchTile(caches, request.IsGet(), request.url, net);
    UpdateTwice(before, TileCache, s, TileOutcome(s, request.url, request.IsGet(), net).store);
    assert caches.stores == before[TileCache := TileOutcome(s, request.url, request.IsGet(), net).store];
  }

  /** The miss path of tileCacheFirst: `fetch(request)`, an ok response stored, or else the offline tile. */
  method FetchTile(caches: CacheStorage, isGet: bool, key: Key, net: NetworkResult) returns (response: Response)
    requires caches.Valid() && TileCache in caches.stores
    requires caches.stores[TileCache].MatchRequest(isGet, key) == None
    modifies caches
    ensures caches.Valid()
    ensures var out := TileOutcome(old(caches.stores)[TileCache], key, isGet, net);
      response == out.response && caches.stores == old(caches.stores)[TileCache := out.store]
  {
    ghost var s := caches.stores[TileCache];
    match net {
      case NetworkError =>
        response := OfflineTile;
      case Delivered(r) =>
        if r.Ok() {
          StoreTile(caches, isGet, key, r);
          assert TileOutcome(s, key, isGet, net) == Served(r, Trim(s.PutRequest(isGet, key, r)));
        }
        response := r;
    }
  }

  /** The background `fetch(request)` of staleWhileRevalidate: an ok response is `cache.put`. */
  method Revalidate(caches: CacheStorage, isGet: bool, key: Key, net: NetworkResult) returns (fetched: Option<Response>)
    requires caches.Valid() && CacheName in caches.stores
    modifies caches
    ensures caches.Valid()
    ensures fetched == if net.Delivered? then Some(net.response) else None
    ensures caches.stores == old(caches.stores)[CacheName := Revalidated(old(caches.stores)[CacheName], key, isGet, net)]
  {
    match net {
      case Delivered(r) =>
        if r.Ok() {
          caches.Put(CacheName, isGet, key, r);
        }
        fetched := Some(r);
      case NetworkError =>
        fetched := None;
    }
  }

  /** `staleWhileRevalidate(request)`, with the background fetch settled within the same step. */
  method StaleWhileRevalidate(caches: CacheStorage, request: Request, net: NetworkResult) returns (response: Response)
    requires caches.Valid()
    modifies caches
    ensures caches.Valid()
    ensures var out := ShellOutcome(StoreOf(old(caches.stores), CacheName), request.url, request.IsGet(), net);
      response == out.response && caches.stores == old(caches.stores)[CacheName := out.store]
  {
    ghost var before, s := caches.stores, StoreOf(caches.stores, CacheName);
    caches.Open(CacheName);
    assert caches.stores == before[CacheName := s];
    var cached := caches.Match(CacheName, request.IsGet(), request.url);
    var fetched := Revalidate(caches, request.IsGet(), request.url, net);
    UpdateTwice(before, CacheName, s, Revalidated(s, request.url, request.IsGet(), net));
    assert caches.stores == before[CacheName := Revalidated(s, request.url, request.IsGet(), net)];
    assert ShellOutcome(s, request.url, request.IsGet(), net).store == Revalidated(s, request.url, request.IsGet(), net);
    if cached.Some? {
      response := cached.value;
    } else if fetched.Some? {
      response := fetched.value;
    } else {
      response := OfflineShell;
    }
  }

  /**
   * The `fetch` listener: what `event.respondWith` is given, a response or (for the
   * signaling pass-through) the network's own failure.
   */
  method OnFetch(caches: CacheStorage, request: Request, net: NetworkResult) returns (reply: NetworkResult)
    requires caches.Valid()
    modifies caches
    ensures caches.Valid()
    ensures Classify(request.hostname, request.pathname) == Tile ==>
              var out := TileOutcome(StoreOf(old(caches.stores), TileCache), request.url, request.IsGet(), net);
              reply == Delivered(out.response) && caches.stores == old(caches.stores)[TileCache := out.store]
    ensures Classify(request.hostname, request.pathname) == Signaling ==>
              reply == net && caches.stores == old(caches.stores)
    ensures Classify(request.hostname, request.pathname) == Shell ==>
              var out := ShellOutcome(StoreOf(old(caches.stores), CacheName), request.url, request.IsGet(), net);
              reply == Delivered(out.response) && caches.stores == old(caches.stores)[CacheName := out.store]
  {
    match Classify(request.hostname, request.pathname) {
      case Tile =>
        var response := TileCacheFirst(caches, request, net);
        reply := Delivered(response);
      case Signaling =>
        reply := net;
      case Shell =>
        var response := StaleWhileRevalidate(caches, request, net);
        reply := Delivered(response);
    }
  }

  /**
   * The `install` listener: opens the shell cache and adds the core assets, each
   * resolved against `base`, the URL of the directory that holds the worker script,
   * as one batch. `installed` says that the batch was committed and `skipWaiting` called.
   */
  method OnInstall(caches: CacheStorage, base: string, network: Key -> NetworkResult) returns (installed: bool)
    requires caches.Valid()
    modifies caches
    ensures caches.Valid()
    ensures var batch := AfterAddAll(StoreOf(old(caches.stores), CacheName), ResolveAll(base, CoreAssets), network);
      && installed == batch.Some?
      && caches.stores == old(caches.stores)[CacheName := if installed then batch.value else StoreOf(old(caches.stores), CacheName)]
  {
    installed := OpenAndAddAll(caches, CacheName, ResolveAll(base, CoreAssets), network);
  }

  /** `caches.open(name).then(cache => cache.addAll(assets))`. */
  method OpenAndAddAll(caches: CacheStorage, name: string, assets: seq<Key>, network: Key -> NetworkResult)
    returns (ok: bool)
    requires caches.Valid()
    modifies caches
    ensures caches.Valid()
    ensures ok == AfterAddAll(StoreOf(old(caches.stores), name), assets, network).Some?
    ensures caches.stores == old(caches.stores)[name :=
              if ok then AfterAddAll(StoreOf(old(caches.stores), name), assets, network).value
              else StoreOf(old(caches.stores), name)]
  {
    caches.Open(name);
    ok := caches.AddAll(name, assets, network);
  }

  /** The `activate` listener: deletes every cache but the current two. */
  method OnActivate(caches: CacheStorage)
    requires caches.Valid()
    modifies caches
    ensures caches.Valid()
    ensures caches.stores == old(caches.stores) - StaleNames(old(caches.stores).Keys)
    ensures caches.stores.Keys == old(caches.stores).Keys * {CacheName, TileCache}
  {
    var names := caches.Names();
    var stale := StaleNames(names);
    var remaining := stale;
    while remaining != {}
      invariant caches.Valid()
      invariant remaining <= stale
      invariant caches.stores == old(caches.stores) - (stale - remaining)
      decreases remaining
    {
      var n :| n in remaining;
      var _ := caches.DeleteCache(n);
      remaining := remaining - {n};
    }
    ActivateKeepsCurrent(names);
  }

  /** The `message` listener. `skipWaiting` says that `self.skipWaiting()` was called. */
  method OnMessage(caches: CacheStorage, data: string) returns (skipWaiting: bool)
    requires caches.Valid()
    modifies caches
    ensures caches.Valid()
    ensures skipWaiting <==> data == SkipWaitingMessage
    ensures caches.stores == if data == ClearTileCacheMessage then old(caches.stores) - {TileCache} else old(caches.stores)
  {
    skipWaiting := data == SkipWaitingMessage;
    if data == ClearTileCacheMessage {
      var _ := caches.DeleteCache(TileCache);
    }
  }

  /** A `clearTileCache` message, then a tile request: the request goes to the network. */
  method ClearThenFetchTile(caches: CacheStorage, request: Request, net: NetworkResult) returns (response: Response)
    requires caches.Valid()
    modifies caches
    ensures response == (if net.Delivered? then net.response else OfflineTile)
    ensures TileCache in caches.stores
    ensures caches.stores[TileCache] == TileOutcome(EmptyStore, request.url, request.IsGet(), net).store
  {
    var _ := OnMessage(caches, ClearTileCacheMessage);
    response := TileCacheFirst(caches, request, net);
  }

  /** A GET that finds its tile stored: the stored copy, whatever the network says, and no change. */
  method ServeCachedTile(caches: CacheStorage, request: Request, net: NetworkResult) returns (response: Response)
    requires caches.Valid() && request.IsGet() && StoreOf(caches.stores, TileCache).Match(request.url).Some?
    modifies caches
    ensures caches.Valid()
    ensures response == StoreOf(old(caches.stores), TileCache).Match(request.url).value
    ensures caches.stores == old(caches.stores)
  {
    ghost var s := StoreOf(caches.stores, TileCache);
    TileHit(s, request.url, net);
    response := TileCacheFirst(caches, request, net);
    assert caches.stores == old(caches.stores)[TileCache := s];
  }

  /**
   * A tile GET missed and delivered ok, then the same GET again: the second answer
   * is the stored copy, whatever the network says, and the second request changes nothing.
   */
  method FetchTileTwice(caches: CacheStorage, request: Request, r: Response, later: NetworkResult)
    returns (first: Response, second: Response)
    requires caches.Valid() && request.IsGet() && StoreOf(caches.stores, TileCache).Match(request.url) == None && r.Ok()
    modifies caches
    ensures first == r && second == r
    ensures caches.stores ==
              old(caches.stores)[TileCache := TileOutcome(StoreOf(old(caches.stores), TileCache), request.url, true, Delivered(r)).store]
  {
    ghost var s := StoreOf(caches.stores, TileCache);
    TileStored(s, request.url, r);
    first := TileCacheFirst(caches, request, Delivered(r));
    second := ServeCachedTile(caches, request, later);
  }
}
