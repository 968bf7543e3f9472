/**
 * The caching policies of sw.js as functions from the state of one cache and
 * the outcome of the network to the response served and the new state of that
 * cache. The methods of module ServiceWorker are proved to compute them.
 */
module Policy {
  import opened Wrappers
  import opened Fetch
  import opened CacheApi

  /** The shell store. */
  const CacheName: string := "tacmap-v1"
  /** The tile store. */
  const TileCache: string := "tacmap-tiles-v1"
  /** The most tiles kept before a trim sets in. */
  const MaxTileCache: nat := 2000
  /** How many tiles beyond the excess a trim removes. */
  const TrimHeadroom: nat := 100

  /** The application shell that install caches. */
  const CoreAssets: seq<Key> := [
    "./",
    "./tacmap-v8.html",
    "./manifest.json",
    "./icon-192.png",
    "./icon-512.png",
    "./icon-180.png"
  ]

  /** What one request hands back, and the cache it leaves behind. */
  datatype Served = Served(response: Response, store: Store)

  // ----- trimTileCache -----

  /** How many of `n` keys `trimTileCache` deletes. */
  function TrimCount(n: nat): (r: nat)
    ensures n > MaxTileCache ==> n - r == MaxTileCache - TrimHeadroom
  {
    if n > MaxTileCache then n - MaxTileCache + TrimHeadroom else 0
  }

  /** The cache after its `count` oldest keys have been deleted, one after the other. */
  function DropOldest(s: Store, count: nat): (t: Store)
    requires s.Valid() && count <= |s.keys|
    ensures t.Valid()
    ensures t.keys == s.keys[count..]
    ensures forall k :: t.Match(k) == if k in s.keys[count..] then s.Match(k) else None
  {
    var t := Store(s.keys[count..], map k | k in s.keys[count..] :: s.entries[k]);
    assert Distinct(t.keys) by {
      forall i, j | 0 <= i < j < |t.keys| ensures t.keys[i] != t.keys[j] {
        assert t.keys[i] == s.keys[count + i] && t.keys[j] == s.keys[count + j];
      }
    }
    t
  }

  /** `trimTileCache`: the oldest keys go until the cache is back under its limit. */
  function Trim(s: Store): (t: Store)
    requires s.Valid()
    ensures t.Valid()
    ensures |t.keys| <= MaxTileCache
    ensures |s.keys| <= MaxTileCache ==> t.keys == s.keys
  {
    DropOldest(s, TrimCount(|s.keys|))
  }

  /** Deleting none of the keys leaves the cache as it was. */
  lemma DropNothing(s: Store)
    requires s.Valid()
    ensures DropOldest(s, 0) == s
  {
    assert s.keys[0..] == s.keys;
    StoreExt(DropOldest(s, 0), s);
  }

  /** Deleting the oldest remaining key is one more step of the trim. */
  lemma DropOldestStep(s: Store, i: nat)
    requires s.Valid() && i < |s.keys|
    ensures DropOldest(s, i).Delete(s.keys[i]) == DropOldest(s, i + 1)
  {
    var t, u := DropOldest(s, i), DropOldest(s, i + 1);
    assert s.keys[i..] == [s.keys[i]] + s.keys[i + 1..];
    var d := t.Delete(s.keys[i]);
    assert d.keys == u.keys;
    forall k ensures d.Match(k) == u.Match(k) {
      if k == s.keys[i] {
        assert k !in s.keys[i + 1..] by {
          DistinctCons(s.keys[i], s.keys[i + 1..]);
          assert Distinct(s.keys[i..]);
        }
      }
    }
    StoreExt(d, u);
  }

  /**
   * A trim leaves a cache of at most `n` keys alone; a larger one keeps exactly
   * its 1900 newest keys, in their order, with their responses, and loses the rest.
   */
  lemma TrimSpec(s: Store)
    requires s.Valid()
    ensures |s.keys| <= MaxTileCache ==> Trim(s) == s
    ensures |s.keys| > MaxTileCache ==> |Trim(s).keys| == MaxTileCache - TrimHeadroom
    ensures |Trim(s).keys| <= MaxTileCache
    ensures Trim(s).keys == s.keys[|s.keys| - |Trim(s).keys|..]
    ensures forall k :: k in Trim(s).keys ==> Trim(s).Match(k) == s.Match(k)
    ensures forall i :: 0 <= i < TrimCount(|s.keys|) ==> Trim(s).Match(s.keys[i]) == None
  {
    var n, t := |s.keys|, Trim(s);
    if n <= MaxTileCache {
      DropNothing(s);
    }
  }

  // ----- tileCacheFirst -----

  /**
   * `tileCacheFirst`: a stored tile is served as it is; otherwise the network
   * decides, and an ok response is offered to the cache, followed by a trim.
   * `isGet` says whether the request is a GET: no other request finds an entry
   * or gets one stored.
   */
  function TileOutcome(s: Store, key: Key, isGet: bool, net: NetworkResult): (out: Served)
    requires s.Valid()
    ensures out.store.Valid()
    ensures out.store != s ==> s.MatchRequest(isGet, key) == None && net.Delivered? && net.response.Ok()
  {
    match if isGet then s.Match(key) else None
    case Some(cached) => Served(cached, s)
    case None =>
      match net
      case NetworkError => Served(OfflineTile, s)
      case Delivered(r) => Served(r, if r.Ok() then Trim(if isGet then s.Put(key, r) else s) else s)
  }

  /** Tile hit: the stored response, whatever the network would have said, and no change. */
  lemma TileHit(s: Store, key: Key, net: NetworkResult)
    requires s.Valid() && s.Match(key).Some?
    ensures TileOutcome(s, key, true, net) == Served(s.Match(key).value, s)
  {
  }

  /**
   * Tile miss: the network's response is returned as it is (a failure becomes the
   * offline 404), and anything but an ok response leaves the cache alone.
   */
  lemma TileMiss(s: Store, key: Key, isGet: bool, net: NetworkResult)
    requires s.Valid() && s.MatchRequest(isGet, key) == None
    ensures TileOutcome(s, key, isGet, net).response == (if net.Delivered? then net.response else OfflineTile)
    ensures !(net.Delivered? && net.response.Ok()) ==> TileOutcome(s, key, isGet, net).store == s
  {
  }

  /** A missed tile delivered ok is appended, and the trim then keeps the newest keys. */
  lemma TileAppended(s: Store, key: Key, r: Response)
    requires s.Valid() && s.Match(key) == None && r.Ok()
    ensures TileOutcome(s, key, true, Delivered(r)).store.keys == (s.keys + [key])[TrimCount(|s.keys| + 1)..]
  {
    assert key !in s.keys;
  }

  /**
   * A missed tile delivered ok ends up stored as the newest key; every other
   * surviving key keeps its response, and a cache within the limit stays within it.
   */
  lemma TileStored(s: Store, key: Key, r: Response)
    requires s.Valid() && s.Match(key) == None && r.Ok()
    ensures var t := TileOutcome(s, key, true, Delivered(r)).store;
      && |t.keys| > 0 && t.keys[|t.keys| - 1] == key
      && t.Match(key) == Some(r)
      && (forall k :: k != key && k in t.keys ==> t.Match(k) == s.Match(k))
      && (|s.keys| < MaxTileCache ==> t.keys == s.keys + [key])
      && (|s.keys| <= MaxTileCache ==> |t.keys| <= MaxTileCache)
  {
    var p := s.Put(key, r);
    TileAppended(s, key, r);
    TrimSpec(p);
  }

  /** Every tile request keeps a cache that is within the limit within the limit. */
  lemma TileKeepsLimit(s: Store, key: Key, isGet: bool, net: NetworkResult)
    requires s.Valid() && |s.keys| <= MaxTileCache
    ensures |TileOutcome(s, key, isGet, net).store.keys| <= MaxTileCache
  {
    if s.MatchRequest(isGet, key) == None && net.Delivered? && net.response.Ok() {
      if isGet {
        TileStored(s, key, net.response);
      } else {
        TrimSpec(s);
      }
    }
  }

  /**
   * A tile request with another method than GET goes to the network: no entry
   * is added or changed, and a cache within the limit stays as it was.
   */
  lemma NonGetTilePassesThrough(s: Store, key: Key, net: NetworkResult)
    requires s.Valid()
    ensures TileOutcome(s, key, false, net).response == (if net.Delivered? then net.response else OfflineTile)
    ensures var t := TileOutcome(s, key, false, net).store;
      && (forall k :: k in t.keys ==> t.Match(k) == s.Match(k))
      && (|s.keys| <= MaxTileCache ==> t == s)
  {
    TrimSpec(s);
  }

  /** After `clearTileCache` the tile cache is recreated empty: the next tile request goes to the network. */
  lemma ClearedTileCacheMisses(key: Key, isGet: bool, net: NetworkResult)
    ensures TileOutcome(EmptyStore, key, isGet, net).response == (if net.Delivered? then net.response else OfflineTile)
  {
  }

  /** The tile cache after each of `ks` has been requested in turn and delivered as `r`. */
  function AfterTileFetches(s: Store, ks: seq<Key>, r: Response): (t: Store)
    requires s.Valid()
    ensures t.Valid()
    decreases |ks|
  {
    if ks == [] then s
    else TileOutcome(AfterTileFetches(s, ks[..|ks| - 1], r), ks[|ks| - 1], true, Delivered(r)).store
  }

  /** Which of the first `m` distinct tiles fetched into an empty cache the cache still holds. */
  function FirstKept(m: nat): (d: nat)
    ensures m <= MaxTileCache + TrimHeadroom + 1 ==> d <= m && m - d <= MaxTileCache
  {
    if m <= MaxTileCache then 0 else TrimHeadroom + 1
  }

  /**
   * FIFO eviction: fetching up to 2101 distinct tiles into an empty cache keeps
   * them all while there are at most 2000; the 2001st fetch deletes the 101
   * oldest, and the next hundred are kept without a further trim.
   */
  lemma {:induction false} FirstFetchesFromEmpty(ks: seq<Key>, r: Response)
    requires Distinct(ks) && r.Ok() && |ks| <= MaxTileCache + TrimHeadroom + 1
    ensures AfterTileFetches(EmptyStore, ks, r).keys == ks[FirstKept(|ks|)..]
    decreases |ks|
  {
    if ks != [] {
      DistinctPrefix(ks, |ks| - 1);
      FirstFetchesFromEmpty(ks[..|ks| - 1], r);
      OneMoreFetch(ks, AfterTileFetches(EmptyStore, ks[..|ks| - 1], r), r);
    }
  }

  /** The inductive step of FirstFetchesFromEmpty: one more distinct tile into the cache `prev` the earlier ones left. */
  lemma OneMoreFetch(ks: seq<Key>, prev: Store, r: Response)
    requires Distinct(ks) && r.Ok() && 0 < |ks| <= MaxTileCache + TrimHeadroom + 1
    requires prev.Valid() && prev.keys == ks[..|ks| - 1][FirstKept(|ks| - 1)..]
    ensures TileOutcome(prev, ks[|ks| - 1], true, Delivered(r)).store.keys == ks[FirstKept(|ks|)..]
  {
    var m := |ks|;
    var d := FirstKept(m - 1);
    KeptStep(m);
    LastIsFresh(ks, d);
    SliceThenAppend(ks, d);
    FreshTileAppended(prev, ks[m - 1], r, ks[d..]);
    assert ks[d..][TrimCount(m - d)..] == ks[FirstKept(m)..];
  }

  /** A fresh tile appended to `prev` gives the keys `q`; the trim then keeps the newest of them. */
  lemma FreshTileAppended(prev: Store, k: Key, r: Response, q: seq<Key>)
    requires prev.Valid() && r.Ok() && k !in prev.keys && prev.keys + [k] == q
    ensures TileOutcome(prev, k, true, Delivered(r)).store.keys == q[TrimCount(|q|)..]
  {
    TileAppended(prev, k, r);
  }

  /** In a distinct sequence the last element is not among the earlier ones. */
  lemma LastIsFresh(ks: seq<Key>, d: nat)
    requires Distinct(ks) && d < |ks|
    ensures ks[|ks| - 1] !in ks[..|ks| - 1][d..]
  {
    var n, p := |ks|, ks[..|ks| - 1];
    forall j | d <= j < |p| ensures p[j] != ks[n - 1] {
      assert p[j] == ks[j];
    }
  }

  /** Dropping the last element, slicing, and putting the last element back is slicing. */
  lemma SliceThenAppend(ks: seq<Key>, d: nat)
    requires d < |ks|
    ensures ks[..|ks| - 1][d..] + [ks[|ks| - 1]] == ks[d..]
  {
    var n := |ks|;
    assert ks[..n - 1][d..] == ks[d..n - 1];
    assert ks[d..] == ks[d..n - 1] + [ks[n - 1]];
  }

  /** The count arithmetic of one more fetch. */
  lemma KeptStep(m: nat)
    requires 0 < m <= MaxTileCache + TrimHeadroom + 1
    ensures FirstKept(m - 1) <= m
    ensures FirstKept(m - 1) + TrimCount(m - FirstKept(m - 1)) == FirstKept(m)
  {
  }

  /** A prefix of a distinct sequence is distinct. */
  lemma DistinctPrefix(ks: seq<Key>, n: nat)
    requires Distinct(ks) && n <= |ks|
    ensures Distinct(ks[..n])
  {
    forall i, j | 0 <= i < j < n ensures ks[..n][i] != ks[..n][j] {
      assert ks[..n][i] == ks[i] && ks[..n][j] == ks[j];
    }
  }

  // ----- staleWhileRevalidate -----

  /**
   * `staleWhileRevalidate`: the cached copy when there is one, else the network
   * response of any status, else the offline 503; the fetch always runs and an ok
   * response is offered to the cache. `isGet` as for TileOutcome.
   */
  function ShellOutcome(s: Store, key: Key, isGet: bool, net: NetworkResult): (out: Served)
    requires s.Valid()
    ensures out.store.Valid()
    ensures out.store != s ==> isGet && net.Delivered? && net.response.Ok()
  {
    var revalidated := Revalidated(s, key, isGet, net);
    match if isGet then s.Match(key) else None
    case Some(cached) => Served(cached, revalidated)
    case None =>
      match net
      case Delivered(r) => Served(r, revalidated)
      case NetworkError => Served(OfflineShell, revalidated)
  }

  /** The shell cache once the background fetch has settled: an ok response to a GET is put. */
  function Revalidated(s: Store, key: Key, isGet: bool, net: NetworkResult): (t: Store)
    requires s.Valid()
    ensures t.Valid()
  {
    if isGet && net.Delivered? && net.response.Ok() then s.Put(key, net.response) else s
  }

  /** The response: stale copy first, then the network's response even when not ok, then 503. */
  lemma ShellResponse(s: Store, key: Key, isGet: bool, net: NetworkResult)
    requires s.Valid()
    ensures var cached := s.MatchRequest(isGet, key);
      && (cached.Some? ==> ShellOutcome(s, key, isGet, net).response == cached.value)
      && (cached == None && net.Delivered? ==> ShellOutcome(s, key, isGet, net).response == net.response)
      && (cached == None && net.NetworkError? ==> ShellOutcome(s, key, isGet, net).response == OfflineShell)
  {
  }

  /**
   * The shell cache changes only on an ok response to a GET, and then only at
   * this request's key, which afterwards holds the fresh response.
   */
  lemma ShellRevalidates(s: Store, key: Key, isGet: bool, net: NetworkResult)
    requires s.Valid()
    ensures var t := ShellOutcome(s, key, isGet, net).store;
      && (forall k :: k != key ==> t.Match(k) == s.Match(k))
      && t.Match(key) == (if isGet && net.Delivered? && net.response.Ok() then Some(net.response) else s.Match(key))
      && (!(isGet && net.Delivered? && net.response.Ok()) ==> t == s)
  {
  }

  /** A request with another method than GET is answered by the network, or the 503, and changes nothing. */
  lemma NonGetShellPassesThrough(s: Store, key: Key, net: NetworkResult)
    requires s.Valid()
    ensures ShellOutcome(s, key, false, net) == Served(if net.Delivered? then net.response else OfflineShell, s)
  {
  }

  // ----- activate -----

  /** The caches that activate deletes: all but the current shell and tile caches. */
  function StaleNames(names: set<string>): (stale: set<string>)
    ensures stale <= names
    ensures CacheName !in stale && TileCache !in stale
  {
    set n | n in names && n != CacheName && n != TileCache
  }

  /** What survives activate is exactly the current names that existed before. */
  lemma ActivateKeepsCurrent(names: set<string>)
    ensures names - StaleNames(names) == names * {CacheName, TileCache}
  {
  }

  // ----- install -----

  /** A path of the form `./name`. */
  predicate IsDotRelative(rel: Key) {
    |rel| >= 2 && rel[..2] == "./"
  }

  /**
   * The URL `addAll` fetches and stores for `rel`, with `base` the URL of the
   * directory that holds the worker script: `./name` names `base` followed by
   * `name`; any other text is taken as an absolute URL already.
   */
  function Resolve(base: string, rel: Key): (url: Key)
    ensures IsDotRelative(rel) ==> base <= url && url[|base|..] == rel[2..]
  {
    if IsDotRelative(rel) then base + rel[2..] else rel
  }

  /** Two different `./` paths name two different URLs. */
  lemma ResolveInjective(base: string, a: Key, b: Key)
    requires IsDotRelative(a) && IsDotRelative(b) && a != b
    ensures Resolve(base, a) != Resolve(base, b)
  {
    assert a == a[..2] + a[2..] && b == b[..2] + b[2..];
  }

  /** Each path of a list resolved, in order. */
  function ResolveAll(base: string, rels: seq<Key>): (urls: seq<Key>)
    ensures |urls| == |rels|
    ensures forall i :: 0 <= i < |rels| ==> urls[i] == Resolve(base, rels[i])
    decreases |rels|
  {
    if rels == [] then [] else [Resolve(base, rels[0])] + ResolveAll(base, rels[1..])
  }

  /** Distinct `./` paths resolve to distinct URLs. */
  lemma ResolveAllDistinct(base: string, rels: seq<Key>)
    requires Distinct(rels) && forall i :: 0 <= i < |rels| ==> IsDotRelative(rels[i])
    ensures Distinct(ResolveAll(base, rels))
  {
    var urls := ResolveAll(base, rels);
    forall i, j | 0 <= i < j < |urls| ensures urls[i] != urls[j] {
      ResolveInjective(base, rels[i], rels[j]);
    }
  }

  /**
   * Install's batch, `cache.addAll(CORE_ASSETS)`, succeeds exactly when every core
   * asset, resolved against the worker's directory, arrives with an ok status; then
   * each resolved URL holds its response and every other entry is as before.
   */
  lemma InstallSpec(s: Store, base: string, network: Key -> NetworkResult)
    requires s.Valid()
    ensures var urls := ResolveAll(base, CoreAssets);
      && (AfterAddAll(s, urls, network).Some? <==>
            forall i :: 0 <= i < |urls| ==> network(urls[i]).Delivered? && network(urls[i]).response.Ok())
      && (AfterAddAll(s, urls, network).Some? ==>
            && (forall i :: 0 <= i < |urls| ==> AfterAddAll(s, urls, network).value.Match(urls[i]) == Some(network(urls[i]).response))
            && (forall k :: k !in urls ==> AfterAddAll(s, urls, network).value.Match(k) == s.Match(k)))
  {
    CoreAssetsDistinct();
    CoreAssetsRelative();
    ResolveAllDistinct(base, CoreAssets);
    AddAllSpec(s, ResolveAll(base, CoreAssets), network);
  }

  /**
   * Once install has committed, a GET for a core asset's URL is served from the
   * shell cache even with no network: the response is the one install stored.
   */
  lemma InstalledAssetServedOffline(s: Store, base: string, network: Key -> NetworkResult, i: nat)
    requires s.Valid() && i < |CoreAssets|
    requires AfterAddAll(s, ResolveAll(base, CoreAssets), network).Some?
    ensures var url := Resolve(base, CoreAssets[i]);
      ShellOutcome(AfterAddAll(s, ResolveAll(base, CoreAssets), network).value, url, true, NetworkError).response
        == network(url).response
  {
    InstallSpec(s, base, network);
    assert ResolveAll(base, CoreAssets)[i] == Resolve(base, CoreAssets[i]);
  }

  /** No core asset is listed twice. */
  lemma CoreAssetsDistinct()
    ensures Distinct(CoreAssets)
  {
  }

  /** Every core asset is a `./` path. */
  lemma CoreAssetsRelative()
    ensures forall i :: 0 <= i < |CoreAssets| ==> IsDotRelative(CoreAssets[i])
  {
  }
}
