/**
 * The browser's Cache Storage as explicit state: named caches, each an
 * insertion-ordered list of request keys with the response stored under each.
 * An entry is keyed by its request's URL without the fragment, which the Cache
 * API ignores when matching. Only GET requests have entries: a
 * lookup for any other method finds nothing, and storing one is refused.
 */
module CacheApi {
  import opened Wrappers
  import opened Fetch

  type Key = string

  ghost predicate Distinct<T>(s: seq<T>) {
    forall i, j :: 0 <= i < j < |s| ==> s[i] != s[j]
  }

  /** A sequence with a first element is distinct when its tail is and leaves the head out. */
  lemma DistinctCons(h: Key, t: seq<Key>)
    ensures Distinct([h] + t) <==> h !in t && Distinct(t)
  {
    var s := [h] + t;
    if Distinct(s) {
      forall i, j | 0 <= i < j < |t| ensures t[i] != t[j] {
        assert s[i + 1] == t[i] && s[j + 1] == t[j];
      }
      forall j | 0 <= j < |t| ensures t[j] != h {
        assert s[j + 1] == t[j] && s[0] == h;
      }
    }
  }

  /** `s` with every occurrence of `x` taken out, the rest in their order. */
  function Without(s: seq<Key>, x: Key): (r: seq<Key>)
    ensures forall y :: y in r <==> y in s && y != x
    ensures x !in s ==> r == s
    ensures Distinct(s) ==> Distinct(r) && (x in s ==> |r| == |s| - 1)
  {
    if s == [] then []
    else if s[0] == x then
      assert s == [s[0]] + s[1..];
      DistinctCons(s[0], s[1..]);
      Without(s[1..], x)
    else
      var r := [s[0]] + Without(s[1..], x);
      assert s == [s[0]] + s[1..];
      DistinctCons(s[0], s[1..]);
      DistinctCons(s[0], Without(s[1..], x));
      r
  }

  /** Taking a key out of a concatenation takes it out of each part: the kept keys keep their order. */
  lemma {:induction false} WithoutAppend(a: seq<Key>, b: seq<Key>, x: Key)
    ensures Without(a + b, x) == Without(a, x) + Without(b, x)
    decreases |a|
  {
    if a == [] {
      assert a + b == b;
    } else {
      assert (a + b)[0] == a[0] && (a + b)[1..] == a[1..] + b;
      WithoutAppend(a[1..], b, x);
    }
  }

  /** A one-key list loses its key exactly when it is the key taken out. */
  lemma WithoutSingleton(y: Key, x: Key)
    ensures Without([y], x) == if y == x then [] else [y]
  {
    assert [y][1..] == [];
  }

  /** One cache: the keys in the order `cache.keys()` lists them, and the entries. */
  datatype Store = Store(keys: seq<Key>, entries: map<Key, Response>)
  {
    /** Each key is listed once, and the listed keys are exactly the stored ones. */
    ghost predicate Valid() {
      Distinct(keys) && forall k :: k in entries <==> k in keys
    }

    /** `cache.match(request)` for a GET request. */
    function Match(k: Key): Option<Response> {
      if k in entries then Some(entries[k]) else None
    }

    /** `cache.match(request)`: a request with another method than GET finds nothing. */
    function MatchRequest(isGet: bool, k: Key): Option<Response> {
      if isGet then Match(k) else None
    }

    /**
     * `cache.put(request, response)`: the entry for `k` is replaced and `k`
     * becomes the newest key; every other entry stays, and the other keys keep
     * their order (lemma PutMovesToEnd).
     */
    function Put(k: Key, r: Response): (t: Store)
      requires Valid()
      ensures t.Valid()
      ensures t.Match(k) == Some(r)
      ensures forall k' :: k' != k ==> t.Match(k') == Match(k')
      ensures |t.keys| > 0 && t.keys[|t.keys| - 1] == k
      ensures k !in keys ==> t.keys == keys + [k]
      ensures |t.keys| == if k in keys then |keys| else |keys| + 1
    {
      Store(Without(keys, k) + [k], entries[k := r])
    }

    /** `cache.delete(request)`: the entry for `k` goes, the other keys keep their order. */
    function Delete(k: Key): (t: Store)
      requires Valid()
      ensures t.Valid()
      ensures t.Match(k) == None
      ensures forall k' :: k' != k ==> t.Match(k') == Match(k')
      ensures k !in keys ==> t == this
      ensures |keys| > 0 && keys[0] == k ==> t.keys == keys[1..]
    {
      Store(Without(keys, k), entries - {k})
    }

    /** `cache.put(request, response)`: a request with another method than GET is refused and nothing is stored. */
    function PutRequest(isGet: bool, k: Key, r: Response): (t: Store)
      requires Valid()
      ensures t.Valid()
    {
      if isGet then Put(k, r) else this
    }
  }

  /** A cache that has just been created. */
  const EmptyStore: Store := Store([], map[])

  /** What `caches.open(name)` yields: the existing cache, or a new empty one. */
  function StoreOf(stores: map<string, Store>, name: string): (s: Store)
    ensures name in stores ==> s == stores[name]
    ensures name !in stores ==> s.Valid() && s.keys == [] && forall k :: s.Match(k) == None
  {
    if name in stores then stores[name] else EmptyStore
  }

  /** The place of `k` in a distinct key list splits it into the keys before and after, neither holding `k`. */
  lemma DistinctAround(pre: seq<Key>, k: Key, post: seq<Key>)
    requires Distinct(pre + [k] + post)
    ensures k !in pre && k !in post
  {
    var s := pre + [k] + post;
    assert s[|pre|] == k;
    forall i | 0 <= i < |pre| ensures pre[i] != k {
      assert s[i] == pre[i];
    }
    forall i | 0 <= i < |post| ensures post[i] != k {
      assert s[|pre| + 1 + i] == post[i];
    }
  }

  /** `cache.put` of a stored key moves that key to the end; the keys around it keep their order. */
  lemma PutMovesToEnd(s: Store, k: Key, r: Response, pre: seq<Key>, post: seq<Key>)
    requires s.Valid() && s.keys == pre + [k] + post
    ensures s.Put(k, r).keys == pre + post + [k]
  {
    DistinctAround(pre, k, post);
    WithoutAppend(pre + [k], post, k);
    WithoutAppend(pre, [k], k);
    WithoutSingleton(k, k);
    assert pre + [] == pre;
  }

  /** Two valid stores with the same key order and the same entries are the same store. */
  lemma StoreExt(s: Store, t: Store)
    requires s.Valid() && t.Valid() && s.keys == t.keys
    requires forall k :: s.Match(k) == t.Match(k)
    ensures s == t
  {
    forall k | k in s.entries
      ensures k in t.entries && s.entries[k] == t.entries[k]
    {
      assert s.Match(k) == t.Match(k);
    }
    assert s.entries == t.entries;
  }

  /** Updating a map at one key twice keeps the second value only. */
  lemma UpdateTwice<K, V>(m: map<K, V>, k: K, a: V, b: V)
    ensures m[k := a][k := b] == m[k := b]
  {
  }

  /** The origin's Cache Storage (`self.caches`): caches by name. */
  class CacheStorage {
    var stores: map<string, Store>

    ghost predicate Valid()
      reads this
    {
      forall n :: n in stores ==> stores[n].Valid()
    }

    constructor ()
      ensures Valid() && stores == map[]
    {
      stores := map[];
    }

    /** `caches.open(name)`: creates the cache when there is none of that name. */
    method Open(name: string)
      requires Valid()
      modifies this
      ensures Valid()
      ensures stores == old(stores)[name := StoreOf(old(stores), name)]
    {
      if name !in stores {
        stores := stores[name := EmptyStore];
      }
    }

    /** `caches.keys()`: the names of the existing caches. */
    method Names() returns (names: set<string>)
      ensures names == stores.Keys
    {
      names := stores.Keys;
    }

    /** `caches.delete(name)`: drops the whole cache; tells whether there was one. */
    method DeleteCache(name: string) returns (existed: bool)
      requires Valid()
      modifies this
      ensures Valid()
      ensures existed == (name in old(stores))
      ensures stores == old(stores) - {name}
    {
      existed := name in stores;
      stores := stores - {name};
    }

    /** `cache.match(request)` on an opened cache. */
    method Match(name: string, isGet: bool, k: Key) returns (r: Option<Response>)
      requires name in stores
      ensures r == stores[name].MatchRequest(isGet, k)
      ensures r.Some? ==> isGet && k in stores[name].entries
    {
      r := stores[name].MatchRequest(isGet, k);
    }

    /** `cache.keys()` on an opened cache. */
    method EntryKeys(name: string) returns (ks: seq<Key>)
      requires name in stores
      ensures ks == stores[name].keys
    {
      ks := stores[name].keys;
    }

    /** `cache.put(request, response)` on an opened cache. */
    method Put(name: string, isGet: bool, k: Key, r: Response)
      requires Valid() && name in stores
      modifies this
      ensures Valid()
      ensures stores == old(stores)[name := old(stores)[name].PutRequest(isGet, k, r)]
    {
      stores := stores[name := stores[name].PutRequest(isGet, k, r)];
    }

    /** `cache.delete(request)` on an opened cache; tells whether there was an entry. */
    method DeleteEntry(name: string, k: Key) returns (existed: bool)
      requires Valid() && name in stores
      modifies this
      ensures Valid()
      ensures existed == old(stores)[name].Match(k).Some?
      ensures stores == old(stores)[name := old(stores)[name].Delete(k)]
    {
      existed := stores[name].Match(k).Some?;
      stores := stores[name := stores[name].Delete(k)];
    }

    /** `cache.addAll(requests)` on an opened cache: all of the batch is stored, or nothing. */
    method AddAll(name: string, ks: seq<Key>, network: Key -> NetworkResult) returns (ok: bool)
      requires Valid() && name in stores
      modifies this
      ensures Valid()
      ensures var out := AfterAddAll(old(stores)[name], ks, network);
        && ok == out.Some?
        && stores == if ok then old(stores)[name := out.value] else old(stores)
    {
      var out := AfterAddAll(stores[name], ks, network);
      ok := out.Some?;
      if ok {
        stores := stores[name := out.value];
      }
    }
  }

  /** The puts of a batch, in order. */
  function PutAll(s: Store, ks: seq<Key>, rs: seq<Response>): (t: Store)
    requires s.Valid() && |ks| == |rs|
    ensures t.Valid()
    ensures forall k :: k !in ks ==> t.Match(k) == s.Match(k)
    decreases |ks|
  {
    if ks == [] then s else PutAll(s.Put(ks[0], rs[0]), ks[1..], rs[1..])
  }

  /** The tail of a distinct sequence is distinct, and its head is not in it. */
  lemma DistinctTail(ks: seq<Key>)
    requires Distinct(ks) && |ks| > 0
    ensures Distinct(ks[1..]) && ks[0] !in ks[1..]
  {
    assert ks == [ks[0]] + ks[1..];
    DistinctCons(ks[0], ks[1..]);
  }

  /** After a batch of distinct keys, each key holds the response paired with it. */
  lemma {:induction false} PutAllStoresEach(s: Store, ks: seq<Key>, rs: seq<Response>, i: nat)
    requires s.Valid() && |ks| == |rs| && Distinct(ks) && i < |ks|
    ensures PutAll(s, ks, rs).Match(ks[i]) == Some(rs[i])
    decreases |ks|
  {
    var s' := s.Put(ks[0], rs[0]);
    assert PutAll(s, ks, rs) == PutAll(s', ks[1..], rs[1..]);
    DistinctTail(ks);
    if i == 0 {
      assert s'.Match(ks[0]) == Some(rs[0]);
    } else {
      assert ks[1..][i - 1] == ks[i] && rs[1..][i - 1] == rs[i];
      PutAllStoresEach(s', ks[1..], rs[1..], i - 1);
    }
  }

  /**
   * The fetches of `cache.addAll`: the responses, in order, when every fetch was
   * delivered with an ok status; nothing as soon as one was not.
   */
  function FetchBatch(assets: seq<Key>, network: Key -> NetworkResult): (rs: Option<seq<Response>>)
    ensures rs.Some? <==>
              forall i :: 0 <= i < |assets| ==> network(assets[i]).Delivered? && network(assets[i]).response.Ok()
    ensures rs.Some? ==>
              |rs.value| == |assets| && forall i :: 0 <= i < |assets| ==> rs.value[i] == network(assets[i]).response
    decreases |assets|
  {
    if assets == [] then Some([])
    else
      var first := network(assets[0]);
      var rest := FetchBatch(assets[1..], network);
      if first.Delivered? && first.response.Ok() && rest.Some? then
        Some([first.response] + rest.value)
      else
        None
  }

  /** `cache.addAll`: once every fetch is delivered ok, the responses are put as one batch. */
  function AfterAddAll(s: Store, ks: seq<Key>, network: Key -> NetworkResult): (t: Option<Store>)
    requires s.Valid()
    ensures t.Some? <==> FetchBatch(ks, network).Some?
    ensures t.Some? ==> t.value.Valid() && forall k :: k !in ks ==> t.value.Match(k) == s.Match(k)
  {
    match FetchBatch(ks, network)
    case Some(rs) => Some(PutAll(s, ks, rs))
    case None => None
  }

  /**
   * `cache.addAll` commits exactly when every fetch of the batch is delivered ok;
   * a batch of distinct keys then leaves each key holding its response and every
   * other entry as it was.
   */
  lemma AddAllSpec(s: Store, ks: seq<Key>, network: Key -> NetworkResult)
    requires s.Valid() && Distinct(ks)
    ensures AfterAddAll(s, ks, network).Some? <==>
              forall i :: 0 <= i < |ks| ==> network(ks[i]).Delivered? && network(ks[i]).response.Ok()
    ensures AfterAddAll(s, ks, network).Some? ==>
              && (forall i :: 0 <= i < |ks| ==> AfterAddAll(s, ks, network).value.Match(ks[i]) == Some(network(ks[i]).response))
              && (forall k :: k !in ks ==> AfterAddAll(s, ks, network).value.Match(k) == s.Match(k))
  {
    var rs := FetchBatch(ks, network);
    if rs.Some? {
      forall i | 0 <= i < |ks|
        ensures PutAll(s, ks, rs.value).Match(ks[i]) == Some(network(ks[i]).response)
      {
        PutAllStoresEach(s, ks, rs.value, i);
      }
    }
  }
}
