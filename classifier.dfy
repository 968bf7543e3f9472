/**
 * `isTileRequest` and the routing decision of the `fetch` listener in sw.js.
 * A URL arrives already split into its hostname and pathname.
 */
module Classifier {
  import opened Strings

  /** The tile servers, in the order sw.js lists them. */
  const TileHosts: seq<string> := [
    "tile.openstreetmap.org",
    "tiles.stadiamaps.com",
    "server.arcgisonline.com",
    "basemap.nationalmap.gov",
    "mt0.google.com", "mt1.google.com", "mt2.google.com", "mt3.google.com",
    "tile.opentopomap.org",
    "stamen-tiles.a.ssl.fastly.net"
  ]

  /** The markers of PeerJS / WebRTC signaling traffic. */
  const SignalingHostToken: string := "peerjs"
  const SignalingPathToken: string := "peer"

  /** `hosts.some(h => host.includes(h))`. */
  predicate SomeHostIn(host: string, hosts: seq<string>)
    decreases |hosts|
  {
    |hosts| > 0 && (Contains(host, hosts[0]) || SomeHostIn(host, hosts[1..]))
  }

  /**
   * `s` starts with `n` segments, each a slash followed by one or more digits.
   * Digits never match `/`, so each `\d+` but the last takes the whole run of digits.
   */
  predicate SegmentsAt(s: string, n: nat)
    decreases n
  {
    if n == 0 then true
    else |s| > 0 && s[0] == '/' && DigitRun(s[1..]) > 0 && SegmentsAt(s[1 + DigitRun(s[1..])..], n - 1)
  }

  /** `/\/\d+\/\d+\/\d+/.test(path)`: the pattern starts at some position of `path`. */
  predicate HasZxy(path: string)
    decreases |path|
  {
    SegmentsAt(path, 3) || (|path| > 0 && HasZxy(path[1..]))
  }

  /** `isTileRequest(url)`. */
  predicate IsTileRequest(host: string, path: string) {
    SomeHostIn(host, TileHosts) || HasZxy(path)
  }

  /** The test in front of the network pass-through. */
  predicate IsSignaling(host: string, path: string) {
    Contains(host, SignalingHostToken) || Contains(path, SignalingPathToken)
  }

  /** The three ways the `fetch` listener answers a request. */
  datatype Route = Tile | Signaling | Shell

  /** The text `/a/b/c` followed by `post`. */
  function ZxyText(a: string, b: string, c: string, post: string): string {
    "/" + a + ("/" + b + ("/" + c + post))
  }

  /** `path` is `pre`, then `/a/b/c` with three digit strings, then `post`. */
  ghost predicate IsZxySplit(path: string, pre: string, a: string, b: string, c: string, post: string) {
    IsNumber(a) && IsNumber(b) && IsNumber(c) && path == pre + ZxyText(a, b, c, post)
  }

  /** Reference definition of the z/x/y path pattern, unanchored. */
  ghost predicate ZxyOccurs(path: string) {
    exists pre, a, b, c, post :: IsZxySplit(path, pre, a, b, c, post)
  }

  /** Reference definition of the host test: one listed host occurs in the hostname. */
  ghost predicate TileHostListed(host: string) {
    exists i :: 0 <= i < |TileHosts| && Occurs(host, TileHosts[i])
  }

  /**
   * The routing of the `fetch` listener: the tile test first, then the signaling
   * test, and everything else to the shell store.
   */
  function Classify(host: string, path: string): (r: Route)
    ensures r == Tile <==> TileHostListed(host) || ZxyOccurs(path)
    ensures r == Signaling <==>
              !TileHostListed(host) && !ZxyOccurs(path) &&
              (Occurs(host, SignalingHostToken) || Occurs(path, SignalingPathToken))
  {
    TileRequestIff(host, path);
    ContainsIff(host, SignalingHostToken);
    ContainsIff(path, SignalingPathToken);
    if IsTileRequest(host, path) then Tile
    else if IsSignaling(host, path) then Signaling
    else Shell
  }

  /** `Array.some` holds exactly when some element satisfies the test. */
  lemma {:induction false} SomeHostInIff(host: string, hosts: seq<string>)
    ensures SomeHostIn(host, hosts) <==> exists i :: 0 <= i < |hosts| && Contains(host, hosts[i])
    decreases |hosts|
  {
    if |hosts| > 0 {
      SomeHostInIff(host, hosts[1..]);
      if exists i :: 0 <= i < |hosts| && Contains(host, hosts[i]) {
        var i :| 0 <= i < |hosts| && Contains(host, hosts[i]);
        if i > 0 {
          assert hosts[1..][i - 1] == hosts[i];
        }
      }
      if SomeHostIn(host, hosts[1..]) {
        var j :| 0 <= j < |hosts[1..]| && Contains(host, hosts[1..][j]);
        assert hosts[j + 1] == hosts[1..][j];
      }
    }
  }

  /** A slash and a digit string in front of `rest`: the segment ends exactly where `rest` starts. */
  lemma SegmentInFront(a: string, rest: string)
    requires IsNumber(a)
    ensures var s := "/" + a + rest;
      s[0] == '/' && DigitRun(s[1..]) == |a| + DigitRun(rest) && s[1 + |a|..] == rest
  {
    var s := "/" + a + rest;
    assert s[1..] == a + rest;
    DigitRunAfterDigits(a, rest);
  }

  /** One more segment in front of `rest` makes one more matched segment. */
  lemma SegmentCons(a: string, rest: string, n: nat)
    requires IsNumber(a) && n > 0 && SegmentsAt(rest, n - 1)
    requires n > 1 ==> DigitRun(rest) == 0
    ensures SegmentsAt("/" + a + rest, n)
  {
    SegmentInFront(a, rest);
  }

  /** `/a/b/c` followed by anything matches the three segments. */
  lemma ZxyTextMatches(a: string, b: string, c: string, post: string)
    requires IsNumber(a) && IsNumber(b) && IsNumber(c)
    ensures SegmentsAt(ZxyText(a, b, c, post), 3)
  {
    var s2 := "/" + c + post;
    var s1 := "/" + b + s2;
    SegmentCons(c, post, 1);
    assert DigitRun(s2) == 0;
    SegmentCons(b, s2, 2);
    assert DigitRun(s1) == 0;
    SegmentCons(a, s1, 3);
  }

  /** Every occurrence of `/digits/digits/digits` is found by the pattern, whatever surrounds it. */
  lemma {:induction false} ZxySplitMatches(path: string, pre: string, a: string, b: string, c: string, post: string)
    requires IsZxySplit(path, pre, a, b, c, post)
    ensures HasZxy(path)
    decreases |pre|
  {
    if pre == [] {
      assert path == ZxyText(a, b, c, post);
      ZxyTextMatches(a, b, c, post);
    } else {
      assert path[1..] == pre[1..] + ZxyText(a, b, c, post);
      ZxySplitMatches(path[1..], pre[1..], a, b, c, post);
    }
  }

  /** The first of `n` matched segments splits off as a slash, a digit string and the rest. */
  lemma SegmentHead(s: string, n: nat) returns (a: string, rest: string)
    requires n > 0 && SegmentsAt(s, n)
    ensures IsNumber(a) && s == "/" + a + rest && SegmentsAt(rest, n - 1)
  {
    var d := DigitRun(s[1..]);
    a, rest := s[1..1 + d], s[1 + d..];
    assert s[1..][..d] == a;
    assert s == "/" + a + rest;
  }

  /** A match at the very start is an occurrence with nothing in front. */
  lemma ZxyAtStartSplits(path: string)
    requires SegmentsAt(path, 3)
    ensures ZxyOccurs(path)
  {
    var a, s1 := SegmentHead(path, 3);
    var b, s2 := SegmentHead(s1, 2);
    var c, post := SegmentHead(s2, 1);
    assert path == [] + ZxyText(a, b, c, post);
    assert IsZxySplit(path, [], a, b, c, post);
  }

  /** An occurrence after the first character is an occurrence in the whole path. */
  lemma ZxyOccursInTail(path: string)
    requires |path| > 0 && ZxyOccurs(path[1..])
    ensures ZxyOccurs(path)
  {
    var pre, a, b, c, post :| IsZxySplit(path[1..], pre, a, b, c, post);
    assert path == [path[0]] + path[1..];
    assert IsZxySplit(path, [path[0]] + pre, a, b, c, post);
  }

  /** Every match of the pattern is a real occurrence of `/digits/digits/digits`. */
  lemma {:induction false} ZxyMatchSplits(path: string)
    requires HasZxy(path)
    ensures ZxyOccurs(path)
    decreases |path|
  {
    if SegmentsAt(path, 3) {
      ZxyAtStartSplits(path);
    } else {
      ZxyMatchSplits(path[1..]);
      ZxyOccursInTail(path);
    }
  }

  /** `isTileRequest` is exactly: a listed host occurs in the hostname, or z/x/y occurs in the path. */
  lemma TileRequestIff(host: string, path: string)
    ensures IsTileRequest(host, path) <==> TileHostListed(host) || ZxyOccurs(path)
  {
    SomeHostInIff(host, TileHosts);
    forall i | 0 <= i < |TileHosts|
      ensures Contains(host, TileHosts[i]) <==> Occurs(host, TileHosts[i])
    {
      ContainsIff(host, TileHosts[i]);
    }
    if ZxyOccurs(path) {
      var pre, a, b, c, post :| IsZxySplit(path, pre, a, b, c, post);
      ZxySplitMatches(path, pre, a, b, c, post);
    }
    if HasZxy(path) {
      ZxyMatchSplits(path);
    }
  }

  /** Host match: a hostname that has a listed host inside it, such as a subdomain, is a tile. */
  lemma HostMatchIsTile(pre: string, i: nat, post: string, path: string)
    requires i < |TileHosts|
    ensures Classify(pre + TileHosts[i] + post, path) == Tile
  {
    assert IsInfixSplit(pre + TileHosts[i] + post, pre, TileHosts[i], post);
  }

  /** `a.tile.openstreetmap.org` and every other subdomain of a listed host is a tile host. */
  lemma SubdomainIsTile(name: string, path: string)
    ensures Classify(name + "." + TileHosts[0], path) == Tile
  {
    HostMatchIsTile(name + ".", 0, [], path);
    assert name + "." + TileHosts[0] + [] == name + "." + TileHosts[0];
  }

  /** Path match: a z/x/y triple anywhere in the path makes a tile, whatever the host. */
  lemma PathMatchIsTile(host: string, pre: string, a: string, b: string, c: string, post: string)
    requires IsNumber(a) && IsNumber(b) && IsNumber(c)
    ensures Classify(host, pre + ZxyText(a, b, c, post)) == Tile
  {
    assert IsZxySplit(pre + ZxyText(a, b, c, post), pre, a, b, c, post);
  }

  /** Routing order: a signaling-looking URL that is also a tile goes to the tile store. */
  lemma TileBeforeSignaling(host: string, path: string)
    requires TileHostListed(host) || ZxyOccurs(path)
    requires Occurs(host, SignalingHostToken) || Occurs(path, SignalingPathToken)
    ensures Classify(host, path) == Tile
  {
  }

  /** An instance of the routing order: a `/peer/z/x/y` path is signaling-looking and still a tile. */
  lemma PeerPathIsTile(host: string, a: string, b: string, c: string, post: string)
    requires IsNumber(a) && IsNumber(b) && IsNumber(c)
    ensures Contains("/peer" + ZxyText(a, b, c, post), SignalingPathToken)
    ensures Classify(host, "/peer" + ZxyText(a, b, c, post)) == Tile
  {
    var path := "/peer" + ZxyText(a, b, c, post);
    assert path == "/" + SignalingPathToken + ZxyText(a, b, c, post);
    ContainsInfix("/", SignalingPathToken, ZxyText(a, b, c, post));
    PathMatchIsTile(host, "/peer", a, b, c, post);
  }
}
