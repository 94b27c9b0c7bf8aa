/** The HTTP route table of http.c: set_http_route and is_route_exists. */
module Routes {
  import opened Options
  import opened StringMaps

  const MAX_HTTP_ROUTES: nat := 128
  const MAX_REQUEST_SEGMENTS: nat := 128
  /** Lengths and counts are kept in an unsigned short. */
  const USHORT: nat := 0x10000

  // ---------------------------------------------------------------- segments of a path

  /** The end of the run of characters at `p` that are no slash. */
  function RunEnd(s: string, p: nat): (q: nat)
    requires p <= |s|
    ensures p <= q <= |s| && (q < |s| ==> s[q] == '/') && forall k :: p <= k < q ==> s[k] != '/'
    decreases |s| - p
  {
    if p == |s| || s[p] == '/' then p else RunEnd(s, p + 1)
  }

  /** What repeated strtok_r calls with "/" return from `p` on: the longest runs without a slash. */
  function Tokens(s: string, p: nat): (r: seq<string>)
    requires p <= |s|
    ensures forall i :: 0 <= i < |r| ==> IsSegment(r[i])
    ensures |r| <= |s| - p
    decreases |s| - p
  {
    if p == |s| then []
    else if s[p] == '/' then Tokens(s, p + 1)
    else [s[p..RunEnd(s, p)]] + Tokens(s, RunEnd(s, p))
  }

  predicate IsSegment(seg: string) {
    seg != "" && '/' !in seg
  }

  /** The path with these segments. */
  function Joined(segs: seq<string>): string {
    if segs == [] then "" else "/" + segs[0] + Joined(segs[1..])
  }

  lemma {:induction false} RunEndIs(s: string, p: nat, q: nat)
    requires p <= q <= |s| && (q < |s| ==> s[q] == '/') && forall k :: p <= k < q ==> s[k] != '/'
    ensures RunEnd(s, p) == q
    decreases q - p
  {
    if p < q {
      RunEndIs(s, p + 1, q);
    }
  }

  /** Joining segments and splitting the path gives the segments back. */
  lemma {:induction false} JoinedSplits(before: string, segs: seq<string>)
    requires forall i :: 0 <= i < |segs| ==> IsSegment(segs[i])
    ensures Tokens(before + Joined(segs), |before|) == segs
    decreases segs
  {
    var s := before + Joined(segs);
    if segs != [] {
      var head := before + "/" + segs[0];
      var p, q := |before| + 1, |head|;
      assert s == head + Joined(segs[1..]);
      assert s[p..q] == segs[0] && forall k :: p <= k < q ==> s[k] == segs[0][k - p];
      assert q < |s| ==> s[q] == Joined(segs[1..])[0] == '/';
      RunEndIs(s, p, q);
      JoinedSplits(head, segs[1..]);
    }
  }

  /** Everything in a path that is no slash is in one of its segments, in order. */
  lemma {:induction false} TokensKeepText(s: string, p: nat)
    requires p <= |s|
    ensures Flat(Tokens(s, p)) == NoSlashes(s[p..])
    decreases |s| - p
  {
    if p < |s| {
      if s[p] == '/' {
        TokensKeepText(s, p + 1);
        assert s[p..] == [s[p]] + s[p + 1..];
      } else {
        var q := RunEnd(s, p);
        TokensKeepText(s, q);
        assert s[p..] == s[p..q] + s[q..];
        NoSlashesSplits(s[p..q], s[q..]);
      }
    }
  }

  function Flat(segs: seq<string>): string {
    if segs == [] then "" else segs[0] + Flat(segs[1..])
  }

  function NoSlashes(s: string): string {
    if s == "" then "" else (if s[0] == '/' then "" else [s[0]]) + NoSlashes(s[1..])
  }

  lemma {:induction false} NoSlashesSplits(run: string, rest: string)
    requires '/' !in run
    ensures NoSlashes(run + rest) == run + NoSlashes(rest)
  {
    if run == "" {
      assert run + rest == rest;
    } else {
      assert (run + rest)[1..] == run[1..] + rest;
      NoSlashesSplits(run[1..], rest);
    }
  }

  /** The strtok_r loop. */
  method Split(s: string) returns (segs: seq<string>)
    ensures segs == Tokens(s, 0)
  {
    segs := [];
    var p := 0;
    while p < |s|
      invariant 0 <= p <= |s|
      invariant Tokens(s, 0) == segs + Tokens(s, p)
    {
      if s[p] == '/' {
        p := p + 1;
      } else {
        var q := p;
        while q < |s| && s[q] != '/'
          invariant p <= q <= |s| && RunEnd(s, p) == RunEnd(s, q)
        {
          q := q + 1;
        }
        segs := segs + [s[p..q]];
        p := q;
      }
    }
  }

  // ---------------------------------------------------------------- routes

  datatype RouteSegment = RouteSegment(value: string, isParametric: bool)

  /** `segmentSize` is 0 for the route "/", whose only segment is a slash. */
  datatype HTTPRoute = HTTPRoute(verb: string, segments: seq<RouteSegment>, segmentSize: nat, callback: nat)

  /** A segment of a pattern: `{name}` is a parameter. Its length is cut to an unsigned short. */
  function ParseSegment(seg: string): RouteSegment {
    var len := |seg| % USHORT;
    if len >= 2 && seg[0] == '{' && seg[len - 1] == '}' then RouteSegment(seg[1..len - 1], true)
    else RouteSegment(seg, false)
  }

  function ParseSegments(segs: seq<string>): (r: seq<RouteSegment>)
    ensures |r| == |segs| && forall i :: 0 <= i < |r| ==> r[i] == ParseSegment(segs[i])
  {
    if segs == [] then [] else [ParseSegment(segs[0])] + ParseSegments(segs[1..])
  }

  /** The route set_http_route makes of a pattern, if it accepts it. */
  function RouteOf(verb: string, pattern: string, callback: nat): Option<HTTPRoute> {
    if pattern == "/" then Some(HTTPRoute(verb, [RouteSegment("/", false)], 0, callback))
    else
      var segs := Tokens(pattern, 0);
      if |segs| % USHORT == 0 then None
      else Some(HTTPRoute(verb, ParseSegments(segs), |segs| % USHORT, callback))
  }

  ghost predicate RouteOk(r: HTTPRoute) {
    r.segmentSize <= |r.segments| && (r.segmentSize == 0 ==> r.segments == [RouteSegment("/", false)])
  }

  /** The fixed segments of the route are those of the request. */
  predicate Matches(r: HTTPRoute, req: seq<string>) {
    r.segmentSize == |req| <= |r.segments| &&
    forall i :: 0 <= i < |req| ==> r.segments[i].isParametric || r.segments[i].value == req[i]
  }

  /** `i` is the position of the first route that matches, or of none. */
  ghost predicate FirstMatch(routes: seq<HTTPRoute>, req: seq<string>, i: int) {
    -1 <= i < |routes| &&
    (i >= 0 ==> Matches(routes[i], req)) &&
    forall j :: 0 <= j < (if i < 0 then |routes| else i) ==> !Matches(routes[j], req)
  }

  // ---------------------------------------------------------------- parameters

  datatype Capture = Capture(entries: seq<Entry>, matched: bool)

  /** The inner loop: parameters are put until a fixed segment differs. */
  function Captured(es: seq<Entry>, segments: seq<RouteSegment>, req: seq<string>, i: nat): Capture
    requires i <= |req| <= |segments|
    decreases |req| - i
  {
    if i == |req| then Capture(es, true)
    else if segments[i].isParametric then Captured(WithPut(es, segments[i].value, req[i]), segments, req, i + 1)
    else if segments[i].value == req[i] then Captured(es, segments, req, i + 1)
    else Capture(es, false)
  }

  /** What one route makes of the parameters. */
  function Tried(es: seq<Entry>, route: HTTPRoute, req: seq<string>): seq<Entry> {
    if route.segmentSize == |req| <= |route.segments| then Captured(es, route.segments, req, 0).entries else es
  }

  /** The outer loop up to route `n`: what routes that do not match leave behind. */
  function LeftBehind(es: seq<Entry>, routes: seq<HTTPRoute>, req: seq<string>, n: nat): seq<Entry>
    requires n <= |routes|
  {
    if n == 0 then es
    else Tried(LeftBehind(es, routes, req, n - 1), routes[n - 1], req)
  }

  lemma NothingLeftBehind(es: seq<Entry>, routes: seq<HTTPRoute>, req: seq<string>)
    ensures LeftBehind(es, routes, req, 0) == es
  {
  }

  lemma LeftBehindNext(es: seq<Entry>, routes: seq<HTTPRoute>, req: seq<string>, n: nat)
    requires n < |routes|
    ensures LeftBehind(es, routes, req, n + 1) == Tried(LeftBehind(es, routes, req, n), routes[n], req)
  {
  }

  lemma {:induction false} CapturedMatches(es: seq<Entry>, segments: seq<RouteSegment>, req: seq<string>, i: nat)
    requires i <= |req| <= |segments|
    ensures Captured(es, segments, req, i).matched <==>
            forall k :: i <= k < |req| ==> segments[k].isParametric || segments[k].value == req[k]
    decreases |req| - i
  {
    if i < |req| {
      CapturedMatches(if segments[i].isParametric then WithPut(es, segments[i].value, req[i]) else es,
                      segments, req, i + 1);
    }
  }

  /** On a request with the segments `req` the route puts `name` at place `k`: it has as many segments, `name` is a
      parameter there, and every fixed segment before it is that of the request. */
  ghost predicate Puts(route: HTTPRoute, req: seq<string>, k: int, name: string) {
    route.segmentSize == |req| <= |route.segments| && PutsFrom(route.segments, req, 0, k, name)
  }

  ghost predicate PutsFrom(segments: seq<RouteSegment>, req: seq<string>, i: nat, k: int, name: string)
    requires i <= |req| <= |segments|
  {
    i <= k < |req| && segments[k] == RouteSegment(name, true) &&
    forall m :: i <= m < k ==> segments[m].isParametric || segments[m].value == req[m]
  }

  /** The last place from `i` on where `name` is put, or -1. */
  function LastPlace(segments: seq<RouteSegment>, req: seq<string>, i: nat, name: string): (k: int)
    requires i <= |req| <= |segments|
    ensures k == -1 || PutsFrom(segments, req, i, k, name)
    ensures forall m :: PutsFrom(segments, req, i, m, name) ==> m <= k
    decreases |req| - i
  {
    if i == |req| || !(segments[i].isParametric || segments[i].value == req[i]) then -1
    else
      var later := LastPlace(segments, req, i + 1, name);
      assert forall m :: PutsFrom(segments, req, i, m, name) && m > i ==> PutsFrom(segments, req, i + 1, m, name);
      if later == -1 && segments[i] == RouteSegment(name, true) then i else later
  }

  lemma {:induction false} CapturedBinds(es: seq<Entry>, segments: seq<RouteSegment>, req: seq<string>, i: nat,
                                         name: string)
    requires i <= |req| <= |segments|
    ensures var k := LastPlace(segments, req, i, name);
            Bound(Captured(es, segments, req, i).entries, name) == if k == -1 then Bound(es, name) else Some(req[k])
    decreases |req| - i
  {
    if i < |req| {
      if segments[i].isParametric {
        BoundAfterPut(es, segments[i].value, req[i], name);
        CapturedBinds(WithPut(es, segments[i].value, req[i]), segments, req, i + 1, name);
      } else {
        CapturedBinds(es, segments, req, i + 1, name);
      }
    }
  }

  // ---------------------------------------------------------------- patterns

  /** A part of a pattern: a fixed segment, or a name in braces. */
  datatype Part = Fixed(text: string) | Parameter(name: string)

  function Written(part: Part): string {
    match part
    case Fixed(text) => text
    case Parameter(name) => "{" + name + "}"
  }

  function WrittenAll(parts: seq<Part>): seq<string> {
    seq(|parts|, i requires 0 <= i < |parts| => Written(parts[i]))
  }

  function Pattern(parts: seq<Part>): string {
    Joined(WrittenAll(parts))
  }

  /** A fixed segment is not in braces, and no name has a slash; both are shorter than an unsigned short can count. */
  ghost predicate IsPart(part: Part) {
    match part
    case Fixed(text) => IsSegment(text) && |text| < USHORT && !(|text| > 1 && text[0] == '{' && text[|text| - 1] == '}')
    case Parameter(name) => '/' !in name && |name| + 2 < USHORT
  }

  ghost predicate IsPattern(parts: seq<Part>) {
    0 < |parts| < USHORT && forall i :: 0 <= i < |parts| ==> IsPart(parts[i])
  }

  /** The request has the fixed segments of the pattern before place `k`. */
  ghost predicate Agrees(parts: seq<Part>, req: seq<string>, k: nat) {
    |req| == |parts| && forall i :: 0 <= i < k && i < |parts| && parts[i].Fixed? ==> req[i] == parts[i].text
  }

  /** The route does for every request what the pattern says: it matches those that have all its fixed segments, and
      puts each name in braces at its place. */
  ghost predicate IsRouteFor(route: HTTPRoute, parts: seq<Part>) {
    && (forall req :: Matches(route, req) <==> Agrees(parts, req, |parts|))
    && forall req, k: int, name ::
         Puts(route, req, k, name) <==> 0 <= k < |parts| && parts[k] == Parameter(name) && Agrees(parts, req, k)
  }

  lemma WrittenIsParsed(part: Part)
    requires IsPart(part)
    ensures IsSegment(Written(part))
    ensures ParseSegment(Written(part)) ==
            if part.Fixed? then RouteSegment(part.text, false) else RouteSegment(part.name, true)
  {
    if part.Parameter? {
      var seg := Written(part);
      assert seg[1..|seg| - 1] == part.name;
    }
  }

  /** set_http_route accepts every pattern, and makes of it the route that it says. */
  lemma PatternIsRoute(verb: string, parts: seq<Part>, callback: nat)
    requires IsPattern(parts)
    ensures var r := RouteOf(verb, Pattern(parts), callback);
            r.Some? && r.value.verb == verb && r.value.callback == callback && IsRouteFor(r.value, parts)
  {
    hide Tokens, Joined, ParseSegment, IsSegment, IsPart, Written;
    var segs := WrittenAll(parts);
    forall i | 0 <= i < |parts|
      ensures IsSegment(segs[i])
      ensures ParseSegment(segs[i]) ==
              if parts[i].Fixed? then RouteSegment(parts[i].text, false) else RouteSegment(parts[i].name, true)
    {
      WrittenIsParsed(parts[i]);
    }
    JoinedSplits("", segs);
    assert "" + Joined(segs) == Joined(segs);
    SlashHasNoSegments();
    SegmentsAreParts(RouteOf(verb, Pattern(parts), callback).value, parts);
  }

  lemma SegmentsAreParts(route: HTTPRoute, parts: seq<Part>)
    requires route.segmentSize == |route.segments| == |parts|
    requires forall i :: 0 <= i < |parts| ==>
               route.segments[i] ==
               if parts[i].Fixed? then RouteSegment(parts[i].text, false) else RouteSegment(parts[i].name, true)
    ensures IsRouteFor(route, parts)
  {
  }

  // ---------------------------------------------------------------- what is bound after a lookup

  /** Among the first `n` routes, `j` is the last one that puts `name`, and `k` the last place where it does. */
  ghost predicate IsLastPut(routes: seq<HTTPRoute>, req: seq<string>, n: nat, j: int, k: int, name: string)
    requires n <= |routes|
  {
    0 <= j < n && Puts(routes[j], req, k, name) &&
    (forall m :: Puts(routes[j], req, m, name) ==> m <= k) &&
    forall i, m :: j < i < n ==> !Puts(routes[i], req, m, name)
  }

  ghost predicate NeverPut(routes: seq<HTTPRoute>, req: seq<string>, n: nat, name: string)
    requires n <= |routes|
  {
    forall j, k :: 0 <= j < n ==> !Puts(routes[j], req, k, name)
  }

  /** What `name` is bound to once the first `n` routes have been tried: the request segment where the last of them
      that puts it puts it last, and otherwise what it was bound to before. */
  ghost predicate BoundAs(es: seq<Entry>, es': seq<Entry>, routes: seq<HTTPRoute>, req: seq<string>, n: nat,
                          name: string)
    requires n <= |routes|
  {
    if NeverPut(routes, req, n, name) then Bound(es', name) == Bound(es, name)
    else exists j, k :: IsLastPut(routes, req, n, j, k, name) && Bound(es', name) == Some(req[k])
  }

  lemma {:induction false} LeftBehindBinds(es: seq<Entry>, routes: seq<HTTPRoute>, req: seq<string>, n: nat,
                                           name: string)
    requires n <= |routes|
    ensures BoundAs(es, LeftBehind(es, routes, req, n), routes, req, n, name)
  {
    hide Captured;
    if n > 0 {
      var route, before := routes[n - 1], LeftBehind(es, routes, req, n - 1);
      LeftBehindBinds(es, routes, req, n - 1, name);
      var k := -1;
      if route.segmentSize == |req| <= |route.segments| {
        CapturedBinds(before, route.segments, req, 0, name);
        k := LastPlace(route.segments, req, 0, name);
      }
      assert forall m :: Puts(route, req, m, name) ==> k != -1 && m <= k;
      if k != -1 {
        assert IsLastPut(routes, req, n, n - 1, k, name);
      } else if NeverPut(routes, req, n - 1, name) {
        assert NeverPut(routes, req, n, name);
      } else {
        var j, m :| IsLastPut(routes, req, n - 1, j, m, name) && Bound(before, name) == Some(req[m]);
        assert IsLastPut(routes, req, n, j, m, name);
      }
    }
  }

  /** Starting from an empty map, a name is bound after `n` routes exactly when one of them puts it. */
  lemma BoundIffPut(routes: seq<HTTPRoute>, req: seq<string>, n: nat, name: string)
    requires n <= |routes|
    ensures Bound(LeftBehind([], routes, req, n), name).Some? <==>
            exists j, k :: 0 <= j < n && Puts(routes[j], req, k, name)
  {
    LeftBehindBinds([], routes, req, n, name);
  }

  ghost predicate HasParameter(route: HTTPRoute, name: string) {
    exists k :: 0 <= k < route.segmentSize <= |route.segments| && route.segments[k] == RouteSegment(name, true)
  }

  /** Starting from an empty map, exactly the parameters of the route found are bound, unless an earlier route, which
      matched in its first segments, put another name. */
  lemma OnlyParametersIff(routes: seq<HTTPRoute>, req: seq<string>, found: nat)
    requires FirstMatch(routes, req, found)
    ensures (forall name ::
               Bound(LeftBehind([], routes, req, found + 1), name).Some? <==> HasParameter(routes[found], name))
            <==>
            (forall j, k, name :: 0 <= j < found && Puts(routes[j], req, k, name) ==> HasParameter(routes[found], name))
  {
    hide Captured, LeftBehind;
    forall name | HasParameter(routes[found], name)
      ensures Bound(LeftBehind([], routes, req, found + 1), name).Some?
    {
      var k :| 0 <= k < |req| && routes[found].segments[k] == RouteSegment(name, true);
      assert Puts(routes[found], req, k, name);
      BoundIffPut(routes, req, found + 1, name);
    }
    forall name
      ensures Bound(LeftBehind([], routes, req, found + 1), name).Some? <==>
              HasParameter(routes[found], name) || exists j, k :: 0 <= j < found && Puts(routes[j], req, k, name)
    {
      BoundIffPut(routes, req, found + 1, name);
      if j, k :| 0 <= j < found + 1 && Puts(routes[j], req, k, name) {
        if j == found {
          assert HasParameter(routes[found], name);
        }
      }
    }
  }

  /** How many routes a lookup tries. */
  function RoutesTried(found: int, all: nat): nat
    requires -1 <= found < all
  {
    if found == -1 then all else found + 1
  }

  // ---------------------------------------------------------------- the server

  class HTTPServer {
    const httpRoutes: array<HTTPRoute>
    var sizeOfHttpRoutes: nat

    ghost predicate Valid()
      reads this, httpRoutes
    {
      && httpRoutes.Length == MAX_HTTP_ROUTES
      && sizeOfHttpRoutes <= MAX_HTTP_ROUTES
      && forall i :: 0 <= i < sizeOfHttpRoutes ==> RouteOk(httpRoutes[i])
    }

    function Registered(): seq<HTTPRoute>
      requires sizeOfHttpRoutes <= httpRoutes.Length
      reads this, httpRoutes
    {
      httpRoutes[..sizeOfHttpRoutes]
    }

    constructor ()
      ensures Valid() && Registered() == [] && fresh(httpRoutes)
    {
      httpRoutes := new HTTPRoute[MAX_HTTP_ROUTES](_ => HTTPRoute("", [], 0, 0));
      sizeOfHttpRoutes := 0;
    }

    /** set_http_route: a full table and a pattern without segments are refused. */
    method SetHttpRoute(verb: string, pattern: string, callback: nat) returns (ok: bool)
      requires Valid()
      modifies this, httpRoutes
      ensures Valid()
      ensures ok <==> |old(Registered())| < MAX_HTTP_ROUTES && RouteOf(verb, pattern, callback).Some?
      ensures Registered() == old(Registered()) + if ok then [RouteOf(verb, pattern, callback).value] else []
      ensures forall parts :: IsPattern(parts) && pattern == Pattern(parts) && |old(Registered())| < MAX_HTTP_ROUTES ==>
                ok && IsRouteFor(Registered()[|old(Registered())|], parts)
    {
      hide IsRouteFor, IsPattern, Pattern;
      forall parts | IsPattern(parts) && pattern == Pattern(parts)
        ensures RouteOf(verb, pattern, callback).Some? && IsRouteFor(RouteOf(verb, pattern, callback).value, parts)
      {
        PatternIsRoute(verb, parts, callback);
      }
      if sizeOfHttpRoutes >= MAX_HTTP_ROUTES { return false; }
      var route := HTTPRoute(verb, [RouteSegment("/", false)], 0, callback);
      if pattern != "/" {
        var segs := Split(pattern);
        var nodes: seq<RouteSegment> := [];
        var count := 0;
        for i := 0 to |segs|
          invariant |nodes| == i && forall j :: 0 <= j < i ==> nodes[j] == ParseSegment(segs[j])
          invariant count == i % USHORT
        {
          nodes := nodes + [ParseSegment(segs[i])];
          count := (count + 1) % USHORT;
        }
        assert nodes == ParseSegments(segs);
        if count == 0 { return false; }
        route := HTTPRoute(verb, nodes, count, callback);
      }
      httpRoutes[sizeOfHttpRoutes] := route;
      sizeOfHttpRoutes := sizeOfHttpRoutes + 1;
      ok := true;
    }

    /** is_route_exists: the position of the route, or -1. The copies of the segments fit the local array. */
    method IsRouteExists(uri: string, params: StringMap) returns (found: int)
      requires Valid() && params.Valid() && this !in params.repr && (httpRoutes as object) !in params.repr
      requires |Tokens(uri, 0)| <= MAX_REQUEST_SEGMENTS
      modifies params.repr
      ensures params.Valid() && fresh(params.repr - old(params.repr)) && Registered() == old(Registered())
      ensures FirstMatch(Registered(), Tokens(uri, 0), found)
      ensures params.entries == if uri == "/" then old(params.entries)
                                else LeftBehind(old(params.entries), Registered(), Tokens(uri, 0),
                                                RoutesTried(found, |Registered()|))
      ensures uri != "/" ==>
                forall name :: BoundAs(old(params.entries), params.entries, Registered(), Tokens(uri, 0),
                                       RoutesTried(found, |Registered()|), name)
    {
      hide Matches, Tried, Tokens, RouteOk, LeftBehind, StringMap.Valid, BoundAs;
      if uri == "/" {
        found := RootRoute();
        return;
      }
      var req := Split(uri);
      ghost var routes, es := Registered(), params.entries;
      NothingLeftBehind(es, routes, req);
      for i := 0 to sizeOfHttpRoutes
        invariant params.Valid() && fresh(params.repr - old(params.repr))
        invariant Valid() && Registered() == routes
        invariant forall j :: 0 <= j < i ==> !Matches(routes[j], req)
        invariant params.entries == LeftBehind(es, routes, req, i)
      {
        LeftBehindNext(es, routes, req, i);
        assert httpRoutes[i] == routes[i];
        var matched := MatchRoute(httpRoutes[i], req, params);
        if matched {
          ghost var n := RoutesTried(i, |routes|);
          forall name ensures BoundAs(es, params.entries, routes, req, n, name) {
            LeftBehindBinds(es, routes, req, n, name);
          }
          return i;
        }
      }
      forall name ensures BoundAs(es, params.entries, routes, req, |routes|, name) {
        LeftBehindBinds(es, routes, req, |routes|, name);
      }
      found := -1;
    }

    /** The route "/" alone has no counted segments. */
    method RootRoute() returns (found: int)
      requires Valid()
      ensures FirstMatch(Registered(), Tokens("/", 0), found)
    {
      assert Tokens("/", 0) == [];
      for i := 0 to sizeOfHttpRoutes
        invariant forall j :: 0 <= j < i ==> !Matches(httpRoutes[j], [])
      {
        var route := httpRoutes[i];
        if route.segmentSize == 0 && "/" <= route.segments[0].value {
          return i;
        }
      }
      found := -1;
    }
  }

  /** The loop over the segments of one route, if it has as many as the request. */
  method MatchRoute(route: HTTPRoute, req: seq<string>, params: StringMap) returns (matched: bool)
    requires params.Valid() && RouteOk(route)
    modifies params.repr
    ensures params.Valid() && fresh(params.repr - old(params.repr))
    ensures matched == Matches(route, req)
    ensures params.entries == Tried(old(params.entries), route, req)
  {
    hide StringMap.Valid, WithPut;
    if route.segmentSize != |req| { return false; }
    CapturedMatches(params.entries, route.segments, req, 0);
    for i := 0 to |req|
      invariant params.Valid() && fresh(params.repr - old(params.repr))
      invariant Captured(params.entries, route.segments, req, i) ==
                Captured(old(params.entries), route.segments, req, 0)
    {
      var segment := route.segments[i];
      if !segment.isParametric {
        if segment.value != req[i] {
          return false;
        }
      } else {
        params.Put(segment.value, req[i]);
      }
    }
    matched := true;
  }

  // ---------------------------------------------------------------- what a lookup promises

  /** After a lookup that found a route, each of its parameters is bound to the request segment at its last occurrence,
      whatever earlier routes put there. */
  lemma FoundParameters(es: seq<Entry>, routes: seq<HTTPRoute>, req: seq<string>, found: nat, k: nat, name: string)
    requires FirstMatch(routes, req, found) && k < |req| && routes[found].segments[k] == RouteSegment(name, true)
    requires forall m :: k < m < |req| ==> routes[found].segments[m] != RouteSegment(name, true)
    ensures Bound(LeftBehind(es, routes, req, found + 1), name) == Some(req[k])
  {
    hide Captured, LeftBehind;
    LeftBehindBinds(es, routes, req, found + 1, name);
    assert Puts(routes[found], req, k, name);
    var j, m :| IsLastPut(routes, req, found + 1, j, m, name) &&
                Bound(LeftBehind(es, routes, req, found + 1), name) == Some(req[m]);
    assert j == found;
  }

  /** A pattern with its parameters filled in. */
  function Filled(parts: seq<Part>, args: seq<string>): (req: seq<string>)
    requires |parts| == |args|
    ensures |req| == |parts|
    ensures forall i :: 0 <= i < |req| ==> req[i] == if parts[i].Parameter? then args[i] else parts[i].text
  {
    if parts == [] then []
    else [if parts[0].Parameter? then args[0] else parts[0].text] + Filled(parts[1..], args[1..])
  }

  /** A pattern with its parameters filled in finds its route or an earlier one; if it finds its own, the lookup binds
      each name in braces to what was filled in for it, at its last place. */
  lemma PatternBinds(es: seq<Entry>, routes: seq<HTTPRoute>, i: nat, parts: seq<Part>, args: seq<string>, found: int)
    requires i < |routes| && IsPattern(parts) && IsRouteFor(routes[i], parts)
    requires |args| == |parts| && forall k :: 0 <= k < |args| ==> IsSegment(args[k])
    requires FirstMatch(routes, Tokens(Joined(Filled(parts, args)), 0), found)
    ensures Joined(Filled(parts, args)) != "/" && 0 <= found <= i
    ensures found == i ==>
              forall k :: 0 <= k < |parts| && parts[k].Parameter? && LastPlaceOf(parts, k) ==>
                Bound(LeftBehind(es, routes, Tokens(Joined(Filled(parts, args)), 0), found + 1), parts[k].name) ==
                Some(args[k])
  {
    hide Tokens, Joined, LeftBehind, Matches, Puts;
    var req := Filled(parts, args);
    JoinedSplits("", req);
    assert "" + Joined(req) == Joined(req);
    SlashHasNoSegments();
    assert Matches(routes[i], req);
    if found == i {
      forall k | 0 <= k < |parts| && parts[k].Parameter? && LastPlaceOf(parts, k)
        ensures Bound(LeftBehind(es, routes, req, found + 1), parts[k].name) == Some(args[k])
      {
        BoundAtLastPlace(es, routes, req, i, parts, k);
      }
    }
  }

  ghost predicate LastPlaceOf(parts: seq<Part>, k: nat) {
    k < |parts| && forall m :: k < m < |parts| ==> parts[m] != parts[k]
  }

  lemma BoundAtLastPlace(es: seq<Entry>, routes: seq<HTTPRoute>, req: seq<string>, i: nat, parts: seq<Part>, k: nat)
    requires i < |routes| && IsRouteFor(routes[i], parts) && Agrees(parts, req, |parts|)
    requires LastPlaceOf(parts, k) && parts[k].Parameter?
    ensures Bound(LeftBehind(es, routes, req, i + 1), parts[k].name) == Some(req[k])
  {
    hide LeftBehind, Matches, Puts;
    var name := parts[k].name;
    LeftBehindBinds(es, routes, req, i + 1, name);
    assert Agrees(parts, req, k);
    assert Puts(routes[i], req, k, name);
    var j, m :| IsLastPut(routes, req, i + 1, j, m, name) &&
                Bound(LeftBehind(es, routes, req, i + 1), name) == Some(req[m]);
    assert j == i && m == k;
  }

  /** A half-matched route can leave a name behind that the route found does not have: with the routes `{a}/x` and
      `{b}/y`, the request `1/y` finds the second and binds `a` too. */
  lemma HalfMatchLeavesName(verb: string, callback: nat)
    ensures var first := HTTPRoute(verb, [RouteSegment("a", true), RouteSegment("x", false)], 2, callback);
            var second := HTTPRoute(verb, [RouteSegment("b", true), RouteSegment("y", false)], 2, callback);
            var req := ["1", "y"];
            FirstMatch([first, second], req, 1) && LeftBehind([], [first, second], req, 1) == [Entry("a", "1")]
  {
    var first := HTTPRoute(verb, [RouteSegment("a", true), RouteSegment("x", false)], 2, callback);
    var es := WithPut([], "a", "1");
    assert es == [Entry("a", "1")];
    assert Captured(es, first.segments, ["1", "y"], 1) == Capture(es, false);
    assert Captured([], first.segments, ["1", "y"], 0) == Capture(es, false);
  }

  /** The request made from a pattern by giving each parameter a segment. */
  function Instance(segments: seq<RouteSegment>, args: seq<string>): (req: seq<string>)
    requires |segments| == |args|
    ensures |req| == |segments|
    ensures forall i :: 0 <= i < |req| ==> req[i] == if segments[i].isParametric then args[i] else segments[i].value
  {
    if segments == [] then []
    else [if segments[0].isParametric then args[0] else segments[0].value] + Instance(segments[1..], args[1..])
  }

  /** Filling in the parameters of a registered pattern gives a request that finds that route or an earlier one. */
  lemma InstanceIsFound(routes: seq<HTTPRoute>, i: nat, verb: string, pattern: string, callback: nat, args: seq<string>,
                        found: int)
    requires i < |routes| && pattern != "/" && 0 < |Tokens(pattern, 0)| < USHORT
    requires RouteOf(verb, pattern, callback) == Some(routes[i])
    requires |args| == |routes[i].segments| && forall k :: 0 <= k < |args| ==> IsSegment(args[k])
    requires FirstMatch(routes, Tokens(Joined(Instance(routes[i].segments, args)), 0), found)
    ensures 0 <= found <= i
    ensures Joined(Instance(routes[i].segments, args)) != "/"
  {
    hide Tokens, Joined, Matches;
    var req := Instance(routes[i].segments, args);
    InstanceMatches(routes[i], verb, pattern, callback, args);
    JoinedSplits("", req);
    assert "" + Joined(req) == Joined(req);
    SlashHasNoSegments();
  }

  lemma SlashHasNoSegments()
    ensures Tokens("/", 0) == []
  {
  }

  lemma InstanceMatches(route: HTTPRoute, verb: string, pattern: string, callback: nat, args: seq<string>)
    requires pattern != "/" && 0 < |Tokens(pattern, 0)| < USHORT
    requires RouteOf(verb, pattern, callback) == Some(route)
    requires |args| == |route.segments| && forall k :: 0 <= k < |args| ==> IsSegment(args[k])
    ensures Matches(route, Instance(route.segments, args)) && Instance(route.segments, args) != []
    ensures forall k :: 0 <= k < |args| ==> IsSegment(Instance(route.segments, args)[k])
  {
    hide Tokens, ParseSegment;
    var segs, req := Tokens(pattern, 0), Instance(route.segments, args);
    assert route.segments == ParseSegments(segs) && route.segmentSize == |segs|;
    forall k | 0 <= k < |req| ensures IsSegment(req[k]) {
      FixedSegment(segs[k]);
    }
  }

  lemma FixedSegment(seg: string)
    ensures !ParseSegment(seg).isParametric ==> ParseSegment(seg).value == seg
  {
  }
}
