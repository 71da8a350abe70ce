/** The paths one node contributes to the network map. */
module NodeMap {
  import opened AsPathText
  import opened RouteTable

  const MAX_NODE_MAP_PATHS := 4

  datatype NodePath = NodePath(nodeId: int, prefix: string, asPath: seq<Asn>, best: bool, viaDefaultRoute: bool,
                               noRoute: bool)

  function NoRoute(nodeId: int): NodePath {
    NodePath(nodeId, "", [], false, false, true)
  }

  /** Selected routes come first; nothing else is promised about the order. */
  ghost predicate BestFirst(routes: seq<Route>) {
    forall i, j :: 0 <= i < j < |routes| && routes[j].best ==> routes[i].best
  }

  method Swap(routes: array<Route>, i: nat, j: nat)
    requires i <= j < routes.Length
    modifies routes
    ensures routes[i] == old(routes[j]) && routes[j] == old(routes[i])
    ensures forall k :: 0 <= k < routes.Length && k != i && k != j ==> routes[k] == old(routes[k])
    ensures multiset(routes[..]) == multiset(old(routes[..]))
  {
    routes[i], routes[j] := routes[j], routes[i];
  }

  method SortRoutesBestFirst(routes: array<Route>)
    modifies routes
    ensures multiset(routes[..]) == multiset(old(routes[..])) && BestFirst(routes[..])
  {
    var n := 0;
    for i := 0 to routes.Length
      invariant 0 <= n <= i && multiset(routes[..]) == multiset(old(routes[..]))
      invariant forall k :: 0 <= k < n ==> routes[k].best
      invariant forall k :: n <= k < i ==> !routes[k].best
    {
      if routes[i].best {
        Swap(routes, n, i);
        n := n + 1;
      }
    }
  }

  /** The first selected route, or the first route of all; -1 when there is none. */
  method BestRoute(routes: array<Route>) returns (selected: int)
    ensures routes.Length == 0 <==> selected == -1
    ensures routes.Length > 0 ==>
      && 0 <= selected < routes.Length
      && (forall i :: 0 <= i < selected ==> !routes[i].best)
      && (routes[selected].best || (selected == 0 && forall i :: 0 <= i < routes.Length ==> !routes[i].best))
  {
    if routes.Length == 0 {
      return -1;
    }
    for i := 0 to routes.Length
      invariant forall k :: 0 <= k < i ==> !routes[k].best
    {
      if routes[i].best {
        return i;
      }
    }
    return 0;
  }

  function PathsOf(routes: seq<Route>): (paths: seq<seq<Asn>>)
    ensures |paths| == |routes| && forall i :: 0 <= i < |routes| ==> paths[i] == routes[i].asPath
  {
    seq(|routes|, i requires 0 <= i < |routes| => routes[i].asPath)
  }

  /** The routes that survive: the first of every non-empty AS path, up to the cap. */
  function Kept(routes: seq<Route>): seq<Route> {
    if routes == [] then []
    else
      var front, last := Kept(routes[..|routes| - 1]), routes[|routes| - 1];
      if |front| == MAX_NODE_MAP_PATHS || last.asPath == [] || last.asPath in PathsOf(front) then front
      else front + [last]
  }

  function Entry(nodeId: int, route: Route, best: bool): NodePath {
    NodePath(nodeId, route.prefix, route.asPath, best, route.viaDefaultRoute, false)
  }

  /** The map entries for a list of surviving routes: the first one is the selected one. */
  function Entries(nodeId: int, kept: seq<Route>): (paths: seq<NodePath>)
    ensures |paths| == |kept| && forall i :: 0 <= i < |kept| ==> paths[i] == Entry(nodeId, kept[i], i == 0)
  {
    seq(|kept|, i requires 0 <= i < |kept| => Entry(nodeId, kept[i], i == 0))
  }

  function NodePaths(nodeId: int, routes: seq<Route>): seq<NodePath> {
    if Kept(routes) == [] then [NoRoute(nodeId)] else Entries(nodeId, Kept(routes))
  }

  /** The loop's state: the route at index 0 is the selected one, so only its entry can be marked; a
      path has been seen exactly when it is on the map. */
  ghost predicate Collected(nodeId: int, routes: seq<Route>, n: nat, paths: seq<NodePath>, seen: set<string>)
    requires n <= |routes|
  {
    var kept := Kept(routes[..n]);
    && |paths| == |kept|
    && (forall i :: 0 <= i < |kept| ==> paths[i] == Entry(nodeId, kept[i], i == 0 && routes[0].asPath != []))
    && (forall path :: PathKey(path) in seen <==> path in PathsOf(kept))
  }

  method RoutesToNodeASPaths(nodeId: int, routes: array<Route>) returns (paths: seq<NodePath>)
    modifies routes
    ensures multiset(routes[..]) == multiset(old(routes[..])) && BestFirst(routes[..])
    ensures paths == NodePaths(nodeId, routes[..])
  {
    SortRoutesBestFirst(routes);
    paths := SortedToNodeASPaths(nodeId, routes);
  }

  lemma SelectedFirst(routes: seq<Route>, selected: nat)
    requires BestFirst(routes) && selected < |routes| && routes[selected].best
    ensures routes[0].best
  {
  }

  method SortedToNodeASPaths(nodeId: int, routes: array<Route>) returns (paths: seq<NodePath>)
    requires BestFirst(routes[..])
    ensures paths == NodePaths(nodeId, routes[..])
  {
    var selected := BestRoute(routes);
    if selected > 0 {
      SelectedFirst(routes[..], selected);
    }
    ghost var sorted := routes[..];
    paths := [];
    var seen: set<string> := {};
    var i := 0;
    while i < routes.Length && |paths| != MAX_NODE_MAP_PATHS
      invariant 0 <= i <= routes.Length && Collected(nodeId, sorted, i, paths, seen)
      decreases routes.Length - i
    {
      var route := routes[i];
      var key := AsPathKey(route.asPath);
      CollectNext(nodeId, sorted, i, paths, seen);
      if route.asPath != [] && key !in seen {
        seen := seen + {key};
        paths := paths + [Entry(nodeId, route, i == selected)];
      }
      i := i + 1;
    }
    CapReached(sorted, i);
    if |paths| == 0 {
      return [NoRoute(nodeId)];
    }
    var hasBest := HasBestPath(paths);
    if !hasBest {
      paths := paths[0 := paths[0].(best := true)];
    }
    assert paths == Entries(nodeId, Kept(sorted));
  }

  method HasBestPath(paths: seq<NodePath>) returns (has: bool)
    ensures has <==> exists i :: 0 <= i < |paths| && paths[i].best
  {
    for i := 0 to |paths|
      invariant forall k :: 0 <= k < i ==> !paths[k].best
    {
      if paths[i].best {
        return true;
      }
    }
    return false;
  }

  lemma CollectNext(nodeId: int, routes: seq<Route>, n: nat, paths: seq<NodePath>, seen: set<string>)
    requires n < |routes| && Collected(nodeId, routes, n, paths, seen) && |paths| != MAX_NODE_MAP_PATHS
    ensures var route := routes[n];
            var key := PathKey(route.asPath);
            if route.asPath != [] && key !in seen
            then Collected(nodeId, routes, n + 1, paths + [Entry(nodeId, route, n == 0)], seen + {key})
            else Collected(nodeId, routes, n + 1, paths, seen)
  {
    var kept, route := Kept(routes[..n]), routes[n];
    assert routes[..n + 1][..n] == routes[..n];
    if n > 0 {
      FirstIsKept(routes[..n]);
    }
    if route.asPath != [] && PathKey(route.asPath) !in seen {
      assert PathsOf(kept + [route]) == PathsOf(kept) + [route.asPath];
      SeenNext(PathsOf(kept), seen, route.asPath);
    }
  }

  lemma SeenNext(paths: seq<seq<Asn>>, seen: set<string>, path: seq<Asn>)
    requires forall other :: PathKey(other) in seen <==> other in paths
    ensures forall other :: PathKey(other) in seen + {PathKey(path)} <==> other in paths + [path]
  {
    forall other ensures PathKey(other) in seen + {PathKey(path)} <==> other in paths + [path] {
      KeyInjective(other, path);
    }
  }

  /** A first route with an AS path is always kept, as the first. */
  lemma {:induction false} FirstIsKept(routes: seq<Route>)
    requires routes != []
    ensures routes[0].asPath != [] ==> Kept(routes) != [] && Kept(routes)[0] == routes[0]
  {
    if |routes| == 1 {
      assert routes[..0] == [];
    } else {
      FirstIsKept(routes[..|routes| - 1]);
    }
  }

  lemma {:induction false} CapReached(routes: seq<Route>, n: nat)
    requires n <= |routes| && (n == |routes| || |Kept(routes[..n])| == MAX_NODE_MAP_PATHS)
    ensures Kept(routes) == Kept(routes[..n])
  {
    if n == |routes| {
      assert routes[..n] == routes;
    } else {
      var front := routes[..|routes| - 1];
      assert front[..n] == routes[..n];
      CapReached(front, n);
    }
  }

  // ---- What the map is promised ----

  lemma {:induction false} KeptIsDistinct(routes: seq<Route>)
    ensures |Kept(routes)| <= MAX_NODE_MAP_PATHS
    ensures forall i :: 0 <= i < |Kept(routes)| ==> Kept(routes)[i] in routes && Kept(routes)[i].asPath != []
    ensures forall i, j :: 0 <= i < j < |Kept(routes)| ==> Kept(routes)[i].asPath != Kept(routes)[j].asPath
    ensures |Kept(routes)| < MAX_NODE_MAP_PATHS ==>
      forall route :: route in routes && route.asPath != [] ==> route.asPath in PathsOf(Kept(routes))
  {
    if routes != [] {
      var front, last := routes[..|routes| - 1], routes[|routes| - 1];
      assert routes == front + [last];
      KeptIsDistinct(front);
      var kept := Kept(front);
      assert PathsOf(kept + [last]) == PathsOf(kept) + [last.asPath];
      if last.asPath !in PathsOf(kept) {
        forall i | 0 <= i < |kept| ensures kept[i].asPath != last.asPath {
          assert PathsOf(kept)[i] in PathsOf(kept);
        }
      }
    }
  }

  /** The paths of routes, with the empty ones left out. */
  ghost predicate HoldsPath(routes: seq<Route>, path: seq<Asn>) {
    path != [] && exists i :: 0 <= i < |routes| && routes[i].asPath == path
  }

  /** However the routes are ordered, as long as selected ones come first: a node without any AS path
      gets one no-route entry; any other gets one to four entries with different non-empty paths of its
      routes, exactly the first of them marked; and below the cap no path is missing. */
  lemma MapEntries(nodeId: int, routes: seq<Route>)
    ensures var paths := NodePaths(nodeId, routes);
            if forall path :: !HoldsPath(routes, path) then paths == [NoRoute(nodeId)]
            else
              && 1 <= |paths| <= MAX_NODE_MAP_PATHS
              && (forall i :: 0 <= i < |paths| ==>
                !paths[i].noRoute && HoldsPath(routes, paths[i].asPath) && (paths[i].best <==> i == 0))
              && (forall i, j :: 0 <= i < j < |paths| ==> paths[i].asPath != paths[j].asPath)
              && (|paths| < MAX_NODE_MAP_PATHS ==>
                    forall path :: HoldsPath(routes, path) ==> exists i :: 0 <= i < |paths| && paths[i].asPath == path)
  {
    KeptIsDistinct(routes);
    var kept, paths := Kept(routes), NodePaths(nodeId, routes);
    forall i | 0 <= i < |kept| ensures HoldsPath(routes, kept[i].asPath) {
      assert kept[i] in routes;
    }
    assert kept != [] ==> HoldsPath(routes, kept[0].asPath);
    if |kept| < MAX_NODE_MAP_PATHS {
      forall path | HoldsPath(routes, path) ensures exists i :: 0 <= i < |kept| && kept[i].asPath == path {
        var k :| 0 <= k < |routes| && routes[k].asPath == path;
        assert routes[k] in routes;
        var i :| 0 <= i < |PathsOf(kept)| && PathsOf(kept)[i] == path;
      }
    }
  }

  /** The route at j adds nothing: it has no AS path, one at or before it has the same, or the map was full. */
  ghost predicate AddsNothing(routes: seq<Route>, at: seq<nat>, j: nat)
    requires j < |routes| && forall i :: 0 <= i < |at| ==> at[i] < |routes|
  {
    || routes[j].asPath == []
    || (exists i :: 0 <= i < |at| && at[i] <= j && routes[at[i]].asPath == routes[j].asPath)
    || (|at| == MAX_NODE_MAP_PATHS && at[|at| - 1] < j)
  }

  /** The positions ascend, and only routes that add nothing are missing. */
  ghost predicate FirstPlaces(routes: seq<Route>, at: seq<nat>) {
    && (forall i :: 0 <= i < |at| ==> at[i] < |routes|)
    && (forall i, j :: 0 <= i < j < |at| ==> at[i] < at[j])
    && (forall j :: 0 <= j < |routes| ==> AddsNothing(routes, at, j))
  }

  lemma AddsNothingStill(front: seq<Route>, last: Route, at: seq<nat>, more: seq<nat>, j: nat)
    requires FirstPlaces(front, at) && j < |front| && more <= [|front|]
    requires |at| < MAX_NODE_MAP_PATHS || more == []
    ensures forall i :: 0 <= i < |at + more| ==> (at + more)[i] < |front + [last]|
    ensures AddsNothing(front + [last], at + more, j)
  {
    assert AddsNothing(front, at, j);
    if i :| 0 <= i < |at| && at[i] <= j && front[at[i]].asPath == front[j].asPath {
      assert (at + more)[i] == at[i];
    }
  }

  /** The places once the next route has been looked at. */
  lemma PlacesNext(front: seq<Route>, last: Route, at: seq<nat>, more: seq<nat>)
    requires FirstPlaces(front, at) && more <= [|front|] && (|at| < MAX_NODE_MAP_PATHS || more == [])
    requires more == [] ==>
      || last.asPath == [] || |at| == MAX_NODE_MAP_PATHS
      || exists i :: 0 <= i < |at| && front[at[i]].asPath == last.asPath
    ensures FirstPlaces(front + [last], at + more)
  {
    var routes := front + [last];
    forall j | 0 <= j < |front| ensures AddsNothing(routes, at + more, j) {
      AddsNothingStill(front, last, at, more, j);
    }
    if more == [] {
      assert at + more == at;
      if i :| 0 <= i < |at| && front[at[i]].asPath == last.asPath {
        assert routes[at[i]].asPath == last.asPath;
      }
    } else {
      assert (at + more)[|at|] == |front|;
    }
    assert AddsNothing(routes, at + more, |front|);
  }

  /** Whether the next route is kept. */
  lemma KeptNext(front: seq<Route>, last: Route)
    ensures var kept := Kept(front);
      Kept(front + [last]) ==
        if |kept| == MAX_NODE_MAP_PATHS || last.asPath == [] || last.asPath in PathsOf(kept) then kept
        else kept + [last]
  {
    assert (front + [last])[..|front|] == front;
  }

  /** The positions hold the surviving routes. */
  ghost predicate HoldsKept(routes: seq<Route>, at: seq<nat>) {
    FirstPlaces(routes, at) && |at| == |Kept(routes)|
    && forall i :: 0 <= i < |at| ==> Kept(routes)[i] == routes[at[i]]
  }

  lemma KeptIsThere(front: seq<Route>, at: seq<nat>, path: seq<Asn>)
    requires HoldsKept(front, at) && path in PathsOf(Kept(front))
    ensures exists i :: 0 <= i < |at| && front[at[i]].asPath == path
  {
    var paths := PathsOf(Kept(front));
    var i :| 0 <= i < |paths| && paths[i] == path;
    assert Kept(front)[i] == front[at[i]];
  }

  lemma KeptMore(front: seq<Route>, last: Route, before: seq<nat>, more: seq<nat>)
    requires HoldsKept(front, before) && more <= [|front|] && FirstPlaces(front + [last], before + more)
    requires Kept(front + [last]) == Kept(front) + if more == [] then [] else [last]
    ensures HoldsKept(front + [last], before + more)
  {
  }

  lemma KeptPlacesNext(front: seq<Route>, last: Route, before: seq<nat>) returns (at: seq<nat>)
    requires HoldsKept(front, before)
    ensures HoldsKept(front + [last], at)
  {
    KeptIsDistinct(front);
    KeptNext(front, last);
    var kept := Kept(front);
    if last.asPath != [] && last.asPath in PathsOf(kept) {
      KeptIsThere(front, before, last.asPath);
    }
    var full := |kept| == MAX_NODE_MAP_PATHS || last.asPath == [] || last.asPath in PathsOf(kept);
    var more := if full then [] else [|front|];
    PlacesNext(front, last, before, more);
    assert kept + [] == kept;
    KeptMore(front, last, before, more);
    at := before + more;
  }

  /** Where the surviving routes were: in order, the first of every path, until the map is full. */
  lemma {:induction false} KeptPlaces(routes: seq<Route>) returns (at: seq<nat>)
    ensures HoldsKept(routes, at)
  {
    if routes == [] {
      return [];
    }
    var front, last := routes[..|routes| - 1], routes[|routes| - 1];
    var before := KeptPlaces(front);
    at := KeptPlacesNext(front, last, before);
    assert routes == front + [last];
  }

  /** What a node shows is, in order, its first route of every AS path, up to four, the first of them marked; or that
      it has no route. */
  lemma EntriesInOrder(nodeId: int, routes: seq<Route>) returns (at: seq<nat>)
    ensures FirstPlaces(routes, at) && |at| <= 4
    ensures at == [] ==> NodePaths(nodeId, routes) == [NodePath(nodeId, "", [], false, false, true)]
    ensures at != [] ==> |NodePaths(nodeId, routes)| == |at| && forall i :: 0 <= i < |at| ==>
      var route := routes[at[i]];
      NodePaths(nodeId, routes)[i] ==
        NodePath(nodeId, route.prefix, route.asPath, i == 0, route.viaDefaultRoute, false) && route.asPath != []
  {
    at := KeptPlaces(routes);
    KeptIsDistinct(routes);
  }

  /** When a selected route has an AS path, the marked entry shows a selected route. */
  lemma SelectedLeads(routes: seq<Route>)
    requires BestFirst(routes) && exists i :: 0 <= i < |routes| && routes[i].best && routes[i].asPath != []
    ensures Kept(routes) != [] && Kept(routes)[0].best
  {
    var i :| 0 <= i < |routes| && routes[i].best && routes[i].asPath != [];
    LeaderIsBest(routes, i);
  }

  lemma {:induction false} LeaderIsBest(routes: seq<Route>, i: nat)
    requires BestFirst(routes) && i < |routes| && routes[i].best && routes[i].asPath != []
    ensures Kept(routes) != [] && Kept(routes)[0].best
  {
    var front := routes[..|routes| - 1];
    if i < |front| {
      LeaderIsBest(front, i);
    } else {
      KeptIsDistinct(front);
      if Kept(front) != [] {
        assert Kept(front)[0] in front;
      }
    }
  }
}
