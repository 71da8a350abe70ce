/** Putting a node's own AS in front of the paths it reports. */
module OriginPath {

  import opened AsPathText
  import opened Options
  import opened RouteTable

  datatype RouteFallback = RouteFallback(localAS: Asn, defaultRouteAS: Asn)

  /** What a path is to begin with: nothing without a local AS, and the upstream too on a default route. */
  function OriginPrefix(fb: RouteFallback, viaDefaultRoute: bool): seq<Asn> {
    if fb.localAS == 0 then []
    else if viaDefaultRoute then [fb.localAS, fb.defaultRouteAS]
    else [fb.localAS]
  }

  /** How far two lists agree from the front. */
  function Common(a: seq<Asn>, b: seq<Asn>): (n: nat)
    ensures n <= |a| && n <= |b|
  {
    if a == [] || b == [] || a[0] != b[0] then 0 else 1 + Common(a[1..], b[1..])
  }

  function Prepended(path: seq<Asn>, prefix: seq<Asn>): seq<Asn> {
    prefix + path[Common(prefix, path)..]
  }

  lemma {:induction false} CommonAt(a: seq<Asn>, b: seq<Asn>, i: nat)
    requires i <= |a| && i <= |b| && a[..i] == b[..i] && (i == |a| || i == |b| || a[i] != b[i])
    ensures Common(a, b) == i
  {
    if i > 0 {
      assert a[0] == a[..i][0] && b[0] == b[..i][0];
      assert a[1..][..i - 1] == a[..i][1..] && b[1..][..i - 1] == b[..i][1..];
      CommonAt(a[1..], b[1..], i - 1);
    }
  }

  lemma PrefixIsCommon(prefix: seq<Asn>, path: seq<Asn>)
    requires prefix <= path
    ensures Common(prefix, path) == |prefix|
  {
    CommonAt(prefix, path, |prefix|);
  }

  /** The result always begins with the prefix; it is the path itself exactly when the path already did, so doing
      it again changes nothing. */
  lemma PrependedIff(path: seq<Asn>, prefix: seq<Asn>)
    ensures prefix <= Prepended(path, prefix)
    ensures Prepended(path, prefix) == path <==> prefix <= path
    ensures Prepended(Prepended(path, prefix), prefix) == Prepended(path, prefix)
  {
    if prefix <= path {
      PrefixIsCommon(prefix, path);
    }
    PrefixIsCommon(prefix, Prepended(path, prefix));
  }

  /** The result goes on with the path less the numbers it shares with the prefix from the front. */
  lemma PrependedKeeps(path: seq<Asn>, prefix: seq<Asn>) returns (shared: nat)
    ensures shared <= |path| && shared <= |prefix| && path[..shared] == prefix[..shared]
    ensures shared == |path| || shared == |prefix| || path[shared] != prefix[shared]
    ensures Prepended(path, prefix) == prefix + path[shared..]
  {
    shared := Common(prefix, path);
    CommonIs(prefix, path);
  }

  lemma {:induction false} CommonIs(a: seq<Asn>, b: seq<Asn>)
    ensures var n := Common(a, b);
      a[..n] == b[..n] && (n == |a| || n == |b| || a[n] != b[n])
  {
    if a != [] && b != [] && a[0] == b[0] {
      CommonIs(a[1..], b[1..]);
      var n := Common(a[1..], b[1..]);
      assert a[..n + 1] == [a[0]] + a[1..][..n] && b[..n + 1] == [b[0]] + b[1..][..n];
    }
  }

  method PrependOriginASPath(path: seq<Asn>, fb: Option<RouteFallback>, viaDefaultRoute: bool) returns (out: seq<Asn>)
    ensures out == if fb.None? then path else Prepended(path, OriginPrefix(fb.value, viaDefaultRoute))
  {
    if fb.None? {
      return path;
    }
    var prefix := OriginPrefix(fb.value, viaDefaultRoute);
    if |prefix| == 0 {
      return path;
    }
    if |path| == 0 {
      return prefix;
    }
    var i := 0;
    while i < |prefix| && i < |path| && prefix[i] == path[i]
      invariant i <= |prefix| && i <= |path| && prefix[..i] == path[..i]
    {
      i := i + 1;
    }
    CommonAt(prefix, path, i);
    return prefix + path[i..];
  }

  /** A route with the local AS in front of its path. */
  function WithOrigin(r: Route, localAS: Asn): Route {
    if localAS == 0 then r else r.(asPath := Prepended(r.asPath, [localAS]))
  }

  method ApplyOriginASPathToRoutes(routes: array<Route>, localAS: Asn)
    modifies routes
    ensures forall i :: 0 <= i < routes.Length ==> routes[i] == WithOrigin(old(routes[i]), localAS)
  {
    if localAS == 0 || routes.Length == 0 {
      return;
    }
    for i := 0 to routes.Length
      invariant forall k :: 0 <= k < i ==> routes[k] == WithOrigin(old(routes[k]), localAS)
      invariant forall k :: i <= k < routes.Length ==> routes[k] == old(routes[k])
    {
      if |routes[i].asPath| > 0 && routes[i].asPath[0] == localAS {
        assert [localAS] <= routes[i].asPath;
        PrependedIff(routes[i].asPath, [localAS]);
      } else {
        var path := PrependOriginASPath(routes[i].asPath, Some(RouteFallback(localAS, 0)), false);
        routes[i] := routes[i].(asPath := path);
      }
    }
  }

  /** What a node's path begins with: nothing new without a local AS, otherwise the local AS, and after it the upstream
      AS when the path came over the default route. */
  lemma OriginLeads(path: seq<Asn>, fb: RouteFallback, viaDefaultRoute: bool)
    ensures var out := Prepended(path, OriginPrefix(fb, viaDefaultRoute));
      if fb.localAS == 0 then out == path
      else
        && |out| >= 1 && out[0] == fb.localAS
        && (viaDefaultRoute ==> |out| >= 2 && out[1] == fb.defaultRouteAS)
        && (!viaDefaultRoute ==> out == if path != [] && path[0] == fb.localAS then path else [fb.localAS] + path)
  {
    var prefix := OriginPrefix(fb, viaDefaultRoute);
    PrependedIff(path, prefix);
    assert Prepended(path, prefix)[..|prefix|] == prefix;
    if path != [] && prefix != [] && path[0] == prefix[0] {
      assert path == [path[0]] + path[1..];
    }
  }

  /** After one pass every path begins with the local AS, put in front unless it was there, and a second pass changes
      nothing. */
  lemma WithOriginMeans(r: Route, localAS: Asn)
    requires localAS != 0
    ensures var after := WithOrigin(r, localAS);
      && [localAS] <= after.asPath && WithOrigin(after, localAS) == after && after.(asPath := r.asPath) == r
      && after.asPath == if r.asPath != [] && r.asPath[0] == localAS then r.asPath else [localAS] + r.asPath
  {
    PrependedIff(r.asPath, [localAS]);
    OriginLeads(r.asPath, RouteFallback(localAS, 0), false);
  }
}
