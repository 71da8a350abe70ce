/** Marking the best route of every prefix in a parsed result, in place. */
module RouteTable {
  import opened AsPathText
  import opened Addresses
  import opened BestPath
  import opened Selection
  import opened StringOrder

  datatype Route = Route(prefix: string, nextHop: Address, asPath: seq<Asn>, origin: string, localPref: Asn, med: Asn,
                         viaDefaultRoute: bool, best: bool)

  /** A parsed route usually omits local preference rather than advertising zero. */
  function RoutePreference(r: Route): Preference {
    Preference(if r.localPref == 0 then DEFAULT_LOCAL_PREF else r.localPref, |r.asPath|, OriginRank(r.origin), r.med,
               false, 0, 0, AddressKey(r.nextHop), "")
  }

  function Prefixes(routes: seq<Route>): (prefixes: seq<string>)
    ensures |prefixes| == |routes| && forall i :: 0 <= i < |routes| ==> prefixes[i] == routes[i].prefix
  {
    seq(|routes|, i requires 0 <= i < |routes| => routes[i].prefix)
  }

  function Prefs(routes: seq<Route>): (prefs: seq<Preference>)
    ensures |prefs| == |routes| && forall i :: 0 <= i < |routes| ==> prefs[i] == RoutePreference(routes[i])
  {
    seq(|routes|, i requires 0 <= i < |routes| => RoutePreference(routes[i]))
  }

  function Flags(routes: seq<Route>): (flags: seq<bool>)
    ensures |flags| == |routes| && forall i :: 0 <= i < |routes| ==> flags[i] == routes[i].best
  {
    seq(|routes|, i requires 0 <= i < |routes| => routes[i].best)
  }

  function WithFlags(routes: seq<Route>, flags: seq<bool>): (result: seq<Route>)
    requires |routes| == |flags|
    ensures |result| == |routes| && forall i :: 0 <= i < |routes| ==> result[i] == routes[i].(best := flags[i])
  {
    seq(|routes|, i requires 0 <= i < |routes| => routes[i].(best := flags[i]))
  }

  /** The marked members of a group, in order. */
  function MarkedIn(flags: seq<bool>, group: seq<nat>): (marked: seq<nat>)
    requires Within(group, |flags|)
    ensures forall i :: i in marked <==> i in group && flags[i]
  {
    if group == [] then []
    else
      var n := |group| - 1;
      MarkedIn(flags, group[..n]) + if flags[group[n]] then [group[n]] else []
  }

  /** A single marker of the vendor stands; otherwise the decision process picks. */
  function Chosen(prefs: seq<Preference>, flags: seq<bool>, group: seq<nat>): (best: nat)
    requires group != [] && Within(group, |flags|) && |prefs| == |flags|
    ensures best in group
  {
    var marked := MarkedIn(flags, group);
    if |marked| == 1 then marked[0] else BestAmong(MorePreferred, prefs, group)
  }

  function OnlyOf(marked: seq<nat>): int {
    if |marked| == 1 then marked[0] else -1
  }

  /** The marker loop: the index of the only marked member, or -1 when there is none or more than one. */
  method OnlyMarked(routes: array<Route>, group: seq<nat>) returns (marked: int)
    requires Within(group, routes.Length)
    ensures marked == OnlyOf(MarkedIn(Flags(routes[..]), group))
  {
    ghost var flags := Flags(routes[..]);
    marked := -1;
    for n := 0 to |group|
      invariant |MarkedIn(flags, group[..n])| <= 1 && marked == OnlyOf(MarkedIn(flags, group[..n]))
    {
      MarkedNext(flags, group, n);
      if routes[group[n]].best {
        if marked >= 0 {
          MarkedGrows(flags, group, n + 1);
          return -1;
        }
        marked := group[n];
      }
    }
    assert group[..|group|] == group;
  }

  lemma MarkedNext(flags: seq<bool>, group: seq<nat>, n: nat)
    requires n < |group| && Within(group, |flags|)
    ensures MarkedIn(flags, group[..n + 1]) == MarkedIn(flags, group[..n]) + if flags[group[n]] then [group[n]] else []
  {
    assert group[..n + 1][..n] == group[..n];
  }

  lemma {:induction false} MarkedGrows(flags: seq<bool>, group: seq<nat>, n: nat)
    requires Within(group, |flags|) && n <= |group|
    ensures |MarkedIn(flags, group[..n])| <= |MarkedIn(flags, group)|
    decreases |group|
  {
    if n == |group| {
      assert group[..n] == group;
    } else {
      var front := group[..|group| - 1];
      assert front[..n] == group[..n];
      MarkedGrows(flags, front, n);
    }
  }

  method Beats(routes: array<Route>, i: nat, j: nat) returns (beats: bool)
    requires i < routes.Length && j < routes.Length
    ensures beats == MorePreferred(Prefs(routes[..])[i], Prefs(routes[..])[j])
  {
    beats := MorePreferred(RoutePreference(routes[i]), RoutePreference(routes[j]));
  }

  method BestRouteIn(routes: array<Route>, group: seq<nat>) returns (best: nat)
    requires group != [] && Within(group, routes.Length)
    ensures best == BestAmong(MorePreferred, Prefs(routes[..]), group)
  {
    ghost var prefs := Prefs(routes[..]);
    best := group[0];
    for n := 1 to |group|
      invariant Within(group[..n], |prefs|) && best == BestAmong(MorePreferred, prefs, group[..n])
    {
      ScanNext(MorePreferred, prefs, group, n);
      var beats := Beats(routes, group[n], best);
      if beats {
        best := group[n];
      }
    }
    assert group[..|group|] == group;
  }

  method SetFlag(routes: array<Route>, i: nat, flag: bool)
    requires i < routes.Length
    modifies routes
    ensures routes[..] == WithFlags(old(routes[..]), Flags(old(routes[..]))[i := flag])
  {
    routes[i] := routes[i].(best := flag);
  }

  /** Clearing the group and setting one member leaves exactly that member marked. */
  method FlagGroup(routes: array<Route>, group: seq<nat>, best: nat)
    requires Within(group, routes.Length) && best in group
    modifies routes
    ensures routes[..] == WithFlags(old(routes[..]), Marked(Flags(old(routes[..])), group, best))
  {
    ghost var before := routes[..];
    for n := 0 to |group|
      invariant routes[..] == WithFlags(before, Cleared(Flags(before), group[..n]))
    {
      ClearNext(Flags(before), group, n);
      SetFlag(routes, group[n], false);
    }
    assert group[..|group|] == group;
    assert Marked(Flags(before), group, best) == Cleared(Flags(before), group)[best := true];
    SetFlag(routes, best, true);
  }

  function Cleared(flags: seq<bool>, group: seq<nat>): (cleared: seq<bool>)
    ensures |cleared| == |flags| && forall i :: 0 <= i < |flags| ==> cleared[i] == (flags[i] && i !in group)
  {
    seq(|flags|, i requires 0 <= i < |flags| => flags[i] && i !in group)
  }

  lemma ClearNext(flags: seq<bool>, group: seq<nat>, n: nat)
    requires n < |group| && Within(group, |flags|)
    ensures Cleared(flags, group[..n + 1]) == Cleared(flags, group[..n])[group[n] := false]
  {
    assert group[..n + 1] == group[..n] + [group[n]];
  }

  method MarkRoutes(routes: array<Route>, group: seq<nat>)
    requires group != [] && Within(group, routes.Length)
    modifies routes
    ensures var was := old(routes[..]);
            routes[..] == WithFlags(was, Marked(Flags(was), group, Chosen(Prefs(was), Flags(was), group)))
  {
    ghost var was := routes[..];
    if |group| == 1 {
      SetFlag(routes, group[0], true);
      SingleChosen(Prefs(was), Flags(was), group);
      return;
    }
    var marked := OnlyMarked(routes, group);
    var best := 0;
    if marked >= 0 {
      best := marked;
    } else {
      best := BestRouteIn(routes, group);
    }
    FlagGroup(routes, group, best);
  }

  // ---- The whole table ----

  /** Where every prefix's mark belongs. */
  ghost predicate Winner(routes: seq<Route>, i: nat)
    requires i < |routes|
  {
    var group := Members(Prefixes(routes), routes[i].prefix);
    group != [] && i == Chosen(Prefs(routes), Flags(routes), group)
  }

  /** The rows whose group is still pending are as they were; the others carry their final mark. */
  ghost predicate Done(was: seq<Route>, now: seq<Route>, pending: set<string>) {
    && |now| == |was|
    && (forall i :: 0 <= i < |was| ==>
          now[i] == was[i].(best := if was[i].prefix in pending then was[i].best else Winner(was, i)))
  }

  lemma SameGroup(was: seq<Route>, now: seq<Route>, pending: set<string>, p: string)
    requires Done(was, now, pending) && p in pending
    ensures Prefixes(now) == Prefixes(was) && Prefs(now) == Prefs(was)
    ensures Members(Prefixes(was), p) != [] ==>
              Chosen(Prefs(now), Flags(now), Members(Prefixes(was), p)) ==
                Chosen(Prefs(was), Flags(was), Members(Prefixes(was), p))
  {
    assert Prefixes(now) == Prefixes(was) && Prefs(now) == Prefs(was);
    var group := Members(Prefixes(was), p);
    MembersAre(Prefixes(was), p);
    forall k | 0 <= k < |group| ensures Flags(now)[group[k]] == Flags(was)[group[k]] {
      assert group[k] in group;
    }
    MarkedAgree(Flags(now), Flags(was), group);
  }

  lemma {:induction false} MarkedAgree(flags: seq<bool>, flags': seq<bool>, group: seq<nat>)
    requires Within(group, |flags|) && |flags'| == |flags|
    requires forall k :: 0 <= k < |group| ==> flags[group[k]] == flags'[group[k]]
    ensures MarkedIn(flags, group) == MarkedIn(flags', group)
  {
    if group != [] {
      MarkedAgree(flags, flags', group[..|group| - 1]);
    }
  }

  lemma GroupDone(was: seq<Route>, now: seq<Route>, pending: set<string>, p: string)
    requires Done(was, now, pending) && p in pending && p in Prefixes(was)
    ensures Members(Prefixes(was), p) != []
    ensures var group := Members(Prefixes(was), p);
            Done(was, WithFlags(now, Marked(Flags(now), group, Chosen(Prefs(now), Flags(now), group))), pending - {p})
  {
    PrefixHasMembers(Prefixes(was), p);
    MembersAre(Prefixes(was), p);
    SameGroup(was, now, pending, p);
    var group := Members(Prefixes(was), p);
    var then' := WithFlags(now, Marked(Flags(now), group, Chosen(Prefs(now), Flags(now), group)));
    forall i | 0 <= i < |was|
      ensures then'[i] == was[i].(best := if was[i].prefix in pending - {p} then was[i].best else Winner(was, i))
    {
      assert i in group <==> was[i].prefix == p;
    }
  }

  /** The table after marking: every row keeps everything but its flag. */
  ghost function MarkedTable(routes: seq<Route>): (result: seq<Route>)
    ensures |result| == |routes| && forall i :: 0 <= i < |routes| ==> result[i] == routes[i].(best := Winner(routes, i))
  {
    seq(|routes|, i requires 0 <= i < |routes| => routes[i].(best := Winner(routes, i)))
  }

  method EnsureBestAmongRoutes(routes: array<Route>)
    modifies routes
    ensures routes[..] == MarkedTable(old(routes[..]))
    ensures forall i :: 0 <= i < routes.Length ==> (routes[i].best <==> KeepsMark(old(routes[..]), i))
  {
    ghost var was := routes[..];
    MarksMean(was);
    if routes.Length == 0 {
      return;
    }
    var byPrefix := GroupByPrefix(Prefixes(routes[..]));
    var pending := byPrefix.Keys;
    NothingDone(was, byPrefix);
    while pending != {}
      invariant pending <= byPrefix.Keys && Done(was, routes[..], pending)
    {
      var p :| p in pending;
      GroupDone(was, routes[..], pending, p);
      MarkRoutes(routes, byPrefix[p]);
      pending := pending - {p};
    }
    assert routes[..] == MarkedTable(was);
  }

  lemma NothingDone(was: seq<Route>, byPrefix: map<string, seq<nat>>)
    requires Grouped(Prefixes(was), byPrefix)
    ensures Done(was, was, byPrefix.Keys)
  {
    forall i | 0 <= i < |was| ensures was[i].prefix in byPrefix {
      assert Prefixes(was)[i] in Prefixes(was);
    }
  }

  // ---- What the marks mean ----

  /** Row i is the only marked row of its prefix. */
  ghost predicate SoleMarker(routes: seq<Route>, i: nat)
    requires i < |routes|
  {
    && routes[i].best
    && forall j :: 0 <= j < |routes| && j != i && routes[j].prefix == routes[i].prefix ==> !routes[j].best
  }

  /** The prefix has exactly one marked row. */
  ghost predicate HasSoleMarker(routes: seq<Route>, p: string) {
    exists i :: 0 <= i < |routes| && routes[i].prefix == p && SoleMarker(routes, i)
  }

  /** The mark stays with the only marked row of a prefix; without a single marked row it goes to the
      winner of the decision process. */
  lemma WinnerMeans(routes: seq<Route>, i: nat)
    requires i < |routes|
    ensures Winner(routes, i) <==>
      if HasSoleMarker(routes, routes[i].prefix) then SoleMarker(routes, i)
      else WinsPrefix(MorePreferred, Prefixes(routes), Prefs(routes), i)
  {
    var p := routes[i].prefix;
    var group := Members(Prefixes(routes), p);
    MembersAre(Prefixes(routes), p);
    assert i in group;
    PreferenceIsStrictTotal();
    WinnerOfPrefix(MorePreferred, Prefixes(routes), Prefs(routes), i);
    SoleMarkerMeans(routes, p);
  }

  // ---- The decision process on what routes carry ----

  /** The first route is the better one at a step: higher local preference, none counting 100, shorter AS path,
      earlier origin, lower MED, and then the smaller next hop. */
  predicate BetterAt(step: nat, a: Route, b: Route) {
    if step == 0 then LocalPref(a) > LocalPref(b)
    else if step == 1 then |a.asPath| < |b.asPath|
    else if step == 2 then OriginClass(a.origin) < OriginClass(b.origin)
    else if step == 3 then a.med < b.med
    else Less(AddressKey(a.nextHop), AddressKey(b.nextHop))
  }

  const LAST_STEP := 4

  function LocalPref(r: Route): Asn {
    if r.localPref == 0 then 100 else r.localPref
  }

  /** Neither route is the better one at a step. */
  predicate Even(step: nat, a: Route, b: Route) {
    !BetterAt(step, a, b) && !BetterAt(step, b, a)
  }

  ghost predicate EvenBefore(step: nat, a: Route, b: Route) {
    forall k: nat :: k < step ==> Even(k, a, b)
  }

  /** The first route is better at the first step that tells the two apart. */
  ghost predicate Outranks(a: Route, b: Route) {
    exists step: nat :: step <= LAST_STEP && BetterAt(step, a, b) && EvenBefore(step, a, b)
  }

  lemma DecidedAt(a: Route, b: Route) returns (step: nat)
    ensures step <= LAST_STEP && EvenBefore(step, a, b) && (step == LAST_STEP || !Even(step, a, b))
  {
    step := 0;
    while step < LAST_STEP && Even(step, a, b)
      invariant step <= LAST_STEP && EvenBefore(step, a, b)
    {
      step := step + 1;
    }
  }

  lemma StepDecides(a: Route, b: Route, step: nat)
    requires step <= LAST_STEP && EvenBefore(step, a, b) && (step == LAST_STEP || !Even(step, a, b))
    ensures Outranks(a, b) <==> BetterAt(step, a, b)
  {
    if k: nat :| k <= LAST_STEP && BetterAt(k, a, b) && EvenBefore(k, a, b) {
      assert k < step ==> Even(k, a, b);
      assert step < k ==> Even(step, a, b);
    }
  }

  lemma PreferredAtStep(a: Route, b: Route, step: nat)
    requires step <= LAST_STEP && EvenBefore(step, a, b) && (step == LAST_STEP || !Even(step, a, b))
    ensures MorePreferred(RoutePreference(a), RoutePreference(b)) <==> BetterAt(step, a, b)
  {
    RankIsClass(a.origin);
    RankIsClass(b.origin);
    LessIrreflexive("");
    LessIrreflexive(AddressKey(a.nextHop));
    assert step > 0 ==> Even(0, a, b);
    assert step > 1 ==> Even(1, a, b);
    assert step > 2 ==> Even(2, a, b);
    assert step > 3 ==> Even(3, a, b);
  }

  /** The comparison of the extracted preferences is the decision process on the routes. */
  lemma PreferenceOutranks(a: Route, b: Route)
    ensures MorePreferred(RoutePreference(a), RoutePreference(b)) <==> Outranks(a, b)
  {
    var step := DecidedAt(a, b);
    StepDecides(a, b, step);
    PreferredAtStep(a, b, step);
  }

  /** A route no other of its prefix outranks, and that outranks those before it. */
  ghost predicate Prevails(routes: seq<Route>, i: nat)
    requires i < |routes|
  {
    forall j :: 0 <= j < |routes| && routes[j].prefix == routes[i].prefix ==>
      !Outranks(routes[j], routes[i]) && (j < i ==> Outranks(routes[i], routes[j]))
  }

  lemma WinnerPrevails(routes: seq<Route>, i: nat)
    requires i < |routes|
    ensures WinsPrefix(MorePreferred, Prefixes(routes), Prefs(routes), i) <==> Prevails(routes, i)
  {
    forall j | 0 <= j < |routes|
      ensures MorePreferred(Prefs(routes)[j], Prefs(routes)[i]) <==> Outranks(routes[j], routes[i])
      ensures MorePreferred(Prefs(routes)[i], Prefs(routes)[j]) <==> Outranks(routes[i], routes[j])
    {
      PreferenceOutranks(routes[j], routes[i]);
      PreferenceOutranks(routes[i], routes[j]);
    }
  }

  /** The row that ends up marked: the only marked one of its prefix, or the one that prevails. */
  ghost predicate KeepsMark(routes: seq<Route>, i: nat)
    requires i < |routes|
  {
    if HasSoleMarker(routes, routes[i].prefix) then SoleMarker(routes, i) else Prevails(routes, i)
  }

  lemma MarksMean(routes: seq<Route>)
    ensures forall i :: 0 <= i < |routes| ==> (MarkedTable(routes)[i].best <==> KeepsMark(routes, i))
  {
    forall i | 0 <= i < |routes| ensures Winner(routes, i) <==> KeepsMark(routes, i) {
      WinnerMeans(routes, i);
      WinnerPrevails(routes, i);
    }
  }

  lemma SoleMarkerMeans(routes: seq<Route>, p: string)
    ensures var marked := MarkedIn(Flags(routes), Members(Prefixes(routes), p));
            && (|marked| == 1 <==> HasSoleMarker(routes, p))
            && (|marked| == 1 ==>
                  forall i :: 0 <= i < |routes| && routes[i].prefix == p ==>
                    (i == marked[0] <==> SoleMarker(routes, i)))
  {
    var marked := MarkedIn(Flags(routes), Members(Prefixes(routes), p));
    MarkedMembers(routes, p);
    if HasSoleMarker(routes, p) {
      var i :| 0 <= i < |routes| && routes[i].prefix == p && SoleMarker(routes, i);
      OneElement(marked, i);
    }
    if |marked| == 1 {
      OneMarked(routes, p, marked[0]);
    }
  }

  lemma OneMarked(routes: seq<Route>, p: string, i: nat)
    requires MarkedIn(Flags(routes), Members(Prefixes(routes), p)) == [i]
    ensures i < |routes| && routes[i].prefix == p && SoleMarker(routes, i)
    ensures forall j :: 0 <= j < |routes| && routes[j].prefix == p && SoleMarker(routes, j) ==> j == i
  {
    MarkedMembers(routes, p);
    assert i in [i];
  }

  lemma MarkedMembers(routes: seq<Route>, p: string)
    ensures var marked := MarkedIn(Flags(routes), Members(Prefixes(routes), p));
            Rising(marked) && forall i :: i in marked <==> 0 <= i < |routes| && routes[i].prefix == p && routes[i].best
  {
    MembersAre(Prefixes(routes), p);
    MarkedRises(Flags(routes), Members(Prefixes(routes), p));
  }

  lemma Constant(s: seq<nat>, x: nat)
    requires Rising(s) && s != [] && forall k :: 0 <= k < |s| ==> s[k] == x
    ensures |s| == 1
  {
    var last := |s| - 1;
    assert s[0] == s[last];
  }

  lemma OneElement(s: seq<nat>, x: nat)
    requires Rising(s) && x in s && forall y :: y in s ==> y == x
    ensures |s| == 1
  {
    forall k | 0 <= k < |s| ensures s[k] == x {
      assert s[k] in s;
    }
    Constant(s, x);
  }

  lemma {:induction false} MarkedRises(flags: seq<bool>, group: seq<nat>)
    requires Within(group, |flags|) && Rising(group)
    ensures Rising(MarkedIn(flags, group))
  {
    if group != [] {
      var n := |group| - 1;
      MarkedRises(flags, group[..n]);
      var marked := MarkedIn(flags, group[..n]);
      forall k | 0 <= k < |marked| ensures marked[k] < group[n] {
        assert marked[k] in marked;
      }
    }
  }

  /** Marking leaves one marked row for every prefix. */
  lemma OneMarkEach(routes: seq<Route>, p: string)
    requires p in Prefixes(routes)
    ensures HasSoleMarker(MarkedTable(routes), p)
  {
    PrefixHasMembers(Prefixes(routes), p);
    MembersAre(Prefixes(routes), p);
    var group := Members(Prefixes(routes), p);
    var i := Chosen(Prefs(routes), Flags(routes), group);
    assert i in group;
    assert SoleMarker(MarkedTable(routes), i);
  }

  /** Marking twice is marking once. */
  lemma MarkingIsIdempotent(routes: seq<Route>)
    ensures MarkedTable(MarkedTable(routes)) == MarkedTable(routes)
  {
    var table := MarkedTable(routes);
    forall i | 0 <= i < |table| ensures Winner(table, i) == table[i].best {
      assert Prefixes(routes)[i] in Prefixes(routes);
      OneMarkEach(routes, table[i].prefix);
      WinnerMeans(table, i);
      var j :| 0 <= j < |table| && table[j].prefix == table[i].prefix && SoleMarker(table, j);
    }
  }

  // ---- Independence of the input order ----

  lemma TwiceInMultiset<T>(s: seq<T>, a: nat, b: nat)
    requires a < b < |s| && s[a] == s[b]
    ensures multiset(s)[s[a]] >= 2
  {
    assert s == s[..a] + [s[a]] + s[a + 1..b] + [s[b]] + s[b + 1..];
  }

  lemma OnceInMultiset<T>(s: seq<T>, i: nat)
    requires i < |s| && forall j :: 0 <= j < |s| && j != i ==> s[j] != s[i]
    ensures multiset(s)[s[i]] == 1
  {
    assert s == s[..i] + [s[i]] + s[i + 1..];
    assert s[i] !in s[..i] && s[i] !in s[i + 1..];
  }

  /** A permutation moves a sole marker along, and makes no other. */
  lemma SoleMarkerMoves(routes: seq<Route>, routes': seq<Route>, i: nat, i': nat)
    requires multiset(routes) == multiset(routes') && i < |routes| && i' < |routes'|
    requires SoleMarker(routes, i) && routes'[i'].prefix == routes[i].prefix && routes'[i'].best
    ensures routes'[i'] == routes[i] && SoleMarker(routes', i')
  {
    OnceInMultiset(routes, i);
    forall j' | 0 <= j' < |routes'| && routes'[j'].prefix == routes[i].prefix && routes'[j'].best
      ensures routes'[j'] == routes[i]
    {
      assert routes'[j'] in multiset(routes);
      var j :| 0 <= j < |routes| && routes[j] == routes'[j'];
    }
    forall j' | 0 <= j' < |routes'| && j' != i' && routes'[j'].prefix == routes[i].prefix ensures !routes'[j'].best {
      if routes'[j'].best {
        TwiceInMultiset(routes', if i' < j' then i' else j', if i' < j' then j' else i');
      }
    }
  }

  lemma SoleMarkerShuffles(routes: seq<Route>, routes': seq<Route>, p: string)
    requires multiset(routes) == multiset(routes') && HasSoleMarker(routes, p)
    ensures HasSoleMarker(routes', p)
  {
    var i :| 0 <= i < |routes| && routes[i].prefix == p && SoleMarker(routes, i);
    assert routes[i] in multiset(routes');
    var i' :| 0 <= i' < |routes'| && routes'[i'] == routes[i];
    SoleMarkerMoves(routes, routes', i, i');
  }

  /** Whatever order the routes come in, a prefix is won by the same route when it has a single marker,
      and otherwise by a route with the same preference. */
  lemma WinnerShuffles(routes: seq<Route>, routes': seq<Route>, i: nat, i': nat)
    requires multiset(routes) == multiset(routes') && i < |routes| && i' < |routes'|
    requires routes[i].prefix == routes'[i'].prefix && Winner(routes, i) && Winner(routes', i')
    ensures HasSoleMarker(routes, routes[i].prefix) ==> routes'[i'] == routes[i]
    ensures RoutePreference(routes'[i']) == RoutePreference(routes[i])
  {
    var p := routes[i].prefix;
    WinnerMeans(routes, i);
    WinnerMeans(routes', i');
    if HasSoleMarker(routes, p) {
      SoleMarkerShuffles(routes, routes', p);
      SoleMarkerMoves(routes, routes', i, i');
    } else {
      if HasSoleMarker(routes', p) {
        SoleMarkerShuffles(routes', routes, p);
      }
      RowsShuffle(routes, routes');
      RowsShuffle(routes', routes);
      PreferenceIsStrictTotal();
      OrderIndependent(MorePreferred, Prefixes(routes), Prefs(routes), i, Prefixes(routes'), Prefs(routes'), i');
    }
  }

  lemma RowsShuffle(routes: seq<Route>, routes': seq<Route>)
    requires multiset(routes) == multiset(routes')
    ensures forall row :: row in Rows(Prefixes(routes), Prefs(routes)) ==>
      row in Rows(Prefixes(routes'), Prefs(routes'))
  {
    var rows, rows' := Rows(Prefixes(routes), Prefs(routes)), Rows(Prefixes(routes'), Prefs(routes'));
    forall row | row in rows ensures row in rows' {
      var k :| 0 <= k < |rows| && rows[k] == row;
      assert routes[k] in multiset(routes');
      var k' :| 0 <= k' < |routes'| && routes'[k'] == routes[k];
      assert rows'[k'] == row;
    }
  }

  lemma SingleChosen(prefs: seq<Preference>, flags: seq<bool>, group: seq<nat>)
    requires |group| == 1 && Within(group, |flags|) && |prefs| == |flags|
    ensures Marked(flags, group, Chosen(prefs, flags, group)) == flags[group[0] := true]
  {
    assert group == [group[0]];
  }
}
