/** Marking the best path of every prefix among the entries of the routing table, in place. */
module EntrySelection {
  import opened AsPathText
  import opened Addresses
  import opened BestPath
  import opened Selection
  import opened StringOrder

  /** What a path of the routing table carries. */
  datatype Path = Path(prefix: string, nextHop: Address, neighborIP: Address, asPath: string, origin: string,
                       localPref: string, med: string, originatorId: string, clusterList: seq<string>, ageSeconds: int)

  function EntryPreference(path: Path): Preference {
    Preference(ParseUintOr(path.localPref, DEFAULT_LOCAL_PREF), |ParsedPath(path.asPath)|, OriginRank(path.origin),
               ParseUintOr(path.med, 0), path.originatorId != "" || path.clusterList != [], |path.clusterList|,
               path.ageSeconds, AddressKey(path.nextHop), AddressKey(path.neighborIP))
  }

  // ---- The decision process on what paths carry ----

  /** The first path is the better one at a step: higher local preference, shorter AS path, earlier origin, lower MED,
      not reflected, shorter cluster list, greater age, and then the smaller addresses. */
  predicate BetterAt(step: nat, a: Path, b: Path) {
    if step == 0 then Stated(a.localPref, 100) > Stated(b.localPref, 100)
    else if step == 1 then |ParsedPath(a.asPath)| < |ParsedPath(b.asPath)|
    else if step == 2 then OriginClass(a.origin) < OriginClass(b.origin)
    else if step == 3 then Stated(a.med, 0) < Stated(b.med, 0)
    else if step == 4 then !Reflected(a) && Reflected(b)
    else if step == 5 then |a.clusterList| < |b.clusterList|
    else if step == 6 then a.ageSeconds > b.ageSeconds
    else if step == 7 then Less(AddressKey(a.nextHop), AddressKey(b.nextHop))
    else Less(AddressKey(a.neighborIP), AddressKey(b.neighborIP))
  }

  const LAST_STEP := 8

  predicate Reflected(path: Path) {
    path.originatorId != "" || path.clusterList != []
  }

  /** Neither path is the better one at a step. */
  predicate Even(step: nat, a: Path, b: Path) {
    !BetterAt(step, a, b) && !BetterAt(step, b, a)
  }

  /** The first path is better at the first step that tells the two apart. */
  ghost predicate Outranks(a: Path, b: Path) {
    exists step: nat :: step <= LAST_STEP && BetterAt(step, a, b) && EvenBefore(step, a, b)
  }

  ghost predicate EvenBefore(step: nat, a: Path, b: Path) {
    forall k: nat :: k < step ==> Even(k, a, b)
  }

  lemma EvenNext(step: nat, a: Path, b: Path)
    ensures EvenBefore(step + 1, a, b) <==> EvenBefore(step, a, b) && Even(step, a, b)
  {
  }

  lemma EvenKeys(a: string, b: string)
    ensures !Less(a, b) && !Less(b, a) <==> a == b
  {
    LessTotal(a, b);
    LessIrreflexive(a);
  }

  /** What the steps say of the extracted preferences. */
  lemma StepsAre(a: Path, b: Path)
    ensures var x, y := EntryPreference(a), EntryPreference(b);
      && (Even(0, a, b) <==> x.localPref == y.localPref) && (Even(1, a, b) <==> x.asPathLen == y.asPathLen)
      && (Even(2, a, b) <==> x.origin == y.origin) && (Even(3, a, b) <==> x.med == y.med)
  {
    StatedIs(a.localPref, 100);
    StatedIs(b.localPref, 100);
    StatedIs(a.med, 0);
    StatedIs(b.med, 0);
    RankIsClass(a.origin);
    RankIsClass(b.origin);
  }

  lemma LaterStepsAre(a: Path, b: Path)
    ensures Even(4, a, b) <==> EntryPreference(a).reflected == EntryPreference(b).reflected
    ensures Even(5, a, b) <==> EntryPreference(a).clusterLen == EntryPreference(b).clusterLen
    ensures Even(6, a, b) <==> EntryPreference(a).ageSec == EntryPreference(b).ageSec
  {
  }

  lemma NextHopStepIs(a: Path, b: Path)
    ensures Even(7, a, b) <==> EntryPreference(a).nextHop == EntryPreference(b).nextHop
  {
    EvenKeys(AddressKey(a.nextHop), AddressKey(b.nextHop));
  }

  lemma DecidedAt(a: Path, b: Path) returns (step: nat)
    ensures step <= LAST_STEP && EvenBefore(step, a, b) && (step == LAST_STEP || !Even(step, a, b))
  {
    step := 0;
    while step < LAST_STEP && Even(step, a, b)
      invariant step <= LAST_STEP && EvenBefore(step, a, b)
    {
      EvenNext(step, a, b);
      step := step + 1;
    }
  }

  /** The comparison of the extracted preferences is the decision process on the paths. */
  lemma PreferenceOutranks(a: Path, b: Path)
    ensures MorePreferred(EntryPreference(a), EntryPreference(b)) <==> Outranks(a, b)
  {
    var step := DecidedAt(a, b);
    StepDecides(a, b, step);
    PreferredAtStep(a, b, step);
  }

  lemma StepDecides(a: Path, b: Path, step: nat)
    requires step <= LAST_STEP && EvenBefore(step, a, b) && (step == LAST_STEP || !Even(step, a, b))
    ensures Outranks(a, b) <==> BetterAt(step, a, b)
  {
    if k: nat :| k <= LAST_STEP && BetterAt(k, a, b) && EvenBefore(k, a, b) {
      assert k < step ==> Even(k, a, b);
      assert step < k ==> Even(step, a, b);
    }
  }

  lemma PreferredAtStep(a: Path, b: Path, step: nat)
    requires step <= LAST_STEP && EvenBefore(step, a, b) && (step == LAST_STEP || !Even(step, a, b))
    ensures MorePreferred(EntryPreference(a), EntryPreference(b)) <==> BetterAt(step, a, b)
  {
    StepsAre(a, b);
    LaterStepsAre(a, b);
    NextHopStepIs(a, b);
    assert forall k: nat :: k < step ==> Even(k, a, b);
    StatedIs(a.localPref, 100);
    StatedIs(b.localPref, 100);
    StatedIs(a.med, 0);
    StatedIs(b.med, 0);
    RankIsClass(a.origin);
    RankIsClass(b.origin);
  }

  /** A path no other of its prefix outranks, and that outranks those before it. */
  ghost predicate Prevails(entries: seq<RouteEntry>, i: nat)
    requires i < |entries|
  {
    forall j :: 0 <= j < |entries| && entries[j].path.prefix == entries[i].path.prefix ==>
      !Outranks(entries[j].path, entries[i].path) && (j < i ==> Outranks(entries[i].path, entries[j].path))
  }

  lemma WinnerPrevails(entries: seq<RouteEntry>, i: nat)
    requires i < |entries|
    ensures WinsPrefix(MorePreferred, EntryPrefixes(entries), EntryPrefs(entries), i) <==> Prevails(entries, i)
  {
    forall j | 0 <= j < |entries|
      ensures var p, q := entries[j].path, entries[i].path;
        && (MorePreferred(EntryPrefs(entries)[j], EntryPrefs(entries)[i]) <==> Outranks(p, q))
        && (MorePreferred(EntryPrefs(entries)[i], EntryPrefs(entries)[j]) <==> Outranks(q, p))
    {
      PreferenceOutranks(entries[j].path, entries[i].path);
      PreferenceOutranks(entries[i].path, entries[j].path);
    }
  }

  /** A routing table entry: its path never changes, its best flag does. */
  class RouteEntry {
    const path: Path
    var best: bool

    constructor (path: Path, best: bool)
      ensures this.path == path && this.best == best
    {
      this.path, this.best := path, best;
    }
  }

  function EntryPrefixes(entries: seq<RouteEntry>): (prefixes: seq<string>)
    ensures |prefixes| == |entries| && forall i :: 0 <= i < |entries| ==> prefixes[i] == entries[i].path.prefix
  {
    seq(|entries|, i requires 0 <= i < |entries| => entries[i].path.prefix)
  }

  function EntryPrefs(entries: seq<RouteEntry>): (prefs: seq<Preference>)
    ensures |prefs| == |entries| && forall i :: 0 <= i < |entries| ==> prefs[i] == EntryPreference(entries[i].path)
  {
    seq(|entries|, i requires 0 <= i < |entries| => EntryPreference(entries[i].path))
  }

  method Beats(entries: seq<RouteEntry>, i: nat, j: nat) returns (beats: bool)
    requires i < |entries| && j < |entries|
    ensures beats == MorePreferred(EntryPrefs(entries)[i], EntryPrefs(entries)[j])
  {
    beats := MorePreferred(EntryPreference(entries[i].path), EntryPreference(entries[j].path));
  }

  method BestEntry(entries: seq<RouteEntry>, group: seq<nat>) returns (best: nat)
    requires group != [] && Within(group, |entries|)
    ensures best == BestAmong(MorePreferred, EntryPrefs(entries), group)
  {
    ghost var prefs := EntryPrefs(entries);
    best := group[0];
    for n := 1 to |group|
      invariant Within(group[..n], |prefs|) && best == BestAmong(MorePreferred, prefs, group[..n])
    {
      ScanNext(MorePreferred, prefs, group, n);
      var beats := Beats(entries, group[n], best);
      if beats {
        best := group[n];
      }
    }
    assert group[..|group|] == group;
  }

  ghost predicate Distinct(entries: seq<RouteEntry>) {
    forall i, j :: 0 <= i < j < |entries| ==> entries[i] != entries[j]
  }

  ghost function Flags(entries: seq<RouteEntry>): (flags: seq<bool>)
    reads entries
    ensures |flags| == |entries| && forall i :: 0 <= i < |entries| ==> flags[i] == entries[i].best
  {
    seq(|entries|, i requires 0 <= i < |entries| reads entries => entries[i].best)
  }

  method SetFlag(entries: seq<RouteEntry>, i: nat, flag: bool)
    requires i < |entries| && Distinct(entries)
    modifies {entries[i]}`best
    ensures Flags(entries) == old(Flags(entries))[i := flag]
  {
    entries[i].best := flag;
  }

  /** One group: exactly the winner of the scan ends up marked. */
  method MarkEntries(entries: seq<RouteEntry>, group: seq<nat>)
    requires group != [] && Within(group, |entries|) && Distinct(entries)
    modifies entries`best
    ensures Flags(entries) == Marked(old(Flags(entries)), group, BestAmong(MorePreferred, EntryPrefs(entries), group))
  {
    if |group| == 1 {
      MarkSingle(MorePreferred, EntryPrefs(entries), Flags(entries), group);
      SetFlag(entries, group[0], true);
      return;
    }
    var best := BestEntry(entries, group);
    FlagGroup(entries, group, best);
  }

  method FlagGroup(entries: seq<RouteEntry>, group: seq<nat>, best: nat)
    requires Within(group, |entries|) && Distinct(entries)
    modifies entries`best
    ensures Flags(entries) == Marked(old(Flags(entries)), group, best)
  {
    ghost var flags := Flags(entries);
    for n := 0 to |group|
      invariant Flags(entries) == Marked(flags, group[..n], best)
    {
      MarkNext(flags, group, best, n);
      SetFlag(entries, group[n], group[n] == best);
    }
    assert group[..|group|] == group;
  }

  /** Afterwards an entry is marked exactly when it wins its prefix: no other entry of the prefix outranks it in the
      decision process, and it is the first such one. Nothing but the flags changes. */
  method EnsureBestAmongEntries(entries: seq<RouteEntry>)
    requires Distinct(entries)
    modifies entries`best
    ensures forall i :: 0 <= i < |entries| ==>
      (entries[i].best <==> WinsPrefix(MorePreferred, EntryPrefixes(entries), EntryPrefs(entries), i))
    ensures forall i :: 0 <= i < |entries| ==> (entries[i].best <==> Prevails(entries, i))
  {
    if |entries| == 0 {
      return;
    }
    ghost var prefixes, prefs := EntryPrefixes(entries), EntryPrefs(entries);
    var byPrefix := GroupByPrefix(EntryPrefixes(entries));
    var pending := byPrefix.Keys;
    NothingSettled(MorePreferred, prefixes, prefs, Flags(entries), byPrefix);
    while pending != {}
      invariant pending <= byPrefix.Keys && Settled(MorePreferred, prefixes, prefs, Flags(entries), pending)
    {
      var p :| p in pending;
      SettleGroup(MorePreferred, prefixes, prefs, Flags(entries), pending, p);
      MarkEntries(entries, byPrefix[p]);
      pending := pending - {p};
    }
    PreferenceIsStrictTotal();
    SettledWins(MorePreferred, prefixes, prefs, Flags(entries));
    forall i | 0 <= i < |entries|
      ensures WinsPrefix(MorePreferred, prefixes, prefs, i) <==> Prevails(entries, i)
    {
      WinnerPrevails(entries, i);
    }
  }
}
