/** Where the promise that no wakeup is lost ends: with a second taker of one query's tokens, with what no writer
    announces, and with an entry that is no longer the one its id points to. */
module LostWakeups {
  import opened Options
  import opened QueryEntries
  import opened QueryWakeups

  ghost predicate TakersFrom(events: seq<Event>, takers: iset<ReaderId>) {
    forall i :: 0 <= i < |events| && events[i].Wakes? ==> events[i].reader in takers
  }

  lemma TakersGrow(events: seq<Event>, more: seq<Event>, takers: iset<ReaderId>)
    requires TakersFrom(events, takers) && TakersFrom(more, takers)
    ensures TakersFrom(events + more, takers)
  {
  }

  // ---- Pieces of runs ----

  lemma Extend(events: seq<Event>, s: System, e: Event)
    requires Run(events) == Some(s) && Enabled(s, e)
    ensures Run(events + [e]) == Some(Next(s, e))
  {
    assert (events + [e])[..|events|] == events;
  }

  function WithReader(s: System, r: ReaderId, state: Reader): System {
    s.(readers := s.readers[r := state])
  }

  lemma ReadStep(events: seq<Event>, s: System, r: ReaderId, from: Reader, to: Reader)
    requires Placed(s.shelf) && Run(events) == Some(WithReader(s, r, from)) && Look(s.shelf, r.query, from) == to
    ensures Run(events + [Reads(r)]) == Some(WithReader(s, r, to))
  {
    var before := WithReader(s, r, from);
    Extend(events, before, Reads(r));
    assert Next(before, Reads(r)).readers == WithReader(s, r, to).readers;
  }

  /** Blocked on a channel with what entry n showed. */
  function Waiting(n: nat, v: EntryValue, channel: nat): Reader {
    Blocked(Some(n), v.lines, v.outputComplete, v.result, channel)
  }

  /** Blocked on an entry after one undisturbed round. */
  function UpTo(n: nat, v: EntryValue): Reader {
    Waiting(n, v, n)
  }

  function FourReads(r: ReaderId): seq<Event> {
    [Reads(r), Reads(r), Reads(r), Reads(r)]
  }

  function FiveReads(r: ReaderId): seq<Event> {
    [Reads(r), Reads(r), Reads(r), Reads(r), Reads(r)]
  }

  lemma BeginsToLook(events: seq<Event>, s: System, r: ReaderId)
    requires Run(events) == Some(s) && StateOf(s, r) == Starting && r.query in s.shelf.results
    ensures var v, n := ValueAt(s.shelf, r.query), Some(s.shelf.results[r.query]);
      Run(events + [Reads(r), Reads(r), Reads(r)]) == Some(WithReader(s, r, HasDone(n, v.lines, v.outputComplete)))
  {
    var v, n := ValueAt(s.shelf, r.query), Some(s.shelf.results[r.query]);
    Extend(events, s, Reads(r));
    var es := events + [Reads(r)];
    ReadStep(es, s, r, Found(n), HasLines(n, v.lines));
    ReadStep(es + [Reads(r)], s, r, HasLines(n, v.lines), HasDone(n, v.lines, v.outputComplete));
    assert es + [Reads(r)] + [Reads(r)] == events + [Reads(r), Reads(r), Reads(r)];
  }

  function Seen(n: nat, v: EntryValue): Reader {
    HasResult(Some(n), v.lines, v.outputComplete, v.result, true)
  }

  /** A result that makes a reader wait. */
  predicate Unfinished(v: EntryValue) {
    v.result.Some? && v.result.value.status != Done && v.result.value.status != Error
  }

  lemma LooksAtResult(s: Shelf, query: string, n: nat, v: EntryValue)
    requires Placed(s) && query in s.results && s.results[query] == n && ValueAt(s, query) == v
    ensures Look(s, query, HasDone(Some(n), v.lines, v.outputComplete)) == Seen(n, v)
  {
  }

  lemma LooksAtChannel(s: Shelf, query: string, n: nat, v: EntryValue)
    requires Placed(s) && query in s.results && Unfinished(v)
    ensures Look(s, query, Seen(n, v)) == Waiting(n, v, s.results[query])
  {
  }

  /** The first four looks of an undisturbed round. */
  lemma SeesAll(events: seq<Event>, s: System, r: ReaderId)
    requires Run(events) == Some(s) && StateOf(s, r) == Starting && r.query in s.shelf.results
    ensures var v, n := ValueAt(s.shelf, r.query), s.shelf.results[r.query];
      Run(events + FourReads(r)) == Some(WithReader(s, r, Seen(n, v)))
  {
    var v, n := ValueAt(s.shelf, r.query), s.shelf.results[r.query];
    var es := events + [Reads(r), Reads(r), Reads(r)];
    BeginsToLook(events, s, r);
    LooksAtResult(s.shelf, r.query, n, v);
    ReadStep(es, s, r, HasDone(Some(n), v.lines, v.outputComplete), Seen(n, v));
    assert es + [Reads(r)] == events + FourReads(r);
  }

  /** A reader about to start blocks on the entry of its query. */
  lemma Blocks(events: seq<Event>, s: System, r: ReaderId)
    requires Run(events) == Some(s) && StateOf(s, r) == Starting && r.query in s.shelf.results
    requires Unfinished(ValueAt(s.shelf, r.query))
    ensures var v, n := ValueAt(s.shelf, r.query), s.shelf.results[r.query];
      Run(events + FiveReads(r)) == Some(WithReader(s, r, UpTo(n, v)))
  {
    var v, n := ValueAt(s.shelf, r.query), s.shelf.results[r.query];
    SeesAll(events, s, r);
    LooksAtChannel(s.shelf, r.query, n, v);
    ReadStep(events + FourReads(r), s, r, Seen(n, v), UpTo(n, v));
    assert events + FourReads(r) + [Reads(r)] == events + FiveReads(r);
  }

  /** A writer that looks for its entry signals it. */
  lemma Signals(events: seq<Event>, s: System, id: string)
    requires Run(events) == Some(s) && Looking(id) in s.signals && id in s.shelf.results
    ensures var n := s.shelf.results[id];
      Run(events + [Finds(id), Sends(n)]) ==
      Some(s.(shelf := WithToken(s.shelf, n, true), signals := s.signals - multiset{Looking(id)}))
  {
    var n := s.shelf.results[id];
    Extend(events, s, Finds(id));
    var found := Next(s, Finds(id));
    assert Sending(n) in found.signals;
    Extend(events + [Finds(id)], found, Sends(n));
    assert events + [Finds(id)] + [Sends(n)] == events + [Finds(id), Sends(n)];
    assert found.signals - multiset{Sending(n)} == s.signals - multiset{Looking(id)};
  }

  function LineEvents(id: string, line: string, n: nat): seq<Event> {
    [Does(AppendLine(id, line)), Finds(id), Sends(n)]
  }

  /** The shelf after a line of output was stored and signalled. */
  function Told(s: Shelf, id: string, line: string): Shelf
    requires Placed(s) && id in s.results
  {
    WithToken(Change(s, id, WithLine(ValueAt(s, id), line)), s.results[id], true)
  }

  lemma LineIsTold(events: seq<Event>, s: System, id: string, line: string)
    requires Run(events) == Some(s) && id in s.shelf.results
    ensures Run(events + LineEvents(id, line, s.shelf.results[id])) == Some(s.(shelf := Told(s.shelf, id, line)))
  {
    var n, w := s.shelf.results[id], Does(AppendLine(id, line));
    Extend(events, s, w);
    Signals(events + [w], Next(s, w), id);
    assert events + [w] + [Finds(id), Sends(n)] == events + LineEvents(id, line, n);
    assert s.signals + multiset{Looking(id)} - multiset{Looking(id)} == s.signals;
  }

  // ---- Two takers of one query ----

  const RUNNING := Fresh(Some(BLANK), 0)

  /** One entry, its signals and its readers. */
  function Only(query: string, v: EntryValue, signals: multiset<Signal>, readers: map<ReaderId, Reader>): System {
    System(Shelf(map[query := 0], [Owned(query, v)], EXPIRY), signals, readers)
  }

  /** One running query and its readers, nothing pending. */
  function Alone(query: string, readers: map<ReaderId, Reader>): System {
    Only(query, RUNNING, multiset{}, readers)
  }

  lemma QueryStarts(query: string)
    ensures Run([Does(SetRunning(query, 0))]) == Some(Alone(query, map[]))
  {
    Extend([], EMPTY, Does(SetRunning(query, 0)));
    assert Next(EMPTY, Does(SetRunning(query, 0))) == Alone(query, map[]);
    assert [] + [Does(SetRunning(query, 0))] == [Does(SetRunning(query, 0))];
  }

  function OneBlocks(r: ReaderId): seq<Event> {
    [Does(SetRunning(r.query, 0))] + FiveReads(r)
  }

  lemma OneBlocked(r: ReaderId)
    ensures Run(OneBlocks(r)) == Some(Alone(r.query, map[r := UpTo(0, RUNNING)]))
  {
    QueryStarts(r.query);
    Blocks([Does(SetRunning(r.query, 0))], Alone(r.query, map[]), r);
  }

  function SharedRun(a: ReaderId, b: ReaderId, line: string): seq<Event> {
    OneBlocks(a) + FiveReads(b) + LineEvents(b.query, line, 0) + [Wakes(a)]
  }

  /** Any two readers of one query: both block, a line comes in, and the first takes the only token. The second
      has not seen the line, its channel is empty, and nobody is going to signal. */
  lemma SharedTokenCanBeLost(a: ReaderId, b: ReaderId, line: string)
    requires a != b && a.query == b.query
    ensures var run := Run(SharedRun(a, b, line));
      run.Some? && Lost(run.value, b) && !Silent(run.value, b) && run.value.signals == multiset{}
  {
    OneBlocked(a);
    var s := Alone(a.query, map[a := UpTo(0, RUNNING)]);
    Blocks(OneBlocks(a), s, b);
    var both := WithReader(s, b, UpTo(0, RUNNING));
    var events := OneBlocks(a) + FiveReads(b);
    LineIsTold(events, both, b.query, line);
    var told := both.(shelf := Told(both.shelf, b.query, line));
    Extend(events + LineEvents(b.query, line, 0), told, Wakes(a));
  }

  lemma OnlyOneTakes(a: ReaderId, b: ReaderId, line: string, takers: iset<ReaderId>)
    requires a in takers
    ensures TakersFrom(SharedRun(a, b, line), takers)
  {
    var events := OneBlocks(a) + FiveReads(b) + LineEvents(b.query, line, 0);
    assert TakersFrom(events, takers);
  }

  /** Whatever the reader has lost was never going to be announced. */
  predicate Safe(s: System, r: ReaderId)
    requires Placed(s.shelf)
  {
    Lost(s, r) ==> Silent(s, r)
  }

  /** A reader loses nothing that is announced, in every run whose takers come from a given set, exactly when no
      other reader of its query is in the set. */
  lemma SafeIff(takers: iset<ReaderId>, r: ReaderId)
    ensures (forall events :: TakersFrom(events, takers) && Run(events).Some? ==> Safe(Run(events).value, r))
       <==> (forall a :: a in takers && a.query == r.query ==> a == r)
  {
    if a :| a in takers && a.query == r.query && a != r {
      SharedTokenCanBeLost(a, r, "");
      OnlyOneTakes(a, r, "", takers);
    } else {
      forall events | TakersFrom(events, takers) && Run(events).Some? ensures Safe(Run(events).value, r) {
        NoLostWakeup(events, Run(events).value, r);
      }
    }
  }

  ghost predicate AllSafe(takers: iset<ReaderId>) {
    forall events, r :: r in takers && TakersFrom(events, takers) && Run(events).Some? ==> Safe(Run(events).value, r)
  }

  /** The takers lose nothing that is announced exactly when no two of them read the same query. */
  lemma AllSafeIff(takers: iset<ReaderId>)
    ensures AllSafe(takers) <==> forall a, b :: a in takers && b in takers && a.query == b.query ==> a == b
  {
    forall r ensures
      (forall events :: TakersFrom(events, takers) && Run(events).Some? ==> Safe(Run(events).value, r)) <==>
      (forall a :: a in takers && a.query == r.query ==> a == r)
    {
      SafeIff(takers, r);
    }
  }

  // ---- What no writer announces ----

  function MidRoundRun(r: ReaderId, line: string): seq<Event> {
    [Does(SetRunning(r.query, 0))] + LineEvents(r.query, line, 0) + FourReads(r) +
    [Does(SetRunning(r.query, 0)), Reads(r)]
  }

  /** The reader blocked on the second entry of its query, having read a line from the first. */
  function Astride(r: ReaderId, was: EntryValue): System {
    System(Shelf(map[r.query := 1], [Owned(r.query, was), Owned(r.query, RUNNING)], EXPIRY),
           multiset{}, map[r := Waiting(0, was, 1)])
  }

  lemma AstrideLoses(r: ReaderId, was: EntryValue)
    requires was.lines != []
    ensures var s := Astride(r, was);
      Placed(s.shelf) && Lost(s, r) && Silent(s, r) && StateOf(s, r).first != Some(StateOf(s, r).channel)
  {
  }

  /** One entry with a line that was told, and its readers. */
  function OneLine(query: string, line: string, readers: map<ReaderId, Reader>): System {
    Only(query, Line(line), multiset{}, readers)
  }

  function Line(line: string): EntryValue {
    WithLine(RUNNING, line).(token := true)
  }

  lemma LineTold(query: string, line: string)
    ensures Run([Does(SetRunning(query, 0))] + LineEvents(query, line, 0)) == Some(OneLine(query, line, map[]))
  {
    QueryStarts(query);
    LineIsTold([Does(SetRunning(query, 0))], Alone(query, map[]), query, line);
    assert Told(Alone(query, map[]).shelf, query, line).entries == OneLine(query, line, map[]).shelf.entries;
  }

  lemma MidRoundEnds(r: ReaderId, line: string)
    ensures Run(MidRoundRun(r, line)) == Some(Astride(r, Line(line)))
  {
    var events, again := [Does(SetRunning(r.query, 0))] + LineEvents(r.query, line, 0), Does(SetRunning(r.query, 0));
    LineTold(r.query, line);
    SeesAll(events, OneLine(r.query, line, map[]), r);
    events := events + FourReads(r);
    Restarts(events, r, line);
    assert events + [again] + [Reads(r)] == MidRoundRun(r, line);
  }

  lemma Restarts(events: seq<Event>, r: ReaderId, line: string)
    requires Run(events) == Some(OneLine(r.query, line, map[r := Seen(0, Line(line))]))
    ensures Run(events + [Does(SetRunning(r.query, 0))] + [Reads(r)]) == Some(Astride(r, Line(line)))
  {
    var again := Does(SetRunning(r.query, 0));
    var s := Astride(r, Line(line)).(readers := map[]);
    Extend(events, OneLine(r.query, line, map[r := Seen(0, Line(line))]), again);
    assert Next(OneLine(r.query, line, map[r := Seen(0, Line(line))]), again) == WithReader(s, r, Seen(0, Line(line)));
    LooksAtChannel(s.shelf, r.query, 0, Line(line));
    ReadStep(events + [again], s, r, Seen(0, Line(line)), Waiting(0, Line(line), 1));
  }

  /** Any reader: it reads a line, its query is started again before it blocks, and it blocks on the new entry with
      the line of the old one. Nobody took a token, and nobody is going to signal. */
  lemma RestartInMidRound(r: ReaderId, line: string)
    ensures TakersFrom(MidRoundRun(r, line), iset{})
    ensures var run := Run(MidRoundRun(r, line));
      && run.Some? && Lost(run.value, r) && run.value.signals == multiset{}
      && StateOf(run.value, r).first != Some(StateOf(run.value, r).channel)
      && StateOf(run.value, r).result == Some(BLANK)
  {
    MidRoundEnds(r, line);
    AstrideLoses(r, Line(line));
  }

  function SetAndTold(query: string, result: QueryResult): seq<Event> {
    [Does(Set(query, Some(result), 0))] + [Finds(query), Sends(0)]
  }

  lemma SetIsTold(query: string, result: QueryResult)
    ensures Run(SetAndTold(query, result))
         == Some(Only(query, Fresh(Some(result), 0).(token := true), multiset{}, map[]))
  {
    var set_, v := Does(Set(query, Some(result), 0)), Fresh(Some(result), 0);
    Extend([], EMPTY, set_);
    assert [] + [set_] == [set_];
    assert Next(EMPTY, set_) == Only(query, v, multiset{Looking(query)}, map[]);
    Signals([set_], Only(query, v, multiset{Looking(query)}, map[]), query);
    assert [Owned(query, v)][0 := Owned(query, v.(token := true))] == [Owned(query, v.(token := true))];
  }

  function TakenOnce(r: ReaderId, result: QueryResult): seq<Event> {
    SetAndTold(r.query, result) + FiveReads(r) + [Wakes(r)]
  }

  lemma TokenIsTaken(r: ReaderId, result: QueryResult)
    requires result.status == Pending
    ensures Run(TakenOnce(r, result)) == Some(Only(r.query, Fresh(Some(result), 0), multiset{}, map[r := Starting]))
  {
    var v := Fresh(Some(result), 0).(token := true);
    SetIsTold(r.query, result);
    Blocks(SetAndTold(r.query, result), Only(r.query, v, multiset{}, map[]), r);
    Extend(SetAndTold(r.query, result) + FiveReads(r), OneWaits(r, v), Wakes(r));
    TakingToken(r, v);
  }

  function OneWaits(r: ReaderId, v: EntryValue): System {
    Only(r.query, v, multiset{}, map[r := UpTo(0, v)])
  }

  lemma TakingToken(r: ReaderId, v: EntryValue)
    requires v.token
    ensures Enabled(OneWaits(r, v), Wakes(r))
    ensures Next(OneWaits(r, v), Wakes(r)) == Only(r.query, v.(token := false), multiset{}, map[r := Starting])
  {
    assert [Owned(r.query, v)][0 := Owned(r.query, v.(token := false))] == [Owned(r.query, v.(token := false))];
  }

  lemma MergingQuietly(r: ReaderId, v: EntryValue, partial: QueryResult)
    requires v.result.Some? && v.result.value.status == Pending
    ensures Next(OneWaits(r, v), Does(MergePartial(r.query, partial)))
         == Only(r.query, WithPartial(v, partial), multiset{}, map[r := UpTo(0, v)])
  {
    var merged := Owned(r.query, WithPartial(v, partial));
    assert [Owned(r.query, v)][0 := merged] == [merged];
  }

  function PendingRun(r: ReaderId, result: QueryResult, partial: QueryResult): seq<Event> {
    TakenOnce(r, result) + FiveReads(r) + [Does(MergePartial(r.query, partial))]
  }

  lemma PendingEnds(r: ReaderId, result: QueryResult, partial: QueryResult)
    requires result.status == Pending
    ensures var v := Fresh(Some(result), 0);
      Run(PendingRun(r, result, partial))
        == Some(Only(r.query, WithPartial(v, partial), multiset{}, map[r := UpTo(0, v)]))
  {
    var v, merge := Fresh(Some(result), 0), Does(MergePartial(r.query, partial));
    TokenIsTaken(r, result);
    Blocks(TakenOnce(r, result), Only(r.query, v, multiset{}, map[r := Starting]), r);
    assert map[r := Starting][r := UpTo(0, v)] == map[r := UpTo(0, v)];
    Extend(TakenOnce(r, result) + FiveReads(r), OneWaits(r, v), merge);
    MergingQuietly(r, v, partial);
  }

  /** Any reader: it has seen a pending result and taken the only token, and a path is merged into the result. Nobody
      else took a token, and nobody is going to signal. */
  lemma MergeIntoPending(r: ReaderId, result: QueryResult, partial: QueryResult)
    requires result.status == Pending && partial.asPath != [] && partial.asPath != result.asPath
    ensures TakersFrom(PendingRun(r, result, partial), iset{r})
    ensures var run := Run(PendingRun(r, result, partial));
      && run.Some? && Lost(run.value, r) && run.value.signals == multiset{}
      && StateOf(run.value, r).first == Some(StateOf(run.value, r).channel)
  {
    PendingEnds(r, result, partial);
    TakersGrow(TakenOnce(r, result), FiveReads(r) + [Does(MergePartial(r.query, partial))], iset{r});
    assert PendingRun(r, result, partial) ==
      TakenOnce(r, result) + (FiveReads(r) + [Does(MergePartial(r.query, partial))]);
  }

  // ---- An entry its id no longer points to ----

  ghost predicate Holds(events: seq<Event>, n: nat) {
    Run(events).Some? && n < |Run(events).value.shelf.entries| && Run(events).value.shelf.entries[n].value.token
  }

  /** Some continuation puts a token into channel n. */
  ghost predicate CanGetToken(events: seq<Event>, n: nat) {
    exists more :: Holds(events + more, n)
  }

  /** Something can still reach channel n: the id of its entry, or a signal that found it already. */
  predicate Open(s: System, n: nat)
    requires n < |s.shelf.entries|
  {
    var e := s.shelf.entries[n];
    (e.id in s.shelf.results && s.shelf.results[e.id] == n) || e.value.token || Sending(n) in s.signals
  }

  lemma WriteKeepsClosed(s: System, w: Write, n: nat)
    requires Placed(s.shelf) && n < |s.shelf.entries| && !Open(s, n)
    ensures n < |Written(s.shelf, w).entries| && !Open(Next(s, Does(w)), n)
  {
    WriteKeepsOwners(s.shelf, w, n);
  }

  lemma ClosedStaysClosed(s: System, e: Event, n: nat)
    requires Placed(s.shelf) && Enabled(s, e) && n < |s.shelf.entries| && !Open(s, n)
    ensures n < |Next(s, e).shelf.entries| && !Open(Next(s, e), n)
  {
    match e
    case Does(w) => WriteKeepsClosed(s, w, n);
    case Finds(id) =>
      if id in s.shelf.results {
        assert s.shelf.results[id] != n;
      }
    case _ =>
  }

  lemma {:induction false} ClosedForever(events: seq<Event>, more: seq<Event>, s: System, n: nat)
    requires Run(events) == Some(s) && n < |s.shelf.entries| && !Open(s, n) && Run(events + more).Some?
    ensures var s' := Run(events + more).value;
      n < |s'.shelf.entries| && !Open(s', n)
    decreases |more|
  {
    if more == [] {
      assert events + more == events;
    } else {
      var front := more[..|more| - 1];
      assert (events + more)[..|events + more| - 1] == events + front;
      ClosedForever(events, front, s, n);
      ClosedStaysClosed(Run(events + front).value, more[|more| - 1], n);
    }
  }

  lemma OpenReaches(events: seq<Event>, s: System, n: nat)
    requires Run(events) == Some(s) && n < |s.shelf.entries| && Open(s, n)
    ensures CanGetToken(events, n)
  {
    var id := s.shelf.entries[n].id;
    if s.shelf.entries[n].value.token {
      assert events + [] == events;
      assert Holds(events + [], n);
    } else if Sending(n) in s.signals {
      Extend(events, s, Sends(n));
      assert Holds(events + [Sends(n)], n);
    } else {
      LineIsTold(events, s, id, "");
      assert Holds(events + LineEvents(id, "", n), n);
    }
  }

  lemma ReachedIff(events: seq<Event>, s: System, n: nat)
    requires Run(events) == Some(s) && n < |s.shelf.entries|
    ensures CanGetToken(events, n) <==> Open(s, n)
  {
    if Open(s, n) {
      OpenReaches(events, s, n);
    } else if CanGetToken(events, n) {
      var more :| Holds(events + more, n);
      ClosedForever(events, more, s, n);
    }
  }

  lemma {:induction false} AlwaysMoored(events: seq<Event>)
    requires Run(events).Some?
    ensures Moored(Run(events).value)
  {
    if events != [] {
      var front := events[..|events| - 1];
      AlwaysMoored(front);
      NextKeepsMoored(Run(front).value, events[|events| - 1]);
    }
  }

  /** A blocked reader can still be woken exactly while its id points to the entry it waits on, or a token for
      that entry is already there or being sent: no later line, result or completion of its query reaches it once
      the entry was replaced. */
  lemma WakeableIff(events: seq<Event>, s: System, r: ReaderId)
    requires Run(events) == Some(s) && StateOf(s, r).Blocked?
    ensures var n := StateOf(s, r).channel;
      && n < |s.shelf.entries|
      && (CanGetToken(events, n) <==> Current(s, r) || s.shelf.entries[n].value.token || Sending(n) in s.signals)
  {
    AlwaysMoored(events);
    ReachedIff(events, s, StateOf(s, r).channel);
  }

  /** The only taker of a query's tokens that misses something, with no token at its channel and none being sent
      there, can be woken exactly while its id points to the entry it waits on; then a writer is looking for that
      entry, or what it misses is never announced. */
  lemma CoveredIff(events: seq<Event>, s: System, r: ReaderId)
    requires Run(events) == Some(s) && SoleTaker(events, r) && Misses(s, r)
    requires var n := StateOf(s, r).channel;
      n < |s.shelf.entries| && !s.shelf.entries[n].value.token && Sending(n) !in s.signals
    ensures Current(s, r) <==> CanGetToken(events, StateOf(s, r).channel)
    ensures Current(s, r) ==> Looking(r.query) in s.signals || Silent(s, r)
  {
    WakeableIff(events, s, r);
    NoLostWakeup(events, s, r);
  }

  // ---- Such runs ----

  /** Blocked on the entry the round began with, having seen a running query. */
  predicate Waits(s: System, r: ReaderId) {
    var state := StateOf(s, r);
    && state.Blocked? && state.first == Some(state.channel)
    && state.result.Some? && state.result.value.status == Running
  }

  /** The reader misses something and no continuation can wake it. */
  ghost predicate Stranded(events: seq<Event>, r: ReaderId) {
    Run(events).Some? && Waits(Run(events).value, r) && Misses(Run(events).value, r) &&
    !CanGetToken(events, StateOf(Run(events).value, r).channel)
  }

  /** The reader blocked on the first entry of its query, the id pointing to a second one. */
  function Behind(r: ReaderId, v: EntryValue, signals: multiset<Signal>): System {
    System(Shelf(map[r.query := 1], [Owned(r.query, RUNNING), Owned(r.query, v)], EXPIRY),
           signals, map[r := UpTo(0, RUNNING)])
  }

  lemma BehindIsStranded(events: seq<Event>, r: ReaderId, v: EntryValue)
    requires Run(events) == Some(Behind(r, v, multiset{})) && (v.lines != [] || v.result != Some(BLANK))
    ensures Stranded(events, r)
  {
    WakeableIff(events, Behind(r, v, multiset{}), r);
  }

  function RestartedRun(r: ReaderId, line: string): seq<Event> {
    OneBlocks(r) + [Does(SetRunning(r.query, 0))] + LineEvents(r.query, line, 1)
  }

  lemma RestartedEnds(r: ReaderId, line: string)
    ensures Run(RestartedRun(r, line)) == Some(Behind(r, WithLine(RUNNING, line).(token := true), multiset{}))
  {
    var again := Does(SetRunning(r.query, 0));
    OneBlocked(r);
    Extend(OneBlocks(r), Alone(r.query, map[r := UpTo(0, RUNNING)]), again);
    assert Next(Alone(r.query, map[r := UpTo(0, RUNNING)]), again) == Behind(r, RUNNING, multiset{});
    LineIsTold(OneBlocks(r) + [again], Behind(r, RUNNING, multiset{}), r.query, line);
    BehindTold(r, line);
  }

  /** Any reader: it blocks, its query is started again, and a line comes in. Nobody took a token. */
  lemma RestartStrands(r: ReaderId, line: string)
    ensures Stranded(RestartedRun(r, line), r) && TakersFrom(RestartedRun(r, line), iset{})
  {
    RestartedEnds(r, line);
    BehindIsStranded(RestartedRun(r, line), r, WithLine(RUNNING, line).(token := true));
    TakersGrow(OneBlocks(r) + [Does(SetRunning(r.query, 0))], LineEvents(r.query, line, 1), iset{});
  }

  lemma BehindTold(r: ReaderId, line: string)
    ensures var s := Behind(r, RUNNING, multiset{});
      s.(shelf := Told(s.shelf, r.query, line)) == Behind(r, WithLine(RUNNING, line).(token := true), multiset{})
  {
  }

  /** The entry goes away by being deleted, or by a cleanup after it expired. */
  predicate Removes(w: Write, id: string) {
    w == Delete(id) || (w.Cleanup? && w.now > EXPIRY)
  }

  function RemovedRun(r: ReaderId, w: Write, result: QueryResult): seq<Event> {
    OneBlocks(r) + [Does(w)] + [Does(Set(r.query, Some(result), 0))] + [Finds(r.query), Sends(1)]
  }

  lemma RemovedEnds(r: ReaderId, w: Write, result: QueryResult)
    requires Removes(w, r.query)
    ensures Run(RemovedRun(r, w, result)) == Some(Behind(r, Fresh(Some(result), 0).(token := true), multiset{}))
  {
    var set_, v := Does(Set(r.query, Some(result), 0)), Fresh(Some(result), 0);
    OneBlocked(r);
    Extend(OneBlocks(r), Alone(r.query, map[r := UpTo(0, RUNNING)]), Does(w));
    Removed(r, w);
    Extend(OneBlocks(r) + [Does(w)], Gone(r), set_);
    SetAgain(r, result);
    Signals(OneBlocks(r) + [Does(w)] + [set_], Behind(r, v, multiset{Looking(r.query)}), r.query);
    assert Behind(r, v, multiset{Looking(r.query)}).shelf.entries[1 := Owned(r.query, v.(token := true))]
        == Behind(r, v.(token := true), multiset{}).shelf.entries;
  }

  /** Any reader: it blocks, its entry is removed, and a result is set. Nobody took a token. */
  lemma RemovalStrands(r: ReaderId, w: Write, result: QueryResult)
    requires Removes(w, r.query) && result != BLANK
    ensures Stranded(RemovedRun(r, w, result), r) && TakersFrom(RemovedRun(r, w, result), iset{})
  {
    RemovedEnds(r, w, result);
    BehindIsStranded(RemovedRun(r, w, result), r, Fresh(Some(result), 0).(token := true));
    TakersGrow(OneBlocks(r) + [Does(w)] + [Does(Set(r.query, Some(result), 0))], [Finds(r.query), Sends(1)], iset{});
  }

  /** The reader blocked, no entry left. */
  function Gone(r: ReaderId): System {
    System(Shelf(map[], [Owned(r.query, RUNNING)], EXPIRY), multiset{}, map[r := UpTo(0, RUNNING)])
  }

  lemma Removed(r: ReaderId, w: Write)
    requires Removes(w, r.query)
    ensures Next(Alone(r.query, map[r := UpTo(0, RUNNING)]), Does(w)) == Gone(r)
  {
    assert Written(Alone(r.query, map[]).shelf, w).results == map[];
  }

  lemma SetAgain(r: ReaderId, result: QueryResult)
    ensures Next(Gone(r), Does(Set(r.query, Some(result), 0)))
         == Behind(r, Fresh(Some(result), 0), multiset{Looking(r.query)})
  {
    assert Gone(r).signals + multiset{Looking(r.query)} == multiset{Looking(r.query)};
  }
}
