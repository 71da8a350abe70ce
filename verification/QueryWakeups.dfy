/** The query store as a protocol. Writers write in one step and signal in two later ones (find the entry,
    then drop a token into its one-slot channel); readers look at an entry piece by piece and then block on
    its channel. Steps of any number of writers and readers interleave freely. */
module QueryWakeups {

  import opened Options
  import opened QueryEntries

  /** Entries are never moved or reused: an id points to the position of its entry. */
  datatype Shelf = Shelf(results: map<string, nat>, entries: seq<Owned>, expiry: int)

  datatype Owned = Owned(id: string, value: EntryValue)

  datatype Write =
    | SetRunning(id: string, now: int)
    | AppendLine(id: string, line: string)
    | MergePartial(id: string, partial: QueryResult)
    | MarkOutputComplete(id: string)
    | Set(id: string, result: Option<QueryResult>, now: int)
    | Delete(id: string)
    | Cleanup(now: int)

  predicate Placed(s: Shelf) {
    && (forall id :: id in s.results ==> s.results[id] < |s.entries| && s.entries[s.results[id]].id == id)
  }

  function Add(s: Shelf, id: string, value: EntryValue): Shelf {
    s.(results := s.results[id := |s.entries|], entries := s.entries + [Owned(id, value)])
  }

  function Change(s: Shelf, id: string, value: EntryValue): Shelf
    requires Placed(s) && id in s.results
  {
    s.(entries := s.entries[s.results[id] := Owned(id, value)])
  }

  function ValueAt(s: Shelf, id: string): EntryValue
    requires Placed(s) && id in s.results
  {
    s.entries[s.results[id]].value
  }

  /** The shelf after a write. */
  function Written(s: Shelf, w: Write): Shelf
    requires Placed(s)
  {
    match w
    case SetRunning(id, now) => Add(s, id, Fresh(Some(BLANK), now))
    case AppendLine(id, line) => if id in s.results then Change(s, id, WithLine(ValueAt(s, id), line)) else s
    case MergePartial(id, partial) => if id in s.results then Change(s, id, WithPartial(ValueAt(s, id), partial)) else s
    case MarkOutputComplete(id) => if id in s.results then Change(s, id, ValueAt(s, id).(outputComplete := true)) else s
    case Set(id, result, now) =>
      if id in s.results then Change(s, id, ValueAt(s, id).(result := result)) else Add(s, id, Fresh(result, now))
    case Delete(id) => s.(results := s.results - {id})
    case Cleanup(now) =>
      var kept := set id | id in s.results && !Expired(s.entries[s.results[id]].value, now, s.expiry);
      s.(results := map id | id in kept :: s.results[id])
  }

  /** The id the writer goes on to signal, if any. */
  function Announces(s: Shelf, w: Write): Option<string>
    requires Placed(s)
  {
    match w
    case AppendLine(id, _) => if id in s.results then Some(id) else None
    case MergePartial(id, _) => if id in s.results && Announced(ValueAt(s, id)) then Some(id) else None
    case MarkOutputComplete(id) => Some(id)
    case Set(id, _, _) => Some(id)
    case _ => None
  }

  // ---- The machine ----

  /** Where a writer stands between its write and its signal. */
  datatype Signal = Looking(id: string) | Sending(entry: nat)

  datatype ReaderId = ReaderId(query: string, copy: nat)

  /** Where a reader stands in its round: which entry it found first, and what it has seen since. */
  datatype Reader =
    | Starting
    | Found(first: Option<nat>)
    | HasLines(first: Option<nat>, lines: seq<string>)
    | HasDone(first: Option<nat>, lines: seq<string>, done: bool)
    | HasResult(first: Option<nat>, lines: seq<string>, done: bool, result: Option<QueryResult>, ok: bool)
    | Blocked(first: Option<nat>, lines: seq<string>, done: bool, result: Option<QueryResult>, channel: nat)
    | Finished

  datatype System = System(shelf: Shelf, signals: multiset<Signal>, readers: map<ReaderId, Reader>)

  datatype Event =
    | Does(write: Write)
    | Finds(id: string)
    | Sends(entry: nat)
    | Reads(reader: ReaderId)
    | Wakes(reader: ReaderId)
    | TimesOut(reader: ReaderId)

  function StateOf(s: System, r: ReaderId): Reader {
    if r in s.readers then s.readers[r] else Starting
  }

  function WithToken(s: Shelf, n: nat, token: bool): Shelf
    requires n < |s.entries|
  {
    s.(entries := s.entries[n := s.entries[n].(value := s.entries[n].value.(token := token))])
  }

  /** The next look of a reader at its query. A finished result, or none at all, ends its reading; with no
      entry left the channel it gets is closed and it starts over at once. */
  function Look(s: Shelf, query: string, r: Reader): Reader
    requires Placed(s)
  {
    match r
    case Starting => Found(if query in s.results then Some(s.results[query]) else None)
    case Found(first) =>
      HasLines(first, if first.Some? && first.value < |s.entries| then s.entries[first.value].value.lines else [])
    case HasLines(first, lines) => HasDone(first, lines, query in s.results && ValueAt(s, query).outputComplete)
    case HasDone(first, lines, done) =>
      HasResult(first, lines, done, if query in s.results then ValueAt(s, query).result else None, query in s.results)
    case HasResult(first, lines, done, result, ok) =>
      if ok && (result.None? || result.value.status == Done || result.value.status == Error) then Finished
      else if query in s.results then Blocked(first, lines, done, result, s.results[query])
      else Starting
    case _ => r
  }

  predicate Enabled(s: System, e: Event) {
    match e
    case Does(_) => true
    case Finds(id) => Looking(id) in s.signals
    case Sends(n) => Sending(n) in s.signals && n < |s.shelf.entries|
    case Reads(r) => true
    case Wakes(r) =>
      var state := StateOf(s, r);
      state.Blocked? && state.channel < |s.shelf.entries| && s.shelf.entries[state.channel].value.token
    case TimesOut(r) => StateOf(s, r).Blocked?
  }

  function Next(s: System, e: Event): System
    requires Placed(s.shelf) && Enabled(s, e)
  {
    match e
    case Does(w) =>
      var told := Announces(s.shelf, w);
      s.(shelf := Written(s.shelf, w),
         signals := if told.Some? then s.signals + multiset{Looking(told.value)} else s.signals)
    case Finds(id) =>
      var rest := s.signals - multiset{Looking(id)};
      s.(signals := if id in s.shelf.results then rest + multiset{Sending(s.shelf.results[id])} else rest)
    case Sends(n) => s.(shelf := WithToken(s.shelf, n, true), signals := s.signals - multiset{Sending(n)})
    case Reads(r) => s.(readers := s.readers[r := Look(s.shelf, r.query, StateOf(s, r))])
    case Wakes(r) =>
      s.(shelf := WithToken(s.shelf, StateOf(s, r).channel, false), readers := s.readers[r := Starting])
    case TimesOut(r) => s.(readers := s.readers[r := Starting])
  }

  // In seconds.
  const EXPIRY := 300

  const EMPTY := System(Shelf(map[], [], EXPIRY), multiset{}, map[])

  lemma WriteKeepsPlaced(s: Shelf, w: Write)
    requires Placed(s)
    ensures Placed(Written(s, w))
  {
  }

  lemma NextKeepsPlaced(s: System, e: Event)
    requires Placed(s.shelf) && Enabled(s, e)
    ensures Placed(Next(s, e).shelf)
  {
    if e.Does? {
      WriteKeepsPlaced(s.shelf, e.write);
    }
  }

  /** The system after the events, if each was possible when it came. */
  function Run(events: seq<Event>): (r: Option<System>)
    ensures r.Some? ==> Placed(r.value.shelf)
  {
    if events == [] then Some(EMPTY)
    else
      match Run(events[..|events| - 1])
      case None => None
      case Some(before) =>
        var last := events[|events| - 1];
        if Enabled(before, last) then NextKeepsPlaced(before, last); Some(Next(before, last)) else None
  }

  // ---- The invariant ----

  /** What the reader has seen in this round is what the entry still shows. Into a
      result that is not running AS-path fields are merged without an announcement. */
  predicate UpToDate(r: Reader, v: EntryValue) {
    match r
    case HasLines(_, lines) => lines == v.lines
    case HasDone(_, lines, done) => lines == v.lines && done == v.outputComplete
    case HasResult(_, lines, done, result, _) =>
      lines == v.lines && done == v.outputComplete && Matches(result, v.result)
    case Blocked(_, lines, done, result, _) => lines == v.lines && done == v.outputComplete && Matches(result, v.result)
    case _ => true
  }

  predicate Matches(seen: Option<QueryResult>, current: Option<QueryResult>) {
    seen == current || (seen.Some? && current.Some? && OnlyPathMerged(seen.value, current.value))
  }

  /** Nothing but AS-path fields was merged into a result that was not running. */
  predicate OnlyPathMerged(seen: QueryResult, current: QueryResult) {
    && seen.status != Running
    && current == seen.(asPath := current.asPath, asPathPrefix := current.asPathPrefix,
                        asPathEnriched := current.asPathEnriched, asPathNodes := current.asPathNodes)
  }

  /** As long as the id still points to entry n, a reader of n is up to date or about to be told. */
  predicate Watched(s: Shelf, query: string, n: nat, state: Reader, told: bool) {
    n < |s.entries| && (query in s.results && s.results[query] == n ==>
      UpToDate(state, s.entries[n].value) || s.entries[n].value.token || told)
  }

  /** A writer is between its write to this entry and its signal. */
  predicate SignalPending(s: System, query: string, n: nat) {
    Looking(query) in s.signals || Sending(n) in s.signals
  }

  predicate InRound(state: Reader) {
    state.Found? || state.HasLines? || state.HasDone? || state.HasResult? || state.Blocked?
  }

  predicate FirstSeen(state: Reader, n: nat) {
    InRound(state) && state.first == Some(n)
  }

  ghost predicate Attentive(s: System, r: ReaderId) {
    forall n: nat :: FirstSeen(StateOf(s, r), n) ==>
      Watched(s.shelf, r.query, n, StateOf(s, r), SignalPending(s, r.query, n))
  }

  /** As SetRunning leaves an entry, whether or not a token is there. */
  predicate Untouched(v: EntryValue) {
    v.lines == [] && !v.outputComplete && v.result == Some(BLANK)
  }

  /** When the id points to another entry than the one the round began with, that entry is as SetRunning left it
      or its readers are about to be told. */
  predicate Renewed(s: Shelf, query: string, state: Reader, signals: multiset<Signal>)
    requires Placed(s)
  {
    InRound(state) && query in s.results && state.first != Some(s.results[query]) ==>
      Untouched(ValueAt(s, query)) || ValueAt(s, query).token ||
      Looking(query) in signals || Sending(s.results[query]) in signals
  }

  /** Blocked readers wait on channels of their own query. */
  ghost predicate Moored(s: System) {
    forall r :: r in s.readers && s.readers[r].Blocked? ==>
      s.readers[r].channel < |s.shelf.entries| && s.shelf.entries[s.readers[r].channel].id == r.query
  }

  lemma ChangeWatched(s: Shelf, id: string, value: EntryValue, query: string, n: nat, state: Reader, told: bool,
                      told': bool)
    requires Placed(s) && id in s.results && Watched(s, query, n, state, told) && (told ==> told')
    requires value.token == ValueAt(s, id).token
    requires id == query ==> told' || (UpToDate(state, ValueAt(s, id)) ==> UpToDate(state, value))
    ensures Watched(Change(s, id, value), query, n, state, told')
  {
  }

  lemma MergeUpToDate(state: Reader, v: EntryValue, partial: QueryResult)
    requires !Announced(v)
    ensures UpToDate(state, v) ==> UpToDate(state, WithPartial(v, partial))
  {
  }

  /** A write leaves no reader behind unless its writer is going to signal. */
  lemma WriteWatched(s: Shelf, w: Write, query: string, n: nat, state: Reader, told: bool)
    requires Placed(s) && Watched(s, query, n, state, told)
    ensures Watched(Written(s, w), query, n, state, told || Announces(s, w) == Some(query))
  {
    var told' := told || Announces(s, w) == Some(query);
    match w
    case AppendLine(id, line) =>
      if id in s.results {
        ChangeWatched(s, id, WithLine(ValueAt(s, id), line), query, n, state, told, told');
      }
    case MergePartial(id, partial) =>
      if id in s.results {
        if !Announced(ValueAt(s, id)) {
          MergeUpToDate(state, ValueAt(s, id), partial);
        }
        ChangeWatched(s, id, WithPartial(ValueAt(s, id), partial), query, n, state, told, told');
      }
    case MarkOutputComplete(id) =>
      if id in s.results {
        ChangeWatched(s, id, ValueAt(s, id).(outputComplete := true), query, n, state, told, told');
      }
    case Set(id, result, now) =>
      if id in s.results {
        ChangeWatched(s, id, ValueAt(s, id).(result := result), query, n, state, told, told');
      }
    case _ =>
  }

  lemma WriteKeeps(s: System, w: Write, r: ReaderId)
    requires Placed(s.shelf) && Attentive(s, r)
    ensures Attentive(Next(s, Does(w)), r)
  {
    var state, s' := StateOf(s, r), Next(s, Does(w));
    forall n: nat | FirstSeen(state, n)
      ensures Watched(s'.shelf, r.query, n, state, SignalPending(s', r.query, n))
    {
      var told := SignalPending(s, r.query, n);
      WriteWatched(s.shelf, w, r.query, n, state, told);
      assert told || Announces(s.shelf, w) == Some(r.query) ==> SignalPending(s', r.query, n);
    }
  }

  lemma FindKeeps(s: System, id: string, r: ReaderId)
    requires Placed(s.shelf) && Enabled(s, Finds(id)) && Attentive(s, r)
    ensures Attentive(Next(s, Finds(id)), r)
  {
    var state, s' := StateOf(s, r), Next(s, Finds(id));
    forall n: nat | FirstSeen(state, n)
      ensures Watched(s'.shelf, r.query, n, state, SignalPending(s', r.query, n))
    {
      assert Watched(s.shelf, r.query, n, state, SignalPending(s, r.query, n));
      if r.query in s.shelf.results && s.shelf.results[r.query] == n && SignalPending(s, r.query, n) {
        PendingSurvivesFind(s, id, r.query, n);
      }
    }
  }

  lemma PendingSurvivesFind(s: System, id: string, query: string, n: nat)
    requires Placed(s.shelf) && Enabled(s, Finds(id)) && SignalPending(s, query, n)
    requires query in s.shelf.results && s.shelf.results[query] == n
    ensures SignalPending(Next(s, Finds(id)), query, n)
  {
    var s' := Next(s, Finds(id));
    if Sending(n) in s.signals {
      assert Sending(n) in s'.signals;
    } else if id == query {
      assert Sending(n) in s'.signals;
    } else {
      assert Looking(query) in s'.signals;
    }
  }

  lemma SendKeeps(s: System, m: nat, r: ReaderId)
    requires Placed(s.shelf) && Enabled(s, Sends(m)) && Attentive(s, r)
    ensures Attentive(Next(s, Sends(m)), r)
  {
    var state, s' := StateOf(s, r), Next(s, Sends(m));
    forall n: nat | FirstSeen(state, n)
      ensures Watched(s'.shelf, r.query, n, state, SignalPending(s', r.query, n))
    {
      assert Watched(s.shelf, r.query, n, state, SignalPending(s, r.query, n));
      if n != m {
        assert s'.shelf.entries[n] == s.shelf.entries[n];
        PendingSurvivesSend(s, m, r.query, n);
      }
    }
  }

  lemma PendingSurvivesSend(s: System, m: nat, query: string, n: nat)
    requires Placed(s.shelf) && Enabled(s, Sends(m)) && n != m
    ensures SignalPending(s, query, n) ==> SignalPending(Next(s, Sends(m)), query, n)
  {
    var s' := Next(s, Sends(m));
    assert Looking(query) in s.signals ==> Looking(query) in s'.signals;
    assert Sending(n) in s.signals ==> Sending(n) in s'.signals;
  }

  lemma LookWatched(s: Shelf, query: string, state: Reader, n: nat, told: bool)
    requires Placed(s) && FirstSeen(Look(s, query, state), n)
    requires FirstSeen(state, n) ==> Watched(s, query, n, state, told)
    ensures Watched(s, query, n, Look(s, query, state), told)
  {
  }

  lemma ReadKeeps(s: System, who: ReaderId, r: ReaderId)
    requires Placed(s.shelf) && Attentive(s, r)
    ensures Attentive(Next(s, Reads(who)), r)
  {
    var state, s' := StateOf(s, r), Next(s, Reads(who));
    if who == r {
      forall n: nat | FirstSeen(StateOf(s', r), n)
        ensures Watched(s'.shelf, r.query, n, StateOf(s', r), SignalPending(s', r.query, n))
      {
        LookWatched(s.shelf, r.query, state, n, SignalPending(s, r.query, n));
      }
    } else {
      SameReader(s, s', r);
    }
  }

  lemma SameReader(s: System, s': System, r: ReaderId)
    requires Attentive(s, r) && s'.shelf == s.shelf && s'.signals == s.signals && StateOf(s', r) == StateOf(s, r)
    ensures Attentive(s', r)
  {
    forall n: nat | FirstSeen(StateOf(s', r), n)
      ensures Watched(s'.shelf, r.query, n, StateOf(s', r), SignalPending(s', r.query, n))
    {
      assert Watched(s.shelf, r.query, n, StateOf(s, r), SignalPending(s, r.query, n));
    }
  }

  lemma TimeoutKeeps(s: System, who: ReaderId, r: ReaderId)
    requires Placed(s.shelf) && Enabled(s, TimesOut(who)) && Attentive(s, r)
    ensures Attentive(Next(s, TimesOut(who)), r)
  {
    if who != r {
      SameReader(s, Next(s, TimesOut(who)), r);
    }
  }

  /** A reader of another query takes the token of another entry. */
  lemma WakeKeeps(s: System, who: ReaderId, r: ReaderId)
    requires Placed(s.shelf) && Moored(s) && Enabled(s, Wakes(who)) && Attentive(s, r)
    requires who == r || who.query != r.query
    ensures Attentive(Next(s, Wakes(who)), r)
  {
    var state, s' := StateOf(s, r), Next(s, Wakes(who));
    if who != r {
      var c := StateOf(s, who).channel;
      forall n: nat | FirstSeen(state, n)
        ensures Watched(s'.shelf, r.query, n, state, SignalPending(s', r.query, n))
      {
        assert Watched(s.shelf, r.query, n, state, SignalPending(s, r.query, n));
        if r.query in s.shelf.results && s.shelf.results[r.query] == n {
          assert s.shelf.entries[n].id == r.query && s.shelf.entries[c].id == who.query;
        }
      }
    }
  }

  lemma WriteKeepsOwners(s: Shelf, w: Write, n: nat)
    requires Placed(s) && n < |s.entries|
    ensures n < |Written(s, w).entries| && Written(s, w).entries[n].id == s.entries[n].id
  {
  }

  lemma NextKeepsMoored(s: System, e: Event)
    requires Placed(s.shelf) && Enabled(s, e) && Moored(s)
    ensures Moored(Next(s, e))
  {
    var s' := Next(s, e);
    forall r | r in s'.readers && s'.readers[r].Blocked?
      ensures s'.readers[r].channel < |s'.shelf.entries| && s'.shelf.entries[s'.readers[r].channel].id == r.query
    {
      if r in s.readers && s'.readers[r] == s.readers[r] {
        if e.Does? {
          WriteKeepsOwners(s.shelf, e.write, s.readers[r].channel);
        }
      }
    }
  }

  /** What this means for a reader of the system. */
  predicate Watchful(s: System, r: ReaderId)
    requires Placed(s.shelf)
  {
    Renewed(s.shelf, r.query, StateOf(s, r), s.signals)
  }

  lemma WriteRenews(s: System, w: Write, r: ReaderId)
    requires Placed(s.shelf) && Watchful(s, r)
    ensures Placed(Written(s.shelf, w)) && Watchful(Next(s, Does(w)), r)
  {
  }

  lemma SignalRenews(s: System, e: Event, r: ReaderId)
    requires Placed(s.shelf) && Enabled(s, e) && Watchful(s, r) && (e.Finds? || e.Sends?)
    ensures Placed(Next(s, e).shelf) && Watchful(Next(s, e), r)
  {
    if r.query in s.shelf.results && SignalPending(s, r.query, s.shelf.results[r.query]) {
      var n := s.shelf.results[r.query];
      if e.Finds? {
        PendingSurvivesFind(s, e.id, r.query, n);
      } else if e.entry != n {
        PendingSurvivesSend(s, e.entry, r.query, n);
      }
    }
  }

  lemma ReaderRenews(s: System, e: Event, r: ReaderId)
    requires Placed(s.shelf) && Moored(s) && Enabled(s, e) && Watchful(s, r) && (e.Reads? || e.Wakes? || e.TimesOut?)
    requires e.Wakes? ==> e.reader == r || e.reader.query != r.query
    ensures Placed(Next(s, e).shelf) && Watchful(Next(s, e), r)
  {
  }

  /** Nobody but `r` takes tokens meant for its query. */
  ghost predicate SoleTaker(events: seq<Event>, r: ReaderId) {
    forall i :: 0 <= i < |events| && events[i].Wakes? && events[i].reader.query == r.query ==> events[i].reader == r
  }

  lemma {:induction false} RunKeeps(events: seq<Event>, s: System, r: ReaderId)
    requires Run(events) == Some(s) && SoleTaker(events, r)
    ensures Moored(s) && Attentive(s, r) && Watchful(s, r)
  {
    if events != [] {
      var front, last := events[..|events| - 1], events[|events| - 1];
      var before := Run(front).value;
      assert SoleTaker(front, r) by {
        assert forall i :: 0 <= i < |front| ==> front[i] == events[i];
      }
      RunKeeps(front, before, r);
      NextKeepsMoored(before, last);
      NextKeepsAttentive(before, last, r);
      NextKeepsWatchful(before, last, r);
    }
  }

  lemma NextKeepsAttentive(s: System, e: Event, r: ReaderId)
    requires Placed(s.shelf) && Moored(s) && Enabled(s, e) && Attentive(s, r)
    requires e.Wakes? ==> e.reader == r || e.reader.query != r.query
    ensures Attentive(Next(s, e), r)
  {
    match e
    case Does(w) => WriteKeeps(s, w, r);
    case Finds(id) => FindKeeps(s, id, r);
    case Sends(m) => SendKeeps(s, m, r);
    case Reads(who) => ReadKeeps(s, who, r);
    case Wakes(who) => WakeKeeps(s, who, r);
    case TimesOut(who) => TimeoutKeeps(s, who, r);
  }

  lemma NextKeepsWatchful(s: System, e: Event, r: ReaderId)
    requires Placed(s.shelf) && Moored(s) && Enabled(s, e) && Watchful(s, r)
    requires e.Wakes? ==> e.reader == r || e.reader.query != r.query
    ensures Placed(Next(s, e).shelf) && Watchful(Next(s, e), r)
  {
    match e
    case Does(w) => WriteRenews(s, w, r);
    case Finds(id) => SignalRenews(s, e, r);
    case Sends(m) => SignalRenews(s, e, r);
    case _ => ReaderRenews(s, e, r);
  }

  // ---- The theorems ----

  /** What a blocked reader has seen differs from what its entry shows. */
  predicate Stale(state: Reader, v: EntryValue)
    requires state.Blocked?
  {
    state.lines != v.lines || state.done != v.outputComplete || state.result != v.result
  }

  /** The id still points to the entry the reader waits on. */
  predicate Current(s: System, r: ReaderId) {
    var state := StateOf(s, r);
    state.Blocked? && r.query in s.shelf.results && s.shelf.results[r.query] == state.channel
  }

  /** The entry of the id shows something other than what the blocked reader has seen. */
  predicate Misses(s: System, r: ReaderId)
    requires Placed(s.shelf)
  {
    StateOf(s, r).Blocked? && r.query in s.shelf.results && Stale(StateOf(s, r), ValueAt(s.shelf, r.query))
  }

  /** A wakeup is lost: the entry the reader waits on shows something other than what it has seen, no token waits in
      its channel, and no writer is on its way with one. */
  predicate Lost(s: System, r: ReaderId)
    requires Placed(s.shelf)
  {
    && Current(s, r) && Misses(s, r)
    && !ValueAt(s.shelf, r.query).token && !SignalPending(s, r.query, StateOf(s, r).channel)
  }

  /** What the reader misses was never going to be announced: its query was started again in mid-round and nothing
      has happened to the new entry since, or it has seen everything but AS-path fields merged into a result that was
      not running. */
  predicate Silent(s: System, r: ReaderId)
    requires Placed(s.shelf) && Current(s, r)
  {
    var state, v := StateOf(s, r), ValueAt(s.shelf, r.query);
    if state.first != Some(state.channel) then Untouched(v)
    else
      && state.lines == v.lines && state.done == v.outputComplete
      && state.result.Some? && v.result.Some? && OnlyPathMerged(state.result.value, v.result.value)
  }

  /** No lost wakeup. Whatever writers, cleanups and readers of other queries do in between, a reader that is the
      only taker of its query's tokens never loses one for anything that is announced. */
  lemma NoLostWakeup(events: seq<Event>, s: System, r: ReaderId)
    requires Run(events) == Some(s) && SoleTaker(events, r)
    ensures Lost(s, r) ==> Silent(s, r)
  {
    RunKeeps(events, s, r);
    if Lost(s, r) && StateOf(s, r).first == Some(StateOf(s, r).channel) {
      assert FirstSeen(StateOf(s, r), StateOf(s, r).channel);
    }
  }
}
