/** The circuit breaker as a protocol: every call is two critical sections, Enter and Exit, with the
    guarded function running unlocked between them. Times are integers on one monotonic clock. */
module CircuitBreaking {

  import opened Options

  datatype State = Closed | Open | HalfOpen

  datatype Breaker = Breaker(failures: int, lastFailure: int, state: State, threshold: int, resetTimeout: int,
                             halfOpenSeq: nat, halfOpenInFlight: bool)

  function Fresh(threshold: int, resetTimeout: int): Breaker {
    Breaker(0, 0, Closed, threshold, resetTimeout, 0, false)
  }

  // ---- The two critical sections ----

  /** The first critical section: the breaker afterwards, and the captured sequence if the call is admitted. */
  function Enter(cb: Breaker, now: int): (Breaker, Option<nat>) {
    if cb.state == Open && now - cb.lastFailure < cb.resetTimeout then (cb, None)
    else
      var probing := if cb.state == Open then cb.(state := HalfOpen, halfOpenSeq := cb.halfOpenSeq + 1) else cb;
      if probing.state == HalfOpen && probing.halfOpenInFlight then (probing, None)
      else
        var admitted := if probing.state == HalfOpen then probing.(halfOpenInFlight := true) else probing;
        (admitted, Some(admitted.halfOpenSeq))
  }

  /** A completion is ignored when another half-open sequence has begun since it was admitted. */
  predicate Ignored(cb: Breaker, captured: nat) {
    cb.state == HalfOpen && cb.halfOpenSeq != captured
  }

  /** The second critical section. */
  function Exit(cb: Breaker, captured: nat, failed: bool, now: int): Breaker {
    if Ignored(cb, captured) then cb
    else if failed then
      cb.(failures := cb.failures + 1, lastFailure := now, halfOpenInFlight := false,
          state := if cb.failures + 1 >= cb.threshold then Open else cb.state)
    else cb.(failures := 0, state := Closed, halfOpenInFlight := false)
  }

  class CircuitBreaker {
    var failures: int
    var lastFailure: int
    var state: State
    const threshold: int
    const resetTimeout: int
    var halfOpenSeq: nat
    var halfOpenInFlight: bool

    ghost function Value(): Breaker
      reads this
    {
      Breaker(failures, lastFailure, state, threshold, resetTimeout, halfOpenSeq, halfOpenInFlight)
    }

    constructor (threshold: int, resetTimeout: int)
      ensures Value() == Fresh(threshold, resetTimeout)
    {
      this.threshold, this.resetTimeout := threshold, resetTimeout;
      failures, lastFailure, state, halfOpenSeq, halfOpenInFlight := 0, 0, Closed, 0, false;
    }

    method EnterSection(now: int) returns (admitted: bool, captured: nat)
      modifies this
      ensures (Value(), if admitted then Some(captured) else None) == Enter(old(Value()), now)
    {
      captured := 0;
      if state == Open && now - lastFailure < resetTimeout {
        return false, captured;
      }
      if state == Open {
        state := HalfOpen;
        halfOpenSeq := halfOpenSeq + 1;
      }
      if state == HalfOpen && halfOpenInFlight {
        return false, captured;
      }
      if state == HalfOpen {
        halfOpenInFlight := true;
      }
      return true, halfOpenSeq;
    }

    method ExitSection(captured: nat, failed: bool, now: int)
      modifies this
      ensures Value() == Exit(old(Value()), captured, failed, now)
    {
      if state == HalfOpen && halfOpenSeq != captured {
        return;
      }
      if failed {
        failures := failures + 1;
        lastFailure := now;
        if failures >= threshold {
          state := Open;
        }
        halfOpenInFlight := false;
        return;
      }
      failures := 0;
      state := Closed;
      halfOpenInFlight := false;
    }

    /** A whole call with nothing else running: rejected, or run with the given outcome. */
    method Call(entered: int, failed: bool, left: int) returns (rejected: bool)
      modifies this
      ensures rejected <==> Enter(old(Value()), entered).1.None?
      ensures Value() == var (cb, captured) := Enter(old(Value()), entered);
                         if captured.None? then cb else Exit(cb, captured.value, failed, left)
    {
      var admitted, captured := EnterSection(entered);
      if !admitted {
        return true;
      }
      ExitSection(captured, failed, left);
      return false;
    }
  }

  // ---- Many calls in flight ----

  /** A call between its two sections: the sequence it captured, and whether it is a half-open probe. */
  datatype InFlight = InFlight(captured: nat, probe: bool)

  /** A completion the breaker took into account. */
  datatype Completion = Completion(failed: bool, at: int)

  datatype System = System(cb: Breaker, calls: map<nat, InFlight>, history: seq<Completion>)

  datatype Event = Begin(id: nat, now: int) | End(id: nat, failed: bool, now: int)

  function Start(threshold: int, resetTimeout: int): System {
    System(Fresh(threshold, resetTimeout), map[], [])
  }

  predicate Enabled(s: System, e: Event) {
    match e
    case Begin(id, _) => id !in s.calls
    case End(id, _, _) => id in s.calls
  }

  function Next(s: System, e: Event): System
    requires Enabled(s, e)
  {
    match e
    case Begin(id, now) =>
      var (cb, captured) := Enter(s.cb, now);
      s.(cb := cb,
         calls := if captured.None? then s.calls else s.calls[id := InFlight(captured.value, cb.state == HalfOpen)])
    case End(id, failed, now) =>
      var captured := s.calls[id].captured;
      System(Exit(s.cb, captured, failed, now), s.calls - {id},
             if Ignored(s.cb, captured) then s.history else s.history + [Completion(failed, now)])
  }

  /** The system after an interleaving of the sections of any calls, if every event could happen. */
  function Run(threshold: int, resetTimeout: int, events: seq<Event>): Option<System> {
    if events == [] then Some(Start(threshold, resetTimeout))
    else
      match Run(threshold, resetTimeout, events[..|events| - 1])
      case None => None
      case Some(before) =>
        var last := events[|events| - 1];
        if Enabled(before, last) then Some(Next(before, last)) else None
  }

  // ---- What a reader of the history alone would expect ----

  /** How many recorded completions at the end of the history failed in a row. */
  function TrailingFailures(history: seq<Completion>): (n: nat)
    ensures n <= |history|
  {
    if history == [] || !history[|history| - 1].failed then 0 else TrailingFailures(history[..|history| - 1]) + 1
  }

  /** A threshold below one acts as one: a single failure is needed to trip. */
  function TripAt(threshold: int): nat {
    if threshold < 1 then 1 else threshold
  }

  ghost function Probes(s: System): set<nat> {
    set id | id in s.calls && s.calls[id].probe
  }

  ghost function HoldersOfSequence(s: System): set<nat> {
    set id | id in s.calls && s.calls[id].captured == s.cb.halfOpenSeq
  }

  /** The inductive invariant. */
  ghost predicate Inv(s: System) {
    && s.cb.failures == TrailingFailures(s.history)
    && (s.cb.state == Closed <==> s.cb.failures < TripAt(s.cb.threshold))
    && (s.cb.failures > 0 ==> s.cb.lastFailure == s.history[|s.history| - 1].at)
    && (s.cb.halfOpenInFlight <==> s.cb.state == HalfOpen)
    && (forall id :: id in s.calls ==> s.calls[id].captured <= s.cb.halfOpenSeq)
    && (forall id :: id in s.calls && s.calls[id].probe ==> s.cb.state == HalfOpen)
    && (s.cb.state == HalfOpen ==> exists id :: SoleProbe(s, id))
  }

  /** Call id is a probe, and the only one in flight that captured the current sequence. */
  ghost predicate SoleProbe(s: System, id: nat) {
    && id in s.calls && s.calls[id] == InFlight(s.cb.halfOpenSeq, true)
    && forall other :: other in s.calls && other != id ==>
      s.calls[other].captured < s.cb.halfOpenSeq && !s.calls[other].probe
  }

  lemma Preserved(s: System, e: Event)
    requires Inv(s) && Enabled(s, e)
    ensures Inv(Next(s, e))
  {
    match e
    case Begin(id, now) => BeginPreserves(s, id, now);
    case End(id, failed, now) => EndPreserves(s, id, failed, now);
  }

  lemma BeginPreserves(s: System, id: nat, now: int)
    requires Inv(s) && id !in s.calls
    ensures Inv(Next(s, Begin(id, now)))
  {
    var s' := Next(s, Begin(id, now));
    if s.cb.state == Open && s'.cb.state == HalfOpen {
      assert SoleProbe(s', id);
    } else if s.cb.state == HalfOpen {
      var probe: nat :| SoleProbe(s, probe);
      assert SoleProbe(s', probe);
    }
  }

  lemma EndPreserves(s: System, id: nat, failed: bool, now: int)
    requires Inv(s) && id in s.calls
    ensures Inv(Next(s, End(id, failed, now)))
  {
    var s' := Next(s, End(id, failed, now));
    if Ignored(s.cb, s.calls[id].captured) {
      var probe: nat :| SoleProbe(s, probe);
      assert SoleProbe(s', probe);
    } else {
      var completion := Completion(failed, now);
      assert (s.history + [completion])[..|s.history|] == s.history;
      if s.cb.state == HalfOpen {
        var probe: nat :| SoleProbe(s, probe);
        assert id == probe;
      }
    }
  }

  /** The invariant and the configuration hold over every run. */
  lemma {:induction false} AlwaysInv(threshold: int, resetTimeout: int, events: seq<Event>, s: System)
    requires Run(threshold, resetTimeout, events) == Some(s)
    ensures Inv(s) && s.cb.threshold == threshold && s.cb.resetTimeout == resetTimeout
  {
    if events == [] {
    } else {
      var before := Run(threshold, resetTimeout, events[..|events| - 1]).value;
      AlwaysInv(threshold, resetTimeout, events[..|events| - 1], before);
      Preserved(before, events[|events| - 1]);
    }
  }

  // ---- The theorems ----

  /** Half-open, the in-flight flag, and one running probe are the same thing, and that probe alone
      holds the current sequence. */
  lemma OneProbe(threshold: int, resetTimeout: int, events: seq<Event>, s: System)
    requires Run(threshold, resetTimeout, events) == Some(s)
    ensures s.cb.state == HalfOpen <==> s.cb.halfOpenInFlight
    ensures s.cb.state == HalfOpen <==> |Probes(s)| == 1
    ensures s.cb.state == HalfOpen ==> HoldersOfSequence(s) == Probes(s)
    ensures s.cb.state != HalfOpen ==> Probes(s) == {}
  {
    AlwaysInv(threshold, resetTimeout, events, s);
    if s.cb.state == HalfOpen {
      var id: nat :| SoleProbe(s, id);
      assert Probes(s) == {id};
      assert HoldersOfSequence(s) == {id};
    } else {
      assert Probes(s) == {};
    }
  }

  /** Half-open is left exactly by the exit of the probe: to open when it failed, to closed otherwise. */
  lemma OnlyTheProbeLeaves(threshold: int, resetTimeout: int, events: seq<Event>, s: System, e: Event)
    requires Run(threshold, resetTimeout, events) == Some(s) && Enabled(s, e) && s.cb.state == HalfOpen
    ensures Next(s, e).cb.state != HalfOpen <==> e.End? && e.id in Probes(s)
    ensures e.End? && e.id in Probes(s) ==> Next(s, e).cb.state == if e.failed then Open else Closed
    ensures !(e.End? && e.id in Probes(s)) ==> Next(s, e).cb == s.cb
  {
    AlwaysInv(threshold, resetTimeout, events, s);
    var probe: nat :| SoleProbe(s, probe);
  }

  /** The breaker is closed exactly while fewer recorded completions than the threshold failed in a row. */
  lemma ClosedIff(threshold: int, resetTimeout: int, events: seq<Event>, s: System)
    requires Run(threshold, resetTimeout, events) == Some(s)
    ensures s.cb.state == Closed <==> TrailingFailures(s.history) < TripAt(threshold)
  {
    AlwaysInv(threshold, resetTimeout, events, s);
  }

  /** When a call may start, in terms of the history and the probe in flight alone. */
  ghost predicate MayStart(threshold: int, resetTimeout: int, s: System, now: int) {
    || TrailingFailures(s.history) < TripAt(threshold)
    || (Probes(s) == {} && now - s.history[|s.history| - 1].at >= resetTimeout)
  }

  /** Calls are admitted exactly when the history says so: always below the threshold, otherwise one
      at a time and not before the reset timeout has passed since the last failure. So an open breaker
      never stays shut once the timeout is over. */
  lemma AdmissionIff(threshold: int, resetTimeout: int, events: seq<Event>, s: System, id: nat, now: int)
    requires Run(threshold, resetTimeout, events) == Some(s) && id !in s.calls
    ensures id in Next(s, Begin(id, now)).calls <==> MayStart(threshold, resetTimeout, s, now)
    ensures id in Next(s, Begin(id, now)).calls ==>
              (Next(s, Begin(id, now)).calls[id].probe <==> TrailingFailures(s.history) >= TripAt(threshold))
  {
    AlwaysInv(threshold, resetTimeout, events, s);
    OneProbe(threshold, resetTimeout, events, s);
    if s.cb.state == HalfOpen {
      assert Probes(s) != {};
    }
  }

  /** Only completions that no longer matter are ignored: those of calls admitted before the current probe. */
  lemma IgnoredIff(threshold: int, resetTimeout: int, events: seq<Event>, s: System, id: nat)
    requires Run(threshold, resetTimeout, events) == Some(s) && id in s.calls
    ensures Ignored(s.cb, s.calls[id].captured) <==> s.cb.state == HalfOpen && id !in Probes(s)
  {
    AlwaysInv(threshold, resetTimeout, events, s);
    if s.cb.state == HalfOpen {
      var probe: nat :| SoleProbe(s, probe);
    }
  }
}
