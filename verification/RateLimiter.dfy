/** The per-address sliding-window rate limiter with its background cleanup. Times are integers on one
    non-decreasing clock. */
module RateLimiting {

  import opened Options

  datatype Limiter = Limiter(requests: map<string, seq<int>>, limit: int, window: int, cap: nat)

  /** The times after `start`, in order. */
  function After(times: seq<int>, start: int): seq<int> {
    if times == [] then []
    else After(times[..|times| - 1], start) + if times[|times| - 1] > start then [times[|times| - 1]] else []
  }

  function TimesOf(requests: map<string, seq<int>>, ip: string): seq<int> {
    if ip in requests then requests[ip] else []
  }

  /** One request: the limiter afterwards, and whether the request is let through. */
  function Allow(l: Limiter, ip: string, now: int): (Limiter, bool) {
    var valid := After(TimesOf(l.requests, ip), now - l.window);
    if |valid| >= l.limit then (l.(requests := l.requests[ip := valid]), false)
    else if ip !in l.requests && |l.requests| >= l.cap then (l, false)
    else (l.(requests := l.requests[ip := valid + [now]]), true)
  }

  /** A cleanup tick: expired times go, and addresses without any time left are forgotten. */
  function Cleanup(l: Limiter, now: int): Limiter {
    l.(requests := Unexpired(l.requests, now - l.window))
  }

  function Unexpired(requests: map<string, seq<int>>, start: int): map<string, seq<int>> {
    map ip | ip in requests && After(requests[ip], start) != [] :: After(requests[ip], start)
  }

  /** The expired times of one address go, and the address with them if none is left. */
  function WithoutExpired(requests: map<string, seq<int>>, ip: string, start: int): map<string, seq<int>>
    requires ip in requests
  {
    var valid := After(requests[ip], start);
    if valid == [] then requests - {ip} else requests[ip := valid]
  }

  class RateLimiter {
    var requests: map<string, seq<int>>
    const limit: int
    const window: int
    const cap: nat

    ghost function Value(): Limiter
      reads this
    {
      Limiter(requests, limit, window, cap)
    }

    constructor (limit: int, window: int, cap: nat)
      ensures Value() == Limiter(map[], limit, window, cap)
    {
      requests, this.limit, this.window, this.cap := map[], limit, window, cap;
    }

    method ValidTimes(times: seq<int>, start: int) returns (valid: seq<int>)
      ensures valid == After(times, start)
    {
      valid := [];
      for i := 0 to |times|
        invariant valid == After(times[..i], start)
      {
        assert times[..i + 1][..i] == times[..i];
        if times[i] > start {
          valid := valid + [times[i]];
        }
      }
      assert times[..|times|] == times;
    }

    method AllowRequest(ip: string, now: int) returns (ok: bool)
      modifies this
      ensures (Value(), ok) == Allow(old(Value()), ip, now)
    {
      var windowStart := now - window;
      var valid := ValidTimes(if ip in requests then requests[ip] else [], windowStart);
      if |valid| >= limit {
        requests := requests[ip := valid];
        return false;
      }
      if ip !in requests && |requests| >= cap {
        return false;
      }
      valid := valid + [now];
      requests := requests[ip := valid];
      return true;
    }

    method CleanAddress(ip: string, windowStart: int)
      requires ip in requests
      modifies this
      ensures requests == WithoutExpired(old(requests), ip, windowStart)
    {
      var valid := ValidTimes(requests[ip], windowStart);
      if |valid| == 0 {
        requests := requests - {ip};
      } else {
        requests := requests[ip := valid];
      }
    }

    method CleanupTick(now: int)
      modifies this
      ensures Value() == Cleanup(old(Value()), now)
    {
      ghost var all := requests;
      var windowStart := now - window;
      var rest := requests.Keys;
      while rest != {}
        invariant Swept(all, rest, requests, windowStart)
      {
        var ip :| ip in rest;
        SweepOne(all, rest, requests, windowStart, ip);
        CleanAddress(ip, windowStart);
        rest := rest - {ip};
      }
      SweptAll(all, requests, windowStart);
    }
  }

  /** Every address outside `rest` has been cleaned, and those in it are as they were. */
  ghost predicate Swept(all: map<string, seq<int>>, rest: set<string>, now: map<string, seq<int>>, start: int) {
    && rest <= all.Keys && now.Keys <= all.Keys
    && (forall ip :: ip in rest ==> ip in now && now[ip] == all[ip])
    && (forall ip :: ip in all && ip !in rest ==> (ip in now <==> After(all[ip], start) != []))
    && (forall ip :: ip in now && ip !in rest ==> now[ip] == After(all[ip], start))
  }

  lemma SweepOne(all: map<string, seq<int>>, rest: set<string>, now: map<string, seq<int>>, start: int, ip: string)
    requires Swept(all, rest, now, start) && ip in rest
    ensures ip in now
    ensures Swept(all, rest - {ip}, WithoutExpired(now, ip, start), start)
  {
  }

  lemma SweptAll(all: map<string, seq<int>>, now: map<string, seq<int>>, start: int)
    requires Swept(all, {}, now, start)
    ensures now == Unexpired(all, start)
  {
  }

  // ---- Runs ----

  /** The limiter, every request it ever admitted, and the latest time it has seen. */
  datatype System = System(limiter: Limiter, admitted: map<string, seq<int>>, clock: int)

  datatype Event = Request(ip: string, now: int) | Tick(now: int)

  function Next(s: System, e: Event): System {
    match e
    case Request(ip, now) =>
      var (l, ok) := Allow(s.limiter, ip, now);
      System(l, if ok then s.admitted[ip := TimesOf(s.admitted, ip) + [now]] else s.admitted, now)
    case Tick(now) => System(Cleanup(s.limiter, now), s.admitted, now)
  }

  /** The system after the events, if their times never go backwards. */
  function Run(limit: int, window: int, cap: nat, start: int, events: seq<Event>): Option<System> {
    if events == [] then Some(System(Limiter(map[], limit, window, cap), map[], start))
    else
      match Run(limit, window, cap, start, events[..|events| - 1])
      case None => None
      case Some(before) =>
        var last := events[|events| - 1];
        if last.now >= before.clock then Some(Next(before, last)) else None
  }

  /** How many of the times lie in the window that ends at `end`: after end - window, up to end. */
  function InWindow(times: seq<int>, window: int, end: int): nat {
    if times == [] then 0
    else InWindow(times[..|times| - 1], window, end) + if end - window < times[|times| - 1] <= end then 1 else 0
  }

  // ---- Facts about filtered times ----

  lemma {:induction false} AfterTwice(times: seq<int>, first: int, second: int)
    requires first <= second
    ensures After(After(times, first), second) == After(times, second)
  {
    if times != [] {
      var front, last := times[..|times| - 1], times[|times| - 1];
      AfterTwice(front, first, second);
      assert After(front, first) + [] == After(front, first) && After(front, second) + [] == After(front, second);
      if last > first {
        AfterAppend(After(front, first), last, second);
      }
    }
  }

  lemma AfterAppend(times: seq<int>, t: int, start: int)
    ensures After(times + [t], start) == After(times, start) + if t > start then [t] else []
  {
    assert (times + [t])[..|times|] == times;
  }

  lemma {:induction false} AfterShrinks(times: seq<int>, first: int, second: int)
    requires first <= second
    ensures |After(times, second)| <= |After(times, first)|
  {
    if times != [] {
      AfterShrinks(times[..|times| - 1], first, second);
    }
  }

  /** When no time is later than `end`, the window up to `end` holds what comes after its start. */
  lemma {:induction false} WindowIsAfter(times: seq<int>, window: int, end: int)
    requires forall i :: 0 <= i < |times| ==> times[i] <= end
    ensures InWindow(times, window, end) == |After(times, end - window)|
  {
    if times != [] {
      WindowIsAfter(times[..|times| - 1], window, end);
    }
  }

  lemma WindowAppend(times: seq<int>, t: int, window: int, end: int)
    ensures InWindow(times + [t], window, end) ==
      InWindow(times, window, end) + if end - window < t <= end then 1 else 0
  {
    assert (times + [t])[..|times|] == times;
  }

  // ---- The invariant ----

  /** The kept times stand for all the admitted times: from the current window on they are the same, none
      is from the future, and no window holds more than the limit. */
  ghost predicate StandsFor(kept: seq<int>, all: seq<int>, clock: int, window: int, limit: int) {
    && (forall start :: start >= clock - window ==> After(kept, start) == After(all, start))
    && (forall i :: 0 <= i < |all| ==> all[i] <= clock)
    && (forall end :: InWindow(all, window, end) <= Bound(limit))
  }

  ghost predicate Faithful(s: System, ip: string) {
    StandsFor(TimesOf(s.limiter.requests, ip), TimesOf(s.admitted, ip), s.clock, s.limiter.window, s.limiter.limit)
  }

  function Bound(limit: int): nat {
    if limit < 0 then 0 else limit
  }

  /** Filtering the kept times at a later moment loses nothing that still matters. */
  lemma FilterKeeps(kept: seq<int>, all: seq<int>, clock: int, now: int, window: int, limit: int)
    requires StandsFor(kept, all, clock, window, limit) && now >= clock
    ensures StandsFor(After(kept, now - window), all, now, window, limit)
  {
    KeptStays(kept, all, clock, now, window);
  }

  /** With room in the window that ends now, the moment of an admitted request can join both. */
  lemma AdmitKeeps(kept: seq<int>, all: seq<int>, clock: int, now: int, window: int, limit: int)
    requires StandsFor(kept, all, clock, window, limit) && now >= clock && |After(kept, now - window)| < limit
    ensures StandsFor(After(kept, now - window) + [now], all + [now], now, window, limit)
  {
    KeptStays(kept, all, clock, now, window);
    WindowsStay(all, now, window, limit);
  }

  /** What one request does to the times kept and admitted of its own address. */
  ghost predicate OwnTimes(before: System, after: System, ip: string, now: int, ok: bool) {
    var l := before.limiter;
    var valid := After(TimesOf(l.requests, ip), now - l.window);
    && after.clock == now && after.limiter.window == l.window && after.limiter.limit == l.limit
    && TimesOf(after.limiter.requests, ip) == (if ok then valid + [now] else valid)
    && TimesOf(after.admitted, ip) ==
      (if ok then TimesOf(before.admitted, ip) + [now] else TimesOf(before.admitted, ip))
    && (ok ==> |valid| < l.limit)
  }

  lemma RequestTimes(s: System, ip: string, now: int)
    ensures OwnTimes(s, Next(s, Request(ip, now)), ip, now, Allow(s.limiter, ip, now).1)
  {
  }

  lemma FaithfulBy(s: System, ip: string, kept: seq<int>, all: seq<int>)
    requires StandsFor(kept, all, s.clock, s.limiter.window, s.limiter.limit)
    requires TimesOf(s.limiter.requests, ip) == kept && TimesOf(s.admitted, ip) == all
    ensures Faithful(s, ip)
  {
  }

  lemma DecisionKeeps(kept: seq<int>, all: seq<int>, clock: int, now: int, window: int, limit: int, ok: bool,
                      keptThen: seq<int>, allThen: seq<int>)
    requires StandsFor(kept, all, clock, window, limit) && now >= clock
    requires ok ==> |After(kept, now - window)| < limit
    requires keptThen == if ok then After(kept, now - window) + [now] else After(kept, now - window)
    requires allThen == if ok then all + [now] else all
    ensures StandsFor(keptThen, allThen, now, window, limit)
  {
    if ok {
      AdmitKeeps(kept, all, clock, now, window, limit);
    } else {
      FilterKeeps(kept, all, clock, now, window, limit);
    }
  }

  lemma OwnTimesKeep(before: System, after: System, ip: string, now: int, ok: bool)
    requires Faithful(before, ip) && now >= before.clock && OwnTimes(before, after, ip, now, ok)
    ensures Faithful(after, ip)
  {
    var l := before.limiter;
    var kept, all := TimesOf(after.limiter.requests, ip), TimesOf(after.admitted, ip);
    DecisionKeeps(TimesOf(l.requests, ip), TimesOf(before.admitted, ip), before.clock, now, l.window, l.limit, ok,
      kept, all);
    FaithfulBy(after, ip, kept, all);
  }

  lemma OtherRequestKeeps(s: System, ip: string, now: int, other: string)
    requires Faithful(s, other) && now >= s.clock && other != ip
    ensures Faithful(Next(s, Request(ip, now)), other)
  {
    var l, s' := s.limiter, Next(s, Request(ip, now));
    assert s'.limiter.window == l.window && s'.limiter.limit == l.limit;
    LaterStandsFor(TimesOf(l.requests, other), TimesOf(s.admitted, other), s.clock, now, l.window, l.limit);
    FaithfulBy(s', other, TimesOf(l.requests, other), TimesOf(s.admitted, other));
  }

  lemma LaterStandsFor(kept: seq<int>, all: seq<int>, clock: int, now: int, window: int, limit: int)
    requires StandsFor(kept, all, clock, window, limit) && now >= clock
    ensures StandsFor(kept, all, now, window, limit)
  {
  }

  /** Filtering at `now` and adding the admitted time agree on every later window. */
  lemma KeptStays(kept: seq<int>, all: seq<int>, clock: int, now: int, window: int)
    requires now >= clock && forall start :: start >= clock - window ==> After(kept, start) == After(all, start)
    ensures forall start :: start >= now - window ==> After(After(kept, now - window), start) == After(all, start)
    ensures forall start :: start >= now - window ==>
      After(After(kept, now - window) + [now], start) == After(all + [now], start)
  {
    forall start | start >= now - window
      ensures After(After(kept, now - window), start) == After(all, start)
      ensures After(After(kept, now - window) + [now], start) == After(all + [now], start)
    {
      AfterTwice(kept, now - window, start);
      AfterAppend(After(kept, now - window), now, start);
      AfterAppend(all, now, start);
    }
  }

  /** With room in the window that ends now, one more time leaves every window within the limit. */
  lemma WindowsStay(all: seq<int>, now: int, window: int, limit: int)
    requires (forall i :: 0 <= i < |all| ==> all[i] <= now) && |After(all, now - window)| < limit
    requires forall end :: InWindow(all, window, end) <= Bound(limit)
    ensures forall end :: InWindow(all + [now], window, end) <= Bound(limit)
  {
    forall end ensures InWindow(all + [now], window, end) <= Bound(limit) {
      WindowAppend(all, now, window, end);
      if end - window < now <= end {
        WindowIsAfter(all, window, end);
        AfterShrinks(all, now - window, end - window);
      }
    }
  }

  lemma TimesUnexpired(requests: map<string, seq<int>>, ip: string, start: int)
    ensures TimesOf(Unexpired(requests, start), ip) == After(TimesOf(requests, ip), start)
  {
  }

  lemma TickKeeps(s: System, now: int, ip: string)
    requires Faithful(s, ip) && now >= s.clock
    ensures Faithful(Next(s, Tick(now)), ip)
  {
    var l, s' := s.limiter, Next(s, Tick(now));
    TimesUnexpired(l.requests, ip, now - l.window);
    FilterKeeps(TimesOf(l.requests, ip), TimesOf(s.admitted, ip), s.clock, now, l.window, l.limit);
    FaithfulBy(s', ip, After(TimesOf(l.requests, ip), now - l.window), TimesOf(s.admitted, ip));
  }

  lemma {:induction false} RunsAreFaithful(limit: int, window: int, cap: nat, start: int, events: seq<Event>,
                                           s: System, ip: string)
    requires Run(limit, window, cap, start, events) == Some(s)
    ensures Faithful(s, ip) && s.limiter.limit == limit && s.limiter.window == window && s.limiter.cap == cap
  {
    if events == [] {
    } else {
      var front, last := events[..|events| - 1], events[|events| - 1];
      var before := Run(limit, window, cap, start, front).value;
      RunsAreFaithful(limit, window, cap, start, front, before, ip);
      match last
      case Request(other, now) =>
        RunsAreFaithful(limit, window, cap, start, front, before, other);
        if other == ip {
          RequestTimes(before, ip, now);
          OwnTimesKeep(before, s, ip, now, Allow(before.limiter, ip, now).1);
        } else {
          OtherRequestKeeps(before, other, now, ip);
        }
      case Tick(now) => TickKeeps(before, now, ip);
    }
  }

  // ---- The theorems ----

  /** In every window of every run, whatever the moment it ends, at most `limit` requests of an address
      were admitted. */
  lemma WindowsAreBounded(limit: int, window: int, cap: nat, start: int, events: seq<Event>, s: System, ip: string,
                          end: int)
    requires Run(limit, window, cap, start, events) == Some(s)
    ensures InWindow(TimesOf(s.admitted, ip), window, end) <= Bound(limit)
  {
    RunsAreFaithful(limit, window, cap, start, events, s, ip);
  }

  /** A request is admitted exactly when fewer than `limit` requests of its address were admitted in the
      window that ends now and its address is tracked or there is room to track it. An address that was
      admitted within the window is always tracked. */
  lemma AdmittedIff(limit: int, window: int, cap: nat, start: int, events: seq<Event>, s: System, ip: string, now: int)
    requires Run(limit, window, cap, start, events) == Some(s) && now >= s.clock
    ensures Allow(s.limiter, ip, now).1 <==>
      InWindow(TimesOf(s.admitted, ip), window, now) < limit && (ip in s.limiter.requests || |s.limiter.requests| < cap)
    ensures InWindow(TimesOf(s.admitted, ip), window, now) > 0 ==> ip in s.limiter.requests
  {
    RunsAreFaithful(limit, window, cap, start, events, s, ip);
    WindowIsAfter(TimesOf(s.admitted, ip), window, now);
  }

  /** The addresses with an admitted request in the window that ends now. */
  ghost function Recent(s: System, now: int): set<string> {
    set ip | ip in s.admitted && InWindow(s.admitted[ip], s.limiter.window, now) > 0
  }

  lemma TickForgetsOne(limit: int, window: int, cap: nat, start: int, events: seq<Event>, s: System, now: int,
                       ip: string)
    requires Run(limit, window, cap, start, events) == Some(s) && now >= s.clock
    ensures ip in Next(s, Tick(now)).limiter.requests <==> ip in Recent(Next(s, Tick(now)), now)
  {
    RunsAreFaithful(limit, window, cap, start, events, s, ip);
    var kept, all := TimesOf(s.limiter.requests, ip), TimesOf(s.admitted, ip);
    assert After(kept, now - window) == After(all, now - window);
    WindowIsAfter(all, window, now);
  }

  /** Right after a cleanup the tracked addresses are exactly those with an admitted request in the window that ends
      then, so no expired one takes up room. */
  lemma TickForgets(limit: int, window: int, cap: nat, start: int, events: seq<Event>, s: System, now: int)
    requires Run(limit, window, cap, start, events) == Some(s) && now >= s.clock
    ensures Next(s, Tick(now)).limiter.requests.Keys == Recent(Next(s, Tick(now)), now)
  {
    var s' := Next(s, Tick(now));
    forall ip ensures ip in s'.limiter.requests <==> ip in Recent(s', now) {
      TickForgetsOne(limit, window, cap, start, events, s, now, ip);
    }
  }

  /** With a limit of at least one, a new address that asks at that moment is refused exactly when the cap is reached
      by addresses admitted within the window. */
  lemma NewRefusedIff(limit: int, window: int, cap: nat, start: int, events: seq<Event>, s: System, now: int,
                      ip: string)
    requires Run(limit, window, cap, start, events) == Some(s) && now >= s.clock && limit >= 1
    requires ip !in Recent(Next(s, Tick(now)), now)
    ensures !Allow(Next(s, Tick(now)).limiter, ip, now).1 <==> |Recent(Next(s, Tick(now)), now)| >= cap
  {
    var s' := Next(s, Tick(now));
    TickForgets(limit, window, cap, start, events, s, now);
    RunsAreFaithful(limit, window, cap, start, events, s, ip);
    assert |s'.limiter.requests| == |s'.limiter.requests.Keys|;
    assert ip !in s'.limiter.requests;
  }

  /** One request keeps the number of tracked addresses within the cap unless the limit is below one,
      the address is new and the cap is reached: a refusal of such a limiter tracks the address unasked. */
  lemma CapKeptIff(l: Limiter, ip: string, now: int)
    requires |l.requests| <= l.cap
    ensures |Allow(l, ip, now).0.requests| <= l.cap <==> l.limit >= 1 || ip in l.requests || |l.requests| < l.cap
  {
    var l' := Allow(l, ip, now).0;
    if ip in l.requests {
      assert l'.requests.Keys == l.requests.Keys;
      SameSize(l.requests, l'.requests);
    } else if l'.requests != l.requests {
      assert l'.requests.Keys == l.requests.Keys + {ip};
      OneMoreKey(l.requests, l'.requests, ip);
    }
  }

  lemma SameSize(a: map<string, seq<int>>, b: map<string, seq<int>>)
    requires a.Keys == b.Keys
    ensures |a| == |b|
  {
    assert |a| == |a.Keys| && |b| == |b.Keys|;
  }

  lemma OneMoreKey(a: map<string, seq<int>>, b: map<string, seq<int>>, ip: string)
    requires ip !in a && b.Keys == a.Keys + {ip}
    ensures |b| == |a| + 1
  {
    assert |a| == |a.Keys| && |b| == |b.Keys|;
  }

  lemma FewerKeys(a: set<string>, b: set<string>)
    requires a <= b
    ensures |a| <= |b|
  {
    assert b == a + (b - a);
  }

  /** With a limit of at least one, no run ever tracks more addresses than the cap. */
  lemma {:induction false} TrackedWithinCap(limit: int, window: int, cap: nat, start: int, events: seq<Event>,
                                            s: System)
    requires limit >= 1 && Run(limit, window, cap, start, events) == Some(s)
    ensures |s.limiter.requests| <= cap
  {
    if events == [] {
    } else {
      var front, last := events[..|events| - 1], events[|events| - 1];
      var before := Run(limit, window, cap, start, front).value;
      TrackedWithinCap(limit, window, cap, start, front, before);
      RunsAreFaithful(limit, window, cap, start, front, before, "");
      match last
      case Request(ip, now) => CapKeptIff(before.limiter, ip, now);
      case Tick(now) =>
        assert |s.limiter.requests| == |s.limiter.requests.Keys| &&
          |before.limiter.requests| == |before.limiter.requests.Keys|;
        FewerKeys(s.limiter.requests.Keys, before.limiter.requests.Keys);
    }
  }
  /** The name of n letters. */
  function Name(n: nat): string {
    seq(n, _ => 'a')
  }

  /** One request from each of n addresses. */
  function Strangers(n: nat, now: int): seq<Event> {
    if n == 0 then [] else Strangers(n - 1, now) + [Request(Name(n - 1), now)]
  }

  lemma StrangerIsTracked(l: Limiter, ip: string, now: int)
    requires l.limit < 1 && ip !in l.requests
    ensures var after := Allow(l, ip, now).0;
      after.limit == l.limit && after.requests.Keys == l.requests.Keys + {ip} && |after.requests| == |l.requests| + 1
  {
    OneMoreKey(l.requests, Allow(l, ip, now).0.requests, ip);
  }

  /** The n first strangers are tracked, and nobody else. */
  predicate TracksStrangers(l: Limiter, n: nat) {
    l.limit < 1 && |l.requests| == n && forall ip :: ip in l.requests ==> |ip| < n
  }

  lemma OneMoreStranger(l: Limiter, n: nat, now: int)
    requires TracksStrangers(l, n)
    ensures TracksStrangers(Allow(l, Name(n), now).0, n + 1)
  {
    StrangerIsTracked(l, Name(n), now);
    assert forall ip :: ip in Allow(l, Name(n), now).0.requests ==> ip in l.requests.Keys + {Name(n)};
  }

  /** A limiter with a limit below one refuses them all and tracks every one of them. */
  lemma {:induction false} StrangersAreTracked(limit: int, window: int, cap: nat, start: int, n: nat)
    requires limit < 1
    ensures var run := Run(limit, window, cap, start, Strangers(n, start));
      run.Some? && run.value.clock == start && TracksStrangers(run.value.limiter, n)
  {
    if n > 0 {
      StrangersAreTracked(limit, window, cap, start, n - 1);
      var before, all := Run(limit, window, cap, start, Strangers(n - 1, start)).value, Strangers(n, start);
      assert all[..|all| - 1] == Strangers(n - 1, start);
      OneMoreStranger(before.limiter, n - 1, start);
    }
  }

  /** Whatever the window, the cap and the start: no run tracks more addresses than the cap exactly when the limit is
      at least one. */
  lemma NeverBeyondCapIff(limit: int, window: int, cap: nat, start: int)
    ensures (forall events :: Run(limit, window, cap, start, events).Some? ==>
              |Run(limit, window, cap, start, events).value.limiter.requests| <= cap)
       <==> limit >= 1
  {
    if limit >= 1 {
      forall events | Run(limit, window, cap, start, events).Some?
        ensures |Run(limit, window, cap, start, events).value.limiter.requests| <= cap
      {
        TrackedWithinCap(limit, window, cap, start, events, Run(limit, window, cap, start, events).value);
      }
    } else {
      StrangersAreTracked(limit, window, cap, start, cap + 1);
    }
  }
}
