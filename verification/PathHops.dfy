/** Normalising one AS path into the hops the network map draws. */
module PathHops {
  import opened Graphs

  /** One run of equal AS numbers: prepending shows as a count above one. */
  datatype Hop = Hop(asn: int, count: nat)

  /** The AS numbers above zero, in order. */
  function Positive(path: seq<int>): seq<int> {
    if path == [] then [] else (if path[0] > 0 then [path[0]] else []) + Positive(path[1..])
  }

  function Repeat(asn: int, count: nat): seq<int> {
    seq(count, _ => asn)
  }

  /** The path a run-length encoding stands for. */
  function Expand(hops: seq<Hop>): seq<int> {
    if hops == [] then [] else Expand(hops[..|hops| - 1]) + Repeat(hops[|hops| - 1].asn, hops[|hops| - 1].count)
  }

  /** Runs are non-empty and maximal. */
  ghost predicate MaximalRuns(hops: seq<Hop>) {
    && (forall i :: 0 <= i < |hops| ==> hops[i].count > 0)
    && (forall i, j :: 0 <= i && j == i + 1 && j < |hops| ==> hops[i].asn != hops[j].asn)
  }

  function Asns(hops: seq<Hop>): (asns: seq<int>)
    ensures |asns| == |hops| && forall i :: 0 <= i < |hops| ==> asns[i] == hops[i].asn
  {
    seq(|hops|, i requires 0 <= i < |hops| => hops[i].asn)
  }

  /** The distinct values of s, each at the place of its first occurrence. */
  function FirstVisits(s: seq<int>): seq<int> {
    if s == [] then []
    else
      var before := FirstVisits(s[..|s| - 1]);
      if s[|s| - 1] in before then before else before + [s[|s| - 1]]
  }

  lemma {:induction false} FirstVisitsDistinct(s: seq<int>)
    ensures NoDup(FirstVisits(s)) && forall x :: x in FirstVisits(s) <==> x in s
  {
    if s == [] {
    } else {
      FirstVisitsDistinct(s[..|s| - 1]);
      assert s == s[..|s| - 1] + [s[|s| - 1]];
    }
  }

  /** The first run of every AS number. */
  function FirstRuns(hops: seq<Hop>): seq<Hop> {
    if hops == [] then []
    else
      var before := FirstRuns(hops[..|hops| - 1]);
      if hops[|hops| - 1].asn in Asns(before) then before else before + [hops[|hops| - 1]]
  }

  lemma {:induction false} RepeatVisits(s: seq<int>, asn: int, count: nat)
    requires count > 0
    ensures FirstVisits(s + Repeat(asn, count)) == FirstVisits(s + [asn])
  {
    var all := s + Repeat(asn, count);
    if count == 1 {
      assert all == s + [asn];
    } else {
      assert all[..|all| - 1] == s + Repeat(asn, count - 1);
      RepeatVisits(s, asn, count - 1);
      FirstVisitsDistinct(s + [asn]);
    }
  }

  /** Dropping repeats run by run visits the same ASes, in the same order, as walking the whole path. */
  lemma {:induction false} FirstRunsVisit(hops: seq<Hop>)
    requires forall i :: 0 <= i < |hops| ==> hops[i].count > 0
    ensures Asns(FirstRuns(hops)) == FirstVisits(Expand(hops))
  {
    if hops == [] {
    } else {
      var front, last := hops[..|hops| - 1], hops[|hops| - 1];
      FirstRunsVisit(front);
      RepeatVisits(Expand(front), last.asn, last.count);
      var walked := Expand(front) + [last.asn];
      assert walked[..|walked| - 1] == Expand(front);
      assert Asns(FirstRuns(front) + [last]) == Asns(FirstRuns(front)) + [last.asn];
    }
  }

  /** A run-length encoding with maximal runs is determined by the path it expands to. */
  lemma {:induction false} RunsUnique(first: seq<Hop>, second: seq<Hop>)
    requires MaximalRuns(first) && MaximalRuns(second) && Expand(first) == Expand(second)
    ensures first == second
  {
    if first == [] || second == [] {
      assert forall hops :: hops == first || hops == second ==> (|Expand(hops)| == 0 <==> hops == []);
    } else {
      LastRun(first);
      LastRun(second);
      var f, s := first[|first| - 1], second[|second| - 1];
      var path := Expand(first);
      assert Expand(first[..|first| - 1]) == path[..|path| - f.count];
      assert Expand(second[..|second| - 1]) == path[..|path| - s.count];
      RunsUnique(first[..|first| - 1], second[..|second| - 1]);
      assert first == first[..|first| - 1] + [f] && second == second[..|second| - 1] + [s];
    }
  }

  /** The length of the run of equal values the path ends with. */
  function TailRun(path: seq<int>): (n: nat)
    ensures path != [] ==> 0 < n <= |path|
  {
    if |path| <= 1 then |path|
    else if path[|path| - 1] == path[|path| - 2] then TailRun(path[..|path| - 1]) + 1
    else 1
  }

  lemma {:induction false} TailOfRepeat(s: seq<int>, asn: int, count: nat)
    requires count > 0 && (s != [] ==> s[|s| - 1] != asn)
    ensures TailRun(s + Repeat(asn, count)) == count
  {
    var all := s + Repeat(asn, count);
    if count > 1 {
      assert all[..|all| - 1] == s + Repeat(asn, count - 1);
      TailOfRepeat(s, asn, count - 1);
    }
  }

  /** The last run is exactly the tail of the path. */
  lemma LastRun(hops: seq<Hop>)
    requires hops != [] && MaximalRuns(hops)
    ensures Expand(hops) != [] && TailRun(Expand(hops)) == hops[|hops| - 1].count
    ensures Expand(hops)[|Expand(hops)| - 1] == hops[|hops| - 1].asn
  {
    var front, last := hops[..|hops| - 1], hops[|hops| - 1];
    if front != [] {
      var previous := front[|front| - 1];
      assert Expand(front) == Expand(front[..|front| - 1]) + Repeat(previous.asn, previous.count);
      assert previous.asn != last.asn;
    }
    TailOfRepeat(Expand(front), last.asn, last.count);
  }

  method CompressConsecutiveASPath(path: seq<int>) returns (out: seq<Hop>)
    ensures Expand(out) == path && MaximalRuns(out)
  {
    out := [];
    for i := 0 to |path|
      invariant Expand(out) == path[..i] && MaximalRuns(out)
    {
      if out != [] && out[|out| - 1].asn == path[i] {
        var last := out[|out| - 1];
        GrowRun(out, last.asn);
        out := out[|out| - 1 := Hop(last.asn, last.count + 1)];
      } else {
        assert (out + [Hop(path[i], 1)])[..|out|] == out;
        out := out + [Hop(path[i], 1)];
      }
    }
    assert path[..|path|] == path;
  }

  lemma GrowRun(out: seq<Hop>, asn: int)
    requires out != [] && MaximalRuns(out) && out[|out| - 1].asn == asn
    ensures var grown := out[|out| - 1 := Hop(asn, out[|out| - 1].count + 1)];
            Expand(grown) == Expand(out) + [asn] && MaximalRuns(grown)
  {
    var count := out[|out| - 1].count;
    var grown := out[|out| - 1 := Hop(asn, count + 1)];
    assert grown[..|grown| - 1] == out[..|out| - 1];
    assert Repeat(asn, count + 1) == Repeat(asn, count) + [asn];
  }

  method KeepPositive(path: seq<int>) returns (kept: seq<int>)
    ensures kept == Positive(path)
  {
    kept := [];
    for i := 0 to |path|
      invariant kept + Positive(path[i..]) == Positive(path)
    {
      assert path[i..] == [path[i]] + path[i + 1..];
      if path[i] > 0 {
        kept := kept + [path[i]];
      }
    }
  }

  /** The hops of a path: every AS visited once, in order of first visit, with the length of its first run. */
  method NormalizePath(path: seq<int>) returns (hops: seq<Hop>)
    ensures Asns(hops) == FirstVisits(Positive(path)) && NoDup(Asns(hops))
    ensures exists runs :: MaximalRuns(runs) && Expand(runs) == Positive(path) && hops == FirstRuns(runs)
  {
    var positive := KeepPositive(path);
    var compressed := CompressConsecutiveASPath(positive);
    var seen: set<int> := {};
    hops := [];
    for i := 0 to |compressed|
      invariant hops == FirstRuns(compressed[..i])
      invariant forall asn :: asn in seen <==> asn in Asns(hops)
    {
      assert compressed[..i + 1][..i] == compressed[..i];
      if compressed[i].asn !in seen {
        seen := seen + {compressed[i].asn};
        assert Asns(hops + [compressed[i]]) == Asns(hops) + [compressed[i].asn];
        hops := hops + [compressed[i]];
      }
    }
    assert compressed[..|compressed|] == compressed;
    FirstRunsVisit(compressed);
    FirstVisitsDistinct(positive);
  }
}
