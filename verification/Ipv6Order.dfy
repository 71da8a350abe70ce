/** When the order of canonical IPv6 texts is that of the addresses: one pair of groups decides, whichever runs of
    zeros the two addresses shorten. */
module Ipv6Order {
  import opened Ipv6
  import opened StringOrder

  /** What follows a group that is shown: a colon, or the end after the last one. */
  function End(i: nat, count: nat): string {
    if i + 1 < count then ":" else ""
  }

  /** Two groups compare as text, each with what follows it, as they do as numbers. */
  predicate TextAgrees(a: Group, b: Group, end: string) {
    Less(HexText(a) + end, HexText(b) + end) <==> a < b
  }

  predicate FirstPair(x: seq<Group>, y: seq<Group>, m: nat) {
    m < |x| && m < |y| && x[..m] == y[..m] && x[m] != y[m]
  }

  /** The groups after a shorter run are shown before those after a longer one: the first pair that differs is in
      textual order. */
  predicate TailLess(x: seq<Group>, y: seq<Group>) {
    exists m {:trigger FirstPair(x, y, m)} :: 0 <= m < |y| && FirstPair(x, y, m) &&
      Less(HexText(x[m]) + ":", HexText(y[m]) + End(m, |y|))
  }

  /** The texts of two addresses are in numeric order, for the first groups that differ:
      - if both show them, they compare alike as texts and as numbers;
      - else, if one of them shortens its run earlier, the group the other one shows there begins with a letter exactly
        when that one is the smaller address;
      - else, if the runs end alike, the groups compare alike again, and if one ends earlier, the first groups after
        the two runs that differ do not put that address, which is the larger one, first. */
  predicate NumericAt(s: Groups, t: Groups, i: nat)
    requires FirstDifference(s, t, i)
  {
    var a, c, b, d := RunStart(s), RunStart(t), RunEnd(s), RunEnd(t);
    if i < a && i < c then TextAgrees(s[i], t[i], End(i, GROUPS))
    else if a < c then ':' < HexText(t[a])[0] <==> s[i] < t[i]
    else if c < a then ':' < HexText(s[c])[0] <==> t[i] < s[i]
    else if b == d then TextAgrees(s[i], t[i], End(i, GROUPS))
    else if b < d then !TailLess(s[b..], t[d..])
    else !TailLess(t[d..], s[b..])
  }

  lemma AgreeBefore(x: seq<Group>, y: seq<Group>, i: nat, k: nat)
    requires k < i <= |x| && i <= |y| && x[..i] == y[..i]
    ensures x[k] == y[k]
  {
    assert x[k] == x[..i][k] && y[k] == y[..i][k];
  }

  // ---- Both show the groups that differ ----

  lemma ShownAlike(s: Groups, t: Groups, i: nat, k: nat)
    requires FirstDifference(s, t, i) && k < i && k < RunStart(s) && k < RunStart(t)
    ensures k + 1 < |Pieces(s)| && k + 1 < |Pieces(t)| && Pieces(s)[k] == Pieces(t)[k]
  {
    PieceShows(s, k);
    PieceShows(t, k);
    AgreeBefore(s, t, i, k);
  }

  lemma EqualBefore(s: Groups, t: Groups, i: nat, j: nat)
    requires FirstDifference(s, t, i) && j <= i && j <= RunStart(s) && j <= RunStart(t)
    ensures j < |Pieces(s)| && j < |Pieces(t)| && Pieces(s)[..j] == Pieces(t)[..j]
  {
    if j > 0 {
      ShownAlike(s, t, i, j - 1);
    }
    forall k: nat | k < j ensures Pieces(s)[k] == Pieces(t)[k] {
      ShownAlike(s, t, i, k);
    }
  }

  lemma BothShow(s: Groups, t: Groups, i: nat)
    requires FirstDifference(s, t, i) && i < RunStart(s) && i < RunStart(t)
    ensures Less(Canonical(s), Canonical(t)) <==> Less(HexText(s[i]) + End(i, GROUPS), HexText(t[i]) + End(i, GROUPS))
  {
    EqualBefore(s, t, i, i);
    PieceShows(s, i);
    PieceShows(t, i);
    HexDiffers(s[i], t[i]);
    CanonicalLess(s, t);
    PieceLessAt(Pieces(s), Pieces(t), i);
  }

  // ---- One shortens earlier ----

  lemma RunIsEmptyPiece(g: Groups)
    requires RunStart(g) < GROUPS
    ensures RunStart(g) + 1 < |Pieces(g)| && Pieces(g)[RunStart(g)] == ""
  {
  }

  lemma ColonOrHex(h: Group, after: string)
    ensures Less("" + ":", HexText(h) + after) <==> ':' < HexText(h)[0]
    ensures Less(HexText(h) + after, "" + ":") <==> HexText(h)[0] < ':'
    ensures HexText(h)[0] != ':'
  {
    assert "" + ":" == ":" && ":"[1..] == "" && (HexText(h) + after)[0] == HexText(h)[0];
  }

  lemma EarlierRun(s: Groups, t: Groups, i: nat)
    requires FirstDifference(s, t, i) && RunStart(s) < RunStart(t) && RunStart(s) <= i
    ensures Less(Canonical(s), Canonical(t)) <==> ':' < HexText(t[RunStart(s)])[0]
    ensures Less(Canonical(t), Canonical(s)) <==> !(':' < HexText(t[RunStart(s)])[0])
  {
    var p, q, a := Pieces(s), Pieces(t), RunStart(s);
    EqualBefore(s, t, i, a);
    RunIsEmptyPiece(s);
    PieceShows(t, a);
    CanonicalLess(s, t);
    CanonicalLess(t, s);
    PieceLessAt(p, q, a);
    PieceLessAt(q, p, a);
    ColonOrHex(t[a], After(q, a));
  }

  // ---- Runs that begin alike and end differently ----

  lemma {:induction false} ZerosStop(g: Groups, i: nat)
    requires i <= |g| && i + ZerosFrom(g, i) < |g|
    ensures g[i + ZerosFrom(g, i)] != 0
    decreases |g| - i
  {
    if g[i] == 0 {
      ZerosStop(g, i + 1);
    }
  }

  /** The first groups that differ come right after the shorter run, and there the other address has a zero. */
  lemma ShorterRunIsLarger(s: Groups, t: Groups, i: nat)
    requires FirstDifference(s, t, i) && RunStart(s) == RunStart(t) <= i && RunEnd(s) < RunEnd(t)
    ensures i == RunEnd(s) && t[i] == 0 < s[i]
  {
    var a, b := RunStart(s), RunEnd(s);
    ZerosStop(s, a);
    ZerosAre(t, a, b);
    if i < b {
      ZerosAre(s, a, i);
      ZerosAre(t, a, i);
    } else if b < i {
      AgreeBefore(s, t, i, b);
    }
  }

  lemma {:induction false} PieceLessAfter(front: seq<string>, x: seq<string>, y: seq<string>)
    requires x != [] && y != []
    ensures PieceLess(front + x, front + y) <==> PieceLess(x, y)
  {
    if front == [] {
      assert front + x == x && front + y == y;
    } else {
      assert (front + x)[1..] == front[1..] + x && (front + y)[1..] == front[1..] + y;
      PieceLessAfter(front[1..], x, y);
    }
  }

  lemma {:induction false} NotBeforeOwnPrefix(x: seq<string>, y: seq<string>)
    requires y != [] && |y| <= |x| && x[..|y|] == y
    ensures !PieceLess(x, y)
  {
    assert x[0] == x[..|y|][0];
    if |y| > 1 {
      assert x[1..][..|y| - 1] == x[..|y|][1..];
      NotBeforeOwnPrefix(x[1..], y[1..]);
    }
  }

  lemma PairOfHexes(x: seq<Group>, y: seq<Group>, m: nat)
    requires FirstPair(x, y, m)
    ensures PieceLess(Hexes(x), Hexes(y)) <==> Less(HexText(x[m]) + End(m, |x|), HexText(y[m]) + End(m, |y|))
  {
    forall k | 0 <= k < m ensures Hexes(x)[k] == Hexes(y)[k] {
      AgreeBefore(x, y, m, k);
    }
    HexDiffers(x[m], y[m]);
    PieceLessAt(Hexes(x), Hexes(y), m);
  }

  lemma {:induction false} PairOrPrefix(x: seq<Group>, y: seq<Group>, k: nat) returns (m: nat)
    requires k <= |y| <= |x| && x[..k] == y[..k]
    ensures m == |y| || FirstPair(x, y, m)
    ensures m <= |y| && x[..m] == y[..m]
    decreases |y| - k
  {
    if k < |y| && x[k] == y[k] {
      assert x[..k + 1] == x[..k] + [x[k]] && y[..k + 1] == y[..k] + [y[k]];
      m := PairOrPrefix(x, y, k + 1);
    } else {
      m := k;
    }
  }

  lemma OnePair(x: seq<Group>, y: seq<Group>, m: nat, k: nat)
    requires FirstPair(x, y, m) && FirstPair(x, y, k)
    ensures m == k
  {
    if m < k {
      AgreeBefore(x, y, k, m);
    } else if k < m {
      AgreeBefore(x, y, m, k);
    }
  }

  lemma TailsAtPair(x: seq<Group>, y: seq<Group>, m: nat)
    requires |y| < |x| && FirstPair(x, y, m)
    ensures PieceLess(Hexes(x), Hexes(y)) <==> TailLess(x, y)
  {
    PairOfHexes(x, y, m);
    forall k: nat | FirstPair(x, y, k) ensures k == m {
      OnePair(x, y, m, k);
    }
  }

  lemma TailsOfPrefix(x: seq<Group>, y: seq<Group>)
    requires y != [] && |y| < |x| && x[..|y|] == y
    ensures !PieceLess(Hexes(x), Hexes(y)) && !TailLess(x, y)
  {
    forall k: nat | k < |y| ensures x[k] == y[k] {
      AgreeBefore(x, y, |y|, k);
    }
    assert Hexes(x)[..|y|] == Hexes(y);
    NotBeforeOwnPrefix(Hexes(x), Hexes(y));
  }

  lemma TailsLess(x: seq<Group>, y: seq<Group>)
    requires |y| < |x|
    ensures PieceLess(Side(x), Side(y)) <==> TailLess(x, y)
  {
    if y != [] {
      var m := PairOrPrefix(x, y, 0);
      if m < |y| {
        TailsAtPair(x, y, m);
      } else {
        TailsOfPrefix(x, y);
      }
    }
  }

  lemma ShorterRun(s: Groups, t: Groups, i: nat)
    requires FirstDifference(s, t, i) && RunStart(s) == RunStart(t) <= i && RunEnd(s) < RunEnd(t)
    ensures Less(Canonical(s), Canonical(t)) <==> TailLess(s[RunEnd(s)..], t[RunEnd(t)..])
  {
    var a, b, d := RunStart(s), RunEnd(s), RunEnd(t);
    assert s[..a] == s[..i][..a] == t[..a];
    var front := Side(s[..a]) + [""];
    assert Pieces(s) == front + Side(s[b..]) && Pieces(t) == front + Side(t[d..]);
    CanonicalLess(s, t);
    PieceLessAfter(front, Side(s[b..]), Side(t[d..]));
    TailsLess(s[b..], t[d..]);
  }

  lemma {:induction false} PieceTotal(p: seq<string>, q: seq<string>)
    requires p != [] && q != [] && p != q && NoColons(p) && NoColons(q)
    ensures PieceLess(p, q) || PieceLess(q, p)
    decreases p
  {
    if p[0] != q[0] {
      FollowedDiffer(p[0], Rest(p), q[0], Rest(q));
      LessTotal(p[0] + Follow(Rest(p)), q[0] + Follow(Rest(q)));
    } else if |p| > 1 && |q| > 1 {
      assert p == [p[0]] + p[1..] && q == [q[0]] + q[1..];
      PieceTotal(p[1..], q[1..]);
    }
  }

  lemma FollowedDiffer(a: string, x: string, b: string, y: string)
    requires a != b && NoColon(a) && NoColon(b) && Continues(x) && Continues(y)
    ensures a + Follow(x) != b + Follow(y)
  {
    if x == [] && y == [] {
      assert a + [] == a && b + [] == b;
    } else if x != [] && y != [] {
      assert (a + ":")[..|a|] == a && (b + ":")[..|b|] == b;
    } else if x == [] {
      assert a + [] == a && (b + ":")[|b|] == ':';
    } else {
      assert b + [] == b && (a + ":")[|a|] == ':';
    }
  }

  lemma LessAsymmetric(a: string, b: string)
    requires Less(a, b)
    ensures !Less(b, a)
  {
    if Less(b, a) {
      LessTransitive(a, b, a);
      LessIrreflexive(a);
    }
  }

  lemma RunsShowDifferently(s: Groups, t: Groups)
    requires RunStart(s) == RunStart(t) && RunEnd(s) < RunEnd(t)
    ensures Pieces(s) != Pieces(t)
  {
    var a, b, d := RunStart(s), RunEnd(s), RunEnd(t);
    if b == GROUPS - 1 {
      assert Pieces(s)[|Pieces(s)| - 1] == HexText(s[b]);
      assert Pieces(t)[|Pieces(t)| - 1] == "";
    }
  }

  lemma ShorterRunIsTotal(s: Groups, t: Groups)
    requires RunStart(s) == RunStart(t) && RunEnd(s) < RunEnd(t)
    ensures Less(Canonical(s), Canonical(t)) <==> !Less(Canonical(t), Canonical(s))
  {
    RunsShowDifferently(s, t);
    PiecesHaveNoColons(s);
    PiecesHaveNoColons(t);
    PieceTotal(Pieces(s), Pieces(t));
    CanonicalLess(s, t);
    CanonicalLess(t, s);
    if Less(Canonical(s), Canonical(t)) {
      LessAsymmetric(Canonical(s), Canonical(t));
    }
  }

  // ---- All cases ----

  lemma Swapped(s: Groups, t: Groups, i: nat)
    requires FirstDifference(s, t, i)
    ensures FirstDifference(t, s, i)
  {
  }

  /** The texts of any two different addresses are in the order of the addresses exactly under that condition. */
  lemma NumericIff(s: Groups, t: Groups, i: nat)
    requires FirstDifference(s, t, i)
    ensures (Less(Canonical(s), Canonical(t)) <==> Value(s) < Value(t)) <==> NumericAt(s, t, i)
  {
    ValueAt(s, t, i);
    Swapped(s, t, i);
    var a, c, b, d := RunStart(s), RunStart(t), RunEnd(s), RunEnd(t);
    if i < a && i < c {
      BothShow(s, t, i);
    } else if a < c {
      EarlierRun(s, t, i);
    } else if c < a {
      EarlierRun(t, s, i);
    } else if b == d {
      SameRunOrder(s, t, i);
    } else if b < d {
      ShorterRun(s, t, i);
      ShorterRunIsLarger(s, t, i);
    } else {
      ShorterRun(t, s, i);
      ShorterRunIsLarger(t, s, i);
      ShorterRunIsTotal(t, s);
    }
  }
}
