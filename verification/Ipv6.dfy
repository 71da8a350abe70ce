/** IPv6 addresses as eight groups, and their canonical text (section 4 of RFC 5952). */
module Ipv6 {
  import opened StringOrder
  import opened Text

  const GROUPS := 8
  const GROUP_SIZE := 65536

  type Group = n: nat | n < GROUP_SIZE

  /** Eight groups that do not stand for an IPv4 address. */
  type Groups = g: seq<Group> | |g| == GROUPS && !StandsForV4(g) witness [0, 0, 0, 0, 0, 0, 0, 0]

  predicate StandsForV4(g: seq<Group>) {
    |g| == GROUPS && g[..5] == [0, 0, 0, 0, 0] && g[5] == 65535
  }

  // ---- The number an address is ----

  /** Groups are the digits of a number to base 65536, most significant first. */
  function Value(g: seq<Group>): nat {
    if g == [] then 0 else Value(g[..|g| - 1]) * GROUP_SIZE + g[|g| - 1]
  }

  predicate FirstDifference(g: seq<Group>, h: seq<Group>, i: nat) {
    i < |g| == |h| && g[..i] == h[..i] && g[i] != h[i]
  }

  lemma {:induction false} ValueAt(g: seq<Group>, h: seq<Group>, i: nat)
    requires FirstDifference(g, h, i)
    ensures Value(g) < Value(h) <==> g[i] < h[i]
    ensures Value(g) != Value(h)
  {
    var n := |g| - 1;
    if i == n {
      assert g[..n] == h[..n];
    } else {
      assert g[..n][..i] == g[..i] && h[..n][..i] == h[..i];
      ValueAt(g[..n], h[..n], i);
    }
  }

  lemma {:induction false} SomeDifference(g: seq<Group>, h: seq<Group>) returns (i: nat)
    requires |g| == |h| && g != h
    ensures FirstDifference(g, h, i)
  {
    var n := |g| - 1;
    if g[..n] == h[..n] {
      i := n;
      assert g == g[..n] + [g[n]] && h == h[..n] + [h[n]];
    } else {
      i := SomeDifference(g[..n], h[..n]);
      assert g[..n][..i] == g[..i] && h[..n][..i] == h[..i];
    }
  }

  // ---- Canonical text ----

  /** Lower-case hexadecimal without leading zeros. */
  function HexText(n: nat): (s: string)
    ensures s != [] && NoColon(s)
  {
    if n < 16 then [LowerHex(n)] else HexText(n / 16) + [LowerHex(n % 16)]
  }

  function Hexes(g: seq<Group>): (s: seq<string>)
    ensures |s| == |g| && forall i :: 0 <= i < |g| ==> s[i] == HexText(g[i])
  {
    seq(|g|, i requires 0 <= i < |g| => HexText(g[i]))
  }

  /** The length of the run of zero groups that starts at i. */
  function ZerosFrom(g: seq<Group>, i: nat): (n: nat)
    requires i <= |g|
    ensures i + n <= |g|
    decreases |g| - i
  {
    if i < |g| && g[i] == 0 then 1 + ZerosFrom(g, i + 1) else 0
  }

  /** The start of the longest run of at least two zero groups from i on, the first of equals; |g| without one. */
  function RunFrom(g: seq<Group>, i: nat): (start: nat)
    requires i <= |g|
    ensures i <= start <= |g|
    decreases |g| - i
  {
    if i == |g| then i
    else
      var later := RunFrom(g, i + 1);
      if ZerosFrom(g, i) >= 2 && ZerosFrom(g, i) >= ZerosFrom(g, later) then i else later
  }

  function RunStart(g: seq<Group>): (start: nat)
    ensures start <= |g|
  {
    RunFrom(g, 0)
  }

  function RunEnd(g: seq<Group>): (end: nat)
    ensures RunStart(g) <= end <= |g|
  {
    RunStart(g) + ZerosFrom(g, RunStart(g))
  }

  /** The groups from i to j are zero. */
  predicate AllZero(g: seq<Group>, i: nat, j: nat) {
    i <= j <= |g| && forall k :: i <= k < j ==> g[k] == 0
  }

  lemma {:induction false} ZerosReach(g: seq<Group>, i: nat)
    requires i <= |g|
    ensures AllZero(g, i, i + ZerosFrom(g, i)) && forall j: nat :: AllZero(g, i, j) ==> j <= i + ZerosFrom(g, i)
    decreases |g| - i
  {
    if i < |g| && g[i] == 0 {
      ZerosReach(g, i + 1);
      forall j: nat | AllZero(g, i, j) ensures j <= i + ZerosFrom(g, i) {
        assert j == i || AllZero(g, i + 1, j);
      }
    } else if i < |g| {
      assert g[i] != 0;
    }
  }

  lemma {:induction false} RunIs(g: seq<Group>, from: nat)
    requires from <= |g|
    ensures var a := RunFrom(g, from);
      && (a < |g| ==> ZerosFrom(g, a) >= 2)
      && (forall i, j :: from <= i && i + 2 <= j && AllZero(g, i, j) ==>
            a < |g| && j - i <= ZerosFrom(g, a) && (j - i == ZerosFrom(g, a) ==> a <= i))
    decreases |g| - from
  {
    ZerosReach(g, from);
    if from < |g| {
      RunIs(g, from + 1);
    }
  }

  /** The run that is shortened: zeros, at least two of them, and no other two or more make a longer run or an equal one
      before it; without two zeros in a row there is none. */
  lemma RunIsFirstLongest(g: seq<Group>)
    ensures var a, b := RunStart(g), RunEnd(g);
      && (a < |g| ==> a + 2 <= b && AllZero(g, a, b))
      && (forall i, j :: 0 <= i && i + 2 <= j && AllZero(g, i, j) ==>
            a < |g| && j - i <= b - a && (j - i == b - a ==> a <= i))
  {
    RunIs(g, 0);
    ZerosReach(g, RunStart(g));
  }

  /** One side of the double colon: its groups, or an empty piece that makes the colon at the edge double. */
  function Side(g: seq<Group>): (s: seq<string>)
    ensures s != []
  {
    if g == [] then [""] else Hexes(g)
  }

  /** What stands between the colons of the text; the longest run of zeros is one empty piece. */
  function Pieces(g: seq<Group>): (s: seq<string>)
    requires |g| == GROUPS
    ensures s != []
  {
    if RunStart(g) == |g| then Hexes(g) else Side(g[..RunStart(g)]) + [""] + Side(g[RunEnd(g)..])
  }

  function Canonical(g: seq<Group>): string
    requires |g| == GROUPS
  {
    Join(Pieces(g), ":")
  }

  // ---- The order of texts ----

  /** How a text joined by colons goes on after its first piece. */
  function Rest(p: seq<string>): (x: string)
    requires p != []
    ensures Continues(x)
  {
    if |p| == 1 then [] else ":" + Join(p[1..], ":")
  }

  lemma {:induction false} JoinFront(p: seq<string>)
    requires p != []
    ensures Join(p, ":") == p[0] + Rest(p)
  {
    if |p| > 1 {
      var front := p[..|p| - 1];
      JoinFront(front);
      if |front| > 1 {
        assert p[1..][..|p| - 2] == front[1..] && p[1..][|p| - 2] == p[|p| - 1];
        assert Join(p[1..], ":") == Join(front[1..], ":") + ":" + p[|p| - 1];
      } else {
        assert p[1..] == [p[1]];
      }
    }
  }

  predicate NoColons(p: seq<string>) {
    forall i :: 0 <= i < |p| ==> NoColon(p[i])
  }

  /** The first pieces that differ decide, each with the colon or the end that follows it. */
  predicate PieceLess(p: seq<string>, q: seq<string>)
    requires p != [] && q != []
  {
    if p[0] != q[0] then Less(p[0] + Follow(Rest(p)), q[0] + Follow(Rest(q)))
    else if |p| == 1 || |q| == 1 then |p| < |q|
    else PieceLess(p[1..], q[1..])
  }

  lemma SamePiece(a: string, x: string, y: string)
    ensures Less(a + x, a + y) <==> Less(x, y)
  {
    LessConcat(a, x, a, y);
    LessIrreflexive(a);
  }

  lemma {:induction false} LessJoin(p: seq<string>, q: seq<string>)
    requires p != [] && q != [] && NoColons(p) && NoColons(q)
    ensures Less(Join(p, ":"), Join(q, ":")) <==> PieceLess(p, q)
    decreases p
  {
    JoinFront(p);
    JoinFront(q);
    if p[0] != q[0] {
      LessAtDifference(p[0], Rest(p), q[0], Rest(q));
    } else {
      SamePiece(p[0], Rest(p), Rest(q));
      if |p| > 1 && |q| > 1 {
        LessJoin(p[1..], q[1..]);
        SamePiece(":", Join(p[1..], ":"), Join(q[1..], ":"));
      }
    }
  }

  lemma PiecesHaveNoColons(g: seq<Group>)
    requires |g| == GROUPS
    ensures NoColons(Pieces(g))
  {
  }

  // ---- Addresses that shorten the same run, or none ----

  lemma {:induction false} PieceLessAt(p: seq<string>, q: seq<string>, j: nat)
    requires j < |p| && j < |q| && p[..j] == q[..j] && p[j] != q[j]
    ensures PieceLess(p, q) <==> Less(p[j] + After(p, j), q[j] + After(q, j))
  {
    if j > 0 {
      assert p[0] == p[..j][0] && q[0] == q[..j][0];
      assert p[1..][..j - 1] == p[..j][1..] && q[1..][..j - 1] == q[..j][1..];
      PieceLessAt(p[1..], q[1..], j - 1);
    }
  }

  /** The colon or the end after piece j. */
  function After(p: seq<string>, j: nat): string
    requires j < |p|
  {
    if j + 1 < |p| then ":" else ""
  }

  lemma {:induction false} HexInjective(a: nat, b: nat)
    requires HexText(a) == HexText(b)
    ensures a == b
  {
    if a >= 16 && b >= 16 {
      assert HexText(a)[..|HexText(a)| - 1] == HexText(a / 16) && HexText(b)[..|HexText(b)| - 1] == HexText(b / 16);
      HexInjective(a / 16, b / 16);
      assert LowerHex(a % 16) == LowerHex(b % 16);
    }
  }

  /** Which piece shows group i when the run from `start` to `end` is one empty piece. */
  function PieceOf(i: nat, start: nat, end: nat): nat
    requires i < start || end <= i
  {
    if i < start then i else (if start == 0 then 1 else start) + 1 + (i - end)
  }

  predicate SameRun(g: seq<Group>, h: seq<Group>) {
    RunStart(g) == RunStart(h) && RunEnd(g) == RunEnd(h)
  }

  lemma {:induction false} ZerosAre(g: seq<Group>, i: nat, j: nat)
    requires i <= |g| && i <= j < i + ZerosFrom(g, i)
    ensures g[j] == 0
    decreases |g| - i
  {
    if i < j {
      ZerosAre(g, i + 1, j);
    }
  }

  lemma SideShows(g: seq<Group>, i: nat)
    requires i < |g|
    ensures |Side(g)| == |g| && Side(g)[i] == HexText(g[i])
  {
  }

  lemma ShowsBefore(g: seq<Group>, i: nat)
    requires |g| == GROUPS && i < RunStart(g)
    ensures i < |Pieces(g)| && Pieces(g)[i] == HexText(g[i]) && (i + 1 < |Pieces(g)| <==> i + 1 < GROUPS)
  {
    SideShows(g[..RunStart(g)], i);
  }

  lemma ShowsAfter(g: seq<Group>, i: nat)
    requires |g| == GROUPS && RunStart(g) < GROUPS && RunEnd(g) <= i < GROUPS
    ensures var j := PieceOf(i, RunStart(g), RunEnd(g));
      j < |Pieces(g)| && Pieces(g)[j] == HexText(g[i]) && (j + 1 < |Pieces(g)| <==> i + 1 < GROUPS)
  {
    var before, after := Side(g[..RunStart(g)]) + [""], Side(g[RunEnd(g)..]);
    SideShows(g[RunEnd(g)..], i - RunEnd(g));
    SecondPart(before, after, i - RunEnd(g));
    assert Pieces(g) == before + after && PieceOf(i, RunStart(g), RunEnd(g)) == |before| + (i - RunEnd(g));
  }

  lemma SecondPart(before: seq<string>, after: seq<string>, k: nat)
    requires k < |after|
    ensures (before + after)[|before| + k] == after[k]
  {
  }

  /** Groups outside the run are shown in their own piece. */
  lemma PieceShows(g: seq<Group>, i: nat)
    requires |g| == GROUPS && i < |g| && (i < RunStart(g) || RunEnd(g) <= i)
    ensures var j := PieceOf(i, RunStart(g), RunEnd(g));
      j < |Pieces(g)| && Pieces(g)[j] == HexText(g[i]) && (j + 1 < |Pieces(g)| <==> i + 1 < GROUPS)
  {
    if i < RunStart(g) {
      ShowsBefore(g, i);
    } else {
      ShowsAfter(g, i);
    }
  }

  lemma DifferenceShows(g: seq<Group>, h: seq<Group>, i: nat)
    requires |g| == |h| == GROUPS && SameRun(g, h) && FirstDifference(g, h, i)
    ensures i < RunStart(g) || RunEnd(g) <= i
  {
    if RunStart(g) <= i < RunEnd(g) {
      ZerosAre(g, RunStart(g), i);
      ZerosAre(h, RunStart(h), i);
    }
  }

  lemma SamePieceCount(g: seq<Group>, h: seq<Group>)
    requires |g| == |h| == GROUPS && SameRun(g, h)
    ensures |Pieces(g)| == |Pieces(h)|
  {
  }

  lemma EarlierPieces(g: seq<Group>, h: seq<Group>, i: nat, k: nat)
    requires |g| == |h| == GROUPS && SameRun(g, h) && i < GROUPS && g[..i] == h[..i]
    requires (i < RunStart(g) || RunEnd(g) <= i) && k < PieceOf(i, RunStart(g), RunEnd(g))
    ensures k < |Pieces(g)| == |Pieces(h)| && Pieces(g)[k] == Pieces(h)[k]
  {
    var a, b := RunStart(g), RunEnd(g);
    assert forall m :: 0 <= m < i ==> g[m] == g[..i][m] == h[m];
    if i >= a {
      assert g[..a] == h[..a];
      if k > |Side(g[..a])| {
        assert g[b..][k - |Side(g[..a])| - 1] == h[b..][k - |Side(g[..a])| - 1];
      }
    }
  }

  /** When two addresses shorten the same run of zeros, or none, the order of their texts is that of the first
      groups that differ, each as hexadecimal text with the colon or the end that follows it. */
  lemma SameRunOrder(g: seq<Group>, h: seq<Group>, i: nat)
    requires |g| == |h| == GROUPS && SameRun(g, h) && FirstDifference(g, h, i)
    ensures var end := if i + 1 < GROUPS then ":" else "";
      Less(Canonical(g), Canonical(h)) <==> Less(HexText(g[i]) + end, HexText(h[i]) + end)
  {
    DifferenceShows(g, h, i);
    PieceShows(g, i);
    PieceShows(h, i);
    SamePieceCount(g, h);
    var p, q, j := Pieces(g), Pieces(h), PieceOf(i, RunStart(g), RunEnd(g));
    forall k | 0 <= k < j ensures p[k] == q[k] {
      EarlierPieces(g, h, i, k);
    }
    HexDiffers(g[i], h[i]);
    CanonicalLess(g, h);
    PieceLessAt(p, q, j);
  }

  lemma CanonicalLess(g: seq<Group>, h: seq<Group>)
    requires |g| == |h| == GROUPS
    ensures Less(Canonical(g), Canonical(h)) <==> PieceLess(Pieces(g), Pieces(h))
  {
    PiecesHaveNoColons(g);
    PiecesHaveNoColons(h);
    LessJoin(Pieces(g), Pieces(h));
  }

  lemma HexDiffers(a: nat, b: nat)
    requires a != b
    ensures HexText(a) != HexText(b)
  {
    if HexText(a) == HexText(b) {
      HexInjective(a, b);
    }
  }
}
