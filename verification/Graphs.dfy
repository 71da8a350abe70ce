/** Directed graphs over the boxes of the network map, their walks and their cycles. */
module Graphs {

  /** A box of the map: a looking-glass node or an autonomous system. */
  datatype Key = NodeKey(id: int) | AsKey(asn: int)

  /** The successors of every vertex. */
  type Graph = map<Key, set<Key>>

  predicate HasEdge(g: Graph, a: Key, b: Key) {
    a in g && b in g[a]
  }

  /** Every edge ends at a vertex of the graph. */
  ghost predicate Closed(g: Graph) {
    forall a, b :: HasEdge(g, a, b) ==> b in g
  }

  ghost predicate IsWalk(g: Graph, p: seq<Key>) {
    && p != []
    && p[0] in g
    && (|p| > 1 ==> p[1] in g[p[0]] && IsWalk(g, p[1..]))
  }

  ghost predicate NoDup<T>(p: seq<T>) {
    forall i, j :: 0 <= i < j < |p| ==> p[i] != p[j]
  }

  /** Some walk from v visits a vertex twice, so v can reach a cycle. */
  ghost predicate ReachesCycle(g: Graph, v: Key) {
    exists p :: IsWalk(g, p) && p[0] == v && !NoDup(p)
  }

  ghost predicate Acyclic(g: Graph) {
    forall p :: IsWalk(g, p) ==> NoDup(p)
  }

  /** The longest walk from v has exactly n edges. */
  ghost predicate LongestWalk(g: Graph, v: Key, n: nat) {
    && (exists p :: IsWalk(g, p) && p[0] == v && |p| == n + 1)
    && (forall p :: IsWalk(g, p) && p[0] == v ==> |p| <= n + 1)
  }

  /** No walk of the graph has more than n edges. */
  ghost predicate WalksAtMost(g: Graph, n: nat) {
    forall p :: IsWalk(g, p) ==> |p| <= n + 1
  }

  lemma TakeNext<T>(s: seq<T>, i: nat)
    requires i < |s|
    ensures s[..i + 1] == s[..i] + [s[i]] && s[..i + 1][..i] == s[..i]
  {
  }

  lemma TakeAll<T>(s: seq<T>)
    ensures s[..|s|] == s
  {
  }

  lemma NoDupAppend<T>(p: seq<T>, x: T)
    requires NoDup(p) && x !in p
    ensures NoDup(p + [x]) && forall y :: y in p + [x] <==> y in p || y == x
  {
  }

  lemma NoDupSize<T>(p: seq<T>, s: set<T>)
    requires NoDup(p) && forall x :: x in p ==> x in s
    ensures |p| <= |s|
  {
    if p == [] {
    } else {
      NoDupSize(p[1..], s - {p[0]});
    }
  }

  lemma {:induction false} WalkStays(g: Graph, p: seq<Key>)
    requires Closed(g) && IsWalk(g, p)
    ensures forall x :: x in p ==> x in g
  {
    if |p| == 1 {
    } else {
      WalkStays(g, p[1..]);
      assert p == [p[0]] + p[1..];
    }
  }

  /** A walk with more vertices than the graph has must visit one of them twice. */
  lemma LongWalkRepeats(g: Graph, p: seq<Key>)
    requires Closed(g) && IsWalk(g, p) && |p| > |g.Keys|
    ensures !NoDup(p)
  {
    WalkStays(g, p);
    if NoDup(p) {
      NoDupSize(p, g.Keys);
    }
  }

  /** A longest walk ends at a sink: otherwise one more step would make it longer. */
  lemma {:induction false} ExtendWalk(g: Graph, p: seq<Key>, w: Key)
    requires IsWalk(g, p) && Closed(g) && w in g && HasEdge(g, p[|p| - 1], w)
    ensures IsWalk(g, p + [w])
  {
    if |p| == 1 {
      assert (p + [w])[1..] == [w];
    } else {
      ExtendWalk(g, p[1..], w);
      assert (p + [w])[1..] == p[1..] + [w];
    }
  }
}
