/** When merging paths closes a cycle although no edge is ever added beside its reverse. */
module MergeCycles {
  import opened Graphs
  import opened Layering
  import opened Options
  import opened PathHops
  import opened MergedGraph
  import opened GraphBuilding

  // ---- Rankings ----

  predicate Rises(rank: map<Key, int>, a: Key, b: Key) {
    a in rank && b in rank && rank[a] < rank[b]
  }

  ghost predicate EdgesRise(g: Graph, rank: map<Key, int>) {
    forall a, b :: HasEdge(g, a, b) ==> Rises(rank, a, b)
  }

  lemma {:induction false} RisingWalk(g: Graph, rank: map<Key, int>, p: seq<Key>)
    requires EdgesRise(g, rank) && IsWalk(g, p)
    ensures NoDup(p)
    ensures forall x :: x in p[1..] ==> Rises(rank, p[0], x)
  {
    if |p| > 1 {
      var rest := p[1..];
      RisingWalk(g, rank, rest);
      assert HasEdge(g, p[0], rest[0]);
      forall x | x in rest ensures Rises(rank, p[0], x) {
        assert x == rest[0] || x in rest[1..];
      }
      NoDupCons(p);
    }
  }

  /** Some walk from v has n edges. */
  ghost predicate WalkOf(g: Graph, v: Key, n: nat) {
    exists p :: IsWalk(g, p) && p[0] == v && |p| == n + 1
  }

  /** The most edges, up to n, that a walk from v has. */
  ghost function Reach(g: Graph, v: Key, n: nat): (most: nat)
    ensures most <= n
    ensures forall m: nat :: m <= n && WalkOf(g, v, m) ==> m <= most
  {
    if n == 0 || WalkOf(g, v, n) then n else Reach(g, v, n - 1)
  }

  lemma {:induction false} ReachIsWalk(g: Graph, v: Key, n: nat)
    requires v in g
    ensures WalkOf(g, v, Reach(g, v, n))
  {
    if n == 0 {
      assert IsWalk(g, [v]);
    } else if !WalkOf(g, v, n) {
      ReachIsWalk(g, v, n - 1);
    }
  }

  lemma ReachDrops(g: Graph, a: Key, b: Key)
    requires Closed(g) && Acyclic(g) && HasEdge(g, a, b)
    ensures Reach(g, b, |g.Keys|) < Reach(g, a, |g.Keys|)
  {
    var m := Reach(g, b, |g.Keys|);
    ReachIsWalk(g, b, |g.Keys|);
    var p :| IsWalk(g, p) && p[0] == b && |p| == m + 1;
    var q := [a] + p;
    assert q[1..] == p && IsWalk(g, q);
    if |q| > |g.Keys| {
      LongWalkRepeats(g, q);
    }
    assert WalkOf(g, a, m + 1);
  }

  /** A graph has no cycle exactly when one ranking rises along all its edges. */
  lemma AcyclicIffRanked(g: Graph)
    requires Closed(g)
    ensures Acyclic(g) <==> exists rank :: EdgesRise(g, rank)
  {
    if Acyclic(g) {
      var rank := map k | k in g :: -(Reach(g, k, |g.Keys|) as int);
      forall a, b | HasEdge(g, a, b) ensures Rises(rank, a, b) {
        ReachDrops(g, a, b);
      }
      assert EdgesRise(g, rank);
    }
    if rank :| EdgesRise(g, rank) {
      forall p | IsWalk(g, p) ensures NoDup(p) {
        RisingWalk(g, rank, p);
      }
    }
  }

  /** The computed layers tell: a graph has no cycle exactly when its exact layers drop along every edge. */
  lemma AcyclicIffLayered(g: Graph, layer: map<Key, nat>)
    requires Closed(g) && Exact(g, layer)
    ensures Acyclic(g) <==> forall a, b :: HasEdge(g, a, b) ==> layer[a] >= layer[b] + 1
  {
    if Acyclic(g) {
      AcyclicLayers(g, layer);
    } else if forall a, b :: HasEdge(g, a, b) ==> layer[a] >= layer[b] + 1 {
      assert EdgesRise(g, map k | k in layer :: -(layer[k] as int));
      AcyclicIffRanked(g);
    }
  }

  // ---- Which steps become edges ----

  /** The first path to step between a and b, if any, steps from a to b. */
  ghost predicate StepsFirst(chains: seq<seq<Key>>, a: Key, b: Key) {
    exists i :: 0 <= i < |chains| && Links(chains[i], a, b) && !SteppedBefore(chains, i, b, a)
  }

  ghost predicate SteppedBefore(chains: seq<seq<Key>>, i: nat, a: Key, b: Key)
    requires i <= |chains|
  {
    exists j :: 0 <= j < i && Links(chains[j], a, b)
  }

  lemma StepsFirstNext(front: seq<seq<Key>>, last: seq<Key>, a: Key, b: Key)
    ensures StepsFirst(front + [last], a, b) <==>
            StepsFirst(front, a, b) || (Links(last, a, b) && !SteppedBefore(front, |front|, b, a))
  {
    var chains := front + [last];
    forall i: nat, x, y | i <= |front| ensures SteppedBefore(chains, i, x, y) <==> SteppedBefore(front, i, x, y) {
      if j :| 0 <= j < i && Links(chains[j], x, y) {
        assert Links(front[j], x, y);
      }
      if j :| 0 <= j < i && Links(front[j], x, y) {
        assert Links(chains[j], x, y);
      }
    }
    if i :| 0 <= i < |front| && Links(front[i], a, b) && !SteppedBefore(front, i, b, a) {
      assert Links(chains[i], a, b) && !SteppedBefore(chains, i, b, a);
    }
    if Links(last, a, b) && !SteppedBefore(front, |front|, b, a) {
      assert Links(chains[|front|], a, b) && !SteppedBefore(chains, |front|, b, a);
    }
  }

  lemma SteppedNext(front: seq<seq<Key>>, last: seq<Key>, a: Key, b: Key)
    ensures SteppedBefore(front + [last], |front| + 1, a, b) ==>
            SteppedBefore(front, |front|, a, b) || Links(last, a, b)
  {
    if j :| 0 <= j < |front| + 1 && Links((front + [last])[j], a, b) {
      assert j < |front| ==> Links(front[j], a, b);
    }
  }

  /** Where two vertices are stepped between at all, one direction comes first. */
  lemma {:induction false} OneIsFirst(chains: seq<seq<Key>>, a: Key, b: Key)
    requires SteppedBefore(chains, |chains|, a, b)
    ensures StepsFirst(chains, a, b) || StepsFirst(chains, b, a)
  {
    var front, last := chains[..|chains| - 1], chains[|chains| - 1];
    assert chains == front + [last];
    StepsFirstNext(front, last, a, b);
    StepsFirstNext(front, last, b, a);
    if SteppedBefore(front, |front|, a, b) {
      OneIsFirst(front, a, b);
    } else if SteppedBefore(front, |front|, b, a) {
      OneIsFirst(front, b, a);
    } else {
      SteppedNext(front, last, a, b);
    }
  }

  /** The merged graph has an edge from a to b exactly when the first path to step between them goes that way. */
  lemma {:induction false} MergedEdgeIff(chains: seq<seq<Key>>, a: Key, b: Key)
    requires forall chain :: chain in chains ==> IsChain(chain)
    ensures HasEdge(Merge(chains), a, b) <==> StepsFirst(chains, a, b)
  {
    if chains != [] {
      var front, last := chains[..|chains| - 1], chains[|chains| - 1];
      assert chains == front + [last];
      MergedEdgeIff(front, a, b);
      MergedEdgeIff(front, b, a);
      MergeFansIn(front);
      AddChainFansIn(Merge(front), last);
      StepsFirstNext(front, last, a, b);
      if SteppedBefore(front, |front|, b, a) {
        OneIsFirst(front, b, a);
      }
      if StepsFirst(front, b, a) {
        var i :| 0 <= i < |front| && Links(front[i], b, a) && !SteppedBefore(front, i, a, b);
        assert SteppedBefore(front, |front|, b, a);
      }
    }
  }

  // ---- The conditions ----

  ghost predicate FirstStepsRise(chains: seq<seq<Key>>, rank: map<Key, int>) {
    forall a, b :: StepsFirst(chains, a, b) ==> Rises(rank, a, b)
  }

  /** Merged paths form no cycle exactly when one ranking of the vertices rises along every first step. */
  lemma MergeAcyclicIff(chains: seq<seq<Key>>)
    requires forall chain :: chain in chains ==> IsChain(chain)
    ensures Acyclic(Merge(chains)) <==> exists rank :: FirstStepsRise(chains, rank)
  {
    MergeFansIn(chains);
    AcyclicIffRanked(Merge(chains));
    forall a, b ensures HasEdge(Merge(chains), a, b) <==> StepsFirst(chains, a, b) {
      MergedEdgeIff(chains, a, b);
    }
    assert forall rank :: EdgesRise(Merge(chains), rank) <==> FirstStepsRise(chains, rank);
  }

  ghost predicate PathsRise(chains: seq<seq<Key>>, rank: map<Key, int>) {
    forall chain, a, b :: chain in chains && Links(chain, a, b) ==> Rises(rank, a, b)
  }

  /** No step of a path was dropped for its reverse. */
  ghost predicate KeepsSteps(chains: seq<seq<Key>>) {
    forall chain, a, b :: chain in chains && Links(chain, a, b) ==> HasEdge(Merge(chains), a, b)
  }

  /** The map of some paths has no cycle and shows every step of every path exactly when one ranking of the
      vertices rises along all the paths. */
  lemma ConsistentIff(chains: seq<seq<Key>>)
    requires forall chain :: chain in chains ==> IsChain(chain)
    ensures Acyclic(Merge(chains)) && KeepsSteps(chains) <==> exists rank :: PathsRise(chains, rank)
  {
    MergeFansIn(chains);
    AcyclicIffRanked(Merge(chains));
    if rank :| PathsRise(chains, rank) {
      forall a, b | HasEdge(Merge(chains), a, b) ensures Rises(rank, a, b) {
        var chain :| chain in chains && Links(chain, a, b);
      }
      assert EdgesRise(Merge(chains), rank);
      forall chain, a, b | chain in chains && Links(chain, a, b) ensures HasEdge(Merge(chains), a, b) {
        assert Rises(rank, a, b);
      }
    }
    if Acyclic(Merge(chains)) && KeepsSteps(chains) {
      var rank :| EdgesRise(Merge(chains), rank);
      assert PathsRise(chains, rank);
    }
  }

  // ---- Left to right ----

  /** A ranking by columns. */
  predicate OnTheMap(rank: map<Key, int>) {
    forall k :: k in rank ==> 0 <= rank[k] <= MAX_COLS
  }

  lemma {:induction false} RankedWalk(g: Graph, rank: map<Key, int>, p: seq<Key>)
    requires EdgesRise(g, rank) && IsWalk(g, p) && |p| > 1
    ensures p[0] in rank && p[|p| - 1] in rank && rank[p[|p| - 1]] >= rank[p[0]] + |p| - 1
  {
    assert HasEdge(g, p[0], p[1]);
    if |p| > 2 {
      RankedWalk(g, rank, p[1..]);
    }
  }

  lemma RankedWalksAreShort(g: Graph, rank: map<Key, int>)
    requires EdgesRise(g, rank) && OnTheMap(rank)
    ensures WalksAtMost(g, MAX_COLS)
  {
    forall p | IsWalk(g, p) ensures |p| <= MAX_COLS + 1 {
      if |p| > 1 {
        RankedWalk(g, rank, p);
      }
    }
  }

  /** Every edge of the map of some paths is drawn to a strictly larger column exactly when some ranking of the
      vertices by the columns there are rises along every first step. */
  lemma ForwardIffRanked(chains: seq<seq<Key>>, layer: map<Key, nat>, maxLayer: nat, col: map<Key, int>)
    requires forall chain :: chain in chains ==> IsChain(chain)
    requires Exact(Merge(chains), layer) && IsMaxLayer(layer, maxLayer) && Placed(layer, maxLayer, col)
    ensures LeftToRight(Merge(chains), col) <==> exists rank :: FirstStepsRise(chains, rank) && OnTheMap(rank)
  {
    var g := Merge(chains);
    MergeFansIn(chains);
    LeftToRightIff(g, layer, maxLayer, col);
    forall a, b ensures HasEdge(g, a, b) <==> StepsFirst(chains, a, b) {
      MergedEdgeIff(chains, a, b);
    }
    if LeftToRight(g, col) {
      assert FirstStepsRise(chains, col) && OnTheMap(col);
    }
    if rank :| FirstStepsRise(chains, rank) && OnTheMap(rank) {
      assert EdgesRise(g, rank);
      RankedWalksAreShort(g, rank);
    }
  }

  // ---- Entries whose map has a cycle ----

  /** Three nodes whose paths order three ASes in a ring. */
  function RingEntries(ids: (int, int, int), x: int, y: int, z: int): seq<Entry> {
    [Entry(ids.0, [x, y], false), Entry(ids.1, [y, z], false), Entry(ids.2, [z, x], false)]
  }

  function Ring(ids: (int, int, int), x: int, y: int, z: int): seq<seq<Key>> {
    [[NodeKey(ids.0), AsKey(x), AsKey(y)], [NodeKey(ids.1), AsKey(y), AsKey(z)], [NodeKey(ids.2), AsKey(z), AsKey(x)]]
  }

  lemma HopsOfTwo(id: int, x: int, y: int)
    requires x > 0 && y > 0 && x != y
    ensures HopsOf(Entry(id, [x, y], false)) == [x, y]
    ensures ChainOf(id, [x, y]) == [NodeKey(id), AsKey(x), AsKey(y)]
  {
    assert [x, y][1..] == [y] && [y][1..] == [];
    assert Positive([y]) == [y] && Positive([x, y]) == [x] + Positive([y]);
    assert [x, y][..1] == [x] && [x][..0] == [];
    assert FirstVisits([x]) == [x] && FirstVisits([x, y]) == [x] + [y];
  }

  lemma RingIsDrawn(ids: (int, int, int), x: int, y: int, z: int)
    requires ids.0 != ids.1 && ids.1 != ids.2 && ids.2 != ids.0
    requires x > 0 && y > 0 && z > 0 && x != y && y != z && z != x
    ensures ChainsOf(Drawn(RingEntries(ids, x, y, z), None)) == Ring(ids, x, y, z)
  {
    HopsOfTwo(ids.0, x, y);
    HopsOfTwo(ids.1, y, z);
    HopsOfTwo(ids.2, z, x);
    var e := RingEntries(ids, x, y, z);
    var n0, n1, n2 := NodeGroup(ids.0, [[x, y]]), NodeGroup(ids.1, [[y, z]]), NodeGroup(ids.2, [[z, x]]);
    NewGroup([], e[0]);
    assert Grouped([e[0]]) == [n0] by { assert [] + [e[0]] == [e[0]]; }
    NewGroup([e[0]], e[1]);
    assert Grouped([e[0], e[1]]) == [n0, n1] by { assert [e[0]] + [e[1]] == [e[0], e[1]]; }
    NewGroup([e[0], e[1]], e[2]);
    assert Grouped(e) == [n0, n1, n2] by { assert [e[0], e[1]] + [e[2]] == e; }
    RingChains(ids, x, y, z);
  }

  lemma RingChains(ids: (int, int, int), x: int, y: int, z: int)
    ensures ChainsOf([NodeGroup(ids.0, [[x, y]]), NodeGroup(ids.1, [[y, z]]), NodeGroup(ids.2, [[z, x]])]) ==
      [ChainOf(ids.0, [x, y]), ChainOf(ids.1, [y, z]), ChainOf(ids.2, [z, x])]
  {
    var n0, n1, n2 := NodeGroup(ids.0, [[x, y]]), NodeGroup(ids.1, [[y, z]]), NodeGroup(ids.2, [[z, x]]);
    ChainsOfNext([], ids.0, [x, y]);
    ChainsOfNext([n0], ids.1, [y, z]);
    ChainsOfNext([n0, n1], ids.2, [z, x]);
    assert [] + [n0] == [n0] && [n0] + [n1] == [n0, n1] && [n0, n1] + [n2] == [n0, n1, n2];
  }

  lemma ChainsOfNext(groups: seq<NodeGroup>, id: int, path: seq<int>)
    ensures ChainsOf(groups + [NodeGroup(id, [path])]) == ChainsOf(groups) + [ChainOf(id, path)]
  {
    assert (groups + [NodeGroup(id, [path])])[..|groups|] == groups;
    assert GroupChains(id, [path]) == [ChainOf(id, path)];
  }

  lemma LinksOfThree(x: Key, y: Key, z: Key)
    ensures forall a, b :: Links([x, y, z], a, b) <==> (a == x && b == y) || (a == y && b == z)
  {
    var chain := [x, y, z];
    assert chain[0] == x && chain[1] == y && chain[2] == z;
  }

  lemma TriangleRepeats(g: Graph, a: Key, b: Key, c: Key)
    requires HasEdge(g, a, b) && HasEdge(g, b, c) && HasEdge(g, c, a)
    ensures ReachesCycle(g, a)
  {
    var loop := [a, b, c, a];
    assert loop[1..] == [b, c, a] && [b, c, a][1..] == [c, a] && [c, a][1..] == [a];
    assert IsWalk(g, [a]) && IsWalk(g, [c, a]) && IsWalk(g, [b, c, a]) && IsWalk(g, loop);
    assert loop[0] == loop[3];
  }

  lemma RingEdges(ids: (int, int, int), x: int, y: int, z: int)
    requires x != y && y != z && z != x
    ensures forall chain :: chain in Ring(ids, x, y, z) ==> IsChain(chain)
    ensures var g := Merge(Ring(ids, x, y, z));
      HasEdge(g, AsKey(x), AsKey(y)) && HasEdge(g, AsKey(y), AsKey(z)) && HasEdge(g, AsKey(z), AsKey(x))
  {
    var chains := Ring(ids, x, y, z);
    LinksOfThree(chains[0][0], AsKey(x), AsKey(y));
    LinksOfThree(chains[1][0], AsKey(y), AsKey(z));
    LinksOfThree(chains[2][0], AsKey(z), AsKey(x));
    MergedEdgeIff(chains, AsKey(x), AsKey(y));
    MergedEdgeIff(chains, AsKey(y), AsKey(z));
    MergedEdgeIff(chains, AsKey(z), AsKey(x));
    assert Links(chains[0], AsKey(x), AsKey(y)) && !SteppedBefore(chains, 0, AsKey(y), AsKey(x));
    assert Links(chains[1], AsKey(y), AsKey(z)) && !SteppedBefore(chains, 1, AsKey(z), AsKey(y));
    assert Links(chains[2], AsKey(z), AsKey(x)) && !SteppedBefore(chains, 2, AsKey(x), AsKey(z));
  }

  /** Any three nodes and any three ASes: such entries close a cycle that no pairwise check refuses, and some
      edge of it points left. */
  lemma CycleCanForm(ids: (int, int, int), x: int, y: int, z: int)
    requires ids.0 != ids.1 && ids.1 != ids.2 && ids.2 != ids.0
    requires x > 0 && y > 0 && z > 0 && x != y && y != z && z != x
    ensures var g := Merge(ChainsOf(Drawn(RingEntries(ids, x, y, z), None)));
      ReachesCycle(g, AsKey(x)) && !Acyclic(g) && !WalksAtMost(g, MAX_COLS)
  {
    var g := Merge(Ring(ids, x, y, z));
    RingIsDrawn(ids, x, y, z);
    RingEdges(ids, x, y, z);
    TriangleRepeats(g, AsKey(x), AsKey(y), AsKey(z));
    MergeFansIn(Ring(ids, x, y, z));
    var long := CycleWalk(g, AsKey(x), MAX_COLS + 1);
  }
}
