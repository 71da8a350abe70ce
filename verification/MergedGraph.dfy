/** Merging the paths of all nodes into one graph, and the columns it is drawn in. */
module MergedGraph {
  import opened Graphs
  import opened Layering

  const MAX_COLS := 14

  /** The boxes one path runs through: its node, then its hops, none of them twice. */
  ghost predicate IsChain(chain: seq<Key>) {
    && |chain| >= 2 && NoDup(chain)
    && chain[0].NodeKey?
    && (forall i :: 0 < i < |chain| ==> chain[i].AsKey?)
  }

  ghost predicate Links(chain: seq<Key>, a: Key, b: Key) {
    exists i, j :: 0 <= i && j == i + 1 && j < |chain| && chain[i] == a && chain[j] == b
  }

  // ---- What touchVertex and linkVertices do to the successor sets ----

  function Touch(g: Graph, k: Key): Graph {
    if k in g then g else g[k := {}]
  }

  function TouchAll(g: Graph, ks: seq<Key>): Graph {
    if ks == [] then g else Touch(TouchAll(g, ks[..|ks| - 1]), ks[|ks| - 1])
  }

  /** An edge is dropped when its reverse is already there. */
  function Link(g: Graph, a: Key, b: Key): Graph
    requires a in g
  {
    if HasEdge(g, a, b) || HasEdge(g, b, a) then g else With(g, a, b)
  }

  function LinkChain(g: Graph, chain: seq<Key>): (linked: Graph)
    requires forall k :: k in chain ==> k in g
    ensures linked.Keys == g.Keys
  {
    if |chain| < 2 then g
    else
      var front := chain[..|chain| - 1];
      Link(LinkChain(g, front), chain[|chain| - 2], chain[|chain| - 1])
  }

  function AddChain(g: Graph, chain: seq<Key>): Graph {
    TouchAllKeys(g, chain);
    LinkChain(TouchAll(g, chain), chain)
  }

  /** The graph of a list of paths, merged in order. */
  function Merge(chains: seq<seq<Key>>): Graph {
    if chains == [] then map[] else AddChain(Merge(chains[..|chains| - 1]), chains[|chains| - 1])
  }

  lemma {:induction false} TouchAllKeys(g: Graph, ks: seq<Key>)
    ensures forall k :: k in TouchAll(g, ks) <==> k in g || k in ks
    ensures forall a, b :: HasEdge(TouchAll(g, ks), a, b) <==> HasEdge(g, a, b)
  {
    if ks == [] {
    } else {
      TouchAllKeys(g, ks[..|ks| - 1]);
      assert ks == ks[..|ks| - 1] + [ks[|ks| - 1]];
    }
  }

  // ---- What every merged graph satisfies ----

  /** No edge has its reverse, edges lead to ASes of the graph, and every AS has an incoming edge. */
  ghost predicate FanIn(g: Graph) {
    && Closed(g)
    && (forall a, b :: HasEdge(g, a, b) ==> b.AsKey? && !HasEdge(g, b, a))
    && (forall k :: k in g && k.AsKey? ==> HasPredecessor(g, k))
  }

  ghost predicate HasPredecessor(g: Graph, k: Key) {
    exists a :: HasEdge(g, a, k)
  }

  /** Linking adds only consecutive pairs of the chain, adds each of them unless its reverse is
      there, and never removes an edge. */
  lemma {:induction false} LinkChainEdges(g: Graph, chain: seq<Key>)
    requires (forall k :: k in chain ==> k in g) && NoDup(chain)
    requires forall a, b :: HasEdge(g, a, b) ==> !HasEdge(g, b, a)
    ensures var linked := LinkChain(g, chain);
            && (forall a, b :: HasEdge(g, a, b) ==> HasEdge(linked, a, b))
            && (forall a, b :: HasEdge(linked, a, b) ==> HasEdge(g, a, b) || Links(chain, a, b))
            && (forall a, b :: Links(chain, a, b) ==> HasEdge(linked, a, b) || HasEdge(g, b, a))
            && (forall a, b :: HasEdge(linked, a, b) ==> !HasEdge(linked, b, a))
  {
    if |chain| >= 2 {
      var front, a, b := chain[..|chain| - 1], chain[|chain| - 2], chain[|chain| - 1];
      assert front == chain[..|chain| - 1] && front[|front| - 1] == a;
      LinkChainEdges(g, front);
      LinksFront(chain);
      var before := LinkChain(g, front);
      assert Links(chain, a, b) by { assert chain[|chain| - 2] == a && chain[|chain| - 1] == b; }
      assert !Links(front, b, a) by { assert b !in front; }
    }
  }

  lemma LinksFront(chain: seq<Key>)
    requires |chain| >= 2
    ensures forall a, b :: Links(chain, a, b) <==>
              Links(chain[..|chain| - 1], a, b) || (a == chain[|chain| - 2] && b == chain[|chain| - 1])
  {
    var front := chain[..|chain| - 1];
    forall a, b | Links(chain, a, b)
      ensures Links(front, a, b) || (a == chain[|chain| - 2] && b == chain[|chain| - 1])
    {
      var i, j :| 0 <= i && j == i + 1 && j < |chain| && chain[i] == a && chain[j] == b;
      if j < |front| {
        assert front[i] == a && front[j] == b;
      }
    }
    forall a, b | Links(front, a, b) ensures Links(chain, a, b) {
      var i, j :| 0 <= i && j == i + 1 && j < |front| && front[i] == a && front[j] == b;
      assert chain[i] == a && chain[j] == b;
    }
  }

  lemma AddChainFansIn(g: Graph, chain: seq<Key>)
    requires FanIn(g) && IsChain(chain)
    ensures FanIn(AddChain(g, chain))
    ensures forall k :: k in AddChain(g, chain) <==> k in g || k in chain
    ensures forall a, b :: HasEdge(g, a, b) ==> HasEdge(AddChain(g, chain), a, b)
    ensures forall a, b :: HasEdge(AddChain(g, chain), a, b) ==> HasEdge(g, a, b) || Links(chain, a, b)
    ensures forall a, b :: Links(chain, a, b) ==> HasEdge(AddChain(g, chain), a, b) || HasEdge(g, b, a)
  {
    var touched, linked := TouchAll(g, chain), AddChain(g, chain);
    TouchAllKeys(g, chain);
    LinkChainEdges(touched, chain);
    forall a, b | Links(chain, a, b) ensures b.AsKey? && b in chain {
      LinkEnds(chain, a, b);
    }
    forall a, b | HasEdge(linked, a, b) ensures b.AsKey? && b in linked && !HasEdge(linked, b, a) {
      if HasEdge(g, a, b) {
        assert b in g;
      } else {
        assert Links(chain, a, b);
      }
    }
    forall k | k in linked && k.AsKey? ensures HasPredecessor(linked, k) {
      if k in g {
        assert HasPredecessor(g, k);
        var a :| HasEdge(g, a, k);
        assert HasEdge(linked, a, k);
      } else {
        var a := LinkInto(chain, k);
        assert !HasEdge(g, k, a);
      }
    }
  }

  lemma LinkEnds(chain: seq<Key>, a: Key, b: Key)
    requires IsChain(chain) && Links(chain, a, b)
    ensures b.AsKey? && b in chain
  {
  }

  lemma LinkInto(chain: seq<Key>, k: Key) returns (a: Key)
    requires IsChain(chain) && k in chain && k.AsKey?
    ensures Links(chain, a, k)
  {
    var j :| 0 <= j < |chain| && chain[j] == k;
    a := chain[j - 1];
  }

  /** Every merged graph fans in from its nodes; its vertices are those of the paths, its edges are
      steps of paths, and every step of a path is there in one direction. */
  lemma {:induction false} MergeFansIn(chains: seq<seq<Key>>)
    requires forall chain :: chain in chains ==> IsChain(chain)
    ensures FanIn(Merge(chains))
    ensures forall k :: k in Merge(chains) <==> exists chain :: chain in chains && k in chain
    ensures forall a, b :: HasEdge(Merge(chains), a, b) ==> exists chain :: chain in chains && Links(chain, a, b)
    ensures forall chain, a, b :: chain in chains && Links(chain, a, b) ==>
              HasEdge(Merge(chains), a, b) || HasEdge(Merge(chains), b, a)
  {
    if chains == [] {
    } else {
      var front, last := chains[..|chains| - 1], chains[|chains| - 1];
      assert chains == front + [last];
      MergeFansIn(front);
      AddChainFansIn(Merge(front), last);
      var before, g := Merge(front), Merge(chains);
      forall k ensures k in g <==> exists chain :: chain in chains && k in chain {
        assert k in g <==> k in before || k in last;
      }
      forall a, b | HasEdge(g, a, b) ensures exists chain :: chain in chains && Links(chain, a, b) {
        if HasEdge(before, a, b) {
          var chain :| chain in front && Links(chain, a, b);
          assert chain in chains;
        } else {
          assert last in chains && Links(last, a, b);
        }
      }
    }
  }

  // ---- Columns ----

  /** Nodes are pinned to column 0; ASes are placed by their distance from the deepest layer. */
  function ColumnOf(k: Key, layer: nat, maxLayer: nat): (col: int)
    ensures k.NodeKey? <==> col == 0
    ensures 0 <= col <= MAX_COLS
    ensures k.AsKey? && 0 < maxLayer - layer <= MAX_COLS ==> col == maxLayer - layer
  {
    if k.NodeKey? then 0
    else
      var col := if maxLayer - layer < MAX_COLS then maxLayer - layer else MAX_COLS;
      if col < 1 then 1 else col
  }

  ghost predicate IsMaxLayer(layer: map<Key, nat>, maxLayer: nat) {
    && (forall k :: k in layer ==> layer[k] <= maxLayer)
    && (exists k :: k in layer && layer[k] == maxLayer)
  }

  ghost predicate Placed(layer: map<Key, nat>, maxLayer: nat, col: map<Key, int>) {
    col.Keys == layer.Keys && forall k :: k in col ==> col[k] == ColumnOf(k, layer[k], maxLayer)
  }

  method Deepest(keys: seq<Key>, layer: map<Key, nat>) returns (maxLayer: nat)
    requires keys != [] && (forall k :: k in keys <==> k in layer)
    ensures IsMaxLayer(layer, maxLayer)
  {
    maxLayer := layer[keys[0]];
    for i := 1 to |keys|
      invariant forall j :: 0 <= j < i ==> layer[keys[j]] <= maxLayer
      invariant exists k :: k in layer && layer[k] == maxLayer
    {
      if layer[keys[i]] > maxLayer {
        maxLayer := layer[keys[i]];
      }
    }
  }

  method PlaceColumns(keys: seq<Key>, g: Graph)
    returns (col: map<Key, int>, ghost layer: map<Key, nat>, ghost maxLayer: nat)
    requires keys != [] && NoDup(keys) && (forall k :: k in keys <==> k in g) && Closed(g)
    ensures Exact(g, layer) && IsMaxLayer(layer, maxLayer) && Placed(layer, maxLayer, col)
  {
    ghost var order;
    var depth;
    depth, order := LayerVertices(keys, g);
    var deepest := Deepest(keys, depth);
    layer, maxLayer := depth, deepest;
    col := map[];
    for i := 0 to |keys|
      invariant forall k :: k in col <==> k in keys[..i]
      invariant forall k :: k in col ==> col[k] == ColumnOf(k, depth[k], deepest)
    {
      col := col[keys[i] := ColumnOf(keys[i], depth[keys[i]], deepest)];
    }
    assert keys[..|keys|] == keys;
  }

  /** Every edge is drawn to a strictly larger column. */
  ghost predicate LeftToRight(g: Graph, col: map<Key, int>) {
    g.Keys <= col.Keys && forall a, b :: HasEdge(g, a, b) && b in col ==> col[a] < col[b]
  }

  lemma {:induction false} ColumnsBoundWalks(g: Graph, col: map<Key, int>, p: seq<Key>)
    requires Closed(g) && LeftToRight(g, col) && IsWalk(g, p)
    ensures p[|p| - 1] in col && col[p[|p| - 1]] >= col[p[0]] + |p| - 1
  {
    if |p| > 1 {
      assert HasEdge(g, p[0], p[1]);
      ColumnsBoundWalks(g, col, p[1..]);
    }
  }

  /** Without walks of more than n edges there is no cycle, and no layer exceeds n. */
  lemma BoundedWalks(g: Graph, layer: map<Key, nat>, n: nat)
    requires Closed(g) && Exact(g, layer) && WalksAtMost(g, n)
    ensures forall v :: v in g ==> v in CycleFree(g) && layer[v] <= n
  {
    forall v | v in g ensures v in CycleFree(g) && layer[v] <= n {
      if v !in CycleFree(g) {
        var p := CycleWalk(g, v, n + 1);
        assert false;
      }
      assert LongestWalk(g, v, layer[v]);
    }
  }

  /** From a vertex that reaches a cycle there are walks of every length. */
  lemma {:induction false} CycleWalk(g: Graph, v: Key, n: nat) returns (p: seq<Key>)
    requires Closed(g) && ReachesCycle(g, v)
    ensures IsWalk(g, p) && p[0] == v && |p| == n + 1
    decreases n
  {
    var q :| IsWalk(g, q) && q[0] == v && !NoDup(q);
    var s := StepTowardsCycle(g, q);
    assert v in g;
    if n == 0 {
      p := [v];
    } else {
      var rest := CycleWalk(g, s, n - 1);
      p := [v] + rest;
      assert p[1..] == rest;
    }
  }

  /** The successor through which a repeating walk continues reaches a cycle as well. */
  lemma StepTowardsCycle(g: Graph, q: seq<Key>) returns (s: Key)
    requires Closed(g) && IsWalk(g, q) && !NoDup(q)
    ensures HasEdge(g, q[0], s) && ReachesCycle(g, s)
  {
    s := q[1];
    if NoDup(q[1..]) {
      // The repeated vertex is the first one, so going round once more repeats the second.
      var j :| 0 < j < |q| && q[j] == q[0] by {
        if forall j :: 0 < j < |q| ==> q[j] != q[0] {
          assert q[0] !in q[1..];
          NoDupCons(q);
        }
      }
      var around := RoundTrip(g, q, j);
    } else {
      assert IsWalk(g, q[1..]) && q[1..][0] == s;
    }
  }

  lemma RoundTrip(g: Graph, q: seq<Key>, j: nat) returns (around: seq<Key>)
    requires Closed(g) && IsWalk(g, q) && 0 < j < |q| && q[j] == q[0]
    ensures IsWalk(g, around) && around[0] == q[1] && !NoDup(around)
  {
    WalkStays(g, q);
    var loop := q[1..j + 1];
    WalkPrefix(g, q[1..], j);
    assert q[1..][..j] == loop;
    assert q[1] in q;
    ExtendWalk(g, loop, q[1]);
    around := loop + [q[1]];
    CloseLoop(loop, q[1]);
  }

  lemma CloseLoop(loop: seq<Key>, k: Key)
    requires loop != [] && loop[0] == k
    ensures (loop + [k])[0] == k && !NoDup(loop + [k])
  {
    assert (loop + [k])[|loop|] == k;
  }

  lemma {:induction false} WalkPrefix(g: Graph, p: seq<Key>, n: nat)
    requires IsWalk(g, p) && 0 < n <= |p|
    ensures IsWalk(g, p[..n])
  {
    if n > 1 {
      WalkPrefix(g, p[1..], n - 1);
      assert p[..n][1..] == p[1..][..n - 1];
    }
  }

  /** Edges of a merged graph all point left to right exactly when no walk of it has more than
      MAX_COLS edges. A cycle has walks of every length, so acyclicity is part of the condition. */
  lemma LeftToRightIff(g: Graph, layer: map<Key, nat>, maxLayer: nat, col: map<Key, int>)
    requires FanIn(g) && Exact(g, layer) && IsMaxLayer(layer, maxLayer) && Placed(layer, maxLayer, col)
    ensures LeftToRight(g, col) <==> WalksAtMost(g, MAX_COLS)
  {
    if WalksAtMost(g, MAX_COLS) {
      BoundedWalks(g, layer, MAX_COLS);
      forall a, b | HasEdge(g, a, b) ensures col[a] < col[b] {
        assert b in CycleFree(g) && layer[a] >= layer[b] + 1;
        if a.AsKey? {
          assert HasPredecessor(g, a);
          var u :| HasEdge(g, u, a);
          assert layer[u] >= layer[a] + 1;
        }
      }
    }
    if LeftToRight(g, col) {
      forall p | IsWalk(g, p) ensures |p| <= MAX_COLS + 1 {
        ColumnsBoundWalks(g, col, p);
      }
    }
  }

  /** Whatever the graph, an edge out of a node goes right, and an edge into a vertex that reaches
      no cycle never goes left. */
  lemma NeverLeft(g: Graph, layer: map<Key, nat>, maxLayer: nat, col: map<Key, int>, a: Key, b: Key)
    requires FanIn(g) && Exact(g, layer) && IsMaxLayer(layer, maxLayer) && Placed(layer, maxLayer, col)
    requires HasEdge(g, a, b)
    ensures a.NodeKey? ==> col[a] < col[b]
    ensures b in CycleFree(g) ==> col[a] <= col[b]
  {
    assert b in g;
  }
}
