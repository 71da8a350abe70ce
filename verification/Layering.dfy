/** Longest-path layering of the network map: Kahn's algorithm started from the sinks. */
module Layering {
  import opened Graphs

  /** What the algorithm has established once its queue is empty, for the vertices it dequeued. */
  ghost predicate Settled(g: Graph, done: set<Key>, layer: map<Key, nat>) {
    && done <= g.Keys
    && layer.Keys == g.Keys
    && (forall v, s :: HasEdge(g, v, s) && v in done ==> s in done)
    && (forall v {:trigger LeadsOut(g, done, v)} :: v in g && v !in done ==> LeadsOut(g, done, v))
    && (forall v, s :: HasEdge(g, v, s) && s in done ==> layer[v] >= layer[s] + 1)
    && (forall v {:trigger Supported(g, done, layer, v)} :: v in g ==> Supported(g, done, layer, v))
  }

  /** Some successor of v is outside `done`. */
  ghost predicate LeadsOut(g: Graph, done: set<Key>, v: Key) {
    exists s :: HasEdge(g, v, s) && s !in done
  }

  /** The layer of v is no larger than its successors in `done` call for. */
  ghost predicate Supported(g: Graph, done: set<Key>, layer: map<Key, nat>, v: Key) {
    v in layer && (layer[v] == 0 || exists s :: HasEdge(g, v, s) && s in done && s in layer && layer[v] == layer[s] + 1)
  }

  /** The vertices from which no cycle can be reached. */
  ghost function CycleFree(g: Graph): set<Key> {
    set v | v in g && !ReachesCycle(g, v)
  }

  /** The declarative meaning of a layer assignment, for any graph: the longest walk where there
      is one, and one more than the deepest cycle-free successor for a vertex that reaches a cycle. */
  ghost predicate Exact(g: Graph, layer: map<Key, nat>) {
    && layer.Keys == g.Keys
    && (forall v :: v in CycleFree(g) ==> LongestWalk(g, v, layer[v]))
    && (forall v, s :: HasEdge(g, v, s) && s in CycleFree(g) ==> layer[v] >= layer[s] + 1)
    && (forall v {:trigger Supported(g, CycleFree(g), layer, v)} :: v in g ==> Supported(g, CycleFree(g), layer, v))
  }

  lemma {:induction false} SettledWalk(g: Graph, done: set<Key>, layer: map<Key, nat>, p: seq<Key>)
    requires Closed(g) && Settled(g, done, layer) && IsWalk(g, p) && p[0] in done
    ensures |p| <= layer[p[0]] + 1 && NoDup(p)
    ensures forall x :: x in p[1..] ==> x in layer && layer[x] < layer[p[0]]
  {
    if |p| == 1 {
    } else {
      var rest := p[1..];
      assert HasEdge(g, p[0], p[1]);
      SettledWalk(g, done, layer, rest);
      assert layer[rest[0]] < layer[p[0]];
      forall x | x in rest ensures x in layer && layer[x] < layer[p[0]] {
        assert x == rest[0] || x in rest[1..];
      }
      NoDupCons(p);
    }
  }

  lemma NoDupCons(p: seq<Key>)
    requires p != [] && p[0] !in p[1..] && NoDup(p[1..])
    ensures NoDup(p)
  {
    forall i, j | 0 <= i < j < |p| ensures p[i] != p[j] {
      assert p[j] == p[1..][j - 1];
      if i > 0 {
        assert p[i] == p[1..][i - 1];
      }
    }
  }

  lemma {:induction false} DeepestWalk(g: Graph, done: set<Key>, layer: map<Key, nat>, v: Key) returns (p: seq<Key>)
    requires Closed(g) && Settled(g, done, layer) && v in done
    ensures IsWalk(g, p) && p[0] == v && |p| == layer[v] + 1
    decreases layer[v]
  {
    if layer[v] == 0 {
      p := [v];
    } else {
      assert Supported(g, done, layer, v);
      var s :| HasEdge(g, v, s) && s in done && s in layer && layer[v] == layer[s] + 1;
      var rest := DeepestWalk(g, done, layer, s);
      p := [v] + rest;
      assert p[1..] == rest;
    }
  }

  /** A vertex that was never dequeued keeps an undequeued successor, so it has walks of every length. */
  lemma {:induction false} UnsettledWalk(g: Graph, done: set<Key>, layer: map<Key, nat>, v: Key, n: nat)
    returns (p: seq<Key>)
    requires Closed(g) && Settled(g, done, layer) && v in g && v !in done
    ensures IsWalk(g, p) && p[0] == v && |p| == n + 1
    decreases n
  {
    if n == 0 {
      p := [v];
    } else {
      assert LeadsOut(g, done, v);
      var s :| HasEdge(g, v, s) && s !in done;
      var rest := UnsettledWalk(g, done, layer, s, n - 1);
      p := [v] + rest;
      assert p[1..] == rest;
    }
  }

  lemma DoneIffCycleFree(g: Graph, done: set<Key>, layer: map<Key, nat>, v: Key)
    requires Closed(g) && Settled(g, done, layer) && v in g
    ensures v in done <==> !ReachesCycle(g, v)
  {
    if v in done {
      forall p | IsWalk(g, p) && p[0] == v ensures NoDup(p) {
        SettledWalk(g, done, layer, p);
      }
    } else {
      var p := UnsettledWalk(g, done, layer, v, |g.Keys|);
      LongWalkRepeats(g, p);
    }
  }

  lemma SettledIsExact(g: Graph, done: set<Key>, layer: map<Key, nat>)
    requires Closed(g) && Settled(g, done, layer)
    ensures done == CycleFree(g) && Exact(g, layer)
  {
    forall v | v in g ensures v in done <==> !ReachesCycle(g, v) {
      DoneIffCycleFree(g, done, layer, v);
    }
    assert done == CycleFree(g);
    forall v | v in done ensures LongestWalk(g, v, layer[v]) {
      DoneIsLongest(g, done, layer, v);
    }
  }

  lemma DoneIsLongest(g: Graph, done: set<Key>, layer: map<Key, nat>, v: Key)
    requires Closed(g) && Settled(g, done, layer) && v in done
    ensures LongestWalk(g, v, layer[v])
  {
    var p := DeepestWalk(g, done, layer, v);
    forall q | IsWalk(g, q) && q[0] == v ensures |q| <= layer[v] + 1 {
      SettledWalk(g, done, layer, q);
    }
  }

  /** On an acyclic graph the layering is the longest distance to a sink, for every vertex. */
  lemma AcyclicLayers(g: Graph, layer: map<Key, nat>)
    requires Closed(g) && Acyclic(g) && Exact(g, layer)
    ensures forall v :: v in g ==> LongestWalk(g, v, layer[v])
    ensures forall a, b :: HasEdge(g, a, b) ==> layer[a] >= layer[b] + 1
    ensures forall v, p :: v in g && IsWalk(g, p) && p[0] == v && |p| == layer[v] + 1 ==> EndsAtSink(g, p)
  {
    assert forall v :: v in g ==> v in CycleFree(g);
    forall v, p | v in g && IsWalk(g, p) && p[0] == v && |p| == layer[v] + 1 ensures EndsAtSink(g, p) {
      LongestEndsAtSink(g, p);
    }
  }

  ghost predicate EndsAtSink(g: Graph, p: seq<Key>) {
    p != [] && p[|p| - 1] in g && g[p[|p| - 1]] == {}
  }

  lemma LongestEndsAtSink(g: Graph, p: seq<Key>)
    requires Closed(g) && IsWalk(g, p) && LongestWalk(g, p[0], |p| - 1)
    ensures EndsAtSink(g, p)
  {
    WalkStays(g, p);
    var last := p[|p| - 1];
    assert last in p;
    if w :| w in g[last] {
      assert HasEdge(g, last, w);
      ExtendWalk(g, p, w);
    }
  }

  /** Layering is a function of the graph alone: queue and successor order cannot change it. */
  lemma ExactIsUnique(g: Graph, first: map<Key, nat>, second: map<Key, nat>)
    requires Closed(g) && Exact(g, first) && Exact(g, second)
    ensures first == second
  {
    forall v | v in CycleFree(g) ensures first[v] == second[v] {
      var p :| IsWalk(g, p) && p[0] == v && |p| == first[v] + 1;
      var q :| IsWalk(g, q) && q[0] == v && |q| == second[v] + 1;
    }
    forall v | v in g ensures first[v] <= second[v] && second[v] <= first[v] {
      assert Supported(g, CycleFree(g), first, v) && Supported(g, CycleFree(g), second, v);
    }
  }

  // ---- The algorithm ----

  /** `outDegree` counts the edges of g and `incoming` lists, for every vertex, its predecessors once each. */
  ghost predicate Reverses(g: Graph, outDegree: map<Key, int>, incoming: map<Key, seq<Key>>) {
    && outDegree.Keys == g.Keys == incoming.Keys
    && (forall v :: v in g ==> outDegree[v] == |g[v]|)
    && (forall v :: v in g ==> NoDup(incoming[v]))
    && (forall v, f :: v in g ==> (f in incoming[v] <==> HasEdge(g, f, v)))
  }

  /** Every vertex starts with no outgoing and no incoming edge. */
  method NoEdges(keys: seq<Key>, g: Graph) returns (outDegree: map<Key, int>, incoming: map<Key, seq<Key>>)
    requires forall k :: k in keys <==> k in g
    ensures outDegree.Keys == g.Keys == incoming.Keys
    ensures forall v :: v in g ==> outDegree[v] == 0 && incoming[v] == []
  {
    outDegree, incoming := map[], map[];
    for i := 0 to |keys|
      invariant forall k :: k in outDegree <==> k in keys[..i]
      invariant forall k :: k in incoming <==> k in keys[..i]
      invariant forall k :: k in outDegree ==> outDegree[k] == 0
      invariant forall k :: k in incoming ==> incoming[k] == []
    {
      outDegree := outDegree[keys[i] := 0];
      incoming := incoming[keys[i] := []];
    }
    assert keys[..|keys|] == keys;
    assert outDegree.Keys == g.Keys && incoming.Keys == g.Keys;
  }

  /** The graph with one edge more, or one less. */
  function With(g: Graph, from: Key, to: Key): Graph
    requires from in g
  {
    g[from := g[from] + {to}]
  }

  function Without(g: Graph, from: Key, to: Key): Graph
    requires from in g
  {
    g[from := g[from] - {to}]
  }

  /** The first loops of layerVertices: out-degrees and reversed edges. */
  method Reverse(keys: seq<Key>, g: Graph) returns (outDegree: map<Key, int>, incoming: map<Key, seq<Key>>)
    requires (forall k :: k in keys <==> k in g) && Closed(g)
    ensures Reverses(g, outDegree, incoming)
  {
    outDegree, incoming := NoEdges(keys, g);
    ghost var seen: Graph := map v | v in g :: {};
    var froms := g.Keys;
    while froms != {}
      invariant froms <= g.Keys == seen.Keys && Reverses(seen, outDegree, incoming)
      invariant forall v :: v in g ==> seen[v] == if v in froms then {} else g[v]
    {
      var from :| from in froms;
      outDegree, incoming := ReverseFrom(g, from, seen, outDegree, incoming);
      seen := seen[from := g[from]];
      froms := froms - {from};
    }
    assert seen == g;
  }

  method ReverseFrom(g: Graph, from: Key, ghost seen: Graph, outDegree: map<Key, int>, incoming: map<Key, seq<Key>>)
    returns (outDegree': map<Key, int>, incoming': map<Key, seq<Key>>)
    requires Closed(g) && from in g && seen.Keys == g.Keys && seen[from] == {}
    requires Reverses(seen, outDegree, incoming)
    ensures Reverses(seen[from := g[from]], outDegree', incoming')
  {
    outDegree', incoming' := outDegree, incoming;
    var tos := g[from];
    ghost var partial := seen;
    assert g[from] - tos == {} && partial == seen[from := {}];
    while tos != {}
      invariant tos <= g[from] && Reverses(partial, outDegree', incoming')
      invariant partial == seen[from := g[from] - tos]
    {
      var to :| to in tos;
      assert HasEdge(g, from, to);
      assert g[from] - (tos - {to}) == (g[from] - tos) + {to};
      ReverseEdge(partial, outDegree', incoming', from, to);
      outDegree' := outDegree'[from := outDegree'[from] + 1];
      incoming' := incoming'[to := incoming'[to] + [from]];
      partial := With(partial, from, to);
      tos := tos - {to};
    }
    assert g[from] - tos == g[from];
  }

  lemma ReverseEdge(g: Graph, outDegree: map<Key, int>, incoming: map<Key, seq<Key>>, from: Key, to: Key)
    requires Reverses(g, outDegree, incoming) && from in g && to in g && !HasEdge(g, from, to)
    ensures Reverses(With(g, from, to), outDegree[from := outDegree[from] + 1], incoming[to := incoming[to] + [from]])
  {
    assert from !in incoming[to];
  }

  /** `todo[v]` are the successors of v whose layers have not been counted; all others are dequeued. */
  ghost predicate Counts(g: Graph, todo: Graph, done: set<Key>, remaining: map<Key, int>) {
    && todo.Keys == g.Keys && remaining.Keys == g.Keys
    && (forall v :: v in g ==> remaining[v] == |todo[v]|)
    && (forall v, s :: HasEdge(todo, v, s) ==> HasEdge(g, v, s))
    && (forall v, s :: HasEdge(g, v, s) ==> HasEdge(todo, v, s) || s in done)
  }

  /** A vertex is queued or dequeued exactly when nothing of it remains to be counted. */
  ghost predicate Queued(todo: Graph, queue: seq<Key>, done: set<Key>) {
    && done <= todo.Keys && NoDup(queue)
    && (forall v :: v in queue ==> v in todo && v !in done)
    && (forall v :: v in todo ==> (v in queue || v in done <==> todo[v] == {}))
  }

  /** Layers are one more than the deepest counted successor. */
  ghost predicate Depths(g: Graph, todo: Graph, layer: map<Key, nat>) {
    && layer.Keys <= g.Keys
    && (forall v :: v in g && g[v] == {} ==> v in layer)
    && (forall v, s :: HasEdge(g, v, s) && !HasEdge(todo, v, s) ==>
      v in layer && s in layer && layer[v] >= layer[s] + 1)
    && (forall v {:trigger CountedFor(g, todo, layer, v)} :: v in layer ==> CountedFor(g, todo, layer, v))
  }

  ghost predicate CountedFor(g: Graph, todo: Graph, layer: map<Key, nat>, v: Key)
    requires v in layer
  {
    layer[v] == 0 || exists s :: CountedStep(g, todo, layer, v, s)
  }

  ghost predicate CountedStep(g: Graph, todo: Graph, layer: map<Key, nat>, v: Key, s: Key)
    requires v in layer
  {
    HasEdge(g, v, s) && !HasEdge(todo, v, s) && s in layer && layer[v] == layer[s] + 1
  }

  lemma CountEdge(g: Graph, todo: Graph, done: set<Key>, remaining: map<Key, int>, queue: seq<Key>, from: Key, key: Key)
    requires Counts(g, todo, done, remaining) && Queued(todo, queue, done)
    requires HasEdge(todo, from, key) && key in done
    ensures from !in done && from !in queue
    ensures Counts(g, Without(todo, from, key), done, remaining[from := remaining[from] - 1])
    ensures Queued(Without(todo, from, key), if remaining[from] == 1 then queue + [from] else queue, done)
  {
    var todo' := Without(todo, from, key);
    assert |todo'[from]| == remaining[from] - 1;
    assert todo'[from] == {} <==> remaining[from] == 1;
  }

  lemma DeepenEdge(g: Graph, todo: Graph, layer: map<Key, nat>, from: Key, key: Key, depth: nat)
    requires Depths(g, todo, layer) && HasEdge(g, from, key) && HasEdge(todo, from, key) && key in layer && from != key
    requires forall v :: HasEdge(g, v, from) ==> HasEdge(todo, v, from)
    requires depth == if from in layer && layer[from] > layer[key] + 1 then layer[from] else layer[key] + 1
    ensures Depths(g, Without(todo, from, key), layer[from := depth])
  {
    var todo', layer' := Without(todo, from, key), layer[from := depth];
    forall v | v in layer' ensures CountedFor(g, todo', layer', v) {
      if v == from && depth == layer[key] + 1 {
        assert CountedStep(g, todo', layer', v, key);
      } else {
        assert CountedFor(g, todo, layer, v);
        if layer[v] != 0 {
          var s :| CountedStep(g, todo, layer, v, s);
          assert CountedStep(g, todo', layer', v, s);
        }
      }
    }
  }

  /** Once the queue is empty and every edge into a dequeued vertex is counted, layers are settled;
      vertices nothing was counted for get layer 0. */
  lemma QueueEmpty(g: Graph, todo: Graph, done: set<Key>, layer: map<Key, nat>, full: map<Key, nat>)
    requires todo.Keys == g.Keys && Queued(todo, [], done) && Depths(g, todo, layer)
    requires forall v, s :: HasEdge(todo, v, s) <==> HasEdge(g, v, s) && s !in done
    requires full.Keys == g.Keys && forall v :: v in g ==> full[v] == if v in layer then layer[v] else 0
    ensures Settled(g, done, full)
  {
    forall v | v in g && v !in done ensures LeadsOut(g, done, v) {
      var s :| s in todo[v];
      assert HasEdge(todo, v, s);
    }
    forall v | v in g ensures Supported(g, done, full, v) {
      if full[v] != 0 {
        assert CountedFor(g, todo, layer, v);
        var s :| CountedStep(g, todo, layer, v, s);
        assert HasEdge(g, v, s) && s in done && full[v] == full[s] + 1;
      }
    }
  }

  /** The sinks start the queue, at layer 0. */
  method StartQueue(keys: seq<Key>, g: Graph, outDegree: map<Key, int>) returns (layer: map<Key, nat>, queue: seq<Key>)
    requires NoDup(keys) && forall k :: k in keys <==> k in g
    requires outDegree.Keys == g.Keys && forall v :: v in g ==> outDegree[v] == |g[v]|
    ensures Queued(g, queue, {}) && Depths(g, g, layer)
  {
    layer, queue := map[], [];
    for i := 0 to |keys|
      invariant forall k :: k in layer <==> k in keys[..i] && g[k] == {}
      invariant forall k :: k in layer ==> layer[k] == 0
      invariant NoDup(queue) && forall k :: k in queue <==> k in layer
    {
      assert outDegree[keys[i]] == 0 <==> g[keys[i]] == {};
      assert keys[i] !in keys[..i];
      if outDegree[keys[i]] == 0 {
        layer := layer[keys[i] := 0];
        queue := queue + [keys[i]];
      }
    }
    assert keys[..|keys|] == keys;
  }

  /** The loop over `incoming.get(key)`: every predecessor is pushed one layer further out. */
  method CountInto(g: Graph, key: Key, froms: seq<Key>, ghost done: set<Key>, ghost todo: Graph,
                   queue: seq<Key>, remaining: map<Key, int>, layer: map<Key, nat>)
    returns (ghost todo': Graph, queue': seq<Key>, remaining': map<Key, int>, layer': map<Key, nat>)
    requires NoDup(froms) && (forall f :: f in froms <==> HasEdge(g, f, key)) && key in done && key in layer
    requires forall f :: f in froms ==> HasEdge(todo, f, key)
    requires Counts(g, todo, done, remaining) && Queued(todo, queue, done) && Depths(g, todo, layer)
    requires forall v, s :: HasEdge(g, v, s) && s !in done ==> HasEdge(todo, v, s)
    ensures Counts(g, todo', done, remaining') && Queued(todo', queue', done) && Depths(g, todo', layer')
    ensures forall v, s :: HasEdge(todo', v, s) <==> HasEdge(todo, v, s) && s != key
  {
    todo', queue', remaining', layer' := todo, queue, remaining, layer;
    for i := 0 to |froms|
      invariant Counts(g, todo', done, remaining') && Queued(todo', queue', done) && Depths(g, todo', layer')
      invariant key in layer'
      invariant forall v, s :: HasEdge(todo', v, s) <==> HasEdge(todo, v, s) && !(s == key && v in froms[..i])
    {
      var from := froms[i];
      assert from !in froms[..i];
      CountEdge(g, todo', done, remaining', queue', from, key);
      var depth := if from in layer' && layer'[from] > layer'[key] + 1 then layer'[from] else layer'[key] + 1;
      DeepenEdge(g, todo', layer', from, key, depth);
      layer' := layer'[from := depth];
      var left := remaining'[from] - 1;
      remaining' := remaining'[from := left];
      if left == 0 {
        queue' := queue' + [from];
      }
      todo' := Without(todo', from, key);
    }
    assert froms[..|froms|] == froms;
    assert forall v :: HasEdge(todo, v, key) ==> v in froms;
  }

  /** What is left sits on or above a cycle: it is placed at layer 0 rather than dropped. */
  method PlaceRest(keys: seq<Key>, reached: map<Key, nat>) returns (layer: map<Key, nat>)
    ensures forall k :: k in layer <==> k in reached || k in keys
    ensures forall k :: k in layer ==> layer[k] == if k in reached then reached[k] else 0
  {
    layer := reached;
    for i := 0 to |keys|
      invariant forall k :: k in layer <==> k in reached || k in keys[..i]
      invariant forall k :: k in layer ==> layer[k] == if k in reached then reached[k] else 0
    {
      if keys[i] !in layer {
        layer := layer[keys[i] := 0];
      }
    }
    assert keys[..|keys|] == keys;
  }

  /** The invariant of the main loop. */
  ghost predicate Running(g: Graph, todo: Graph, done: set<Key>, queue: seq<Key>, remaining: map<Key, int>,
                          layer: map<Key, nat>)
  {
    && Counts(g, todo, done, remaining) && Queued(todo, queue, done) && Depths(g, todo, layer)
    && (forall v, s :: HasEdge(todo, v, s) <==> HasEdge(g, v, s) && s !in done)
  }

  /** One turn of the main loop: take the head of the queue and count it for its predecessors. */
  method ProcessHead(g: Graph, incoming: map<Key, seq<Key>>, ghost todo: Graph, ghost done: set<Key>,
                     queue: seq<Key>, remaining: map<Key, int>, layer: map<Key, nat>)
    returns (ghost todo': Graph, queue': seq<Key>, remaining': map<Key, int>, layer': map<Key, nat>)
    requires queue != [] && Running(g, todo, done, queue, remaining, layer)
    requires incoming.Keys == g.Keys && (forall v :: v in g ==> NoDup(incoming[v]))
    requires forall v, f :: v in g ==> (f in incoming[v] <==> HasEdge(g, f, v))
    ensures queue[0] in g && queue[0] !in done
    ensures Running(g, todo', done + {queue[0]}, queue', remaining', layer')
  {
    var key := queue[0];
    Dequeue(g, todo, done, remaining, layer, queue);
    todo', queue', remaining', layer' :=
      CountInto(g, key, incoming[key], done + {key}, todo, queue[1..], remaining, layer);
  }

  /** `order` is the sequence in which vertices were dequeued: no vertex twice, and exactly the
      vertices from which no cycle can be reached. */
  method LayerVertices(keys: seq<Key>, g: Graph) returns (layer: map<Key, nat>, ghost order: seq<Key>)
    requires NoDup(keys) && (forall k :: k in keys <==> k in g) && Closed(g)
    ensures Exact(g, layer)
    ensures NoDup(order) && forall v :: v in order <==> v in CycleFree(g)
  {
    var outDegree, incoming := Reverse(keys, g);
    var queue: seq<Key>;
    layer, queue := StartQueue(keys, g, outDegree);
    var remaining := outDegree;
    order := [];
    ghost var done, todo := {}, g;
    while queue != []
      invariant Running(g, todo, done, queue, remaining, layer)
      invariant NoDup(order) && forall v :: v in order <==> v in done
      decreases g.Keys - done
    {
      ghost var key := queue[0];
      todo, queue, remaining, layer := ProcessHead(g, incoming, todo, done, queue, remaining, layer);
      NoDupAppend(order, key);
      order, done := order + [key], done + {key};
    }
    ghost var reached := layer;
    layer := PlaceRest(keys, layer);
    QueueEmpty(g, todo, done, reached, layer);
    SettledIsExact(g, done, layer);
  }

  lemma Dequeue(g: Graph, todo: Graph, done: set<Key>, remaining: map<Key, int>, layer: map<Key, nat>, queue: seq<Key>)
    requires queue != [] && Counts(g, todo, done, remaining) && Queued(todo, queue, done) && Depths(g, todo, layer)
    ensures queue[0] in layer && queue[0] !in done
    ensures Counts(g, todo, done + {queue[0]}, remaining)
    ensures Queued(todo, queue[1..], done + {queue[0]})
  {
    var key := queue[0];
    assert queue == [key] + queue[1..];
    if g[key] != {} {
      var s :| s in g[key];
      assert HasEdge(g, key, s) && !HasEdge(todo, key, s);
    }
  }
}
