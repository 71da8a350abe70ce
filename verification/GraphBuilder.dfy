/** The mutable half of the network map: grouping the entries by node and filling the vertex and
    edge maps path by path. */
module GraphBuilding {
  import opened Graphs
  import opened Options
  import opened PathHops
  import opened MergedGraph

  const MAX_NODES := 24

  /** One path a node holds, or the statement that it holds none. */
  datatype Entry = Entry(nodeId: int, asPath: seq<int>, noRoute: bool)

  /** A node with the normalised paths it holds, in input order. */
  datatype NodeGroup = NodeGroup(nodeId: int, paths: seq<seq<int>>)

  // ---- Grouping ----

  function HopsOf(entry: Entry): seq<int> {
    if entry.noRoute then [] else FirstVisits(Positive(entry.asPath))
  }

  /** The nodes of the entries that have hops, once for every such entry. */
  function RoutedIds(entries: seq<Entry>): seq<int> {
    if entries == [] then []
    else
      var last := entries[|entries| - 1];
      RoutedIds(entries[..|entries| - 1]) + if HopsOf(last) == [] then [] else [last.nodeId]
  }

  /** The paths of one node, in input order. */
  function PathsOf(entries: seq<Entry>, id: int): (paths: seq<seq<int>>)
    ensures forall path :: path in paths ==> path != []
  {
    if entries == [] then []
    else
      var last := entries[|entries| - 1];
      PathsOf(entries[..|entries| - 1], id) + if HopsOf(last) == [] || last.nodeId != id then [] else [HopsOf(last)]
  }

  /** One group for every node with a route, ordered by first appearance. */
  function Grouped(entries: seq<Entry>): (groups: seq<NodeGroup>)
    ensures |groups| == |FirstVisits(RoutedIds(entries))|
    ensures forall i :: 0 <= i < |groups| ==>
      groups[i].nodeId == FirstVisits(RoutedIds(entries))[i] && groups[i].paths == PathsOf(entries, groups[i].nodeId)
  {
    var ids := FirstVisits(RoutedIds(entries));
    seq(|ids|, i requires 0 <= i < |ids| => NodeGroup(ids[i], PathsOf(entries, ids[i])))
  }

  /** `index` finds the group of every node that has one. */
  ghost predicate Indexes(index: map<int, nat>, groups: seq<NodeGroup>) {
    && (forall i :: 0 <= i < |groups| ==> groups[i].nodeId in index)
    && (forall id :: id in index ==> index[id] < |groups| && groups[index[id]].nodeId == id)
  }

  method GroupEntries(entries: seq<Entry>) returns (groups: seq<NodeGroup>)
    ensures groups == Grouped(entries)
  {
    groups := [];
    var index: map<int, nat> := map[];
    for n := 0 to |entries|
      invariant groups == Grouped(entries[..n]) && Indexes(index, groups)
    {
      TakeNext(entries, n);
      groups, index := GroupEntry(entries[n], groups, index, entries[..n]);
    }
    TakeAll(entries);
  }

  method GroupEntry(entry: Entry, groups: seq<NodeGroup>, index: map<int, nat>, ghost entries: seq<Entry>)
    returns (groups': seq<NodeGroup>, index': map<int, nat>)
    requires groups == Grouped(entries) && Indexes(index, groups)
    ensures groups' == Grouped(entries + [entry]) && Indexes(index', groups')
  {
    groups', index' := groups, index;
    var hops := [];
    if !entry.noRoute {
      var normalized := NormalizePath(entry.asPath);
      hops := Asns(normalized);
    }
    if hops == [] {
      SameGroups(entries, entry);
    } else {
      if entry.nodeId in index {
        ExtendGroup(entries, entry, index[entry.nodeId]);
      } else {
        NewGroup(entries, entry);
      }
      groups', index' := PushPath(groups, index, entry.nodeId, hops);
    }
  }

  method PushPath(groups: seq<NodeGroup>, index: map<int, nat>, id: int, hops: seq<int>)
    returns (groups': seq<NodeGroup>, index': map<int, nat>)
    requires id in index ==> index[id] < |groups|
    ensures index' == if id in index then index else index[id := |groups|]
    ensures id in index ==>
      groups' == groups[index[id] := groups[index[id]].(paths := groups[index[id]].paths + [hops])]
    ensures id !in index ==> groups' == groups + [NodeGroup(id, [hops])]
  {
    groups', index' := groups, index;
    if id !in index' {
      index' := index'[id := |groups'|];
      groups' := groups' + [NodeGroup(id, [])];
      assert [] + [hops] == [hops];
    }
    var group := groups'[index'[id]];
    groups' := groups'[index'[id] := group.(paths := group.paths + [hops])];
  }

  lemma SameGroups(entries: seq<Entry>, entry: Entry)
    requires HopsOf(entry) == []
    ensures Grouped(entries + [entry]) == Grouped(entries)
  {
    var before, after, all := Grouped(entries), Grouped(entries + [entry]), entries + [entry];
    assert all[..|all| - 1] == entries && RoutedIds(all) == RoutedIds(entries);
    forall k | 0 <= k < |after| ensures after[k] == before[k] {
      assert PathsOf(all, after[k].nodeId) == PathsOf(entries, after[k].nodeId);
    }
  }

  lemma OneMoreEntry(entries: seq<Entry>, entry: Entry)
    requires HopsOf(entry) != []
    ensures FirstVisits(RoutedIds(entries + [entry])) ==
      FirstVisits(RoutedIds(entries)) + if entry.nodeId in RoutedIds(entries) then [] else [entry.nodeId]
    ensures forall id ::
      PathsOf(entries + [entry], id) == PathsOf(entries, id) + (if id == entry.nodeId then [HopsOf(entry)] else [])
  {
    var ids, all := RoutedIds(entries), entries + [entry];
    assert all[..|all| - 1] == entries && (ids + [entry.nodeId])[..|ids|] == ids;
    FirstVisitsDistinct(ids);
  }

  /** One more path of a node leaves every other node's group alone. */
  lemma ExtendGroup(entries: seq<Entry>, entry: Entry, i: nat)
    requires HopsOf(entry) != [] && i < |Grouped(entries)| && Grouped(entries)[i].nodeId == entry.nodeId
    ensures var group := Grouped(entries)[i];
            Grouped(entries + [entry]) == Grouped(entries)[i := group.(paths := group.paths + [HopsOf(entry)])]
  {
    OneMoreEntry(entries, entry);
    FirstVisitsDistinct(RoutedIds(entries));
    var before, after := Grouped(entries), Grouped(entries + [entry]);
    var expected := before[i := before[i].(paths := before[i].paths + [HopsOf(entry)])];
    forall k | 0 <= k < |after| ensures after[k] == expected[k] {
      assert after[k].nodeId == before[k].nodeId;
      assert k != i ==> before[k].nodeId != before[i].nodeId;
    }
  }

  lemma NewGroup(entries: seq<Entry>, entry: Entry)
    requires HopsOf(entry) != []
    requires forall i :: 0 <= i < |Grouped(entries)| ==> Grouped(entries)[i].nodeId != entry.nodeId
    ensures Grouped(entries + [entry]) == Grouped(entries) + [NodeGroup(entry.nodeId, [HopsOf(entry)])]
  {
    OneMoreEntry(entries, entry);
    FirstVisitsDistinct(RoutedIds(entries));
    var before, after := Grouped(entries), Grouped(entries + [entry]);
    assert entry.nodeId !in FirstVisits(RoutedIds(entries));
    NoPathsYet(entries, entry.nodeId);
    var expected := before + [NodeGroup(entry.nodeId, [HopsOf(entry)])];
    forall k | 0 <= k < |after| ensures after[k] == expected[k] {
      if k < |before| {
        assert after[k].nodeId == before[k].nodeId;
      }
    }
  }

  lemma {:induction false} NoPathsYet(entries: seq<Entry>, id: int)
    requires id !in RoutedIds(entries)
    ensures PathsOf(entries, id) == []
  {
    if entries == [] {
    } else {
      NoPathsYet(entries[..|entries| - 1], id);
    }
  }

  lemma {:induction false} RoutedHavePaths(entries: seq<Entry>, id: int)
    requires id in RoutedIds(entries)
    ensures PathsOf(entries, id) != []
  {
    var front := entries[..|entries| - 1];
    if id in RoutedIds(front) {
      RoutedHavePaths(front, id);
    }
  }

  function PositionOf(groups: seq<NodeGroup>, id: int): (n: nat)
    ensures n <= |groups|
    ensures n < |groups| ==> groups[n].nodeId == id
    ensures forall i :: 0 <= i < n ==> groups[i].nodeId != id
  {
    if groups == [] then 0 else if groups[0].nodeId == id then 0 else PositionOf(groups[1..], id) + 1
  }

  /** The queried node leads when it is on the map; everyone else keeps their order. */
  function QueriedFirst(groups: seq<NodeGroup>, queried: Option<int>): seq<NodeGroup> {
    if queried.None? then groups
    else
      var n := PositionOf(groups, queried.value);
      if 0 < n < |groups| then [groups[n]] + groups[..n] + groups[n + 1..] else groups
  }

  function Capped(groups: seq<NodeGroup>): seq<NodeGroup> {
    if |groups| <= MAX_NODES then groups else groups[..MAX_NODES]
  }

  /** The groups that are drawn. */
  function Drawn(entries: seq<Entry>, queried: Option<int>): seq<NodeGroup> {
    Capped(QueriedFirst(Grouped(entries), queried))
  }

  ghost predicate WellFormedGroup(group: NodeGroup) {
    group.paths != [] && forall path :: path in group.paths ==> path != [] && NoDup(path)
  }

  lemma {:induction false} PathsDistinct(entries: seq<Entry>, id: int)
    ensures forall path :: path in PathsOf(entries, id) ==> NoDup(path)
  {
    if entries == [] {
    } else {
      PathsDistinct(entries[..|entries| - 1], id);
      FirstVisitsDistinct(Positive(entries[|entries| - 1].asPath));
    }
  }

  /** Groups have distinct nodes, and each holds all paths of its node. */
  ghost predicate SoundGroups(entries: seq<Entry>, groups: seq<NodeGroup>) {
    && (forall i, j :: 0 <= i < j < |groups| ==> groups[i].nodeId != groups[j].nodeId)
    && (forall group :: group in groups ==> WellFormedGroup(group) && group.paths == PathsOf(entries, group.nodeId))
  }

  ghost predicate HasGroup(groups: seq<NodeGroup>, id: int) {
    exists group :: group in groups && group.nodeId == id
  }

  lemma GroupedIsSound(entries: seq<Entry>)
    ensures SoundGroups(entries, Grouped(entries))
    ensures forall id :: id in RoutedIds(entries) <==> HasGroup(Grouped(entries), id)
  {
    var ids, groups := FirstVisits(RoutedIds(entries)), Grouped(entries);
    FirstVisitsDistinct(RoutedIds(entries));
    forall i | 0 <= i < |groups| ensures WellFormedGroup(groups[i]) {
      assert ids[i] in ids;
      RoutedHavePaths(entries, ids[i]);
      PathsDistinct(entries, ids[i]);
    }
    forall id | id in RoutedIds(entries) ensures HasGroup(groups, id) {
      var i :| 0 <= i < |ids| && ids[i] == id;
      assert groups[i] in groups;
    }
  }

  /** Drawn groups are at most MAX_NODES, one for each node, each with all its paths; a queried node
      that has a route comes first; below the cap no routed node is missing. */
  lemma DrawnGroups(entries: seq<Entry>, queried: Option<int>)
    ensures |Drawn(entries, queried)| <= MAX_NODES && SoundGroups(entries, Drawn(entries, queried))
    ensures queried.Some? && queried.value in RoutedIds(entries) ==>
              Drawn(entries, queried) != [] && Drawn(entries, queried)[0].nodeId == queried.value
    ensures |Drawn(entries, queried)| < MAX_NODES ==>
      forall id :: id in RoutedIds(entries) ==> HasGroup(Drawn(entries, queried), id)
  {
    GroupedIsSound(entries);
    LeaderIsSound(entries, Grouped(entries), queried);
    TakeIsSound(entries, QueriedFirst(Grouped(entries), queried));
  }

  lemma LeaderIsSound(entries: seq<Entry>, groups: seq<NodeGroup>, queried: Option<int>)
    requires SoundGroups(entries, groups)
    ensures SoundGroups(entries, QueriedFirst(groups, queried))
    ensures forall id :: HasGroup(groups, id) ==> HasGroup(QueriedFirst(groups, queried), id)
    ensures queried.Some? && HasGroup(groups, queried.value) ==>
              QueriedFirst(groups, queried) != [] && QueriedFirst(groups, queried)[0].nodeId == queried.value
  {
    var ordered := QueriedFirst(groups, queried);
    var n := if queried.Some? then PositionOf(groups, queried.value) else 0;
    forall k | 0 <= k < |ordered| ensures ordered[k] == groups[SourceOf(k, n, |groups|)] {
    }
    forall i, j | 0 <= i < j < |ordered| ensures ordered[i].nodeId != ordered[j].nodeId {
      assert SourceOf(i, n, |groups|) != SourceOf(j, n, |groups|);
    }
    forall id | HasGroup(groups, id) ensures HasGroup(ordered, id) {
      var group :| group in groups && group.nodeId == id;
      KeepsAll(groups, queried, group);
    }
  }

  /** Where the k-th group comes from when the n-th is moved to the front. */
  function SourceOf(k: nat, n: nat, count: nat): nat {
    if n == 0 || n >= count || k > n then k else if k == 0 then n else k - 1
  }

  lemma TakeIsSound(entries: seq<Entry>, groups: seq<NodeGroup>)
    requires SoundGroups(entries, groups)
    ensures |Capped(groups)| <= MAX_NODES && SoundGroups(entries, Capped(groups))
    ensures groups != [] ==> Capped(groups) != [] && Capped(groups)[0] == groups[0]
    ensures |Capped(groups)| < MAX_NODES ==> Capped(groups) == groups
  {
    forall group | group in Capped(groups) ensures group in groups {
    }
  }

  lemma KeepsAll(groups: seq<NodeGroup>, queried: Option<int>, group: NodeGroup)
    requires group in groups
    ensures group in QueriedFirst(groups, queried)
  {
    if queried.Some? {
      var n := PositionOf(groups, queried.value);
      if 0 < n < |groups| {
        assert groups == groups[..n] + [groups[n]] + groups[n + 1..];
      }
    }
  }

  // ---- Vertices and edges ----

  function ChainOf(id: int, path: seq<int>): (chain: seq<Key>)
    ensures |chain| == |path| + 1 && chain[0] == NodeKey(id)
    ensures forall i :: 0 < i < |chain| ==> chain[i] == AsKey(path[i - 1])
    ensures path != [] && NoDup(path) ==> IsChain(chain)
  {
    [NodeKey(id)] + seq(|path|, i requires 0 <= i < |path| => AsKey(path[i]))
  }

  function GroupChains(id: int, paths: seq<seq<int>>): (chains: seq<seq<Key>>)
    ensures |chains| == |paths| && forall i :: 0 <= i < |paths| ==> chains[i] == ChainOf(id, paths[i])
  {
    seq(|paths|, i requires 0 <= i < |paths| => ChainOf(id, paths[i]))
  }

  function ChainsOf(groups: seq<NodeGroup>): seq<seq<Key>> {
    if groups == [] then []
    else
      var last := groups[|groups| - 1];
      ChainsOf(groups[..|groups| - 1]) + GroupChains(last.nodeId, last.paths)
  }

  lemma {:induction false} ChainsAreChains(groups: seq<NodeGroup>)
    requires forall group :: group in groups ==> WellFormedGroup(group)
    ensures forall chain :: chain in ChainsOf(groups) ==> IsChain(chain)
    ensures forall chain :: chain in ChainsOf(groups) <==>
      exists group, path :: group in groups && path in group.paths && chain == ChainOf(group.nodeId, path)
  {
    if groups == [] {
    } else {
      var front, last := groups[..|groups| - 1], groups[|groups| - 1];
      assert groups == front + [last] && WellFormedGroup(last);
      ChainsAreChains(front);
      forall chain | chain in GroupChains(last.nodeId, last.paths)
        ensures IsChain(chain) && exists path :: path in last.paths && chain == ChainOf(last.nodeId, path) {
        var i :| 0 <= i < |last.paths| && chain == GroupChains(last.nodeId, last.paths)[i];
        assert last.paths[i] in last.paths;
      }
      forall path | path in last.paths ensures ChainOf(last.nodeId, path) in GroupChains(last.nodeId, last.paths) {
        var i :| 0 <= i < |last.paths| && last.paths[i] == path;
        assert GroupChains(last.nodeId, last.paths)[i] == ChainOf(last.nodeId, path);
      }
    }
  }

  function Visit(ids: seq<int>, id: int): seq<int> {
    if id in ids then ids else ids + [id]
  }

  /** Records that node id traverses vertex k. */
  function VisitVertex(nodeIds: map<Key, seq<int>>, k: Key, id: int): map<Key, seq<int>> {
    nodeIds[k := Visit(IdsAt(nodeIds, k), id)]
  }

  /** After node id has traversed the vertices ks. */
  ghost predicate Recorded(before: map<Key, seq<int>>, after: map<Key, seq<int>>, ks: seq<Key>, id: int) {
    && (forall k :: k in after <==> k in before || k in ks)
    && (forall k :: k in after ==> after[k] == if k in ks then Visit(IdsAt(before, k), id) else IdsAt(before, k))
  }

  function IdsAt(nodeIds: map<Key, seq<int>>, k: Key): seq<int> {
    if k in nodeIds then nodeIds[k] else []
  }

  /** Which nodes traverse each vertex, for the chains merged so far. */
  ghost predicate Traversals(nodeIds: map<Key, seq<int>>, chains: seq<seq<Key>>) {
    && (forall k :: k in nodeIds <==> OnSome(chains, k))
    && (forall k :: k in nodeIds ==> NoDup(nodeIds[k]))
    && (forall k, id :: k in nodeIds ==> (id in nodeIds[k] <==> Traverses(chains, id, k)))
  }

  ghost predicate OnSome(chains: seq<seq<Key>>, k: Key) {
    exists chain :: chain in chains && k in chain
  }

  /** Some chain of node id runs through k. */
  ghost predicate Traverses(chains: seq<seq<Key>>, id: int, k: Key) {
    exists chain :: chain in chains && chain != [] && chain[0] == NodeKey(id) && k in chain
  }

  class GraphBuilder {
    var targets: Graph
    var edges: set<(Key, Key)>
    var nodeIds: map<Key, seq<int>>

    /** The three maps describe the same vertices and edges. */
    ghost predicate Valid()
      reads this
    {
      && nodeIds.Keys == targets.Keys
      && (forall a, b :: (a, b) in edges <==> HasEdge(targets, a, b))
    }

    constructor ()
      ensures Valid() && targets == map[] && nodeIds == map[] && edges == {}
    {
      targets, edges, nodeIds := map[], {}, map[];
    }

    method TouchVertex(k: Key, id: int)
      requires Valid()
      modifies this
      ensures Valid() && targets == Touch(old(targets), k) && edges == old(edges)
      ensures nodeIds == VisitVertex(old(nodeIds), k, id)
    {
      if k in targets {
        if id !in nodeIds[k] {
          nodeIds := nodeIds[k := nodeIds[k] + [id]];
        }
      } else {
        assert [] + [id] == [id];
        nodeIds := nodeIds[k := [id]];
        targets := targets[k := {}];
      }
    }

    method LinkVertices(a: Key, b: Key)
      requires Valid() && a in targets && b in targets
      modifies this
      ensures Valid() && targets == Link(old(targets), a, b) && nodeIds == old(nodeIds)
    {
      if (a, b) in edges {
        return;
      }
      if b in targets && a in targets[b] {
        return;
      }
      targets := targets[a := targets[a] + {b}];
      edges := edges + {(a, b)};
    }

    /** Touches the hops of one path of a node that is already on the map. */
    method TouchHops(id: int, path: seq<int>)
      requires Valid() && OwnsNode(nodeIds, id)
      modifies this
      ensures Valid() && targets == TouchAll(old(targets), ChainOf(id, path))
      ensures Recorded(old(nodeIds), nodeIds, ChainOf(id, path), id)
    {
      ghost var chain := ChainOf(id, path);
      assert chain[..1] == [NodeKey(id)] && chain[..1][..0] == [];
      assert TouchAll(targets, []) == targets && TouchAll(targets, chain[..1]) == targets;
      for i := 0 to |path|
        invariant Valid() && targets == TouchAll(old(targets), chain[..i + 1])
        invariant Recorded(old(nodeIds), nodeIds, chain[..i + 1], id)
      {
        TakeNext(chain, i + 1);
        RecordNext(old(nodeIds), nodeIds, chain[..i + 1], AsKey(path[i]), id);
        TouchVertex(AsKey(path[i]), id);
      }
      assert chain[..|path| + 1] == chain;
    }

    /** Links the node to the first hop and every hop to the next. */
    method LinkHops(id: int, path: seq<int>)
      requires Valid() && path != [] && forall k :: k in ChainOf(id, path) ==> k in targets
      modifies this
      ensures Valid() && targets == LinkChain(old(targets), ChainOf(id, path)) && nodeIds == old(nodeIds)
    {
      ghost var chain := ChainOf(id, path);
      ghost var touched := targets;
      assert chain[0] in chain && chain[1] in chain;
      LinkVertices(NodeKey(id), AsKey(path[0]));
      assert chain[..2] == [chain[0], chain[1]] && chain[..2][..1] == [chain[0]];
      for i := 0 to |path| - 1
        invariant Valid() && nodeIds == old(nodeIds)
        invariant forall k :: k in chain[..i + 2] ==> k in touched
        invariant targets == LinkChain(touched, chain[..i + 2])
      {
        TakeNext(chain, i + 2);
        assert chain[i + 1] in chain && chain[i + 2] in chain;
        LinkVertices(AsKey(path[i]), AsKey(path[i + 1]));
      }
      assert chain[..|path| + 1] == chain;
    }

    method AddPath(id: int, path: seq<int>)
      requires Valid() && path != [] && OwnsNode(nodeIds, id)
      modifies this
      ensures Valid() && targets == AddChain(old(targets), ChainOf(id, path))
      ensures Recorded(old(nodeIds), nodeIds, ChainOf(id, path), id)
    {
      TouchAllKeys(targets, ChainOf(id, path));
      TouchHops(id, path);
      LinkHops(id, path);
    }

    /** One node with all its paths, after the chains `before`. */
    method AddGroup(group: NodeGroup, ghost before: seq<seq<Key>>)
      requires Valid() && WellFormedGroup(group)
      requires targets == Merge(before) && Traversals(nodeIds, before)
      modifies this
      ensures Valid() && targets == Merge(before + GroupChains(group.nodeId, group.paths))
      ensures Traversals(nodeIds, before + GroupChains(group.nodeId, group.paths))
    {
      var id := group.nodeId;
      ghost var chains := GroupChains(id, group.paths);
      assert group.paths[0] in group.paths;
      AddFirstPath(id, group.paths[0], before);
      AppendFirst(before, chains);
      for i := 1 to |group.paths|
        invariant Valid() && OwnsNode(nodeIds, id)
        invariant targets == Merge(before + chains[..i]) && Traversals(nodeIds, before + chains[..i])
      {
        assert group.paths[i] in group.paths;
        AddNextPath(id, group.paths[i], before + chains[..i]);
        AppendNext(before, chains, i);
      }
      TakeAll(chains);
    }

    /** Putting a node on the map with its first path. */
    method AddFirstPath(id: int, path: seq<int>, ghost before: seq<seq<Key>>)
      requires Valid() && path != []
      requires targets == Merge(before) && Traversals(nodeIds, before)
      modifies this
      ensures Valid() && OwnsNode(nodeIds, id)
      ensures targets == Merge(before + [ChainOf(id, path)]) && Traversals(nodeIds, before + [ChainOf(id, path)])
    {
      ghost var chain := ChainOf(id, path);
      TouchVertex(NodeKey(id), id);
      AddPath(id, path);
      FirstTouchIsFree(Merge(before), chain);
      MergeOneMore(before, chain);
      FirstRecordIsFree(old(nodeIds), nodeIds, chain);
      MoreTraversals(old(nodeIds), before, chain, nodeIds);
    }

    method AddNextPath(id: int, path: seq<int>, ghost before: seq<seq<Key>>)
      requires Valid() && path != [] && OwnsNode(nodeIds, id)
      requires targets == Merge(before) && Traversals(nodeIds, before)
      modifies this
      ensures Valid() && OwnsNode(nodeIds, id)
      ensures targets == Merge(before + [ChainOf(id, path)]) && Traversals(nodeIds, before + [ChainOf(id, path)])
    {
      AddPath(id, path);
      MergeOneMore(before, ChainOf(id, path));
      MoreTraversals(old(nodeIds), before, ChainOf(id, path), nodeIds);
    }
  }

  /** Node id is on the map and traverses its own box. */
  ghost predicate OwnsNode(nodeIds: map<Key, seq<int>>, id: int) {
    NodeKey(id) in nodeIds && id in nodeIds[NodeKey(id)]
  }

  lemma AppendFirst<T>(before: seq<T>, items: seq<T>)
    requires items != []
    ensures before + items[..1] == before + [items[0]]
  {
  }

  lemma AppendNext<T>(before: seq<T>, items: seq<T>, i: nat)
    requires i < |items|
    ensures before + items[..i + 1] == before + items[..i] + [items[i]]
  {
  }

  lemma FirstRecordIsFree(before: map<Key, seq<int>>, after: map<Key, seq<int>>, chain: seq<Key>)
    requires chain != [] && chain[0].NodeKey?
    requires Recorded(VisitVertex(before, chain[0], chain[0].id), after, chain, chain[0].id)
    ensures Recorded(before, after, chain, chain[0].id)
  {
    assert chain[0] in chain;
  }

  lemma RecordNext(before: map<Key, seq<int>>, nodeIds: map<Key, seq<int>>, ks: seq<Key>, k: Key, id: int)
    requires Recorded(before, nodeIds, ks, id)
    ensures Recorded(before, VisitVertex(nodeIds, k, id), ks + [k], id)
  {
    assert forall x :: x in ks + [k] <==> x in ks || x == k;
    assert k in nodeIds ==> IdsAt(nodeIds, k) == nodeIds[k];
    assert k in ks ==> Visit(nodeIds[k], id) == nodeIds[k];
  }

  lemma MergeOneMore(chains: seq<seq<Key>>, chain: seq<Key>)
    ensures Merge(chains + [chain]) == AddChain(Merge(chains), chain)
  {
    assert (chains + [chain])[..|chains|] == chains;
  }

  /** Touching the first vertex of a chain beforehand changes nothing. */
  lemma FirstTouchIsFree(g: Graph, chain: seq<Key>)
    requires chain != []
    ensures AddChain(Touch(g, chain[0]), chain) == AddChain(g, chain)
  {
    TouchFirst(g, chain);
  }

  lemma {:induction false} TouchFirst(g: Graph, ks: seq<Key>)
    requires ks != []
    ensures TouchAll(Touch(g, ks[0]), ks) == TouchAll(g, ks)
  {
    if |ks| == 1 {
      assert ks[..0] == [];
    } else {
      TouchFirst(g, ks[..|ks| - 1]);
    }
  }

  lemma MoreTraversals(before: map<Key, seq<int>>, chains: seq<seq<Key>>, chain: seq<Key>, after: map<Key, seq<int>>)
    requires chain != [] && chain[0].NodeKey? && Traversals(before, chains)
    requires Recorded(before, after, chain, chain[0].id)
    ensures Traversals(after, chains + [chain])
  {
    assert forall c :: c in chains + [chain] <==> c in chains || c == chain;
    forall k ensures OnSome(chains + [chain], k) <==> OnSome(chains, k) || k in chain {
    }
    forall k, id
      ensures Traverses(chains + [chain], id, k) <==>
        Traverses(chains, id, k) || (chain[0] == NodeKey(id) && k in chain)
    {
    }
    forall k | k in after
      ensures NoDup(after[k]) && forall id :: id in after[k] <==> Traverses(chains + [chain], id, k)
    {
      assert k !in before ==> !OnSome(chains, k);
      if chain[0].id !in IdsAt(before, k) {
        NoDupAppend(IdsAt(before, k), chain[0].id);
      }
    }
  }

  method LeadWithQueried(groups: seq<NodeGroup>, queried: Option<int>) returns (ordered: seq<NodeGroup>)
    ensures ordered == QueriedFirst(groups, queried)
  {
    ordered := groups;
    if queried.Some? {
      var n := 0;
      while n < |groups| && groups[n].nodeId != queried.value
        invariant n <= |groups| && forall i :: 0 <= i < n ==> groups[i].nodeId != queried.value
      {
        n := n + 1;
      }
      assert n == PositionOf(groups, queried.value);
      if 0 < n < |groups| {
        ordered := [groups[n]] + groups[..n] + groups[n + 1..];
      }
    }
  }

  method AddGroups(groups: seq<NodeGroup>) returns (builder: GraphBuilder)
    requires forall group :: group in groups ==> WellFormedGroup(group)
    ensures fresh(builder) && builder.Valid()
    ensures builder.targets == Merge(ChainsOf(groups)) && Traversals(builder.nodeIds, ChainsOf(groups))
  {
    builder := new GraphBuilder();
    for i := 0 to |groups|
      invariant builder.Valid() && fresh(builder)
      invariant builder.targets == Merge(ChainsOf(groups[..i])) && Traversals(builder.nodeIds, ChainsOf(groups[..i]))
    {
      TakeNext(groups, i);
      assert groups[i] in groups;
      builder.AddGroup(groups[i], ChainsOf(groups[..i]));
    }
    assert groups[..|groups|] == groups;
  }

  /** The graph of the drawn nodes: it merges exactly their paths, and every vertex knows exactly the
      nodes that traverse it. */
  method BuildGraph(entries: seq<Entry>, queried: Option<int>)
    returns (groups: seq<NodeGroup>, targets: Graph, nodeIds: map<Key, seq<int>>, edges: set<(Key, Key)>)
    ensures groups == Drawn(entries, queried)
    ensures targets == Merge(ChainsOf(groups)) && FanIn(targets)
    ensures nodeIds.Keys == targets.Keys && Traversals(nodeIds, ChainsOf(groups))
    ensures forall a, b :: (a, b) in edges <==> HasEdge(targets, a, b)
  {
    groups := GroupEntries(entries);
    groups := LeadWithQueried(groups, queried);
    if |groups| > MAX_NODES {
      groups := groups[..MAX_NODES];
    }
    DrawnGroups(entries, queried);
    ChainsAreChains(groups);
    MergeFansIn(ChainsOf(groups));
    var builder := AddGroups(groups);
    targets, nodeIds, edges := builder.targets, builder.nodeIds, builder.edges;
  }
}
