/** The indexes of the BGP session manager: neighbours, neighbours by node, and session states. The
    routing daemon is a set of configured peer addresses with accepting or refusing outcomes. */
module SessionManagement {
  import opened Options
  import opened Text

  datatype Neighbor = Neighbor(id: int, nodeId: int, neighborIP: string, peeringIP: string, ipv6NeighborIP: string,
                               ipv6PeeringIP: string, remoteAS: nat, multihop: bool, passiveMode: bool,
                               defaultRouteAS: nat)

  /** A registered neighbour with the addresses its peers were added under. */
  datatype Entry = Entry(neighbor: Neighbor, neighborIP: string, ipv6NeighborIP: string)

  datatype SessionState = Idle | Connect | Active | OpenSent | OpenConfirm | Established

  datatype Manager = Manager(started: bool, globalAS: nat, neighbors: map<int, Entry>,
                             nodeNeighbors: map<int, set<int>>, states: map<int, SessionState>,
                             stateSince: map<int, int>, peers: set<string>)

  function FreshManager(started: bool, globalAS: nat): Manager {
    Manager(started, globalAS, map[], map[], map[], map[], {})
  }

  // ---- The operations ----

  /** The daemon takes a peer only if it is willing and the address is not configured yet. */
  predicate CanAdd(peers: set<string>, address: string, willing: bool) {
    willing && address !in peers
  }

  predicate CanDelete(peers: set<string>, address: string, willing: bool) {
    willing && address in peers
  }

  function FileUnder(nodeNeighbors: map<int, set<int>>, node: int, id: int): map<int, set<int>> {
    nodeNeighbors[node := (if node in nodeNeighbors then nodeNeighbors[node] else {}) + {id}]
  }

  /** Takes id out of every node but `keep`, and drops the sets that are empty then. */
  function Unfile(nodeNeighbors: map<int, set<int>>, id: int, keep: Option<int>): map<int, set<int>> {
    map node | node in nodeNeighbors && (keep == Some(node) || nodeNeighbors[node] - {id} != {}) ::
      if keep == Some(node) then nodeNeighbors[node] else nodeNeighbors[node] - {id}
  }

  /** The manager afterwards, and whether the neighbour was added. A refused IPv6 peer is only logged. */
  function Add(m: Manager, n: Neighbor, willing4: bool, willing6: bool, now: int): (Manager, bool) {
    if !m.started || m.globalAS == 0 then (m, false)
    else
      var ip4, ip6 := TrimSpace(n.neighborIP), TrimSpace(n.ipv6NeighborIP);
      if ip4 != "" && !CanAdd(m.peers, ip4, willing4) then (m, false)
      else
        var peers4 := if ip4 != "" then m.peers + {ip4} else m.peers;
        var added6 := ip6 != "" && CanAdd(peers4, n.ipv6NeighborIP, willing6);
        (m.(neighbors := m.neighbors[n.id := Entry(n, ip4, if added6 then n.ipv6NeighborIP else "")],
            nodeNeighbors := FileUnder(m.nodeNeighbors, n.nodeId, n.id),
            states := m.states[n.id := Idle],
            stateSince := m.stateSince[n.id := now],
            peers := if added6 then peers4 + {n.ipv6NeighborIP} else peers4), true)
  }

  /** Removing an unknown neighbour succeeds; a refused IPv4 removal stops everything, a refused IPv6
      removal is only logged. */
  function Remove(m: Manager, id: int, willing4: bool, willing6: bool): (Manager, bool) {
    if !m.started then (m, false)
    else if id !in m.neighbors then (m, true)
    else
      var entry := m.neighbors[id];
      if entry.neighborIP != "" && !CanDelete(m.peers, entry.neighborIP, willing4) then (m, false)
      else
        var peers4 := if entry.neighborIP != "" then m.peers - {entry.neighborIP} else m.peers;
        var deleted6 := entry.ipv6NeighborIP != "" && CanDelete(peers4, entry.ipv6NeighborIP, willing6);
        (m.(neighbors := m.neighbors - {id}, states := m.states - {id},
            nodeNeighbors := Unfile(m.nodeNeighbors, id, None),
            peers := if deleted6 then peers4 - {entry.ipv6NeighborIP} else peers4), true)
  }

  predicate SessionParamsEqual(a: Neighbor, b: Neighbor) {
    && TrimSpace(a.neighborIP) == TrimSpace(b.neighborIP)
    && TrimSpace(a.peeringIP) == TrimSpace(b.peeringIP)
    && TrimSpace(a.ipv6NeighborIP) == TrimSpace(b.ipv6NeighborIP)
    && TrimSpace(a.ipv6PeeringIP) == TrimSpace(b.ipv6PeeringIP)
    && a.remoteAS == b.remoteAS && a.multihop == b.multihop && a.passiveMode == b.passiveMode
  }

  /** Swaps in a new revision of a neighbour whose session stays up. */
  function Adopt(m: Manager, n: Neighbor): Manager
    requires n.id in m.neighbors
  {
    m.(neighbors := m.neighbors[n.id := m.neighbors[n.id].(neighbor := n)],
       nodeNeighbors := FileUnder(Unfile(m.nodeNeighbors, n.id, Some(n.nodeId)), n.nodeId, n.id))
  }

  datatype Outcomes = Outcomes(delete4: bool, delete6: bool, add4: bool, add6: bool)

  predicate KeepsSession(m: Manager, n: Neighbor) {
    n.id in m.neighbors && SessionParamsEqual(m.neighbors[n.id].neighbor, n)
  }

  /** A failed removal is only logged: the neighbour is added all the same. */
  function Update(m: Manager, n: Neighbor, o: Outcomes, now: int): (Manager, bool) {
    if KeepsSession(m, n) then (Adopt(m, n), true)
    else Add(Remove(m, n.id, o.delete4, o.delete6).0, n, o.add4, o.add6, now)
  }

  /** The apply half of a watcher event: late events of removed neighbours are ignored. */
  function Apply(m: Manager, id: int, prev: Option<SessionState>, next: SessionState, now: int): Manager {
    if prev == Some(next) || id !in m.neighbors then m
    else m.(states := m.states[id := next], stateSince := m.stateSince[id := now])
  }

  predicate HasAddress(entry: Entry, address: string) {
    entry.neighborIP == address || entry.ipv6NeighborIP == address
  }

  // ---- The indexes agree ----

  ghost predicate InNode(m: Manager, node: int, id: int) {
    node in m.nodeNeighbors && id in m.nodeNeighbors[node]
  }

  ghost predicate BelongsTo(m: Manager, node: int, id: int) {
    id in m.neighbors && m.neighbors[id].neighbor.nodeId == node
  }

  ghost predicate Indexed(m: Manager) {
    && (forall node, id :: InNode(m, node, id) <==> BelongsTo(m, node, id))
    && (forall node :: node in m.nodeNeighbors ==> m.nodeNeighbors[node] != {})
    && m.states.Keys == m.neighbors.Keys
    && m.neighbors.Keys <= m.stateSince.Keys
  }

  lemma AddKeepsIndexIff(m: Manager, n: Neighbor, willing4: bool, willing6: bool, now: int)
    requires Indexed(m)
    ensures var (m', added) := Add(m, n, willing4, willing6, now);
            Indexed(m') <==> !added || n.id !in m.neighbors || m.neighbors[n.id].neighbor.nodeId == n.nodeId
  {
    var (m', added) := Add(m, n, willing4, willing6, now);
    if added {
      assert forall node, id :: InNode(m', node, id) <==> InNode(m, node, id) || (node == n.nodeId && id == n.id);
      assert forall node, id :: id != n.id ==> (BelongsTo(m', node, id) <==> BelongsTo(m, node, id));
      if n.id in m.neighbors && m.neighbors[n.id].neighbor.nodeId != n.nodeId {
        assert BelongsTo(m, m.neighbors[n.id].neighbor.nodeId, n.id);
        assert InNode(m', m.neighbors[n.id].neighbor.nodeId, n.id) &&
          !BelongsTo(m', m.neighbors[n.id].neighbor.nodeId, n.id);
      } else {
        assert BelongsTo(m', n.nodeId, n.id);
        assert forall node :: node != n.nodeId ==> !BelongsTo(m', node, n.id) && !BelongsTo(m, node, n.id);
      }
    }
  }

  lemma RemoveKeepsIndex(m: Manager, id: int, willing4: bool, willing6: bool)
    requires Indexed(m)
    ensures Indexed(Remove(m, id, willing4, willing6).0)
  {
    var m' := Remove(m, id, willing4, willing6).0;
    if id !in m'.neighbors && id in m.neighbors {
      forall node, x | InNode(m, node, x) && x != id ensures InNode(m', node, x) {
        assert x in m.nodeNeighbors[node] - {id};
      }
      assert forall node, x :: BelongsTo(m', node, x) <==> BelongsTo(m, node, x) && x != id;
    }
  }

  lemma AdoptKeepsIndex(m: Manager, n: Neighbor)
    requires Indexed(m) && n.id in m.neighbors
    ensures Indexed(Adopt(m, n))
  {
    var m' := Adopt(m, n);
    assert forall node, x :: InNode(m', node, x) <==>
      (InNode(m, node, x) && x != n.id) || (node == n.nodeId && x == n.id);
    assert forall node, x :: BelongsTo(m', node, x) <==>
      (BelongsTo(m, node, x) && x != n.id) || (node == n.nodeId && x == n.id);
  }

  /** The guards that together let an update break the index: the manager runs, the session has to be rebuilt,
      the neighbour moves to another node, the daemon refuses to drop the old IPv4 peer, and the new address is
      empty or the daemon takes it. */
  predicate BreaksIndex(m: Manager, n: Neighbor, o: Outcomes) {
    && m.started && m.globalAS != 0 && !KeepsSession(m, n)
    && n.id in m.neighbors && m.neighbors[n.id].neighbor.nodeId != n.nodeId
    && m.neighbors[n.id].neighborIP != "" && !CanDelete(m.peers, m.neighbors[n.id].neighborIP, o.delete4)
    && (TrimSpace(n.neighborIP) == "" || CanAdd(m.peers, TrimSpace(n.neighborIP), o.add4))
  }

  lemma UpdateKeepsIndexIff(m: Manager, n: Neighbor, o: Outcomes, now: int)
    requires Indexed(m)
    ensures Indexed(Update(m, n, o, now).0) <==> !BreaksIndex(m, n, o)
  {
    if KeepsSession(m, n) {
      AdoptKeepsIndex(m, n);
    } else {
      RemoveKeepsIndex(m, n.id, o.delete4, o.delete6);
      AddKeepsIndexIff(Remove(m, n.id, o.delete4, o.delete6).0, n, o.add4, o.add6, now);
    }
  }

  /** Such an update exists: a moved neighbour with a new address, whose old peer could not be dropped. */
  lemma IndexCanBreak(m: Manager, n: Neighbor, now: int)
    requires Indexed(m) && m.started && m.globalAS != 0 && n.id in m.neighbors
    requires m.neighbors[n.id].neighborIP != "" && m.neighbors[n.id].neighbor.nodeId != n.nodeId
    requires TrimSpace(n.neighborIP) != "" && TrimSpace(n.neighborIP) !in m.peers
    requires TrimSpace(n.neighborIP) != TrimSpace(m.neighbors[n.id].neighbor.neighborIP)
    ensures !Indexed(Update(m, n, Outcomes(false, false, true, true), now).0)
  {
    UpdateKeepsIndexIff(m, n, Outcomes(false, false, true, true), now);
  }

  lemma ApplyKeepsIndex(m: Manager, id: int, prev: Option<SessionState>, next: SessionState, now: int)
    requires Indexed(m)
    ensures Indexed(Apply(m, id, prev, next, now))
    ensures var m' := Apply(m, id, prev, next, now);
            m'.neighbors == m.neighbors && m'.nodeNeighbors == m.nodeNeighbors && m'.peers == m.peers
  {
    var m' := Apply(m, id, prev, next, now);
    assert forall node, x :: InNode(m', node, x) <==> InNode(m, node, x);
    assert forall node, x :: BelongsTo(m', node, x) <==> BelongsTo(m, node, x);
  }

  // ---- Addresses ----

  function Addresses(entry: Entry): set<string> {
    {entry.neighborIP, entry.ipv6NeighborIP} - {""}
  }

  /** Registered addresses are configured peers, and no two entries share one. */
  ghost predicate Addressed(m: Manager) {
    && (forall id :: id in m.neighbors ==> Addresses(m.neighbors[id]) <= m.peers)
    && (forall id, other :: id in m.neighbors && other in m.neighbors && id != other ==>
          Addresses(m.neighbors[id]) !! Addresses(m.neighbors[other]))
  }

  lemma AddKeepsAddresses(m: Manager, n: Neighbor, willing4: bool, willing6: bool, now: int)
    requires Addressed(m)
    ensures Addressed(Add(m, n, willing4, willing6, now).0)
  {
    var (m', added) := Add(m, n, willing4, willing6, now);
    if added {
      assert Addresses(m'.neighbors[n.id]) !! m.peers;
    }
  }

  lemma RemoveKeepsAddresses(m: Manager, id: int, willing4: bool, willing6: bool)
    requires Addressed(m)
    ensures Addressed(Remove(m, id, willing4, willing6).0)
  {
    var m' := Remove(m, id, willing4, willing6).0;
    if id in m.neighbors && id !in m'.neighbors {
      assert m.peers - Addresses(m.neighbors[id]) <= m'.peers;
    }
  }

  lemma UpdateKeepsAddresses(m: Manager, n: Neighbor, o: Outcomes, now: int)
    requires Addressed(m)
    ensures Addressed(Update(m, n, o, now).0)
  {
    if KeepsSession(m, n) {
    } else {
      RemoveKeepsAddresses(m, n.id, o.delete4, o.delete6);
      AddKeepsAddresses(Remove(m, n.id, o.delete4, o.delete6).0, n, o.add4, o.add6, now);
    }
  }

  /** At most one neighbour answers to an address, so looking it up has one possible answer. */
  lemma AddressIsUnique(m: Manager, address: string, a: int, b: int)
    requires Addressed(m) && address != "" && a in m.neighbors && b in m.neighbors
    requires HasAddress(m.neighbors[a], address) && HasAddress(m.neighbors[b], address)
    ensures a == b
  {
    assert address in Addresses(m.neighbors[a]) && address in Addresses(m.neighbors[b]);
  }

  /** Saving a neighbour whose session parameters did not move costs nothing: no peer is touched, its
      state and its start stay, and only the record and its node change. */
  lemma EqualParamsKeepSession(m: Manager, n: Neighbor, o: Outcomes, now: int)
    requires Indexed(m) && KeepsSession(m, n)
    ensures var (m', ok) := Update(m, n, o, now);
            && ok && m'.peers == m.peers && m'.states == m.states && m'.stateSince == m.stateSince
            && m'.neighbors == m.neighbors[n.id := m.neighbors[n.id].(neighbor := n)]
            && (forall node :: InNode(m', node, n.id) <==> node == n.nodeId)
  {
    AdoptKeepsIndex(m, n);
    var m' := Adopt(m, n);
    assert forall node :: BelongsTo(m', node, n.id) <==> node == n.nodeId;
  }

  const WILLING := Outcomes(true, true, true, true)

  /** The peers of a neighbour: its trimmed IPv4 address, and its IPv6 address as written. */
  function PeersOf(n: Neighbor): set<string> {
    ({TrimSpace(n.neighborIP)} - {""}) + if TrimSpace(n.ipv6NeighborIP) == "" then {} else {n.ipv6NeighborIP}
  }

  /** A running manager adds a neighbour unless the daemon refuses its IPv4 address or has it already: then its peers
      are configured, but for a refused IPv6 one, and its session starts from Idle. Otherwise nothing happens. */
  lemma AddMeans(m: Manager, n: Neighbor, willing4: bool, willing6: bool, now: int)
    ensures var (m', ok) := Add(m, n, willing4, willing6, now);
      var ip4 := TrimSpace(n.neighborIP);
      if !m.started || m.globalAS == 0 || (ip4 != "" && (!willing4 || ip4 in m.peers)) then !ok && m' == m
      else
        && ok && m'.peers == m.peers + (if willing6 then PeersOf(n) else {ip4} - {""})
        && m'.states == m.states[n.id := Idle] && m'.stateSince == m.stateSince[n.id := now]
        && m'.neighbors.Keys == m.neighbors.Keys + {n.id}
        && m'.neighbors[n.id].neighbor == n && m'.neighbors[n.id].neighborIP == ip4
        && (!willing6 ==> m'.neighbors[n.id].ipv6NeighborIP == "")
        && (forall id :: id in m.neighbors && id != n.id ==> m'.neighbors[id] == m.neighbors[id])
  {
  }

  /** A running manager forgets a registered neighbour, its state and its peers, unless the daemon refuses to drop the
      IPv4 one: then nothing happens. Only a refused IPv6 peer stays behind. */
  lemma RemoveMeans(m: Manager, id: int, willing4: bool, willing6: bool)
    requires Addressed(m)
    ensures var (m', ok) := Remove(m, id, willing4, willing6);
      if !m.started || id !in m.neighbors then ok == m.started && m' == m
      else
        var was := m.neighbors[id];
        if was.neighborIP != "" && !willing4 then !ok && m' == m
        else
          && ok && m'.neighbors == m.neighbors - {id} && m'.states == m.states - {id} && m'.stateSince == m.stateSince
          && m'.peers == m.peers - (if willing6 then Addresses(was) else {was.neighborIP} - {""})
  {
  }

  /** What an update of a registered neighbour does when the manager runs and the daemon is willing. With the trimmed
      addresses, the remote AS and both modes unchanged nothing moves but the record. Otherwise its peers make way for
      the new ones and the session starts from Idle; if another neighbour has the new IPv4 address the neighbour is
      gone. */
  lemma UpdateMeans(m: Manager, n: Neighbor, now: int)
    requires Indexed(m) && Addressed(m) && m.started && m.globalAS != 0 && n.id in m.neighbors
    ensures var was, rest := m.neighbors[n.id].neighbor, m.peers - Addresses(m.neighbors[n.id]);
      var (m', ok) := Update(m, n, WILLING, now);
      if TrimSpace(was.neighborIP) == TrimSpace(n.neighborIP) && TrimSpace(was.peeringIP) == TrimSpace(n.peeringIP) &&
         TrimSpace(was.ipv6NeighborIP) == TrimSpace(n.ipv6NeighborIP) &&
         TrimSpace(was.ipv6PeeringIP) == TrimSpace(n.ipv6PeeringIP) &&
         was.remoteAS == n.remoteAS && was.multihop == n.multihop && was.passiveMode == n.passiveMode
      then
        && ok && m'.peers == m.peers && m'.states == m.states && m'.stateSince == m.stateSince
        && m'.neighbors == m.neighbors[n.id := m.neighbors[n.id].(neighbor := n)]
      else if TrimSpace(n.neighborIP) != "" && TrimSpace(n.neighborIP) in rest then
        !ok && m'.peers == rest && m'.neighbors == m.neighbors - {n.id} && m'.states == m.states - {n.id}
      else
        && ok && m'.peers == rest + PeersOf(n) && m'.states == m.states[n.id := Idle]
        && m'.stateSince == m.stateSince[n.id := now] && m'.neighbors.Keys == m.neighbors.Keys
        && m'.neighbors[n.id].neighbor == n
        && (forall id :: id in m.neighbors && id != n.id ==> m'.neighbors[id] == m.neighbors[id])
  {
    if !KeepsSession(m, n) {
      RemoveMeans(m, n.id, true, true);
      AddMeans(Remove(m, n.id, true, true).0, n, true, true, now);
    }
  }

  // ---- Whole runs ----

  /** A watcher event between its steps. */
  datatype Pending = Found(id: int, next: SessionState) | Read(id: int, prev: Option<SessionState>, next: SessionState)

  datatype Event =
    | AddNeighbor(n: Neighbor, willing4: bool, willing6: bool, now: int)
    | RemoveNeighbor(id: int, willing4: bool, willing6: bool)
    | UpdateNeighbor(n: Neighbor, outcomes: Outcomes, now: int)
    | WatchLookup(address: string, id: int, next: SessionState)
    | WatchRead(pending: Pending)
    | WatchApply(pending: Pending, now: int)

  datatype System = System(manager: Manager, pending: set<Pending>)

  /** Adds are of fresh ids, and no update is of the kind that breaks the index. */
  ghost predicate Enabled(s: System, e: Event) {
    match e
    case AddNeighbor(n, _, _, _) => n.id !in s.manager.neighbors
    case RemoveNeighbor(_, _, _) => true
    case UpdateNeighbor(n, o, _) => !BreaksIndex(s.manager, n, o)
    case WatchLookup(address, id, _) =>
      address != "" && id in s.manager.neighbors && HasAddress(s.manager.neighbors[id], address)
    case WatchRead(p) => p in s.pending && p.Found?
    case WatchApply(p, _) => p in s.pending && p.Read?
  }

  ghost function Next(s: System, e: Event): System
    requires Enabled(s, e)
  {
    match e
    case AddNeighbor(n, w4, w6, now) => s.(manager := Add(s.manager, n, w4, w6, now).0)
    case RemoveNeighbor(id, w4, w6) => s.(manager := Remove(s.manager, id, w4, w6).0)
    case UpdateNeighbor(n, o, now) => s.(manager := Update(s.manager, n, o, now).0)
    case WatchLookup(_, id, next) => s.(pending := s.pending + {Found(id, next)})
    case WatchRead(p) =>
      var prev := if p.id in s.manager.states then Some(s.manager.states[p.id]) else None;
      s.(pending := s.pending - {p} + {Read(p.id, prev, p.next)})
    case WatchApply(p, now) => System(Apply(s.manager, p.id, p.prev, p.next, now), s.pending - {p})
  }

  ghost function Run(started: bool, globalAS: nat, events: seq<Event>): Option<System> {
    if events == [] then Some(System(FreshManager(started, globalAS), {}))
    else
      match Run(started, globalAS, events[..|events| - 1])
      case None => None
      case Some(before) =>
        var last := events[|events| - 1];
        if Enabled(before, last) then Some(Next(before, last)) else None
  }

  lemma StepKeeps(s: System, e: Event)
    requires Enabled(s, e) && Indexed(s.manager) && Addressed(s.manager)
    ensures Indexed(Next(s, e).manager) && Addressed(Next(s, e).manager)
  {
    match e
    case AddNeighbor(n, w4, w6, now) =>
      AddKeepsIndexIff(s.manager, n, w4, w6, now);
      AddKeepsAddresses(s.manager, n, w4, w6, now);
    case RemoveNeighbor(id, w4, w6) =>
      RemoveKeepsIndex(s.manager, id, w4, w6);
      RemoveKeepsAddresses(s.manager, id, w4, w6);
    case UpdateNeighbor(n, o, now) =>
      UpdateKeepsIndexIff(s.manager, n, o, now);
      UpdateKeepsAddresses(s.manager, n, o, now);
    case WatchApply(p, now) =>
      ApplyKeepsIndex(s.manager, p.id, p.prev, p.next, now);
    case WatchLookup(_, _, _) =>
    case WatchRead(_) =>
  }

  /** Over every run the indexes agree and addresses stay unique; in particular the states are those of
      the registered neighbours, so no late event brings a removed one back. */
  lemma {:induction false} RunsKeepIndexes(started: bool, globalAS: nat, events: seq<Event>, s: System)
    requires Run(started, globalAS, events) == Some(s)
    ensures Indexed(s.manager) && Addressed(s.manager)
  {
    if events == [] {
    } else {
      var before := Run(started, globalAS, events[..|events| - 1]).value;
      RunsKeepIndexes(started, globalAS, events[..|events| - 1], before);
      StepKeeps(before, events[|events| - 1]);
    }
  }

  // ---- States over runs ----

  /** The guards under which a neighbour is added: the manager runs, and the daemon takes the IPv4 address if any. */
  predicate Accepts(m: Manager, n: Neighbor, willing4: bool) {
    m.started && m.globalAS != 0 &&
    (TrimSpace(n.neighborIP) == "" || CanAdd(m.peers, TrimSpace(n.neighborIP), willing4))
  }

  /** The event starts the session of a neighbour: it is added, or its update rebuilds it. */
  predicate Starts(m: Manager, e: Event, id: int) {
    match e
    case AddNeighbor(n, w4, _, _) => n.id == id && Accepts(m, n, w4)
    case UpdateNeighbor(n, o, _) =>
      n.id == id && !KeepsSession(m, n) && Accepts(Remove(m, id, o.delete4, o.delete6).0, n, o.add4)
    case _ => false
  }

  /** A watcher event is applied to a registered neighbour whose state it changes, as far as the watcher has seen. */
  predicate Applies(m: Manager, e: Event, id: int) {
    && e.WatchApply? && e.pending.Read? && e.pending.id == id && e.pending.prev != Some(e.pending.next)
    && id in m.neighbors
  }

  function TimeOf(e: Event): int {
    match e
    case AddNeighbor(_, _, _, now) => now
    case UpdateNeighbor(_, _, now) => now
    case WatchApply(_, now) => now
    case _ => 0
  }

  /** The state of a neighbour's session after a run and when it began: Idle since its last start, or the state of the
      last event applied since. */
  ghost function LastChange(started: bool, globalAS: nat, events: seq<Event>, id: int): Option<(SessionState, int)>
    requires Run(started, globalAS, events).Some?
  {
    if events == [] then None
    else
      var m, e := Run(started, globalAS, events[..|events| - 1]).value.manager, events[|events| - 1];
      if Starts(m, e, id) then Some((Idle, TimeOf(e)))
      else if Applies(m, e, id) then Some((e.pending.next, TimeOf(e)))
      else LastChange(started, globalAS, events[..|events| - 1], id)
  }

  /** One event changes the state of a neighbour exactly by starting or applying. */
  lemma StepState(s: System, e: Event, id: int)
    requires Enabled(s, e) && Indexed(s.manager)
    requires id in Next(s, e).manager.states
    ensures var m, m' := s.manager, Next(s, e).manager;
      if Starts(m, e, id) then m'.states[id] == Idle && id in m'.stateSince && m'.stateSince[id] == TimeOf(e)
      else if Applies(m, e, id) then
        m'.states[id] == e.pending.next && id in m'.stateSince && m'.stateSince[id] == TimeOf(e)
      else
        id in m.states && m'.states[id] == m.states[id] && id in m'.stateSince && m'.stateSince[id] == m.stateSince[id]
  {
  }

  /** Over every run, a registered neighbour is in the state of its last change, since then. */
  lemma {:induction false} StatesAreLast(started: bool, globalAS: nat, events: seq<Event>, s: System, id: int)
    requires Run(started, globalAS, events) == Some(s) && id in s.manager.neighbors
    ensures id in s.manager.states && id in s.manager.stateSince
    ensures LastChange(started, globalAS, events, id) == Some((s.manager.states[id], s.manager.stateSince[id]))
  {
    RunsKeepIndexes(started, globalAS, events, s);
    var front := events[..|events| - 1];
    var before, e := Run(started, globalAS, front).value, events[|events| - 1];
    RunsKeepIndexes(started, globalAS, front, before);
    StepState(before, e, id);
    if !Starts(before.manager, e, id) && !Applies(before.manager, e, id) {
      StatesAreLast(started, globalAS, front, before, id);
    }
  }

  // ---- The manager itself ----

  lemma SomeMember(s: set<int>)
    requires s != {}
    ensures exists x: int :: x in s
  {
    if forall x: int :: x !in s {
      assert false;
    }
  }

  class SessionManager {
    const started: bool
    const globalAS: nat
    var neighbors: map<int, Entry>
    var nodeNeighbors: map<int, set<int>>
    var states: map<int, SessionState>
    var stateSince: map<int, int>
    /** The daemon's peers. */
    var peers: set<string>

    ghost function Value(): Manager
      reads this
    {
      Manager(started, globalAS, neighbors, nodeNeighbors, states, stateSince, peers)
    }

    constructor (started: bool, globalAS: nat)
      ensures Value() == FreshManager(started, globalAS)
    {
      this.started, this.globalAS := started, globalAS;
      neighbors, nodeNeighbors, states, stateSince, peers := map[], map[], map[], map[], {};
    }

    method AddPeer(address: string, willing: bool) returns (ok: bool)
      modifies this`peers
      ensures ok == CanAdd(old(peers), address, willing)
      ensures peers == if ok then old(peers) + {address} else old(peers)
    {
      ok := willing && address !in peers;
      if ok {
        peers := peers + {address};
      }
    }

    method DeletePeer(address: string, willing: bool) returns (ok: bool)
      modifies this`peers
      ensures ok == CanDelete(old(peers), address, willing)
      ensures peers == if ok then old(peers) - {address} else old(peers)
    {
      ok := willing && address in peers;
      if ok {
        peers := peers - {address};
      }
    }

    method File(node: int, id: int)
      modifies this`nodeNeighbors
      ensures nodeNeighbors == FileUnder(old(nodeNeighbors), node, id)
    {
      if node !in nodeNeighbors {
        nodeNeighbors := nodeNeighbors[node := {}];
      }
      nodeNeighbors := nodeNeighbors[node := nodeNeighbors[node] + {id}];
    }

    method AddNeighbor(n: Neighbor, willing4: bool, willing6: bool, now: int) returns (ok: bool)
      modifies this
      ensures (Value(), ok) == Add(old(Value()), n, willing4, willing6, now)
    {
      if !started || globalAS == 0 {
        return false;
      }
      var neighborIP := TrimSpace(n.neighborIP);
      var ipv6NeighborIP := TrimSpace(n.ipv6NeighborIP);
      if neighborIP != "" {
        var added := AddPeer(neighborIP, willing4);
        if !added {
          return false;
        }
      }
      var ipv6IP := "";
      if ipv6NeighborIP != "" {
        var added := AddPeer(n.ipv6NeighborIP, willing6);
        if added {
          ipv6IP := n.ipv6NeighborIP;
        }
      }
      neighbors := neighbors[n.id := Entry(n, neighborIP, ipv6IP)];
      File(n.nodeId, n.id);
      states := states[n.id := Idle];
      stateSince := stateSince[n.id := now];
      return true;
    }

    /** The loop over all nodes that takes an id out and drops empty sets. */
    method UnfileEverywhere(id: int, keep: Option<int>)
      modifies this`nodeNeighbors
      ensures nodeNeighbors == Unfile(old(nodeNeighbors), id, keep)
    {
      ghost var was := nodeNeighbors;
      var rest := nodeNeighbors.Keys;
      while rest != {}
        invariant rest <= was.Keys && nodeNeighbors.Keys <= was.Keys
        invariant forall node :: node in rest ==> node in nodeNeighbors && nodeNeighbors[node] == was[node]
        invariant forall node :: node in was && node !in rest ==>
          (node in nodeNeighbors <==> node in Unfile(was, id, keep))
        invariant forall node :: node in nodeNeighbors && node !in rest ==>
          node in Unfile(was, id, keep) && nodeNeighbors[node] == Unfile(was, id, keep)[node]
      {
        SomeMember(rest);
        var node: int :| node in rest;
        rest := rest - {node};
        if keep != Some(node) {
          var ids := nodeNeighbors[node] - {id};
          if ids == {} {
            nodeNeighbors := nodeNeighbors - {node};
          } else {
            nodeNeighbors := nodeNeighbors[node := ids];
          }
        }
      }
      ghost var expected := Unfile(was, id, keep);
      assert forall node :: node in nodeNeighbors <==> node in expected;
      assert forall node :: node in nodeNeighbors ==> nodeNeighbors[node] == expected[node];
      assert nodeNeighbors == expected;
    }

    method RemoveNeighbor(id: int, willing4: bool, willing6: bool) returns (ok: bool)
      modifies this
      ensures (Value(), ok) == Remove(old(Value()), id, willing4, willing6)
    {
      if !started {
        return false;
      }
      if id !in neighbors {
        return true;
      }
      var entry := neighbors[id];
      if entry.neighborIP != "" {
        var deleted := DeletePeer(entry.neighborIP, willing4);
        if !deleted {
          return false;
        }
      }
      if entry.ipv6NeighborIP != "" {
        var deleted := DeletePeer(entry.ipv6NeighborIP, willing6);
      }
      neighbors := neighbors - {id};
      states := states - {id};
      UnfileEverywhere(id, None);
      return true;
    }

    method AdoptNeighborRecord(n: Neighbor)
      requires n.id in neighbors
      modifies this
      ensures Value() == Adopt(old(Value()), n)
    {
      neighbors := neighbors[n.id := neighbors[n.id].(neighbor := n)];
      UnfileEverywhere(n.id, Some(n.nodeId));
      File(n.nodeId, n.id);
    }

    method UpdateNeighbor(n: Neighbor, o: Outcomes, now: int) returns (ok: bool)
      modifies this
      ensures (Value(), ok) == Update(old(Value()), n, o, now)
    {
      if n.id in neighbors && SessionParamsEqual(neighbors[n.id].neighbor, n) {
        AdoptNeighborRecord(n);
        return true;
      }
      var removed := RemoveNeighbor(n.id, o.delete4, o.delete6);
      ok := AddNeighbor(n, o.add4, o.add6, now);
    }

    method HandlePeerStateChange(id: int, prev: Option<SessionState>, next: SessionState, now: int)
      modifies this
      ensures Value() == Apply(old(Value()), id, prev, next, now)
    {
      if prev == Some(next) {
        return;
      }
      if id !in neighbors {
        return;
      }
      stateSince := stateSince[id := now];
      states := states[id := next];
    }

    /** The lookup half of a watcher event: some neighbour that answers to the address. */
    method NeighborIDForAddress(address: string) returns (found: Option<int>)
      ensures found.Some? ==> address != "" && found.value in neighbors && HasAddress(neighbors[found.value], address)
      ensures found.None? ==> address == "" || forall id :: id in neighbors ==> !HasAddress(neighbors[id], address)
    {
      if address == "" {
        return None;
      }
      var rest := neighbors.Keys;
      while rest != {}
        invariant rest <= neighbors.Keys
        invariant forall id :: id in neighbors && id !in rest ==> !HasAddress(neighbors[id], address)
      {
        SomeMember(rest);
        var id: int :| id in rest;
        if neighbors[id].neighborIP == address || neighbors[id].ipv6NeighborIP == address {
          return Some(id);
        }
        rest := rest - {id};
      }
      return None;
    }

    /** With unique addresses the answer is the node of the one neighbour that has the address. */
    method NodeIDForNeighborIP(address: string) returns (node: Option<int>)
      requires Addressed(Value())
      ensures node.None? <==> address == "" || forall id :: id in neighbors ==> !HasAddress(neighbors[id], address)
      ensures node.Some? ==> forall id :: id in neighbors && HasAddress(neighbors[id], address) ==>
        neighbors[id].neighbor.nodeId == node.value
    {
      var found := NeighborIDForAddress(address);
      if found.None? {
        return None;
      }
      forall id | id in neighbors && HasAddress(neighbors[id], address) ensures id == found.value {
        AddressIsUnique(Value(), address, id, found.value);
      }
      return Some(neighbors[found.value].neighbor.nodeId);
    }

    /** Through the index, but the same as a scan of all neighbours. */
    method HasActiveSession(node: int) returns (active: bool)
      requires Indexed(Value())
      ensures active <==> exists id :: BelongsTo(Value(), node, id) && states[id] == Established
    {
      var rest := if node in nodeNeighbors then nodeNeighbors[node] else {};
      ghost var m := Value();
      assert forall id :: BelongsTo(m, node, id) <==> id in rest by {
        assert forall id :: id in rest <==> InNode(m, node, id);
      }
      while rest != {}
        invariant forall id :: id in rest ==> BelongsTo(m, node, id)
        invariant forall id :: BelongsTo(m, node, id) && id !in rest ==> states[id] != Established
      {
        SomeMember(rest);
        var id: int :| id in rest;
        if id in states && states[id] == Established {
          return true;
        }
        rest := rest - {id};
      }
      return false;
    }

    method HasNeighbors(node: int) returns (has: bool)
      requires Indexed(Value())
      ensures has <==> exists id :: BelongsTo(Value(), node, id)
    {
      has := node in nodeNeighbors && |nodeNeighbors[node]| > 0;
      if has {
        SomeMember(nodeNeighbors[node]);
        var id: int :| id in nodeNeighbors[node];
        assert InNode(Value(), node, id);
      } else {
        assert forall id :: !InNode(Value(), node, id);
      }
    }

    method NeighborIPsForNode(node: int) returns (ips: set<string>)
      requires Indexed(Value())
      ensures forall ip :: ip in ips <==> exists id :: BelongsTo(Value(), node, id) && ip in Addresses(neighbors[id])
    {
      ips := {};
      var rest := if node in nodeNeighbors then nodeNeighbors[node] else {};
      ghost var m := Value();
      assert forall id :: BelongsTo(m, node, id) <==> id in rest by {
        assert forall id :: id in rest <==> InNode(m, node, id);
      }
      while rest != {}
        invariant forall id :: id in rest ==> BelongsTo(m, node, id)
        invariant forall ip :: ip in ips <==>
          exists id :: BelongsTo(m, node, id) && id !in rest && ip in Addresses(neighbors[id])
      {
        SomeMember(rest);
        var id: int :| id in rest;
        rest := rest - {id};
        if id in neighbors {
          if neighbors[id].neighborIP != "" {
            ips := ips + {neighbors[id].neighborIP};
          }
          if neighbors[id].ipv6NeighborIP != "" {
            ips := ips + {neighbors[id].ipv6NeighborIP};
          }
        }
      }
    }
  }
}
