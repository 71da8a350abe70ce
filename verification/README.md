# HopStat, verified

A Dafny model of the parts of HopStat whose correctness is not evident from reading one function, with proofs of
what they promise. `dafny verify dfyconfig.toml` checks everything.

## What is modelled

- **The network map.** AS paths become hops (`PathHops`), hops of all nodes merge into one graph (`MergedGraph`,
  `GraphBuilding`), Kahn's algorithm from the sinks layers it (`Layering`, over `Graphs`), layers become columns, mean
  rows become fractional rows that crossing passes push apart (`Layout`), and rows and columns become boxes on a canvas
  (`NetworkMap`), joined by cubic curves (`EdgeCurves`). `MergeCycles` says when merging closes a cycle. Rows and pixels
  are reals. Everything up to the canvas holds for any test of whether a connector crosses a box; `EdgeCurves` adds the
  sampled one and what it means for the curves.
- **The circuit breaker** as a protocol of two critical sections with the guarded function running unlocked between
  them, for any number of calls in flight (`CircuitBreaking`).
- **Route selection.** AS-path text and keys (`AsPathText`), the decision process of section 9.1.2.2 of RFC 4271 with the
  cluster-list rule of section 9 of RFC 4456 as an ordering (`BestPath`, `Orders`), the keys that order router addresses
  (`Addresses`, `Ipv6`, `Ipv6Order`, `StringOrder`), choosing per prefix (`Selection`), marking entries and routes in
  place (`EntrySelection`, `RouteTable`), a node's paths for the map (`NodeMap`) and the origin AS in front of them
  (`OriginPath`).
- **The BGP session manager**: three maps, a routing daemon that is a set of peer addresses with accepting or refusing
  outcomes, and a watcher that looks a neighbour up in one step and applies its event in a later one
  (`SessionManagement`). Admin operations run one at a time.
- **Stores over time**: the sliding-window rate limiter with its cleanup (`RateLimiting`), and the query store with its
  one-slot notify channel, as a class (`QueryEntries`, `QueryStoring`) and as a protocol of writers, signals and readers
  (`QueryWakeups`), with what entries show over whole runs (`QueryStories`) and the runs in which a wakeup is lost
  (`LostWakeups`).
- **Searches and round trips**: longest-prefix match by a sorted scan (`AsnBlocks`); share links from percent-encoding
  to the node they open, the server's mirror of reading them and the page it serves (`PercentCoding`, `Slugs`,
  `ShareLinks`, `GoText`, `SharePreview`, `PagePreview`); server-sent events written and read (`Sse`); hex colours and
  the search for a readable lightness (`HexColors`, `BrandColor`). `Text`, `JsText` and `Options` hold what these share.

Code that changes state step by step is a method, over class fields, arrays or maps as in the source, proved equal to a
function of the state before; the theorems are lemmas about those functions and about whole runs.

## Where the code and its promises part

- Comments in `network-graph.ts` promise that the graph stays acyclic and every edge points left to right. Entries of
  three nodes whose paths order the same ASes in a ring close a cycle that the check for reversed pairs accepts
  (`CycleCanForm`). The graph is acyclic exactly when one ranking rises along the first step between any two vertices
  (`MergeAcyclicIff`), and acyclic without dropping a step exactly when one rises along every path (`ConsistentIff`).
  Edges point left to right exactly for merged graphs without a walk of more than `MAX_COLS` edges (`LeftToRightIff`),
  that is, when some ranking by the columns there are rises along every first step (`ForwardIffRanked`).
- The comment on `addressKey` promises numeric order. IPv4 keys have it (`V4Numeric`). IPv6 keys do not: 2001:db8::10
  sorts before 2001:db8::9 (`V6NotNumeric`). Whether two of them are in numeric order depends on one pair of groups
  (`V6NumericIff`): compared as text in addresses that shorten the same run of zeros (`V6SameRunIff`), and against a
  colon where one shortens an earlier run (`V6EarlierRunIff`).
- The last comment in `RoutesToNodeASPaths` mentions a selected route dropped because an earlier one has its path. The
  selected route is always at index 0 after the sort, so it is only ever dropped for having no path.
- `UpdateNeighbor` only logs a refused removal and adds all the same. That breaks the index in exactly one case
  (`UpdateKeepsIndexIff`), which can happen (`IndexCanBreak`). `stateSince` is not cleaned on removal, so only the key
  sets of `neighbors` and `states` agree.
- A rate limiter with a limit below one tracks an address while refusing it, past the cap (`CapKeptIff`,
  `NeverBeyondCapIff`).
- A circuit breaker with a threshold below one behaves as with threshold one (`ClosedIff`).
- The query store wakes one reader of a query. With two, one can stay blocked on a stale view until its poll timeout
  (`SharedTokenCanBeLost`); with at most one taker for each query nobody misses what is announced (`AllSafeIff`). A sole
  taker can still wait on a stale view of its own entry in two cases, and in no other (`NoLostWakeup`): its query was
  started again in mid-round, which `SetRunning` does not announce (`RestartInMidRound`), or AS-path fields were merged
  into a result that was not running (`MergeIntoPending`). A reader blocked on an entry that `SetRunning` replaced, or
  that was deleted or expired before `Set`, is stranded (`RestartStrands`, `RemovalStrands`): it can be woken exactly
  while its id points to its entry or a token is already there or being sent (`WakeableIff`).
- A block written as an IPv4-mapped network sorts by its 128-bit mask and can hide a longer plain IPv4 block
  (`MappedHides`). The scan finds a longest prefix exactly for the addresses from which nothing is hidden
  (`FirstHitIsLongestIff`).
- The slug lookup of the frontend also finds members that every JavaScript object inherits: `constructor` is treated as
  a command slug, and a path that begins with it is read as a query whose command is a function. The server's table does
  not have such members, so it reads no query there (`ConstructorIsMisread`).
- The frontend limits a target to 255 UTF-16 units, the server to 255 bytes; JavaScript and Go trim slightly different
  sets of blanks; and the server keeps escapes that are no UTF-8 as raw bytes. When the two readings agree nonetheless is
  stated for every path and parameter (`ServerMirrorsIff`).
- The page handler hands `ParseQueryPath` a request path that has been unescaped already, so a shared target with a
  percent sign, such as an IPv6 address with a zone, is unescaped twice and its page does not show it (`PageShowsIff`).
- The test for crossed boxes looks at 65 points of a curve. What it says of the rest is quantitative: a curve it passes
  keeps 6 pixels less 3/128 of its drop, so up to a drop of 256 pixels none enters a box (`DrawnClear`).
- When no lightness is readable on every surface, the comment in `solveLightness` takes the end furthest from them. For
  targets up to 11 the end taken is always white (`FallbackIsWhite`), which is the furthest only for surfaces dark enough
  together (`FurthestIff`, `NearerEndTaken`).
- An event with an empty type is delivered like any other (`RoundTripIff`); a line of 1 MiB or more ends the reading
  with an error after the events before it (`ReadWritten`).

## Model

| member | source | states |
|---|---|---|
| PathHops.CompressConsecutiveASPath | web/frontend/src/lib/as-info.ts:142-154 | Compression yields the maximal runs of the path: expanding them gives the path back, and no two neighbouring runs are equal |
| PathHops.RunsUnique | web/frontend/src/lib/as-info.ts:142-154 | There is only one such compression, so the counts shown for prepends are determined by the path |
| PathHops.NormalizePath | web/frontend/src/lib/network-graph.ts:213-227 | A normalised path visits every positive AS number exactly once, in the order of first visit, with the length of its first run |
| PathHops.KeepPositive | web/frontend/src/lib/network-graph.ts:218 | The filter keeps exactly the positive AS numbers, in order |
| PathHops.FirstRunsVisit | web/frontend/src/lib/network-graph.ts:217-227 | Dropping repeats run by run visits the same ASes in the same order as dropping them number by number |
| Layering.LayerVertices | web/frontend/src/lib/network-graph.ts:234-274 | The queue-based layering terminates on every graph, cyclic or not, dequeues each vertex at most once and exactly those that reach no cycle, and gives every vertex its exact layer |
| Layering.Reverse | web/frontend/src/lib/network-graph.ts:235-246 | The first loops count out-degrees and list, for every vertex, its predecessors once each |
| Layering.StartQueue | web/frontend/src/lib/network-graph.ts:248-256 | Exactly the sinks start the queue, at layer 0 |
| Layering.PlaceRest | web/frontend/src/lib/network-graph.ts:268-272 | Whatever was never dequeued or reached is placed at layer 0, and nothing else moves |
| Layering.SettledIsExact | web/frontend/src/lib/network-graph.ts:257-273 | What the queue settles is the declarative meaning of a layer: the longest walk where there is one, and one more than the deepest cycle-free successor otherwise |
| Layering.AcyclicLayers | web/frontend/src/lib/network-graph.ts:229-233 | On an acyclic graph every layer is the length of the longest path to a sink, and every edge drops at least one layer |
| Layering.ExactIsUnique | web/frontend/src/lib/network-graph.ts:234-274 | Layers are a function of the graph alone; the order of keys, edges and queue cannot change them |
| MergedGraph.MergeFansIn | web/frontend/src/lib/network-graph.ts:342-375 | In every merged graph no edge coexists with its reverse, every AS has an incoming edge, vertices are those of the paths, edges are steps of paths, and every step is present in one direction |
| MergedGraph.LinkChainEdges | web/frontend/src/lib/network-graph.ts:356-375 | Linking a path adds only its own steps, each unless its reverse is there, and removes nothing |
| MergedGraph.PlaceColumns | web/frontend/src/lib/network-graph.ts:434-442 | Columns are computed from exact layers and the deepest of them |
| MergedGraph.Deepest | web/frontend/src/lib/network-graph.ts:436 | The deepest layer is found |
| MergedGraph.LeftToRightIff | web/frontend/src/lib/network-graph.ts:229-233 | Every edge goes to a strictly larger column if and only if no walk of the merged graph has more than MAX_COLS edges |
| MergedGraph.NeverLeft | web/frontend/src/lib/network-graph.ts:438-442 | For any merged graph, edges out of nodes go right and edges into vertices that reach no cycle never go left |
| MergeCycles.CycleCanForm | web/frontend/src/lib/network-graph.ts:213-216 | Any three nodes and any three ASes: entries whose paths order the ASes in a ring are drawn with a cycle that the pairwise check accepts, so the promised acyclicity and direction fail there |
| MergeCycles.RingIsDrawn | web/frontend/src/lib/network-graph.ts:302-324 | The drawn groups of those entries are exactly the ring |
| MergeCycles.MergedEdgeIff | web/frontend/src/lib/network-graph.ts:356-375 | The merged graph has an edge from a to b if and only if the first path that steps between them steps that way |
| MergeCycles.MergeAcyclicIff | web/frontend/src/lib/network-graph.ts:213-233 | The merged graph is acyclic if and only if one ranking of the vertices rises along every first step |
| MergeCycles.ConsistentIff | web/frontend/src/lib/network-graph.ts:213-233 | The merged graph is acyclic and drops no step of any path if and only if one ranking rises along every path |
| MergeCycles.ForwardIffRanked | web/frontend/src/lib/network-graph.ts:229-233 | Every edge goes to a strictly larger column if and only if some ranking of the vertices by 0 to MAX_COLS rises along every first step |
| MergeCycles.AcyclicIffLayered | web/frontend/src/lib/network-graph.ts:229-274 | The computed layers tell: a graph is acyclic if and only if its exact layers drop along every edge |
| MergedGraph.BoundedWalks | web/frontend/src/lib/network-graph.ts:402-442 | A bound on walks implies acyclicity and bounds every layer |
| GraphBuilding.GroupEntries | web/frontend/src/lib/network-graph.ts:302-313 | Grouping keeps one group for every node with a usable path, in order of first appearance, with all its paths in order |
| GraphBuilding.LeadWithQueried | web/frontend/src/lib/network-graph.ts:317-322 | The queried node moves to the front and everyone else keeps their order |
| GraphBuilding.DrawnGroups | web/frontend/src/lib/network-graph.ts:302-324 | At most MAX_NODES nodes are drawn, each once with all its paths; a queried node with a route comes first; below the cap nobody is missing |
| GraphBuilding.BuildGraph | web/frontend/src/lib/network-graph.ts:327-432 | Filling the vertex and edge maps in place merges exactly the drawn paths, and every vertex records exactly the nodes that traverse it |
| GraphBuilding.GraphBuilder.TouchVertex | web/frontend/src/lib/network-graph.ts:342-354 | Touching a vertex creates it without edges or records one more node that traverses it, and changes no other vertex |
| GraphBuilding.GraphBuilder.LinkHops | web/frontend/src/lib/network-graph.ts:427-430 | Linking the node to its first hop and every hop to the next links the whole chain |
| GraphBuilding.GraphBuilder.AddGroup | web/frontend/src/lib/network-graph.ts:377-432 | One node with all its paths merges exactly its chains |
| GraphBuilding.GraphBuilder.LinkVertices | web/frontend/src/lib/network-graph.ts:356-375 | One link adds its edge unless it or its reverse exists, and keeps the three maps describing one graph |
| GraphBuilding.GraphBuilder.AddPath | web/frontend/src/lib/network-graph.ts:402-431 | One path of a node merges its chain and records the node at every hop |
| Layout.SortByRank | web/frontend/src/lib/network-graph.ts:461-465 | Columns are sorted by mean row, equal rows by AS number, without losing or repeating a vertex |
| Layout.PackColumn | web/frontend/src/lib/network-graph.ts:466-476 | Packing places every vertex at its wish or at the first row the vertex above leaves free, and keeps the maximum row |
| Layout.PackedIsHighest | web/frontend/src/lib/network-graph.ts:466-474 | No arrangement in the same order that grants every wish puts any box higher |
| Layout.StackedApart | web/frontend/src/lib/network-graph.ts:466-474 | Boxes of one column are pairwise at least one row apart |
| Layout.GroupByColumn | web/frontend/src/lib/network-graph.ts:449-454 | Every vertex is listed once in the list of its column |
| Layout.MeanBetween | web/frontend/src/lib/network-graph.ts:461-464 | The mean row of a vertex lies between the rows of the nodes that traverse it |
| Layout.MeanGrows | web/frontend/src/lib/network-graph.ts:461-464 | The mean row times the number of nodes is the sum of their rows, so it depends only on how often each node counts |
| Layout.NodeRowIs | web/frontend/src/lib/network-graph.ts:444-447 | A drawn node counts by its position, and any other as row 0 |
| Layout.AssignRows | web/frontend/src/lib/network-graph.ts:449-477 | First rows: nodes in input order, every other column sorted and packed, all boxes of a column one row apart |
| Layout.FirstRowsOnce | web/frontend/src/lib/network-graph.ts:449-477 | The first rows are determined by the columns and the mean rows alone |
| Layout.FindRow | web/frontend/src/lib/network-graph.ts:495-498 | The half-row search returns the first half-step from the start that clears every crossing edge, or the last one its 4 * MAX_NODES tries reach; it is the start exactly when that is clear |
| Layout.PassColumn | web/frontend/src/lib/network-graph.ts:487-505 | A pass over a column changes rows exactly when a skipping edge crosses one of its boxes; then each box moves to the first clear half-step below the box above it |
| Layout.CrossingEdges | web/frontend/src/lib/network-graph.ts:487-491 | The edges collected are exactly those that skip over the column |
| Layout.CrossingPass | web/frontend/src/lib/network-graph.ts:484-507 | One pass keeps boxes one row apart and only moves them down, column 0 not at all; it moves something exactly when a skipping edge crosses a box |
| Layout.ClearColumn | web/frontend/src/lib/network-graph.ts:493-505 | A pass over a column only moves boxes down, keeps them one row apart, and without a move certifies that nothing crosses any of them |
| Layout.CrossingPasses | web/frontend/src/lib/network-graph.ts:483-508 | At most three passes: a quiet end is a drawing no skipping edge spoils, and without one three passes have each moved a box |
| NetworkMap.BoxesDisjoint | web/frontend/src/lib/network-graph.ts:512-523 | Boxes in different columns or one row apart do not overlap, in both orientations and any roomy layout |
| NetworkMap.BoxInside | web/frontend/src/lib/network-graph.ts:543-554 | Every box keeps the padding to the reported width and height |
| NetworkMap.BothLayoutsRoomy | web/frontend/src/lib/network-graph.ts:15-18 | Both layouts of the source are roomy |
| NetworkMap.LastColumn | web/frontend/src/lib/network-graph.ts:510 | The last column is found |
| NetworkMap.ForwardIff | web/frontend/src/lib/network-graph.ts:510-523 | In pixels, every edge leads to a box wholly further along exactly when columns grow along every edge |
| NetworkMap.BuildNetworkGraph | web/frontend/src/lib/network-graph.ts:291-555 | End to end: nothing is drawn exactly without routed nodes; otherwise columns come from longest-path layers, nodes sit in their own rows and ASes at or below the mean row of their nodes; the rows are the packed first rows moved by passes until one is quiet or three have moved something, and exactly the first ones if nothing crosses a box there; no boxes overlap, all lie inside the canvas, and edges read forward if and only if no walk exceeds MAX_COLS edges |
| NetworkMap.ClearRowsStay | web/frontend/src/lib/network-graph.ts:480-508 | A drawing no skipping edge spoils at its first rows keeps them, and its first pass is quiet |
| NetworkMap.CanvasIsTight | web/frontend/src/lib/network-graph.ts:543-554 | No canvas is larger than needed: some box ends at the padding along the paths, and some box or its row across them |
| EdgeCurves.EdgeCrossesBox | web/frontend/src/lib/network-graph.ts:161-197 | The loop over 65 samples of the cubic decides whether one of them lies beside the box and closer to it than the clearance |
| EdgeCurves.ConnectorEnds | web/frontend/src/lib/network-graph.ts:113-147 | A connector leaves the middle of the far side of its first box and enters the middle of the near side of its second |
| EdgeCurves.KeepsOff | web/frontend/src/lib/network-graph.ts:161-197 | If no sample comes too close, no point of the curve does: beside the box it keeps the clearance but for what it can move across between two samples |
| EdgeCurves.DrawnClear | web/frontend/src/lib/network-graph.ts:113-197 | In pixels, for both layouts and directions: a curve that passes the test is drawn clear of the box by 6 pixels less 3/128 of its drop |
| EdgeCurves.BeyondEnds | web/frontend/src/lib/network-graph.ts:161-197 | No edge crosses a box half a row or more beyond both its ends |
| EdgeCurves.FoundRowIsClear | web/frontend/src/lib/network-graph.ts:493-498 | Among real edges the half-row search ends clear, less than a row below their lowest end or where it started, whenever that end is within its reach |
| EdgeCurves.BlocksIff | web/frontend/src/lib/network-graph.ts:525-532 | A box blocks a straight edge of a row exactly when the line is drawn closer to it than the clearance |
| EdgeCurves.DrawNetwork | web/frontend/src/lib/network-graph.ts:291-555 | The map in either layout: when its passes come to rest, every point of every connector between different rows is clear of every box it passes, by 6 pixels less 3/128 of its drop |
| CircuitBreaking.CircuitBreaker.EnterSection | internal/circuitbreaker/circuitbreaker.go:39-57 | The first critical section is the atomic enter step of the protocol |
| CircuitBreaking.CircuitBreaker.ExitSection | internal/circuitbreaker/circuitbreaker.go:61-84 | The second critical section is the atomic exit step of the protocol |
| CircuitBreaking.CircuitBreaker.Call | internal/circuitbreaker/circuitbreaker.go:38-85 | An undisturbed call is enter followed by exit, and is rejected exactly when enter refuses it |
| CircuitBreaking.AlwaysInv | internal/circuitbreaker/circuitbreaker.go:38-85 | The inductive invariant holds over every interleaving of the sections of any number of calls |
| CircuitBreaking.OneProbe | internal/circuitbreaker/circuitbreaker.go:48-56 | Half-open, the in-flight flag, and exactly one admitted probe still running are the same thing, and that probe is the only call in flight with the current sequence |
| CircuitBreaking.OnlyTheProbeLeaves | internal/circuitbreaker/circuitbreaker.go:61-84 | Only the exit of the probe leaves half-open: to open when it failed, to closed otherwise; no other step changes the breaker |
| CircuitBreaking.ClosedIff | internal/circuitbreaker/circuitbreaker.go:68-82 | At every reachable point the breaker is closed if and only if the trailing run of failures among recorded completions is shorter than the threshold (a threshold below one acts as one) |
| CircuitBreaking.AdmissionIff | internal/circuitbreaker/circuitbreaker.go:39-57 | A call is admitted exactly while the history is below the threshold, or alone once the reset timeout has passed since the last recorded completion |
| CircuitBreaking.IgnoredIff | internal/circuitbreaker/circuitbreaker.go:62-67 | A completion is ignored exactly when the breaker is half-open and the call is not its probe |
| AsPathText.AsPathToString | internal/bgp/manager.go:859-869 | The printing loops produce the bracketed text of all segments |
| AsPathText.ParseASPath | internal/bgp/query.go:289-302 | The parsing loop keeps exactly the fields that are 32-bit numbers, in order |
| AsPathText.PathRoundTrip | internal/bgp/manager.go:859-869 | Parsing the printed text of any list of segments gives the concatenation of all segments |
| AsPathText.PartsReadAlone | internal/bgp/query.go:289-302 | Blanks, brackets and commas part any text: on either side of one the text is read by itself |
| AsPathText.PieceReads | internal/bgp/query.go:289-302 | A piece without any of them is an AS number exactly when it is a decimal below 2^32, and is skipped otherwise |
| AsPathText.AsPathKey | internal/bgp/nodemap.go:163-169 | The loop and the join produce the key |
| AsPathText.KeyInjective | internal/bgp/nodemap.go:163-169 | Two paths have the same key if and only if they are equal |
| Addresses.V4Numeric | internal/bgp/bestpath.go:77-88 | Keys of IPv4 addresses are ordered as the addresses are, as numbers |
| Addresses.V4BeforeV6 | internal/bgp/bestpath.go:84-87 | Every IPv4 key sorts before every IPv6 key |
| Addresses.V6NumericIff | internal/bgp/bestpath.go:77-88 | For any two IPv6 addresses, whichever runs of zeros they shorten: their keys are in the order of the addresses as numbers if and only if one pair of groups compares as stated, as hexadecimal text with what follows, against the colon of an earlier run, or after runs that end differently |
| Addresses.V6EarlierRunIff | internal/bgp/bestpath.go:77-88 | When one address shortens an earlier run, the first hexadecimal digit the other shows there decides: a letter puts the other last, a decimal digit puts it first |
| Addresses.V6SameRunIff | internal/bgp/bestpath.go:77-88 | For addresses that shorten the same run of zeros, or none, that is a condition on one pair of groups: their hexadecimal texts, with what follows, compare as the groups do |
| Addresses.V6NotNumeric | internal/bgp/bestpath.go:77-87 | 2001:db8::10 sorts before 2001:db8::9, against the comment on the function |
| Ipv6.LessJoin | internal/bgp/bestpath.go:84-87 | Texts of pieces joined by colons are ordered by the first pieces that differ, each with the colon or the end after it |
| Ipv6.RunIsFirstLongest | internal/bgp/bestpath.go:87 | Which zeros the printed address leaves out: the longest run of at least two zero groups, the first of equals |
| Ipv6.SameRunOrder | internal/bgp/bestpath.go:84-87 | The order of two texts that shorten the same run is decided by the first groups that differ |
| Ipv6Order.EarlierRun | internal/bgp/bestpath.go:84-87 | The order of two texts of which one shortens an earlier run is that of the colon and the group the other shows there |
| Ipv6Order.ShorterRun | internal/bgp/bestpath.go:84-87 | The order of two texts whose runs begin alike and end differently is that of the first groups after the two runs that differ |
| BestPath.PreferenceTransitive | internal/bgp/bestpath.go:37-75 | Preference is transitive through all nine comparisons |
| BestPath.PreferenceTotal | internal/bgp/bestpath.go:61-75 | Different preference records are always ordered, one way only |
| BestPath.PreferenceIsStrictTotal | internal/bgp/bestpath.go:30-75 | The decision process is a strict total order |
| BestPath.RankIsClass | internal/bgp/bestpath.go:90-101 | Origins rank by the words and letters they are written with, in any case and padded or not |
| EntrySelection.PreferenceOutranks | internal/bgp/bestpath.go:30-122 | On the fields of two entries: the first of local preference (100 if absent), path length, origin, MED, reflection, cluster list, age and the two addresses on which they differ decides, in the stated direction |
| RouteTable.PreferenceOutranks | internal/bgp/bestpath.go:30-138 | On the fields of two routes: the first of local preference (100 if zero), path length, origin, MED and next hop on which they differ decides |
| Selection.ScanFindsMaximum | internal/bgp/query.go:193-198 | The left-to-right scan returns the maximum, and the first of equal maxima |
| Selection.GroupByPrefix | internal/bgp/query.go:180-183 | Grouping lists, for every prefix of the table and no other, its rows in order |
| Selection.WinnerOfPrefix | internal/bgp/query.go:180-198 | The winner of a group is the row that nothing of its prefix beats and that beats or precedes the rest |
| Selection.OneWinner | internal/bgp/query.go:174-203 | Every prefix of a table is won by exactly one row |
| Selection.OrderIndependent | internal/bgp/bestpath.go:61-75 | However the rows are shuffled or repeated, the winner of a prefix carries the same preference |
| EntrySelection.EnsureBestAmongEntries | internal/bgp/query.go:176-203 | Afterwards an entry is marked if and only if no entry of its prefix outranks it by those fields and it outranks those before it; nothing but the flags changes |
| RouteTable.OnlyMarked | internal/bgp/query.go:220-229 | The marker loop finds the only marked row of a group, if there is exactly one |
| RouteTable.BestRouteIn | internal/bgp/query.go:239-244 | The scan over a group returns its winner |
| RouteTable.MarkRoutes | internal/bgp/query.go:215-246 | One group ends with the chosen row marked and every other row of it unmarked |
| RouteTable.EnsureBestAmongRoutes | internal/bgp/query.go:207-247 | The array afterwards is the marked table of the array before, row by row, with nothing but flags changed: a row is marked exactly when it was the only marked one of its prefix, or none or several were and no route of the prefix outranks it by its fields |
| RouteTable.WinnerMeans | internal/bgp/query.go:220-246 | The mark stays with a sole marker and otherwise goes to the winner of the decision process |
| RouteTable.MarksMean | internal/bgp/query.go:215-246 | The same for the marked table itself |
| RouteTable.OneMarkEach | internal/bgp/query.go:215-246 | Afterwards every prefix has exactly one marked row |
| RouteTable.MarkingIsIdempotent | internal/bgp/query.go:205-247 | Marking twice is marking once |
| RouteTable.WinnerShuffles | internal/bgp/query.go:205-247 | For any permutation of the routes a prefix is won by the same route when it has a sole marker, and otherwise by a route with the same preference |
| NodeMap.SortRoutesBestFirst | internal/bgp/query.go:165-172 | The sorted array is a permutation with selected routes first |
| NodeMap.BestRoute | internal/bgp/query.go:250-260 | The first selected route, or the first route when none is selected |
| NodeMap.RoutesToNodeASPaths | internal/bgp/nodemap.go:108-152 | The loop with its set of seen keys keeps the first route of every non-empty path up to the cap, for whichever order the sort chose |
| NodeMap.HasBestPath | internal/bgp/nodemap.go:154-161 | Some path is marked |
| NodeMap.MapEntries | internal/bgp/nodemap.go:112-151 | Either one no-route entry, or one to four entries with different non-empty paths of the input, exactly the first marked; below four no path of the input is missing |
| NodeMap.EntriesInOrder | internal/bgp/nodemap.go:112-151 | Which routes those are: in order, the first route of every non-empty path until four are found, each shown with its own prefix, path and default-route flag |
| NodeMap.SelectedLeads | internal/bgp/nodemap.go:143-150 | When a selected route has a path, the marked entry shows a selected route |
| OriginPath.PrependOriginASPath | internal/bgp/fallback.go:103-122 | The loop computes the prefix followed by what the path adds to it |
| OriginPath.PrependedIff | internal/bgp/fallback.go:102-122 | The result begins with the prefix, equals the path exactly when the path already did, and is stable |
| OriginPath.PrependedKeeps | internal/bgp/fallback.go:102-122 | The result is the prefix followed by the path less what it shares with the prefix from the front |
| OriginPath.OriginLeads | internal/bgp/fallback.go:103-122 | Without a local AS nothing changes; with one it comes first, followed by the upstream AS for a path over the default route |
| OriginPath.ApplyOriginASPathToRoutes | internal/bgp/fallback.go:124-136 | Every route gets the local AS in front and keeps everything else; the early continue is the same function |
| OriginPath.WithOriginMeans | internal/bgp/fallback.go:124-136 | Afterwards every path begins with the local AS, and a second pass changes nothing |
| SessionManagement.SessionManager.AddNeighbor | internal/bgp/manager.go:251-301 | The method performs the add step on the three maps and the daemon |
| SessionManagement.SessionManager.RemoveNeighbor | internal/bgp/manager.go:303-354 | The method performs the removal step, including the sweep over all nodes that drops empty sets |
| SessionManagement.SessionManager.UpdateNeighbor | internal/bgp/manager.go:373-398 | The method adopts the record or removes and re-adds, whatever the outcome of the removal |
| SessionManagement.SessionManager.AdoptNeighborRecord | internal/bgp/manager.go:402-420 | The method re-files the neighbour under its new node only |
| SessionManagement.SessionManager.HandlePeerStateChange | internal/bgp/diagnostics.go:268-293 | The apply half of a watcher event changes nothing for a removed neighbour |
| SessionManagement.SessionManager.NeighborIDForAddress | internal/bgp/gobgp_logger.go:122-134 | The lookup half finds a neighbour that answers to the address, and none only when there is none |
| SessionManagement.AddKeepsIndexIff | internal/bgp/manager.go:284-295 | An add keeps the indexes in agreement if and only if the id is fresh, keeps its node, or is refused |
| SessionManagement.RemoveKeepsIndex | internal/bgp/manager.go:339-348 | A removal keeps the indexes in agreement whatever the daemon answers |
| SessionManagement.UpdateKeepsIndexIff | internal/bgp/manager.go:373-398 | An update breaks the indexes if and only if the manager runs, the session is rebuilt for a changed node, the daemon refuses to drop a peer the entry has, and it accepts the new address |
| SessionManagement.IndexCanBreak | internal/bgp/manager.go:392-397 | Such an update exists: a moved neighbour with a new address whose old peer could not be dropped |
| SessionManagement.ApplyKeepsIndex | internal/bgp/diagnostics.go:272-293 | A late event never revives a removed neighbour |
| SessionManagement.EqualParamsKeepSession | internal/bgp/manager.go:382-390 | An update with equal session parameters touches no peer and keeps the state; only the record and its node change |
| SessionManagement.AddMeans | internal/bgp/manager.go:251-301 | Running and willing: a neighbour is added unless another has its IPv4 address, its peers are configured and its session starts from Idle |
| SessionManagement.RemoveMeans | internal/bgp/manager.go:303-354 | Running and willing: a registered neighbour goes with its state and its peers |
| SessionManagement.UpdateMeans | internal/bgp/manager.go:361-398 | Running and willing: an update leaves peers, state and start alone exactly when the four trimmed addresses, the remote AS and both modes are unchanged; otherwise the daemon holds the new addresses instead of the old and the session starts from Idle, or the neighbour is gone if another has the new address |
| SessionManagement.StatesAreLast | internal/bgp/diagnostics.go:268-293 | Over every run a registered neighbour is in the state of its last change, since then: Idle when it was last added, or the last event applied since |
| SessionManagement.AddressIsUnique | internal/bgp/manager.go:516-528 | No two neighbours share an address, so the lookup by address is single-valued |
| SessionManagement.RunsKeepIndexes | internal/bgp/manager.go:284-420 | Over every run of adds of fresh ids, removals, updates outside the breaking case and split watcher events, the three maps agree, no node keeps an empty set, states belong to registered neighbours and addresses are unique |
| SessionManagement.SessionManager.HasActiveSession | internal/bgp/manager.go:530-539 | Answering through the index equals a scan of all neighbours |
| SessionManagement.SessionManager.HasNeighbors | internal/bgp/manager.go:541-545 | Answering through the index equals a scan of all neighbours |
| SessionManagement.SessionManager.NeighborIPsForNode | internal/bgp/manager.go:547-564 | The set holds exactly the addresses of the neighbours of the node |
| SessionManagement.SessionManager.NodeIDForNeighborIP | internal/bgp/manager.go:516-528 | The node found is the node of every neighbour with the address |
| RateLimiting.RateLimiter.AllowRequest | internal/server/middleware/ratelimit.go:34-62 | The method filters the kept times, applies limit and cap, and keeps the request step |
| RateLimiting.RateLimiter.ValidTimes | internal/server/middleware/ratelimit.go:41-46 | The loop keeps exactly the times after the window start |
| RateLimiting.RateLimiter.CleanupTick | internal/server/middleware/ratelimit.go:77-94 | The sweep is the cleanup step: it leaves exactly the unexpired times and forgets addresses without any |
| RateLimiting.WindowsAreBounded | internal/server/middleware/ratelimit.go:38-60 | Over every run, in every window whatever the moment it ends, at most limit requests of an address were admitted |
| RateLimiting.AdmittedIff | internal/server/middleware/ratelimit.go:45-61 | A request is admitted exactly when fewer than limit were admitted in the window ending now and the address is tracked or fits the cap; an address admitted within the window is tracked |
| RateLimiting.TickForgets | internal/server/middleware/ratelimit.go:77-94 | Over every run, right after a cleanup exactly the addresses with an admitted request in the window that ends then are tracked |
| RateLimiting.NewRefusedIff | internal/server/middleware/ratelimit.go:45-94 | With a limit of at least one a new address is refused at that moment exactly when the cap is reached by addresses admitted within the window |
| RateLimiting.CapKeptIff | internal/server/middleware/ratelimit.go:45-56 | A request keeps the number of tracked addresses within the cap if and only if the limit is at least one, the address is tracked or there is room |
| RateLimiting.TrackedWithinCap | internal/server/middleware/ratelimit.go:50-56 | With a limit of at least one no run tracks more addresses than the cap |
| RateLimiting.NeverBeyondCapIff | internal/server/middleware/ratelimit.go:45-56 | Whatever window, cap and start: no run tracks more addresses than the cap if and only if the limit is at least one |
| QueryStoring.Store.SetRunning | internal/store/querystore/querystore.go:38-50 | The id gets a fresh running entry; every other id keeps its own |
| QueryStoring.Store.AppendLine | internal/store/querystore/querystore.go:77-89 | The line is appended and the token is there |
| QueryStoring.Store.MergePartial | internal/store/querystore/querystore.go:105-136 | The merge follows the status guard and signals only for a running query |
| QueryStoring.Store.MergeASPathInto | internal/store/querystore/querystore.go:195-208 | Field by field, non-empty offers replace what is stored |
| QueryStoring.Store.MarkOutputComplete | internal/store/querystore/querystore.go:210-217 | The flag and the token are set |
| QueryStoring.Store.Set | internal/store/querystore/querystore.go:228-249 | The result replaces the stored one or opens a fresh entry, with a token either way |
| QueryStoring.Store.CleanupTick | internal/store/querystore/querystore.go:293-300 | Exactly the entries older than the expiry are gone |
| QueryEntries.SettledMerges | internal/store/querystore/querystore.go:116-121 | After a query has stopped running, any sequence of partials leaves status, answer, raw output and rules alone, and every AS-path field is the last non-empty one offered |
| QueryEntries.LatestKeeps | internal/store/querystore/querystore.go:195-208 | No offer ever empties a field |
| QueryEntries.RunningMerges | internal/store/querystore/querystore.go:116-133 | While the query runs, the answer, raw output, rules and all AS-path fields are each the last thing offered, and nothing else changes |
| QueryStories.EntriesTell | internal/store/querystore/querystore.go:38-300 | Over every run an id has an entry exactly while it was made and not deleted, expired or replaced since, and the entry shows the lines appended since then in order, the completion, and the result last set with every partial since merged into it |
| QueryWakeups.WriteWatched | internal/store/querystore/querystore.go:77-136 | No write of any kind leaves a reader behind unless its writer is going to signal |
| QueryWakeups.RunKeeps | internal/store/querystore/querystore.go:52-136 | The invariant over every interleaving of writers, signals, cleanups and readers in which one reader takes the tokens of its query |
| QueryWakeups.NoLostWakeup | internal/store/querystore/querystore.go:52-136 | Over every run: when a sole taker is blocked on the entry its id points to, that entry shows something else than it has seen, no token is there and none is on the way, then what it misses is announced by no writer: the new entry of a query started again in mid-round, untouched since, or AS-path fields merged into a result that was not running |
| LostWakeups.SharedTokenCanBeLost | internal/store/querystore/querystore.go:64-75 | Any two readers of any query: a run leaves the second blocked on an announced line it has not seen, with an empty channel and nothing pending |
| LostWakeups.RestartInMidRound | internal/store/querystore/querystore.go:38-50 | Any reader, nobody taking tokens: it reads a line, its query is started again before it blocks, and it stays blocked on the new entry with the line of the old one and nothing pending |
| LostWakeups.MergeIntoPending | internal/store/querystore/querystore.go:116-121 | Any reader alone: after a pending result, a path merged into it leaves the reader blocked on what it saw before with nothing pending |
| LostWakeups.SafeIff | internal/store/querystore/querystore.go:52-75 | A reader loses nothing that is announced, in any run whose takers come from a set, if and only if no other reader of its query is in the set |
| LostWakeups.AllSafeIff | internal/store/querystore/querystore.go:52-75 | The takers lose nothing that is announced if and only if no two of them read the same query |
| LostWakeups.WakeableIff | internal/store/querystore/querystore.go:38-75 | After any run, some continuation brings a blocked reader a token if and only if its id still points to the entry it waits on, or a token for that entry is there or being sent |
| LostWakeups.CoveredIff | internal/store/querystore/querystore.go:38-136 | A sole taker that misses something, with nothing at or on the way to its channel, can be woken if and only if its id still points to the entry it waits on; then a writer is already looking for that entry, or what it misses is never announced |
| LostWakeups.RestartStrands | internal/store/querystore/querystore.go:38-50 | Any reader: when its query is started again while it is blocked, it misses the next line and no continuation wakes it |
| LostWakeups.RemovalStrands | internal/store/querystore/querystore.go:228-300 | Any reader: the same after its entry was deleted or expired and a result was set again |
| AsnBlocks.LookupBlock | internal/geo/asn_network_blocks.go:133-143 | The scan returns the first block that covers the address; a miss means no block does |
| AsnBlocks.ContainsIff | internal/geo/asn_network_blocks.go:138 | On bits: a block contains an address exactly when the address, IPv4-mapped or not, is the prefix of the network followed by some host bits of the same family |
| AsnBlocks.ReportedIs | internal/geo/asn_network_blocks.go:144-165 | A network written as IPv4-mapped is reported as the IPv4 one, any other as it is |
| AsnBlocks.FirstHitIsLongestIff | internal/geo/asn_network_blocks.go:101-143 | In any list sorted by mask the first hit has the longest prefix of all blocks that contain the address if and only if no mapped block hides a longer plain one |
| AsnBlocks.TableIsLongestIff | internal/geo/asn_network_blocks.go:101-143 | A table answers every address by longest prefix if and only if it hides a block from no address |
| AsnBlocks.MappedHides | internal/geo/asn_network_blocks.go:73-92 | Such a table: the whole IPv4 space written as IPv4-mapped hides its plain lower half |
| AsnBlocks.UnmappedHideNothing | internal/geo/asn_network_blocks.go:73-92 | Tables without IPv4-mapped blocks hide nothing |
| AsnBlocks.NetworkIsUnique | internal/geo/asn_network_blocks.go:167-169 | Whatever order the unstable sort gives equal masks, the reported network is the same |
| AsnBlocks.MissIsUnique | internal/geo/asn_network_blocks.go:167-169 | Nor does the order decide whether there is a hit |
| PercentCoding.Utf8RoundTrip | web/frontend/src/lib/query-share.ts:54-58 | Every character is recovered from its UTF-8 bytes |
| PercentCoding.DecodeEncode | web/frontend/src/lib/query-share.ts:54-82 | Decoding undoes encoding, for every text |
| PercentCoding.EncodedIsSegment | web/frontend/src/lib/query-share.ts:54-58 | An encoded text is one path segment, empty only for the empty text |
| Slugs.SlugifyIsSlug | web/frontend/src/lib/query-share.ts:34-42 | Replacing gaps by dashes and stripping the ends joins the maximal letter and digit runs by dashes |
| Slugs.SlugifyOnServer | internal/sharepreview/page.go:78-100 | The one-pass loop with its dash flag computes the same slug |
| Slugs.SlugSnoc | web/frontend/src/lib/query-share.ts:34-42 | One more character of the name: a letter or digit is added, after a dash if other characters came between, and anything else adds nothing |
| Slugs.SlugIsStable | web/frontend/src/lib/query-share.ts:34-42 | A slug is its own slug |
| ShareLinks.LinkRoundTripIff | web/frontend/src/lib/query-share.ts:50-92 | For every command text, reading a built link gives back command, slash-normalised target and node if and only if the command is known, the target is not empty, padded or too long, and the node does not read as a command |
| ShareLinks.ParameterNamesNode | web/frontend/src/lib/query-share.ts:66-92 | With any node parameter: a node segment outranks it, and without one the trimmed parameter names the node |
| ShareLinks.DefaultIs | web/frontend/src/components/query/query-form.tsx:61-68 | The default node is the first marked one, or the first of all |
| ShareLinks.ShareSlugIs | web/frontend/src/components/query/query-form.tsx:70-91 | The default node is not named, a node with a slug of its own that is no command is named by it, and any other by its id |
| ShareLinks.NodeRoundTripIff | web/frontend/src/components/query/query-form.tsx:61-91 | For every list of nodes the token of a node leads back to it if and only if it is not the id of another node |
| ShareLinks.SharedLinkOpensIff | web/frontend/src/components/query/query-form.tsx:61-91 | The whole journey from node, command and target to link and back |
| SharePreview.ParseQueryPath | internal/sharepreview/page.go:34-75 | The splitting and decoding loops compute the query the server sees |
| SharePreview.PathSegments | internal/sharepreview/page.go:35-40 | The filtering loop leaves the segments of the path |
| GoText.DecodesIff | internal/sharepreview/page.go:50-66 | The browser decodes a segment to a text if and only if the server unescapes it to the bytes of that text: they differ only on escapes that are no UTF-8 |
| GoText.TrimUtf8 | internal/sharepreview/page.go:67 | Trimming the bytes of a text rune by rune from both ends trims the text |
| SharePreview.UnescapeSegments | internal/sharepreview/page.go:59-66 | The loop stops at the first malformed segment |
| SharePreview.SplitIsSegments | internal/sharepreview/page.go:35-40 | Splitting at every slash and dropping empty pieces gives the same segments as the frontend reads |
| SharePreview.ServerMirrorsIff | internal/sharepreview/page.go:32-75 | For every path and every node parameter the server reads what the frontend reads, query or none, if and only if no inherited member decides where a target can be read, the targets fit both limits and trim alike, a node segment that is needed is text, and a node parameter that is needed trims alike |
| SharePreview.InheritedMisreads | web/frontend/src/lib/query-share.ts:70-78 | A path of an inherited member and a plain target is a query to the frontend and none to the server |
| SharePreview.ConstructorIsMisread | web/frontend/src/lib/query-share.ts:70-78 | One such path is /constructor/8.8.8.8 |
| SharePreview.SharedLinkMirroredIff | internal/sharepreview/page.go:32-75 | On a shareable link the condition is that the target has at most 255 bytes and no blank that only Go trims |
| SharePreview.UnitsAndBytes | web/frontend/src/lib/query-share.ts:86 | A target has at least as many bytes as UTF-16 units and at most three times as many |
| SharePreview.BlanksDiffer | internal/sharepreview/page.go:67 | Go and JavaScript trim the same blanks but for U+0085, which only Go trims, and U+FEFF, which only JavaScript trims |
| JsText.TrimIs | web/frontend/src/lib/query-share.ts:82-89 | Trimming takes off what is blank at both ends and nothing else |
| PagePreview.PageShowsIff | internal/server/seo.go:108-122 | The page served for the link of a node shows the shared query if and only if its target has no percent sign: the request path has already been unescaped once |
| PagePreview.ReadTwiceIff | internal/sharepreview/page.go:59-70 | A target read from segments that were unescaped before stays what it is if and only if it has no percent sign |
| SharePreview.DefaultNode | internal/sharepreview/page.go:104-120 | The first pass finds the frontend's default node |
| SharePreview.ResolveNode | internal/sharepreview/page.go:102-135 | The server picks the node whose id the frontend picks, whatever entries are missing |
| Sse.ReadSSE | internal/driver/lgnode/sse.go:11-50 | The line loop delivers and ends as the specification says, including refused events and lines that are too long |
| Sse.ReadWritten | internal/server/handler/agent_stream.go:13-19 | Reading the text of any list of single-line events is reading the events, each trimmed, in order, up to one that does not fit a line or is refused |
| Sse.BlockIsEvent | internal/driver/lgnode/sse.go:11-50 | Any lines before a blank one are one event: its type is their last type line, its data their data lines joined by newlines, other lines do not matter, and without either there is none |
| Sse.LastBlock | internal/driver/lgnode/sse.go:11-50 | The last block needs no blank line |
| Sse.LongLineEnds | internal/driver/lgnode/sse.go:11-50 | A line that is too long ends the reading, without the block it is in |
| Sse.RoundTripIff | internal/driver/lgnode/sse.go:11-50 | When all fit and are taken, the events come back unchanged if and only if they carry no blanks at the ends |
| HexColors.HexRoundTrip | web/frontend/src/lib/brand-color.ts:161-164 | Writing a colour and reading it gives the colour, out-of-range channels clamped |
| HexColors.TextRoundTrip | web/frontend/src/lib/brand-color.ts:84-92 | Reading a colour text and writing it gives its normal form |
| HexColors.ShortReads | web/frontend/src/lib/brand-color.ts:84-92 | Three digits spell 17 times each, in either case |
| BrandColor.HslIsColor | web/frontend/src/lib/brand-color.ts:142-159 | For every hue, saturation and lightness all channels are whole numbers from 0 to 255 |
| BrandColor.Ends | web/frontend/src/lib/brand-color.ts:142-159 | Lightness 0 is black and lightness 100 white |
| BrandColor.HueRotates | web/frontend/src/lib/brand-color.ts:142-159 | Turning the hue by 120 degrees passes every channel on to the next one |
| BrandColor.HueMirrors | web/frontend/src/lib/brand-color.ts:142-159 | Hues on either side of red mirror each other: green and blue change places |
| BrandColor.SectorOrders | web/frontend/src/lib/brand-color.ts:142-159 | For every hue, whole turns aside, the sixth of the colour wheel it lies in says which channel is strongest and which weakest |
| BrandColor.LuminanceInRange | web/frontend/src/lib/brand-color.ts:167-173 | Luminance lies in the unit interval |
| BrandColor.LinearRoundTrip | web/frontend/src/lib/brand-color.ts:166-173 | A linear channel has the level it was made from: below and above the knee the curve can be undone |
| BrandColor.LuminanceRises | web/frontend/src/lib/brand-color.ts:166-173 | Luminance rises strictly with every channel |
| BrandColor.PureChannels | web/frontend/src/lib/brand-color.ts:166-173 | Red, green and blue alone have luminance 0.2126, 0.7152 and 0.0722 |
| BrandColor.ContrastScale | web/frontend/src/lib/brand-color.ts:175-179 | Contrast is symmetric, 1 only between equal luminances and 21 only between black and white |
| BrandColor.WalkOutward | web/frontend/src/lib/brand-color.ts:229-234 | The loop performs the outward search, darker side first |
| BrandColor.SolveLightness | web/frontend/src/lib/brand-color.ts:217-240 | Started on the scale, the colour text returned reaches the target against every surface if and only if some whole lightness from 0 to 100 does |
| BrandColor.SearchFindsNearest | web/frontend/src/lib/brand-color.ts:208-234 | For a start on the scale the search finds exactly the nearest lightness that clears, the darker of two, and nothing exactly when none clears |
| BrandColor.ColorReadsIff | web/frontend/src/lib/brand-color.ts:181-184 | What clears as a lightness reads as the returned colour text, and the other way round |
| BrandColor.SolvedUnlessStraddled | web/frontend/src/lib/brand-color.ts:236-240 | Unless some surface is too light for white and some too dark for black, the colour returned clears every surface at the nearest lightness |
| BrandColor.FallbackIsWhite | web/frontend/src/lib/brand-color.ts:236-240 | When nothing clears, white is returned for every target up to 11 |
| BrandColor.FurthestIff | web/frontend/src/lib/brand-color.ts:236-240 | White keeps at least the lowest contrast of black exactly while the extreme luminances, each raised by 0.05, have a product of at most 0.0525 |
| BrandColor.NearerEndTaken | web/frontend/src/lib/brand-color.ts:236-240 | On surfaces of luminance 0.1 and 0.9 the end returned is not the one furthest from them |
| BrandColor.OneSidedDoesNotStraddle | web/frontend/src/lib/brand-color.ts:236-240 | For targets up to 4.5, surfaces all at most or all at least 0.18 never reach the fallback |
| BrandColor.OneSurfaceDoesNotStraddle | web/frontend/src/lib/brand-color.ts:236-240 | Nor does a single surface for targets up to 4.58 |
| BrandColor.PureReaches | web/frontend/src/lib/brand-color.ts:191-193 | On every background the better of black and white reaches 4.58 |
| BrandColor.PickedTextIsReadable | web/frontend/src/lib/brand-color.ts:195-206 | The picked text colour always reaches 4.5, and is black or white exactly when neither soft tone does |
| BrandColor.BetterIsEarliest | web/frontend/src/lib/brand-color.ts:195-206 | Of candidates with equal contrast the first wins |

## Left out

- NetworkMap.BuildNetworkGraph: roles (selected, backup), path ids, labels, captions, flags, the texts of edge paths
  and the node list of each edge are presentation and not modelled; vertex order is that of a set, which no property depends on.
- EdgeCurves.DrawNetwork: the lane that an edge within a row takes around a box in its way is not modelled.
- CircuitBreaking.ClosedIff: `failures` and `halfOpenSeq` are unbounded, so a counter that wraps around is not modelled; nor
  is a guarded function that panics and so never reaches its second critical section.
- EntrySelection.EnsureBestAmongEntries: entry pointers are distinct, as the lookup that fills the slice makes them.
- Addresses.V4Numeric: addresses enter as parsed; the address parser and its canonical printing of IPv6 addresses are
  library code, modelled by what they produce (section 4 of RFC 5952), without zones.
- NodeMap.RoutesToNodeASPaths: node names and the copying of path slices are not modelled.
- SessionManagement.RunsKeepIndexes: the event log, prefix counts, hints and peer configuration are not modelled; nor are
  stopping and restarting a neighbour, which leave the three maps alone.
- RateLimiting.WindowsAreBounded: times are integers on one non-decreasing clock.
- QueryStoring.Store.Set: results are values, so the copying that keeps the store's memory apart from its callers' is not
  visible; what the store never looks inside (answers, rules, enriched hops) is a number.
- QueryWakeups.NoLostWakeup: readers follow the order of `StreamResult`; the order in which lines and the final result
  reach the stream is not claimed.
- AsnBlocks.LookupBlock: loading the CSV files and the country lookup are not modelled; duplicate networks with different
  AS data are told apart only by their network.
- Slugs.SlugifyOnServer: Unicode normalisation, removal of marks and case folding are a given function from names to folded
  names; that the two languages fold every name alike is not claimed.
- ShareLinks.LinkRoundTripIff: lone surrogates, and what browsers do to `.` and `..` segments, are not modelled; how an
  inherited member prints in a link is an arbitrary text.
- SharePreview.ServerMirrorsIff: paths and node parameters are texts, and node ids are not negative.
- PagePreview.PageShowsIff: about links of listed nodes whose targets fit both sides; the routing and redirects in front
  of the handler are not modelled.
- Sse.ReadSSE: texts are valid UTF-8; encoding payloads as JSON and flushing are left to the library.
- BrandColor.SolveLightness: numbers are exact reals instead of floating point, and raising to the power 2.4 is any function
  that keeps the unit interval and its ends; the start is a whole number, as at every call.
- The palette builders, tint sampling and style writing of `brand-color.ts`: compositions of the functions modelled here.
- `SynthesizeDefaultRouteResult`, prefix display and the other parts of `fallback.go`: plain construction of one record.
- The query engine, vendor output parsers, GeoIP enrichment, HTTP handlers, configuration, database access,
  authentication, settings validation and React components: I/O, libraries or easy next to the above.
