/** The whole network map: from path entries to boxes on a canvas. */
module NetworkMap {
  import opened Graphs
  import opened Layering
  import opened Options
  import opened MergedGraph
  import opened GraphBuilding
  import opened Layout

  /** Pixel sizes of one layout. */
  datatype Geometry = Geometry(colW: real, rowH: real, boxW: real, boxH: real, pad: real, nodeGap: real)

  const WIDE := Geometry(140.0, 60.0, 116.0, 36.0, 18.0, 28.0)
  const COMPACT := Geometry(108.0, 48.0, 96.0, 30.0, 10.0, 16.0)

  /** Boxes are smaller than the grid they sit on. */
  ghost predicate Roomy(geo: Geometry) {
    0.0 < geo.boxW < geo.colW && 0.0 < geo.boxH < geo.rowH && geo.pad >= 0.0 && geo.nodeGap >= 0.0
  }

  /** A box by its top left corner. */
  datatype Box = Box(left: real, top: real, width: real, height: real)

  function DepthGap(geo: Geometry, col: int): real {
    if col > 0 then geo.nodeGap else 0.0
  }

  /** Where a column starts along the paths, and a row across them. */
  function Along(geo: Geometry, vertical: bool, col: int): real {
    geo.pad + col as real * (if vertical then geo.rowH else geo.colW) + DepthGap(geo, col)
  }

  function Across(geo: Geometry, vertical: bool, row: real): real {
    geo.pad + row * (if vertical then geo.colW else geo.rowH)
  }

  /** The drawn box: vertices carry their left edge and their vertical centre. */
  function BoxAt(geo: Geometry, vertical: bool, cell: Cell): Box {
    var x := if vertical then Across(geo, vertical, cell.row) else Along(geo, vertical, cell.col);
    var y := (if vertical then Along(geo, vertical, cell.col) else Across(geo, vertical, cell.row)) + geo.boxH / 2.0;
    Box(x, y - geo.boxH / 2.0, geo.boxW, geo.boxH)
  }

  function Width(geo: Geometry, vertical: bool, maxCol: int, maxRow: real): real {
    if vertical then geo.pad * 2.0 + maxRow * geo.colW + geo.boxW
    else geo.pad * 2.0 + maxCol as real * geo.colW + geo.nodeGap + geo.boxW
  }

  function Height(geo: Geometry, vertical: bool, maxCol: int, maxRow: real): real {
    if vertical then geo.pad * 2.0 + maxCol as real * geo.rowH + geo.nodeGap + geo.boxH
    else geo.pad * 2.0 + (maxRow + 1.0) * geo.rowH
  }

  ghost predicate Disjoint(a: Box, b: Box) {
    || a.left + a.width < b.left || b.left + b.width < a.left
    || a.top + a.height < b.top || b.top + b.height < a.top
  }

  /** The box keeps the padding to every side of the canvas. */
  ghost predicate Inside(box: Box, pad: real, width: real, height: real) {
    && pad <= box.left && box.left + box.width <= width - pad
    && pad <= box.top && box.top + box.height <= height - pad
  }

  /** One grid step leaves room for a box, however the grid is scaled. */
  lemma StepApart(a: real, b: real, spacing: real, extent: real)
    requires a + 1.0 <= b && 0.0 < extent < spacing
    ensures a * spacing + extent < b * spacing
  {
    var steps := b - a;
    NonNegative(steps - 1.0, spacing);
    assert b * spacing == a * spacing + (steps - 1.0) * spacing + spacing;
  }

  lemma NonNegative(x: real, y: real)
    requires x >= 0.0 && y >= 0.0
    ensures x * y >= 0.0
  {
  }

  lemma ScaleUp(a: real, b: real, spacing: real)
    requires 0.0 <= a <= b && 0.0 <= spacing
    ensures 0.0 <= a * spacing <= b * spacing
  {
  }

  lemma AlongApart(geo: Geometry, vertical: bool, a: int, b: int)
    requires Roomy(geo) && 0 <= a < b
    ensures Along(geo, vertical, a) + (if vertical then geo.boxH else geo.boxW) < Along(geo, vertical, b)
  {
    StepApart(a as real, b as real, if vertical then geo.rowH else geo.colW, if vertical then geo.boxH else geo.boxW);
  }

  lemma AcrossApart(geo: Geometry, vertical: bool, a: real, b: real)
    requires Roomy(geo) && a + 1.0 <= b
    ensures Across(geo, vertical, a) + (if vertical then geo.boxW else geo.boxH) < Across(geo, vertical, b)
  {
    StepApart(a, b, if vertical then geo.colW else geo.rowH, if vertical then geo.boxW else geo.boxH);
  }

  lemma BoxesDisjoint(geo: Geometry, vertical: bool, a: Cell, b: Cell)
    requires Roomy(geo) && a.col >= 0 && b.col >= 0
    requires a.col != b.col || a.row + 1.0 <= b.row || b.row + 1.0 <= a.row
    ensures Disjoint(BoxAt(geo, vertical, a), BoxAt(geo, vertical, b))
  {
    if a.col < b.col {
      AlongApart(geo, vertical, a.col, b.col);
    } else if b.col < a.col {
      AlongApart(geo, vertical, b.col, a.col);
    } else if a.row + 1.0 <= b.row {
      AcrossApart(geo, vertical, a.row, b.row);
    } else {
      AcrossApart(geo, vertical, b.row, a.row);
    }
  }

  lemma BoxInside(geo: Geometry, vertical: bool, cell: Cell, maxCol: int, maxRow: real)
    requires Roomy(geo) && 0 <= cell.col <= maxCol && 0.0 <= cell.row <= maxRow
    ensures Inside(BoxAt(geo, vertical, cell), geo.pad, Width(geo, vertical, maxCol, maxRow),
      Height(geo, vertical, maxCol, maxRow))
  {
    ScaleUp(cell.col as real, maxCol as real, geo.colW);
    ScaleUp(cell.col as real, maxCol as real, geo.rowH);
    ScaleUp(cell.row, maxRow, geo.colW);
    ScaleUp(cell.row, maxRow, geo.rowH);
    assert (maxRow + 1.0) * geo.rowH == maxRow * geo.rowH + geo.rowH;
  }

  /** `to` lies wholly to the right of `from`, or wholly below it in vertical mode. */
  ghost predicate Beyond(vertical: bool, from: Box, to: Box) {
    if vertical then from.top + from.height < to.top else from.left + from.width < to.left
  }

  /** A box lies beyond another exactly when its column is larger. */
  lemma FurtherAlong(geo: Geometry, vertical: bool, a: Cell, b: Cell)
    requires Roomy(geo) && a.col >= 0 && b.col >= 0
    ensures Beyond(vertical, BoxAt(geo, vertical, a), BoxAt(geo, vertical, b)) <==> a.col < b.col
  {
    if a.col < b.col {
      AlongApart(geo, vertical, a.col, b.col);
    } else if b.col < a.col {
      AlongApart(geo, vertical, b.col, a.col);
    }
  }

  // ---- Assembly ----

  method ListKeys(g: Graph) returns (keys: seq<Key>)
    ensures NoDup(keys) && forall k :: k in keys <==> k in g
  {
    keys := [];
    var rest := g.Keys;
    while rest != {}
      invariant rest <= g.Keys && NoDup(keys) && forall k :: k in keys <==> k in g && k !in rest
    {
      var k :| k in rest;
      NoDupAppend(keys, k);
      keys, rest := keys + [k], rest - {k};
    }
  }

  method ListEdges(edges: set<(Key, Key)>) returns (list: seq<(Key, Key)>)
    ensures forall e :: e in list <==> e in edges
  {
    list := [];
    var rest := edges;
    while rest != {}
      invariant rest <= edges && forall e :: e in list <==> e in edges && e !in rest
    {
      var e :| e in rest;
      list, rest := list + [e], rest - {e};
    }
  }

  ghost predicate Ascending(s: seq<int>) {
    forall i, j :: 0 <= i < j < |s| ==> s[i] < s[j]
  }

  lemma InsertMembers(s: seq<int>, n: nat, x: int)
    requires n <= |s|
    ensures forall y :: y in s[..n] + [x] + s[n..] <==> y in s || y == x
  {
    assert s == s[..n] + s[n..];
  }

  method InsertAscending(s: seq<int>, x: int) returns (t: seq<int>)
    requires Ascending(s) && x !in s
    ensures Ascending(t) && forall y :: y in t <==> y in s || y == x
  {
    var n := |s|;
    while n > 0 && s[n - 1] > x
      invariant 0 <= n <= |s| && forall a :: n <= a < |s| ==> s[a] > x
    {
      n := n - 1;
    }
    t := s[..n] + [x] + s[n..];
    assert forall i :: 0 <= i < |t| ==> t[i] == if i < n then s[i] else if i == n then x else s[i - 1];
    InsertMembers(s, n, x);
  }

  /** The columns above 0, ascending. */
  method ColumnsAboveZero(met: seq<int>) returns (columns: seq<int>)
    requires NoDup(met)
    ensures Ascending(columns) && forall c :: c in columns <==> c in met && c > 0
  {
    columns := [];
    for i := 0 to |met|
      invariant Ascending(columns) && forall c :: c in columns <==> c in met[..i] && c > 0
    {
      TakeNext(met, i);
      assert met[i] !in met[..i];
      if met[i] > 0 {
        columns := InsertAscending(columns, met[i]);
      }
    }
    TakeAll(met);
  }

  method WishRows(keys: seq<Key>, nodeIds: map<Key, seq<int>>, groups: seq<NodeGroup>) returns (wish: map<Key, real>)
    ensures forall k :: k in wish <==> k in keys
    ensures forall k :: k in wish ==> wish[k] == Wish(k, nodeIds, groups)
  {
    wish := map[];
    for i := 0 to |keys|
      invariant forall k :: k in wish <==> k in keys[..i]
      invariant forall k :: k in wish ==> wish[k] == Wish(k, nodeIds, groups)
    {
      TakeNext(keys, i);
      wish := wish[keys[i] := Wish(keys[i], nodeIds, groups)];
    }
    TakeAll(keys);
  }

  /** The node boxes of a merged graph belong to the drawn groups, so their rows are distinct. */
  lemma NodeRows(groups: seq<NodeGroup>, g: Graph, nodeIds: map<Key, seq<int>>, col: map<Key, int>,
                 wish: map<Key, real>)
    requires (forall group :: group in groups ==> WellFormedGroup(group)) && g == Merge(ChainsOf(groups))
    requires col.Keys == g.Keys && (forall k :: k in col ==> (col[k] == 0 <==> k.NodeKey?))
    requires forall k :: k in col ==> k in wish && wish[k] == Wish(k, nodeIds, groups)
    ensures NodeColumn(col, wish)
  {
    forall a | a in col && col[a] == 0 ensures PositionOf(groups, a.id) < |groups| {
      NodeIsDrawn(groups, a);
    }
    forall a, b | a in col && b in col && a != b && col[a] == 0 && col[b] == 0
      ensures wish[a] + 1.0 <= wish[b] || wish[b] + 1.0 <= wish[a]
    {
      var i, j := PositionOf(groups, a.id), PositionOf(groups, b.id);
      assert i < j || j < i;
    }
  }

  lemma NodeIsDrawn(groups: seq<NodeGroup>, k: Key)
    requires (forall group :: group in groups ==> WellFormedGroup(group)) && k in Merge(ChainsOf(groups)) && k.NodeKey?
    ensures PositionOf(groups, k.id) < |groups|
  {
    ChainsAreChains(groups);
    MergeFansIn(ChainsOf(groups));
    var chain :| chain in ChainsOf(groups) && k in chain;
    var group, path :| group in groups && path in group.paths && chain == ChainOf(group.nodeId, path);
    assert k == chain[0];
  }

  method LastColumn(keys: seq<Key>, col: map<Key, int>) returns (maxCol: int)
    requires keys != [] && forall k :: k in keys ==> k in col
    ensures (forall k :: k in keys ==> col[k] <= maxCol) && exists k :: k in keys && col[k] == maxCol
  {
    maxCol := col[keys[0]];
    for i := 1 to |keys|
      invariant forall j :: 0 <= j < i ==> col[keys[j]] <= maxCol
      invariant exists k :: k in keys && col[k] == maxCol
    {
      if col[keys[i]] > maxCol {
        maxCol := col[keys[i]];
      }
    }
  }

  /** Columns come from the layers of the graph. */
  ghost predicate Layered(g: Graph, col: map<Key, int>) {
    exists layer, maxLayer :: Exact(g, layer) && IsMaxLayer(layer, maxLayer) && Placed(layer, maxLayer, col)
  }

  /** Nodes sit in their own rows, ASes at or below the mean row of the nodes that traverse them. */
  ghost predicate SeatedFor(g: Graph, groups: seq<NodeGroup>, nodeIds: map<Key, seq<int>>, rows: map<Key, real>) {
    && g.Keys <= rows.Keys
    && forall k :: k in g ==>
      rows[k] >= Wish(k, nodeIds, groups) && (k.NodeKey? ==> rows[k] == Wish(k, nodeIds, groups))
  }

  /** No edge that skips a column is drawn through a box of that column. */
  ghost predicate ClearGraph(crosses: Crossing, g: Graph, col: map<Key, int>, rows: map<Key, real>) {
    && col.Keys == rows.Keys == g.Keys
    && forall a, b, k :: HasEdge(g, a, b) && b in g && k in g && col[k] > 0 && col[a] < col[k] < col[b] ==>
         !crosses(Cell(col[a], rows[a]), Cell(col[b], rows[b]), Cell(col[k], rows[k]))
  }

  /** The row every vertex would like. */
  ghost function Wishes(g: Graph, nodeIds: map<Key, seq<int>>, groups: seq<NodeGroup>): map<Key, real> {
    map k | k in g :: Wish(k, nodeIds, groups)
  }

  /** The edges of the graph, the columns above 0 in order, and the rows before the passes and after each. */
  ghost predicate Settled(crosses: Crossing, g: Graph, col: map<Key, int>, wish: map<Key, real>, rows: map<Key, real>,
                          quiet: bool, edges: seq<(Key, Key)>, columns: seq<int>, stages: seq<map<Key, real>>)
  {
    && Closed(g) && col.Keys == g.Keys && (forall a, b :: (a, b) in edges <==> HasEdge(g, a, b))
    && Ascending(columns) && (forall c :: c in columns ==> c > 0)
    && (forall k :: k in col && col[k] > 0 ==> col[k] in columns)
    && Stages(crosses, edges, columns, col, stages)
    && FirstRowsOf(col, wish, stages[0]) && stages[|stages| - 1] == rows
    && (if quiet then |stages| <= MAX_PASSES && Clear(crosses, edges, col, rows) else |stages| == MAX_PASSES + 1)
  }

  /** The rows are the first ones, moved by passes until none has anything to move, or by three of them. */
  ghost predicate RowsSettle(crosses: Crossing, g: Graph, col: map<Key, int>, wish: map<Key, real>,
                             rows: map<Key, real>, quiet: bool)
  {
    exists edges, columns, stages :: Settled(crosses, g, col, wish, rows, quiet, edges, columns, stages)
  }

  /** A drawing no edge spoils at its first rows keeps them. */
  lemma ClearRowsStay(crosses: Crossing, g: Graph, col: map<Key, int>, wish: map<Key, real>, rows: map<Key, real>,
                      quiet: bool, first: map<Key, real>)
    requires RowsSettle(crosses, g, col, wish, rows, quiet) && forall k :: k in col && col[k] != 0 ==> k.AsKey?
    requires FirstRowsOf(col, wish, first) && ClearGraph(crosses, g, col, first)
    ensures rows == first && quiet
  {
    var edges, columns, stages :| Settled(crosses, g, col, wish, rows, quiet, edges, columns, stages);
    FirstRowsOnce(col, wish, stages[0], first);
    ClearAsListed(crosses, g, col, first, edges);
    if |stages| > 1 {
      FirstPassMoves(crosses, edges, columns, col, stages);
    }
  }

  lemma FirstPassMoves(crosses: Crossing, edges: seq<(Key, Key)>, columns: seq<int>, col: map<Key, int>,
                       stages: seq<map<Key, real>>)
    requires forall e :: e in edges ==> e.0 in col && e.1 in col
    requires Stages(crosses, edges, columns, col, stages) && |stages| > 1
    ensures !Clear(crosses, edges, col, stages[0])
  {
    assert Moves(crosses, edges, columns, col, stages[0], stages[1]);
  }

  lemma ClearAsListed(crosses: Crossing, g: Graph, col: map<Key, int>, rows: map<Key, real>, edges: seq<(Key, Key)>)
    requires ClearGraph(crosses, g, col, rows) && Closed(g) && forall a, b :: (a, b) in edges <==> HasEdge(g, a, b)
    ensures Clear(crosses, edges, col, rows)
  {
    forall e, k | e in edges && k in col && col[k] > 0 && e.0 in col && e.1 in col && Skips(col, e, col[k])
      ensures !crosses(CellOf(col, rows, e.0), CellOf(col, rows, e.1), CellOf(col, rows, k))
    {
      assert HasEdge(g, e.0, e.1);
    }
  }

  /** The same for every such rows. */
  ghost predicate KeepsClearRows(crosses: Crossing, g: Graph, col: map<Key, int>, wish: map<Key, real>,
                                 rows: map<Key, real>, quiet: bool)
  {
    forall first :: FirstRowsOf(col, wish, first) && ClearGraph(crosses, g, col, first) ==> rows == first && quiet
  }

  lemma KeepsThem(crosses: Crossing, g: Graph, col: map<Key, int>, wish: map<Key, real>, rows: map<Key, real>,
                  quiet: bool)
    requires RowsSettle(crosses, g, col, wish, rows, quiet) && forall k :: k in col && col[k] != 0 ==> k.AsKey?
    ensures KeepsClearRows(crosses, g, col, wish, rows, quiet)
  {
    forall first | FirstRowsOf(col, wish, first) && ClearGraph(crosses, g, col, first)
      ensures rows == first && quiet
    {
      ClearRowsStay(crosses, g, col, wish, rows, quiet, first);
    }
  }

  /** Everything that is said of the rows: where they come from, and what a pass that came to rest means. */
  ghost predicate RowsFit(crosses: Crossing, g: Graph, groups: seq<NodeGroup>, nodeIds: map<Key, seq<int>>,
                          col: map<Key, int>, rows: map<Key, real>, quiet: bool)
  {
    && SeatedFor(g, groups, nodeIds, rows)
    && RowsSettle(crosses, g, col, Wishes(g, nodeIds, groups), rows, quiet)
    && KeepsClearRows(crosses, g, col, Wishes(g, nodeIds, groups), rows, quiet)
    && (quiet ==> ClearGraph(crosses, g, col, rows))
  }

  datatype Drawing = Drawing(g: Graph, nodeIds: map<Key, seq<int>>, col: map<Key, int>, rows: map<Key, real>,
                             maxCol: int, maxRow: real, geo: Geometry, vertical: bool) {
    function BoxOf(k: Key): Box
      requires k in col && k in rows
    {
      BoxAt(geo, vertical, Cell(col[k], rows[k]))
    }

    /** No two boxes overlap and all of them keep the padding to the reported width and height. */
    ghost predicate WellLaidOut() {
      && col.Keys == rows.Keys == g.Keys
      && (forall a, b :: a in col && b in col && a != b ==> Disjoint(BoxOf(a), BoxOf(b)))
      && (forall k :: k in col ==>
            Inside(BoxOf(k), geo.pad, Width(geo, vertical, maxCol, maxRow), Height(geo, vertical, maxCol, maxRow)))
    }

    /** The last column and the lowest row are those of boxes; a drawing whose boxes all sit in row 0 ends there. */
    ghost predicate Tight() {
      && (exists k :: k in col && col[k] == maxCol) && (forall k :: k in col ==> col[k] <= maxCol)
      && Bounds(rows, maxRow)
    }

    /** Every edge runs from a box to one wholly to its right (below it, in vertical mode). */
    ghost predicate ReadsForward() {
      && g.Keys <= col.Keys && g.Keys <= rows.Keys
      && forall a, b :: HasEdge(g, a, b) && b in g ==> Beyond(vertical, BoxOf(a), BoxOf(b))
    }
  }

  lemma LaidOut(d: Drawing)
    requires Roomy(d.geo) && d.col.Keys == d.g.Keys && Spaced(d.col, d.rows) && Bounds(d.rows, d.maxRow)
    requires forall k :: k in d.col ==> 0 <= d.col[k] <= d.maxCol
    ensures d.WellLaidOut()
  {
    forall a, b | a in d.col && b in d.col && a != b ensures Disjoint(d.BoxOf(a), d.BoxOf(b)) {
      BoxesDisjoint(d.geo, d.vertical, Cell(d.col[a], d.rows[a]), Cell(d.col[b], d.rows[b]));
    }
    forall k | k in d.col
      ensures Inside(d.BoxOf(k), d.geo.pad, Width(d.geo, d.vertical, d.maxCol, d.maxRow),
        Height(d.geo, d.vertical, d.maxCol, d.maxRow))
    {
      BoxInside(d.geo, d.vertical, Cell(d.col[k], d.rows[k]), d.maxCol, d.maxRow);
    }
  }

  /** In pixels as in columns: forward reading is exactly the absence of walks of more than MAX_COLS edges. */
  lemma ForwardIff(d: Drawing)
    requires Roomy(d.geo) && d.col.Keys == d.rows.Keys == d.g.Keys && Closed(d.g)
    requires forall k :: k in d.col ==> 0 <= d.col[k]
    ensures d.ReadsForward() <==> LeftToRight(d.g, d.col)
  {
    forall a, b | HasEdge(d.g, a, b) ensures d.col[a] < d.col[b] <==> Beyond(d.vertical, d.BoxOf(a), d.BoxOf(b)) {
      FurtherAlong(d.geo, d.vertical, Cell(d.col[a], d.rows[a]), Cell(d.col[b], d.rows[b]));
    }
  }

  /** The graph builder end to end. Without any routed node there is nothing to draw. Otherwise the
      drawing shows the merged paths of the drawn nodes, every box knowing the nodes that traverse it; columns
      come from the longest-path layers and rows from those nodes; no two boxes overlap and all lie inside the
      canvas; it reads forward exactly when no walk has more than MAX_COLS edges; and when a crossing pass
      came to rest, no skipping edge runs through a box. */
  method BuildNetworkGraph(entries: seq<Entry>, queried: Option<int>, geo: Geometry, vertical: bool, crosses: Crossing)
    returns (drawing: Option<Drawing>, quiet: bool)
    requires Roomy(geo)
    ensures drawing.None? <==> RoutedIds(entries) == []
    ensures drawing.Some? ==>
      var d := drawing.value;
      && d.g == Merge(ChainsOf(Drawn(entries, queried))) && d.geo == geo && d.vertical == vertical
      && d.nodeIds.Keys == d.g.Keys && Traversals(d.nodeIds, ChainsOf(Drawn(entries, queried)))
      && Layered(d.g, d.col)
      && RowsFit(crosses, d.g, Drawn(entries, queried), d.nodeIds, d.col, d.rows, quiet)
      && d.WellLaidOut() && d.Tight()
      && (d.ReadsForward() <==> WalksAtMost(d.g, MAX_COLS))
  {
    var groups, targets, nodeIds, edgeSet := BuildGraph(entries, queried);
    if groups == [] {
      NothingDrawn(entries, queried);
      return None, false;
    }
    SomethingDrawn(entries, queried);
    var keys := ListKeys(targets);
    var d;
    d, quiet := Draw(groups, targets, nodeIds, edgeSet, keys, geo, vertical, crosses);
    drawing := Some(d);
  }

  lemma NothingDrawn(entries: seq<Entry>, queried: Option<int>)
    requires Drawn(entries, queried) == []
    ensures RoutedIds(entries) == []
  {
    DrawnGroups(entries, queried);
    assert forall id :: !HasGroup(Drawn(entries, queried), id);
    assert forall id :: id !in RoutedIds(entries);
  }

  lemma SomethingDrawn(entries: seq<Entry>, queried: Option<int>)
    requires Drawn(entries, queried) != []
    ensures RoutedIds(entries) != [] && Merge(ChainsOf(Drawn(entries, queried))).Keys != {}
    ensures forall group :: group in Drawn(entries, queried) ==> WellFormedGroup(group)
  {
    var groups := Drawn(entries, queried);
    DrawnGroups(entries, queried);
    ChainsAreChains(groups);
    MergeFansIn(ChainsOf(groups));
    var group := groups[0];
    assert group in groups && group.paths[0] in group.paths;
    var chain := ChainOf(group.nodeId, group.paths[0]);
    assert chain in ChainsOf(groups) && chain[0] in chain;
    assert chain[0] in Merge(ChainsOf(groups));
    RoutedBehindPaths(entries, group.nodeId);
  }

  lemma {:induction false} RoutedBehindPaths(entries: seq<Entry>, id: int)
    requires PathsOf(entries, id) != []
    ensures RoutedIds(entries) != []
  {
    var front := entries[..|entries| - 1];
    if PathsOf(front, id) != [] {
      RoutedBehindPaths(front, id);
    }
  }

  /** Columns, first rows, crossing passes and pixels for a merged graph. */
  method Draw(groups: seq<NodeGroup>, targets: Graph, nodeIds: map<Key, seq<int>>, edgeSet: set<(Key, Key)>,
              keys: seq<Key>, geo: Geometry, vertical: bool, crosses: Crossing)
    returns (d: Drawing, quiet: bool)
    requires Roomy(geo)
    requires (forall group :: group in groups ==> WellFormedGroup(group)) && targets == Merge(ChainsOf(groups))
    requires FanIn(targets)
    requires forall a, b :: (a, b) in edgeSet <==> HasEdge(targets, a, b)
    requires keys != [] && NoDup(keys) && forall k :: k in keys <==> k in targets
    ensures d.g == targets && d.nodeIds == nodeIds && d.geo == geo && d.vertical == vertical
    ensures Layered(targets, d.col) && d.WellLaidOut() && d.Tight()
    ensures RowsFit(crosses, targets, groups, nodeIds, d.col, d.rows, quiet)
    ensures d.ReadsForward() <==> WalksAtMost(targets, MAX_COLS)
  {
    var col := FanInColumns(keys, targets);
    d, quiet := DrawColumns(groups, targets, nodeIds, edgeSet, keys, col, geo, vertical, crosses);
  }

  /** The drawing of a graph whose columns are known. */
  method DrawColumns(groups: seq<NodeGroup>, targets: Graph, nodeIds: map<Key, seq<int>>, edgeSet: set<(Key, Key)>,
                     keys: seq<Key>, col: map<Key, int>, geo: Geometry, vertical: bool, crosses: Crossing)
    returns (d: Drawing, quiet: bool)
    requires Roomy(geo)
    requires (forall group :: group in groups ==> WellFormedGroup(group)) && targets == Merge(ChainsOf(groups))
    requires Closed(targets)
    requires forall a, b :: (a, b) in edgeSet <==> HasEdge(targets, a, b)
    requires keys != [] && NoDup(keys) && forall k :: k in keys <==> k in targets
    requires col.Keys == targets.Keys && forall k :: k in col ==> 0 <= col[k] && (col[k] == 0 <==> k.NodeKey?)
    ensures d.g == targets && d.nodeIds == nodeIds && d.col == col && d.geo == geo && d.vertical == vertical
    ensures RowsFit(crosses, targets, groups, nodeIds, col, d.rows, quiet) && d.WellLaidOut() && d.Tight()
    ensures d.ReadsForward() <==> LeftToRight(targets, col)
  {
    var rows, maxRow;
    rows, maxRow, quiet := PlaceRows(groups, targets, nodeIds, edgeSet, keys, col, crosses);
    d := Measured(targets, nodeIds, keys, col, rows, maxRow, geo, vertical);
  }

  /** The canvas of boxes whose cells are known. */
  method Measured(targets: Graph, nodeIds: map<Key, seq<int>>, keys: seq<Key>, col: map<Key, int>,
                  rows: map<Key, real>, maxRow: real, geo: Geometry, vertical: bool)
    returns (d: Drawing)
    requires Roomy(geo) && Closed(targets) && keys != [] && forall k :: k in keys <==> k in targets
    requires col.Keys == targets.Keys && forall k :: k in col ==> 0 <= col[k]
    requires Spaced(col, rows) && Bounds(rows, maxRow)
    ensures d.g == targets && d.nodeIds == nodeIds && d.col == col && d.rows == rows && d.geo == geo
    ensures d.vertical == vertical && d.WellLaidOut() && d.Tight()
    ensures d.ReadsForward() <==> LeftToRight(targets, col)
  {
    var maxCol := LastColumn(keys, col);
    d := Drawing(targets, nodeIds, col, rows, maxCol, maxRow, geo, vertical);
    DrawnWell(d, keys);
  }

  lemma DrawnWell(d: Drawing, keys: seq<Key>)
    requires Roomy(d.geo) && d.col.Keys == d.g.Keys && Closed(d.g) && Spaced(d.col, d.rows) && Bounds(d.rows, d.maxRow)
    requires forall k :: k in keys <==> k in d.col
    requires (forall k :: k in keys ==> 0 <= d.col[k] <= d.maxCol) && exists k :: k in keys && d.col[k] == d.maxCol
    ensures d.WellLaidOut() && d.Tight() && (d.ReadsForward() <==> LeftToRight(d.g, d.col))
  {
    LaidOut(d);
    ForwardIff(d);
  }

  method FanInColumns(keys: seq<Key>, g: Graph) returns (col: map<Key, int>)
    requires keys != [] && NoDup(keys) && (forall k :: k in keys <==> k in g) && FanIn(g)
    ensures col.Keys == g.Keys && forall k :: k in col ==> 0 <= col[k] && (col[k] == 0 <==> k.NodeKey?)
    ensures Layered(g, col) && (LeftToRight(g, col) <==> WalksAtMost(g, MAX_COLS))
  {
    ghost var layer, maxLayer;
    col, layer, maxLayer := PlaceColumns(keys, g);
    LeftToRightIff(g, layer, maxLayer, col);
  }

  method PlaceRows(groups: seq<NodeGroup>, targets: Graph, nodeIds: map<Key, seq<int>>, edgeSet: set<(Key, Key)>,
                   keys: seq<Key>, col: map<Key, int>, crosses: Crossing)
    returns (rows: map<Key, real>, maxRow: real, quiet: bool)
    requires (forall group :: group in groups ==> WellFormedGroup(group)) && targets == Merge(ChainsOf(groups))
    requires Closed(targets)
    requires forall a, b :: (a, b) in edgeSet <==> HasEdge(targets, a, b)
    requires NoDup(keys) && forall k :: k in keys <==> k in targets
    requires col.Keys == targets.Keys && forall k :: k in col ==> (col[k] == 0 <==> k.NodeKey?)
    ensures Spaced(col, rows) && Bounds(rows, maxRow)
    ensures RowsFit(crosses, targets, groups, nodeIds, col, rows, quiet)
  {
    ghost var wish := Wishes(targets, nodeIds, groups);
    var byColumn, met, maxFirst, first;
    byColumn, met, first, maxFirst := PlaceFirstRows(groups, targets, nodeIds, keys, col);
    var columns := ColumnsAboveZero(met);
    AboveZero(col, byColumn, met, columns);
    var list := ListEdges(edgeSet);
    forall e | e in list ensures e.0 in col && e.1 in col {
      assert HasEdge(targets, e.0, e.1);
    }
    ghost var stages;
    rows, maxRow, quiet, stages := CrossingPasses(crosses, list, columns, byColumn, col, first, maxFirst);
    SettledNow(crosses, targets, col, wish, rows, quiet, list, columns, stages);
    SeatedStays(col, wish, first, rows);
    WishesGranted(groups, targets, nodeIds, col, wish, rows);
    ClearEdges(crosses, list, targets, col, rows, quiet);
    KeepsThem(crosses, targets, col, wish, rows, quiet);
  }

  /** The rows before any pass. */
  method PlaceFirstRows(groups: seq<NodeGroup>, targets: Graph, nodeIds: map<Key, seq<int>>, keys: seq<Key>,
                        col: map<Key, int>)
    returns (byColumn: map<int, seq<Key>>, met: seq<int>, rows: map<Key, real>, maxRow: real)
    requires (forall group :: group in groups ==> WellFormedGroup(group)) && targets == Merge(ChainsOf(groups))
    requires NoDup(keys) && forall k :: k in keys <==> k in targets
    requires col.Keys == targets.Keys && forall k :: k in col ==> (col[k] == 0 <==> k.NodeKey?)
    ensures ByColumn(col, byColumn) && NoDup(met) && forall c :: c in met <==> c in byColumn
    ensures Spaced(col, rows) && Bounds(rows, maxRow)
    ensures FirstRowsOf(col, Wishes(targets, nodeIds, groups), rows)
    ensures Seated(col, Wishes(targets, nodeIds, groups), rows)
  {
    var wish := WishRows(keys, nodeIds, groups);
    assert wish == Wishes(targets, nodeIds, groups);
    NodeRows(groups, targets, nodeIds, col, wish);
    byColumn, met := GroupByColumn(keys, col);
    rows, maxRow := AssignRows(met, byColumn, col, wish);
    FirstRowsSeat(byColumn, col, wish, rows);
    FirstRowsGiven(byColumn, col, wish, rows);
  }

  lemma AboveZero(col: map<Key, int>, byColumn: map<int, seq<Key>>, met: seq<int>, columns: seq<int>)
    requires ByColumn(col, byColumn) && (forall c :: c in met <==> c in byColumn)
    requires forall c :: c in columns <==> c in met && c > 0
    ensures forall c :: c in columns ==> c > 0
    ensures forall k :: k in col && col[k] > 0 ==> col[k] in columns
  {
  }

  lemma SettledNow(crosses: Crossing, g: Graph, col: map<Key, int>, wish: map<Key, real>, rows: map<Key, real>,
                   quiet: bool, edges: seq<(Key, Key)>, columns: seq<int>, stages: seq<map<Key, real>>)
    requires Settled(crosses, g, col, wish, rows, quiet, edges, columns, stages)
    ensures RowsSettle(crosses, g, col, wish, rows, quiet)
  {
  }

  lemma WishesGranted(groups: seq<NodeGroup>, g: Graph, nodeIds: map<Key, seq<int>>, col: map<Key, int>,
                      wish: map<Key, real>, rows: map<Key, real>)
    requires Seated(col, wish, rows) && col.Keys == g.Keys && forall k :: k in col ==> (col[k] == 0 <==> k.NodeKey?)
    requires forall k :: k in wish ==> wish[k] == Wish(k, nodeIds, groups)
    ensures SeatedFor(g, groups, nodeIds, rows)
  {
  }

  lemma ClearEdges(crosses: Crossing, list: seq<(Key, Key)>, g: Graph, col: map<Key, int>, rows: map<Key, real>,
                   quiet: bool)
    requires col.Keys == rows.Keys == g.Keys && forall a, b :: (a, b) in list <==> HasEdge(g, a, b)
    requires quiet ==> Clear(crosses, list, col, rows)
    ensures quiet ==> ClearGraph(crosses, g, col, rows)
  {
    forall a, b, k | quiet && HasEdge(g, a, b) && b in col && k in col && col[k] > 0 && col[a] < col[k] < col[b]
      ensures !crosses(Cell(col[a], rows[a]), Cell(col[b], rows[b]), Cell(col[k], rows[k]))
    {
      var e := (a, b);
      assert e in list && Skips(col, e, col[k]);
    }
  }

  /** The box ends at the padding, along the paths. */
  ghost predicate EndsAlong(d: Drawing, k: Key)
    requires k in d.col && k in d.rows
  {
    var box := d.BoxOf(k);
    if d.vertical then box.top + box.height == Height(d.geo, true, d.maxCol, d.maxRow) - d.geo.pad
    else box.left + box.width == Width(d.geo, false, d.maxCol, d.maxRow) - d.geo.pad
  }

  /** The box, or in horizontal mode its row, ends at the padding across the paths. */
  ghost predicate EndsAcross(d: Drawing, k: Key)
    requires k in d.col && k in d.rows
  {
    var box := d.BoxOf(k);
    if d.vertical then box.left + box.width == Width(d.geo, true, d.maxCol, d.maxRow) - d.geo.pad
    else box.top + d.geo.rowH == Height(d.geo, false, d.maxCol, d.maxRow) - d.geo.pad
  }

  /** No canvas is larger than its boxes need: some box reaches the padding on either side. */
  lemma CanvasIsTight(d: Drawing)
    requires d.Tight() && d.col.Keys == d.rows.Keys && d.maxCol > 0 && forall k :: k in d.rows ==> d.rows[k] >= 0.0
    ensures exists k :: k in d.col && EndsAlong(d, k)
    ensures exists k :: k in d.col && EndsAcross(d, k)
  {
    var last :| last in d.col && d.col[last] == d.maxCol;
    assert EndsAlong(d, last);
    if d.maxRow == 0.0 {
      assert EndsAcross(d, last);
    } else {
      var lowest :| lowest in d.rows && d.rows[lowest] == d.maxRow;
      assert EndsAcross(d, lowest);
    }
  }

  lemma BothLayoutsRoomy()
    ensures Roomy(WIDE) && Roomy(COMPACT)
  {
  }
}
