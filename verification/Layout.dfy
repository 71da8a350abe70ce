/** Rows, crossing passes and pixel geometry of the network map. Rows and pixels are reals. */
module Layout {
  import opened Graphs
  import opened GraphBuilding

  /** Where a box sits on the grid. */
  datatype Cell = Cell(col: int, row: real)

  /** Whether the connector between two cells passes through the box at a third. */
  type Crossing = (Cell, Cell, Cell) -> bool

  function AsnOf(k: Key): int {
    if k.AsKey? then k.asn else 0
  }

  /** Ascending by rank, equal ranks by AS number. */
  predicate Before(rank: map<Key, real>, a: Key, b: Key)
    requires a in rank && b in rank
  {
    rank[a] < rank[b] || (rank[a] == rank[b] && AsnOf(a) <= AsnOf(b))
  }

  ghost predicate Sorted(rank: map<Key, real>, list: seq<Key>) {
    && (forall k :: k in list ==> k in rank)
    && (forall i, j :: 0 <= i < j < |list| ==> Before(rank, list[i], list[j]))
  }

  ghost predicate SameMembers(a: seq<Key>, b: seq<Key>) {
    NoDup(a) && NoDup(b) && forall k :: k in a <==> k in b
  }

  method InsertByRank(rank: map<Key, real>, list: seq<Key>, k: Key) returns (sorted: seq<Key>)
    requires k in rank && k !in list && NoDup(list) && Sorted(rank, list)
    ensures Sorted(rank, sorted) && NoDup(sorted) && forall x :: x in sorted <==> x in list || x == k
  {
    var n := |list|;
    while n > 0 && !Before(rank, list[n - 1], k)
      invariant 0 <= n <= |list|
      invariant forall i :: n <= i < |list| ==> Before(rank, k, list[i])
    {
      n := n - 1;
    }
    sorted := list[..n] + [k] + list[n..];
    InsertKeepsDistinct(list, n, k);
  }

  lemma InsertKeepsDistinct(list: seq<Key>, n: nat, k: Key)
    requires n <= |list| && NoDup(list) && k !in list
    ensures NoDup(list[..n] + [k] + list[n..]) && forall x :: x in list[..n] + [k] + list[n..] <==> x in list || x == k
  {
    var all := list[..n] + [k] + list[n..];
    InsertMeets(list, n, k);
    assert forall i :: 0 <= i < |all| ==> all[i] == if i < n then list[i] else if i == n then k else list[i - 1];
  }

  lemma InsertMeets(list: seq<Key>, n: nat, k: Key)
    requires n <= |list|
    ensures forall x :: x in list[..n] + [k] + list[n..] <==> x in list || x == k
  {
    assert list == list[..n] + list[n..];
  }

  method SortByRank(rank: map<Key, real>, list: seq<Key>) returns (sorted: seq<Key>)
    requires NoDup(list) && forall k :: k in list ==> k in rank
    ensures SameMembers(list, sorted) && Sorted(rank, sorted)
    ensures forall i, j :: 0 <= i < j < |sorted| ==>
      && rank[sorted[i]] <= rank[sorted[j]]
      && (rank[sorted[i]] == rank[sorted[j]] && sorted[i].AsKey? && sorted[j].AsKey? ==> sorted[i].asn <= sorted[j].asn)
  {
    sorted := [];
    for i := 0 to |list|
      invariant SameMembers(list[..i], sorted) && Sorted(rank, sorted)
    {
      TakeNext(list, i);
      assert list[i] !in list[..i];
      sorted := InsertByRank(rank, sorted, list[i]);
    }
    TakeAll(list);
  }

  // ---- Packing one column ----

  function Max(a: real, b: real): real {
    if a >= b then a else b
  }

  /** The first row below the last box of the list. */
  function NextFree(list: seq<Key>, rows: map<Key, real>): real {
    if list == [] || list[|list| - 1] !in rows then 0.0 else rows[list[|list| - 1]] + 1.0
  }

  /** Every box sits at or below the row the one before it leaves free. */
  ghost predicate Stacked(list: seq<Key>, rows: map<Key, real>) {
    list == [] ||
    var front, last := list[..|list| - 1], list[|list| - 1];
    Stacked(front, rows) && last in rows && rows[last] >= NextFree(front, rows)
  }

  /** Every box sits exactly at its wish or at the row the one before it leaves free. */
  ghost predicate Packed(list: seq<Key>, wish: map<Key, real>, rows: map<Key, real>) {
    list == [] ||
    var front, last := list[..|list| - 1], list[|list| - 1];
    Packed(front, wish, rows) && last in rows && last in wish && rows[last] == Max(wish[last], NextFree(front, rows))
  }

  lemma {:induction false} StackedApart(list: seq<Key>, rows: map<Key, real>)
    requires Stacked(list, rows)
    ensures forall k :: k in list ==> k in rows && 0.0 <= rows[k] <= NextFree(list, rows) - 1.0
    ensures forall i, j :: 0 <= i < j < |list| ==>
      list[i] in rows && list[j] in rows && rows[list[i]] + 1.0 <= rows[list[j]]
  {
    if list == [] {
    } else {
      var front, last := list[..|list| - 1], list[|list| - 1];
      StackedApart(front, rows);
      assert list == front + [last];
      forall i, j | 0 <= i < j < |list|
        ensures list[i] in rows && list[j] in rows && rows[list[i]] + 1.0 <= rows[list[j]]
      {
        assert list[i] == front[i];
        if j < |front| {
          assert list[j] == front[j];
        }
      }
    }
  }

  lemma {:induction false} PackedIsStacked(list: seq<Key>, wish: map<Key, real>, rows: map<Key, real>)
    requires Packed(list, wish, rows)
    ensures Stacked(list, rows) && forall k :: k in list ==> k in rows && k in wish && rows[k] >= wish[k]
  {
    if list == [] {
    } else {
      PackedIsStacked(list[..|list| - 1], wish, rows);
      assert list == list[..|list| - 1] + [list[|list| - 1]];
    }
  }

  /** No stack in the same order that grants every wish puts any box higher than packing does. */
  lemma {:induction false} PackedIsHighest(list: seq<Key>, wish: map<Key, real>, rows: map<Key, real>,
                                           other: map<Key, real>)
    requires Packed(list, wish, rows) && Stacked(list, other)
    requires forall k :: k in list ==> k in wish && k in other && other[k] >= wish[k]
    ensures forall k :: k in list ==> k in rows && rows[k] <= other[k]
  {
    if list == [] {
    } else {
      var front, last := list[..|list| - 1], list[|list| - 1];
      assert list == front + [last];
      PackedIsHighest(front, wish, rows, other);
      assert front != [] ==> front[|front| - 1] in front;
    }
  }

  /** Rows of boxes outside the list do not matter. */
  lemma {:induction false} StackElsewhere(list: seq<Key>, wish: map<Key, real>, rows: map<Key, real>, k: Key, row: real)
    requires k !in list
    ensures Stacked(list, rows) ==> Stacked(list, rows[k := row])
    ensures Packed(list, wish, rows) ==> Packed(list, wish, rows[k := row])
    ensures NextFree(list, rows[k := row]) == NextFree(list, rows)
  {
    if list == [] {
    } else {
      var front := list[..|list| - 1];
      assert list[|list| - 1] in list && forall x :: x in front ==> x in list;
      StackElsewhere(front, wish, rows, k, row);
    }
  }

  /** One more box at the end of the list. */
  lemma StackNext(list: seq<Key>, wish: map<Key, real>, rows: map<Key, real>, k: Key, row: real)
    requires k !in list && row >= NextFree(list, rows)
    ensures Stacked(list, rows) ==> Stacked(list + [k], rows[k := row])
    ensures k in wish && Packed(list, wish, rows) && row == Max(wish[k], NextFree(list, rows)) ==>
              Packed(list + [k], wish, rows[k := row])
    ensures NextFree(list + [k], rows[k := row]) == row + 1.0
  {
    StackElsewhere(list, wish, rows, k, row);
    assert (list + [k])[..|list|] == list;
  }

  /** The boxes of the list have been packed; nothing else has changed. */
  ghost predicate Packing(list: seq<Key>, wish: map<Key, real>, rows: map<Key, real>, rows': map<Key, real>,
                          nextFree: real, maxRow: real)
  {
    && (forall k :: k in rows' <==> k in rows || k in list)
    && (forall k :: k in rows && k !in list ==> rows'[k] == rows[k])
    && Packed(list, wish, rows') && nextFree == NextFree(list, rows') && Bounds(rows', maxRow)
  }

  lemma PackNext(list: seq<Key>, wish: map<Key, real>, rows: map<Key, real>, rows': map<Key, real>, nextFree: real,
                 maxRow: real, k: Key)
    requires Packing(list, wish, rows, rows', nextFree, maxRow) && k in wish && k !in rows && k !in list
    ensures var row := Max(wish[k], nextFree);
            Packing(list + [k], wish, rows, rows'[k := row], row + 1.0, Max(maxRow, row))
  {
    var row := Max(wish[k], nextFree);
    StackNext(list, wish, rows', k, row);
    BoundsNext(rows', maxRow, k, row);
  }

  /** Every vertex sits as high as its wish and the vertices above it allow. */
  method PackColumn(list: seq<Key>, wish: map<Key, real>, rows: map<Key, real>, maxRow: real)
    returns (rows': map<Key, real>, maxRow': real)
    requires NoDup(list) && forall k :: k in list ==> k in wish && k !in rows
    requires Bounds(rows, maxRow)
    ensures forall k :: k in rows' <==> k in rows || k in list
    ensures forall k :: k in rows ==> rows'[k] == rows[k]
    ensures Packed(list, wish, rows') && Bounds(rows', maxRow')
  {
    rows', maxRow' := rows, maxRow;
    var nextFree := 0.0;
    for i := 0 to |list|
      invariant Packing(list[..i], wish, rows, rows', nextFree, maxRow')
    {
      TakeNext(list, i);
      PackNext(list[..i], wish, rows, rows', nextFree, maxRow', list[i]);
      var row := Max(wish[list[i]], nextFree);
      rows' := rows'[list[i] := row];
      nextFree := row + 1.0;
      maxRow' := Max(maxRow', row);
    }
    TakeAll(list);
  }

  // ---- The canvas bound ----

  /** maxRow is at least 0, at least every row, and reached unless it is 0. */
  ghost predicate Bounds(rows: map<Key, real>, maxRow: real) {
    && maxRow >= 0.0
    && (forall k :: k in rows ==> rows[k] <= maxRow)
    && (maxRow == 0.0 || exists k :: k in rows && rows[k] == maxRow)
  }

  lemma BoundsNext(rows: map<Key, real>, maxRow: real, k: Key, row: real)
    requires Bounds(rows, maxRow) && (k in rows ==> row >= rows[k])
    ensures Bounds(rows[k := row], Max(maxRow, row))
  {
    var rows' := rows[k := row];
    if row >= maxRow {
      assert rows'[k] == row;
    } else if maxRow != 0.0 {
      var x :| x in rows && rows[x] == maxRow;
      assert rows'[x] == maxRow;
    }
  }

  // ---- Moving boxes off skipping edges ----

  /** Two boxes of one column are at least one row apart. */
  ghost predicate Spaced(col: map<Key, int>, rows: map<Key, real>) {
    && rows.Keys == col.Keys
    && (forall k :: k in rows ==> rows[k] >= 0.0)
    && (forall a, b :: a in rows && b in rows && a != b && col[a] == col[b] ==>
          rows[a] + 1.0 <= rows[b] || rows[b] + 1.0 <= rows[a])
  }

  function CellOf(col: map<Key, int>, rows: map<Key, real>, k: Key): Cell
    requires k in col && k in rows
  {
    Cell(col[k], rows[k])
  }

  /** The edges that skip over column c. */
  predicate Skips(col: map<Key, int>, edge: (Key, Key), c: int)
    requires edge.0 in col && edge.1 in col
  {
    col[edge.0] < c < col[edge.1]
  }

  predicate Obstructed(crosses: Crossing, crossing: seq<(Cell, Cell)>, cell: Cell) {
    exists i :: 0 <= i < |crossing| && crosses(crossing[i].0, crossing[i].1, cell)
  }

  /** The pair of cells is where some edge that skips over column c begins and ends. */
  ghost predicate SkippedBy(edges: seq<(Key, Key)>, col: map<Key, int>, rows: map<Key, real>, c: int,
                            pair: (Cell, Cell))
    requires rows.Keys == col.Keys && forall e :: e in edges ==> e.0 in col && e.1 in col
  {
    exists e :: e in edges && Skips(col, e, c) && pair == (CellOf(col, rows, e.0), CellOf(col, rows, e.1))
  }

  lemma SkippedByNext(edges: seq<(Key, Key)>, e: (Key, Key), col: map<Key, int>, rows: map<Key, real>, c: int)
    requires rows.Keys == col.Keys && forall d :: d in edges + [e] ==> d.0 in col && d.1 in col
    requires forall d :: d in edges ==> d.0 in col && d.1 in col
    ensures e in edges + [e]
    ensures forall pair :: SkippedBy(edges + [e], col, rows, c, pair) <==>
              SkippedBy(edges, col, rows, c, pair) ||
              (Skips(col, e, c) && pair == (CellOf(col, rows, e.0), CellOf(col, rows, e.1)))
  {
    assert forall d :: d in edges + [e] <==> d in edges || d == e;
  }

  method CrossingEdges(edges: seq<(Key, Key)>, col: map<Key, int>, rows: map<Key, real>, c: int)
    returns (crossing: seq<(Cell, Cell)>)
    requires rows.Keys == col.Keys && forall e :: e in edges ==> e.0 in col && e.1 in col
    ensures forall pair :: pair in crossing <==> SkippedBy(edges, col, rows, c, pair)
  {
    crossing := [];
    for i := 0 to |edges|
      invariant forall pair :: pair in crossing <==> SkippedBy(edges[..i], col, rows, c, pair)
    {
      assert edges[..i + 1] == edges[..i] + [edges[i]];
      SkippedByNext(edges[..i], edges[i], col, rows, c);
      if Skips(col, edges[i], c) {
        crossing := crossing + [(CellOf(col, rows, edges[i].0), CellOf(col, rows, edges[i].1))];
      }
    }
    assert edges[..|edges|] == edges;
  }

  /** The row n half-row steps below `start`. */
  function HalfStep(start: real, n: nat): real {
    start + 0.5 * n as real
  }

  /** The first half-row step from `start` on that clears the box, or the last one when its tries run out. */
  ghost predicate FirstClear(crosses: Crossing, crossing: seq<(Cell, Cell)>, c: int, start: real, row: real) {
    exists n: nat :: n <= 4 * MAX_NODES && row == HalfStep(start, n)
      && (forall m: nat :: m < n ==> Obstructed(crosses, crossing, Cell(c, HalfStep(start, m))))
      && (n == 4 * MAX_NODES || !Obstructed(crosses, crossing, Cell(c, row)))
  }

  /** Half-row steps down until the box is clear, at most 4 * MAX_NODES of them. */
  method FindRow(crosses: Crossing, crossing: seq<(Cell, Cell)>, c: int, start: real) returns (row: real)
    ensures FirstClear(crosses, crossing, c, start, row)
    ensures row >= start && (row == start <==> !Obstructed(crosses, crossing, Cell(c, start)))
    ensures Obstructed(crosses, crossing, Cell(c, row)) ==> row == start + (2 * MAX_NODES) as real
  {
    row := start;
    var tries := 0;
    while tries < 4 * MAX_NODES && Obstructed(crosses, crossing, Cell(c, row))
      invariant 0 <= tries <= 4 * MAX_NODES && row == HalfStep(start, tries)
      invariant forall m: nat :: m < tries ==> Obstructed(crosses, crossing, Cell(c, HalfStep(start, m)))
    {
      row := row + 0.5;
      tries := tries + 1;
    }
    assert HalfStep(start, 0) == start;
  }

  /** One box: below what is free and off the crossing edges. */
  method PushBox(crosses: Crossing, crossing: seq<(Cell, Cell)>, c: int, k: Key, nextFree: real, rows: map<Key, real>)
    returns (row: real, rows': map<Key, real>, moved: bool)
    requires k in rows
    ensures FirstClear(crosses, crossing, c, Max(rows[k], nextFree), row)
    ensures row >= rows[k] && row >= nextFree && rows' == rows[k := row] && (moved <==> row != rows[k])
    ensures !moved ==> rows' == rows && !Obstructed(crosses, crossing, Cell(c, rows[k]))
  {
    row := FindRow(crosses, crossing, c, Max(rows[k], nextFree));
    rows', moved := rows, false;
    if row != rows[k] {
      rows', moved := rows[k := row], true;
    }
    assert row == rows[k] ==> rows[k := row] == rows;
  }

  /** Every box sits at the first clear half-step from its old row on, below the box before it. */
  ghost predicate Lowered(crosses: Crossing, crossing: seq<(Cell, Cell)>, c: int, list: seq<Key>,
                          rows: map<Key, real>, rows': map<Key, real>)
  {
    list == [] ||
    var front, last := list[..|list| - 1], list[|list| - 1];
    && Lowered(crosses, crossing, c, front, rows, rows') && last in rows && last in rows'
    && FirstClear(crosses, crossing, c, Max(rows[last], NextFree(front, rows')), rows'[last])
  }

  lemma {:induction false} LoweredElsewhere(crosses: Crossing, crossing: seq<(Cell, Cell)>, c: int, list: seq<Key>,
                                            rows: map<Key, real>, rows': map<Key, real>, k: Key, row: real)
    requires k !in list && Lowered(crosses, crossing, c, list, rows, rows')
    ensures Lowered(crosses, crossing, c, list, rows, rows'[k := row])
  {
    if list != [] {
      var front := list[..|list| - 1];
      assert list[|list| - 1] in list && forall x :: x in front ==> x in list;
      LoweredElsewhere(crosses, crossing, c, front, rows, rows', k, row);
      StackElsewhere(front, map[], rows', k, row);
    }
  }

  lemma LowerNext(crosses: Crossing, crossing: seq<(Cell, Cell)>, c: int, list: seq<Key>, rows: map<Key, real>,
                  rows': map<Key, real>, k: Key, row: real)
    requires k !in list && k in rows && Lowered(crosses, crossing, c, list, rows, rows')
    requires FirstClear(crosses, crossing, c, Max(rows[k], NextFree(list, rows')), row)
    ensures Lowered(crosses, crossing, c, list + [k], rows, rows'[k := row])
  {
    LoweredElsewhere(crosses, crossing, c, list, rows, rows', k, row);
    StackElsewhere(list, map[], rows', k, row);
    assert (list + [k])[..|list|] == list;
  }

  lemma ClearAtOnce(crosses: Crossing, crossing: seq<(Cell, Cell)>, c: int, start: real, row: real)
    requires !Obstructed(crosses, crossing, Cell(c, start))
    ensures FirstClear(crosses, crossing, c, start, row) <==> row == start
  {
    assert HalfStep(start, 0) == start;
  }

  /** Boxes that stand apart with nothing across them stay where they are. */
  lemma {:induction false} LoweredStill(crosses: Crossing, crossing: seq<(Cell, Cell)>, c: int, list: seq<Key>,
                                        rows: map<Key, real>, rows': map<Key, real>)
    requires Stacked(list, rows)
    requires forall k :: k in list ==> k in rows && !Obstructed(crosses, crossing, Cell(c, rows[k]))
    ensures Lowered(crosses, crossing, c, list, rows, rows') <==>
      forall k :: k in list ==> k in rows' && rows'[k] == rows[k]
  {
    if list != [] {
      var front, last := list[..|list| - 1], list[|list| - 1];
      assert list == front + [last];
      LoweredStill(crosses, crossing, c, front, rows, rows');
      assert front != [] ==> front[|front| - 1] in front;
      ClearAtOnce(crosses, crossing, c, rows[last], if last in rows' then rows'[last] else 0.0);
    }
  }

  /** Boxes that stand a row apart, sorted by their rows, form a stack. */
  lemma {:induction false} ApartIsStacked(list: seq<Key>, rows: map<Key, real>)
    requires NoDup(list) && Sorted(rows, list) && forall k :: k in list ==> rows[k] >= 0.0
    requires forall a, b :: a in list && b in list && a != b ==>
      rows[a] + 1.0 <= rows[b] || rows[b] + 1.0 <= rows[a]
    ensures Stacked(list, rows)
  {
    if list != [] {
      var front, last := list[..|list| - 1], list[|list| - 1];
      assert list == front + [last];
      ApartIsStacked(front, rows);
      if front != [] {
        var above := front[|front| - 1];
        assert above == list[|list| - 2] && above in list && Before(rows, above, last);
      }
    }
  }

  /** The boxes of the list have been pushed down; nothing else has changed. */
  ghost predicate Pushed(list: seq<Key>, rows: map<Key, real>, rows': map<Key, real>, nextFree: real, maxRow: real) {
    && rows'.Keys == rows.Keys && (forall k :: k in rows ==> rows'[k] >= rows[k])
    && (forall k :: k in rows && k !in list ==> rows'[k] == rows[k])
    && Stacked(list, rows') && nextFree == NextFree(list, rows') && Bounds(rows', maxRow)
  }

  lemma PushNext(list: seq<Key>, rows: map<Key, real>, rows': map<Key, real>, nextFree: real, maxRow: real, k: Key,
                 row: real)
    requires Pushed(list, rows, rows', nextFree, maxRow) && k in rows && k !in list && row >= rows'[k]
    requires row >= nextFree
    ensures Pushed(list + [k], rows, rows'[k := row], row + 1.0, Max(maxRow, row))
  {
    StackNext(list, map[], rows', k, row);
    BoundsNext(rows', maxRow, k, row);
  }

  /** One column of one pass: sorted by row, every box is pushed below the one above it and off the
      crossing edges. Without a move, nothing crosses any box of the column. */
  method ClearColumn(crosses: Crossing, crossing: seq<(Cell, Cell)>, c: int, list: seq<Key>, rows: map<Key, real>,
                     maxRow: real)
    returns (rows': map<Key, real>, maxRow': real, moved: bool, ghost order: seq<Key>)
    requires NoDup(list) && forall k :: k in list ==> k in rows
    requires Bounds(rows, maxRow)
    ensures rows'.Keys == rows.Keys && forall k :: k in rows ==> rows'[k] >= rows[k]
    ensures forall k :: k in rows && k !in list ==> rows'[k] == rows[k]
    ensures SameMembers(list, order) && Sorted(rows, order) && Stacked(order, rows') && Bounds(rows', maxRow')
    ensures Lowered(crosses, crossing, c, order, rows, rows') && (moved <==> rows' != rows)
    ensures !moved ==> forall k :: k in list ==> !Obstructed(crosses, crossing, Cell(c, rows[k]))
  {
    var sorted := SortByRank(rows, list);
    rows', maxRow', moved, order := rows, maxRow, false, sorted;
    var nextFree := 0.0;
    for i := 0 to |sorted|
      invariant Pushed(sorted[..i], rows, rows', nextFree, maxRow')
      invariant Lowered(crosses, crossing, c, sorted[..i], rows, rows')
      invariant moved <==> exists k :: k in rows && rows'[k] != rows[k]
      invariant !moved ==> forall j :: 0 <= j < i ==> !Obstructed(crosses, crossing, Cell(c, rows[sorted[j]]))
    {
      TakeNext(sorted, i);
      ghost var before := rows';
      var row, changed;
      row, rows', changed := PushBox(crosses, crossing, c, sorted[i], nextFree, rows');
      PushNext(sorted[..i], rows, before, nextFree, maxRow', sorted[i], row);
      LowerNext(crosses, crossing, c, sorted[..i], rows, before, sorted[i], row);
      moved := moved || changed;
      nextFree := row + 1.0;
      maxRow' := Max(maxRow', row);
    }
    TakeAll(sorted);
  }

  /** The vertices of every column. */
  ghost predicate ByColumn(col: map<Key, int>, byColumn: map<int, seq<Key>>) {
    && (forall c :: c in byColumn ==> NoDup(byColumn[c]))
    && (forall c, k :: c in byColumn ==> (k in byColumn[c] <==> k in col && col[k] == c))
    && (forall k :: k in col ==> col[k] in byColumn)
  }

  /** No skipping edge is drawn through the box of any vertex in a column above 0. */
  ghost predicate Clear(crosses: Crossing, edges: seq<(Key, Key)>, col: map<Key, int>, rows: map<Key, real>) {
    forall e, k ::
      (e in edges && k in col && k in rows && col[k] > 0 &&
       e.0 in col && e.0 in rows && e.1 in col && e.1 in rows && Skips(col, e, col[k])) ==>
      !crosses(CellOf(col, rows, e.0), CellOf(col, rows, e.1), CellOf(col, rows, k))
  }

  lemma SpacedAfter(col: map<Key, int>, rows: map<Key, real>, rows': map<Key, real>, c: int, list: seq<Key>,
                    sorted: seq<Key>)
    requires Spaced(col, rows) && rows'.Keys == rows.Keys
    requires forall k :: k in list <==> k in col && col[k] == c
    requires SameMembers(list, sorted) && Stacked(sorted, rows')
    requires forall k :: k in rows && k !in list ==> rows'[k] == rows[k]
    ensures Spaced(col, rows')
  {
    assert forall k :: k in rows && k in list ==> k in sorted;
    StackedApart(sorted, rows');
    forall a, b | a in rows && b in rows && a != b && col[a] == col[b]
      ensures rows'[a] + 1.0 <= rows'[b] || rows'[b] + 1.0 <= rows'[a]
    {
      if a in list {
        assert a in sorted && b in sorted;
        var i :| 0 <= i < |sorted| && sorted[i] == a;
        var j :| 0 <= j < |sorted| && sorted[j] == b;
      }
    }
  }

  /** Boxes only move down, and those of column 0 not at all. */
  ghost predicate MovedDown(col: map<Key, int>, rows: map<Key, real>, rows': map<Key, real>) {
    forall k :: k in rows ==> k in rows' && k in col && rows'[k] >= rows[k] && (col[k] == 0 ==> rows'[k] == rows[k])
  }

  /** The boxes of column c in the order of their rows, and the edges that skip over it. */
  ghost predicate Lists(edges: seq<(Key, Key)>, col: map<Key, int>, rows: map<Key, real>, c: int, order: seq<Key>,
                        crossing: seq<(Cell, Cell)>)
    requires rows.Keys == col.Keys && forall e :: e in edges ==> e.0 in col && e.1 in col
  {
    && NoDup(order) && (forall k :: k in order <==> k in col && col[k] == c) && Sorted(rows, order)
    && (forall pair :: pair in crossing <==> SkippedBy(edges, col, rows, c, pair))
  }

  /** What a pass does to one column: the boxes of the others stay, and if an edge skips over the column each of its
      boxes moves to the first clear half-step below the box above it. */
  ghost predicate PassedColumn(crosses: Crossing, edges: seq<(Key, Key)>, col: map<Key, int>, rows: map<Key, real>,
                               rows': map<Key, real>, c: int)
    requires rows.Keys == col.Keys && forall e :: e in edges ==> e.0 in col && e.1 in col
  {
    && rows'.Keys == rows.Keys
    && (forall k :: k in rows && col[k] != c ==> rows'[k] == rows[k])
    && ((rows' == rows && forall e :: e in edges ==> !Skips(col, e, c)) ||
        exists order, crossing :: Lists(edges, col, rows, c, order, crossing) && crossing != [] &&
          Lowered(crosses, crossing, c, order, rows, rows'))
  }

  /** A column whose boxes nothing crosses stays as it is. */
  lemma ClearColumnStays(crosses: Crossing, edges: seq<(Key, Key)>, col: map<Key, int>, rows: map<Key, real>,
                         rows': map<Key, real>, c: int, order: seq<Key>, crossing: seq<(Cell, Cell)>)
    requires Spaced(col, rows) && rows'.Keys == rows.Keys && forall e :: e in edges ==> e.0 in col && e.1 in col
    requires Lists(edges, col, rows, c, order, crossing) && Lowered(crosses, crossing, c, order, rows, rows')
    requires forall k :: k in rows && col[k] != c ==> rows'[k] == rows[k]
    requires ColumnClear(crosses, edges, col, rows, c)
    ensures rows' == rows
  {
    forall k | k in order ensures !Obstructed(crosses, crossing, Cell(c, rows[k])) {
      forall i | 0 <= i < |crossing| ensures !crosses(crossing[i].0, crossing[i].1, Cell(c, rows[k])) {
        assert crossing[i] in crossing && SkippedBy(edges, col, rows, c, crossing[i]);
      }
    }
    ApartIsStacked(order, rows);
    LoweredStill(crosses, crossing, c, order, rows, rows');
  }

  /** One column of one pass; a column no edge skips is left alone. Something moves exactly when an edge crosses a
      box of the column. */
  method PassColumn(crosses: Crossing, edges: seq<(Key, Key)>, c: int, list: seq<Key>,
                    col: map<Key, int>, rows: map<Key, real>, maxRow: real)
    returns (rows': map<Key, real>, maxRow': real, changed: bool)
    requires Spaced(col, rows) && Bounds(rows, maxRow)
    requires c > 0 && NoDup(list) && forall k :: k in list <==> k in col && col[k] == c
    requires forall e :: e in edges ==> e.0 in col && e.1 in col
    ensures Spaced(col, rows') && Bounds(rows', maxRow') && MovedDown(col, rows, rows')
    ensures PassedColumn(crosses, edges, col, rows, rows', c)
    ensures changed <==> rows' != rows
    ensures changed <==> !ColumnClear(crosses, edges, col, rows, c)
  {
    rows', maxRow', changed := rows, maxRow, false;
    var crossing := CrossingEdges(edges, col, rows, c);
    if crossing == [] {
      NothingSkips(edges, col, rows, c, crossing);
    } else {
      ghost var order;
      rows', maxRow', changed, order := ClearColumn(crosses, crossing, c, list, rows, maxRow);
      SpacedAfter(col, rows, rows', c, list, order);
      assert Lists(edges, col, rows, c, order, crossing);
      if ColumnClear(crosses, edges, col, rows, c) {
        ClearColumnStays(crosses, edges, col, rows, rows', c, order, crossing);
      }
    }
    if !changed {
      NothingCrosses(crosses, crossing, edges, col, rows, c, list);
    }
  }

  lemma NothingSkips(edges: seq<(Key, Key)>, col: map<Key, int>, rows: map<Key, real>, c: int,
                     crossing: seq<(Cell, Cell)>)
    requires rows.Keys == col.Keys && forall e :: e in edges ==> e.0 in col && e.1 in col
    requires crossing == [] && forall pair :: pair in crossing <==> SkippedBy(edges, col, rows, c, pair)
    ensures forall e :: e in edges ==> !Skips(col, e, c)
  {
    forall e | e in edges && Skips(col, e, c) ensures false {
      assert SkippedBy(edges, col, rows, c, (CellOf(col, rows, e.0), CellOf(col, rows, e.1)));
    }
  }

  /** What a pass does: one column after the other. */
  ghost predicate Passed(crosses: Crossing, edges: seq<(Key, Key)>, columns: seq<int>, col: map<Key, int>,
                         rows: map<Key, real>, rows': map<Key, real>)
    requires rows.Keys == col.Keys && forall e :: e in edges ==> e.0 in col && e.1 in col
    decreases |columns|
  {
    if columns == [] then rows' == rows
    else
      exists mid: map<Key, real> :: mid.Keys == col.Keys &&
        Passed(crosses, edges, columns[..|columns| - 1], col, rows, mid) &&
        PassedColumn(crosses, edges, col, mid, rows', columns[|columns| - 1])
  }

  lemma PassedNext(crosses: Crossing, edges: seq<(Key, Key)>, columns: seq<int>, c: int, col: map<Key, int>,
                   rows: map<Key, real>, mid: map<Key, real>, rows': map<Key, real>)
    requires rows.Keys == mid.Keys == col.Keys && forall e :: e in edges ==> e.0 in col && e.1 in col
    requires Passed(crosses, edges, columns, col, rows, mid) && PassedColumn(crosses, edges, col, mid, rows', c)
    ensures Passed(crosses, edges, columns + [c], col, rows, rows')
  {
    assert (columns + [c])[..|columns|] == columns;
  }

  /** One pass over the columns above 0, in order. Something moves exactly when an edge crosses a box. */
  method CrossingPass(crosses: Crossing, edges: seq<(Key, Key)>, columns: seq<int>, byColumn: map<int, seq<Key>>,
                      col: map<Key, int>, rows: map<Key, real>, maxRow: real)
    returns (rows': map<Key, real>, maxRow': real, moved: bool)
    requires ByColumn(col, byColumn) && Spaced(col, rows) && Bounds(rows, maxRow)
    requires forall c :: c in columns <==> c in byColumn && c > 0
    requires forall e :: e in edges ==> e.0 in col && e.1 in col
    ensures Spaced(col, rows') && Bounds(rows', maxRow') && MovedDown(col, rows, rows')
    ensures Passed(crosses, edges, columns, col, rows, rows')
    ensures moved <==> rows' != rows
    ensures moved <==> !Clear(crosses, edges, col, rows)
  {
    rows', maxRow', moved := rows, maxRow, false;
    for i := 0 to |columns|
      invariant Spaced(col, rows') && Bounds(rows', maxRow')
      invariant PassSoFar(crosses, edges, columns[..i], col, rows, rows', moved)
    {
      TakeNext(columns, i);
      ghost var before, sofar := rows', moved;
      var changed;
      rows', maxRow', changed := PassColumn(crosses, edges, columns[i], byColumn[columns[i]], col, rows', maxRow');
      PassNext(crosses, edges, columns[..i], columns[i], col, rows, before, rows', sofar);
      moved := moved || changed;
    }
    TakeAll(columns);
    if !moved {
      AllClear(crosses, edges, columns, byColumn, col, rows);
    }
  }

  ghost predicate SomeLower(rows: map<Key, real>, rows': map<Key, real>) {
    exists k :: k in rows && k in rows' && rows'[k] > rows[k]
  }

  /** Where a pass stands after some of its columns. */
  ghost predicate PassSoFar(crosses: Crossing, edges: seq<(Key, Key)>, columns: seq<int>, col: map<Key, int>,
                            rows: map<Key, real>, rows': map<Key, real>, moved: bool)
    requires rows.Keys == rows'.Keys == col.Keys && forall e :: e in edges ==> e.0 in col && e.1 in col
  {
    && MovedDown(col, rows, rows') && Passed(crosses, edges, columns, col, rows, rows')
    && (if moved then SomeLower(rows, rows') && !Clear(crosses, edges, col, rows)
        else rows' == rows && forall c :: c in columns ==> ColumnClear(crosses, edges, col, rows, c))
  }

  lemma PassNext(crosses: Crossing, edges: seq<(Key, Key)>, columns: seq<int>, c: int, col: map<Key, int>,
                 rows: map<Key, real>, mid: map<Key, real>, rows': map<Key, real>, moved: bool)
    requires rows.Keys == mid.Keys == rows'.Keys == col.Keys && forall e :: e in edges ==> e.0 in col && e.1 in col
    requires PassSoFar(crosses, edges, columns, col, rows, mid, moved) && c > 0
    requires MovedDown(col, mid, rows') && PassedColumn(crosses, edges, col, mid, rows', c)
    requires rows' != mid <==> !ColumnClear(crosses, edges, col, mid, c)
    ensures PassSoFar(crosses, edges, columns + [c], col, rows, rows', moved || rows' != mid)
  {
    PassedNext(crosses, edges, columns, c, col, rows, mid, rows');
    if moved {
      LowerStays(col, rows, mid, rows');
    } else if rows' != mid {
      DifferenceIsLower(col, rows, rows');
      BlockedColumn(crosses, edges, col, rows, c);
    }
  }

  lemma LowerStays(col: map<Key, int>, rows: map<Key, real>, mid: map<Key, real>, rows': map<Key, real>)
    requires SomeLower(rows, mid) && MovedDown(col, mid, rows')
    ensures SomeLower(rows, rows')
  {
    var k :| k in rows && k in mid && mid[k] > rows[k];
    assert rows'[k] > rows[k];
  }

  lemma DifferenceIsLower(col: map<Key, int>, rows: map<Key, real>, rows': map<Key, real>)
    requires rows'.Keys == rows.Keys && rows' != rows && MovedDown(col, rows, rows')
    ensures SomeLower(rows, rows')
  {
    var k :| k in rows && rows'[k] != rows[k];
    assert rows'[k] > rows[k];
  }

  lemma BlockedColumn(crosses: Crossing, edges: seq<(Key, Key)>, col: map<Key, int>, rows: map<Key, real>, c: int)
    requires rows.Keys == col.Keys && c > 0 && forall e :: e in edges ==> e.0 in col && e.1 in col
    requires !ColumnClear(crosses, edges, col, rows, c)
    ensures !Clear(crosses, edges, col, rows)
  {
    var e, k :| e in edges && k in col && col[k] == c && Skips(col, e, c) &&
      crosses(CellOf(col, rows, e.0), CellOf(col, rows, e.1), CellOf(col, rows, k));
  }

  lemma AllClear(crosses: Crossing, edges: seq<(Key, Key)>, columns: seq<int>, byColumn: map<int, seq<Key>>,
                 col: map<Key, int>, rows: map<Key, real>)
    requires ByColumn(col, byColumn) && rows.Keys == col.Keys && forall c :: c in columns <==> c in byColumn && c > 0
    requires forall e :: e in edges ==> e.0 in col && e.1 in col
    requires forall c :: c in columns ==> ColumnClear(crosses, edges, col, rows, c)
    ensures Clear(crosses, edges, col, rows)
  {
    forall e, k | e in edges && k in col && col[k] > 0 && Skips(col, e, col[k])
      ensures !crosses(CellOf(col, rows, e.0), CellOf(col, rows, e.1), CellOf(col, rows, k))
    {
      assert col[k] in columns && ColumnClear(crosses, edges, col, rows, col[k]);
    }
  }

  ghost predicate ColumnClear(crosses: Crossing, edges: seq<(Key, Key)>, col: map<Key, int>, rows: map<Key, real>,
                              c: int)
    requires rows.Keys == col.Keys && forall e :: e in edges ==> e.0 in col && e.1 in col
  {
    forall e, k :: e in edges && k in col && col[k] == c && Skips(col, e, c) ==>
      !crosses(CellOf(col, rows, e.0), CellOf(col, rows, e.1), CellOf(col, rows, k))
  }

  lemma NothingCrosses(crosses: Crossing, crossing: seq<(Cell, Cell)>, edges: seq<(Key, Key)>, col: map<Key, int>,
                       rows: map<Key, real>, c: int, list: seq<Key>)
    requires rows.Keys == col.Keys && forall e :: e in edges ==> e.0 in col && e.1 in col
    requires forall k :: k in list <==> k in col && col[k] == c
    requires forall e :: e in edges && Skips(col, e, c) ==> (CellOf(col, rows, e.0), CellOf(col, rows, e.1)) in crossing
    requires forall k :: k in list ==> !Obstructed(crosses, crossing, Cell(c, rows[k]))
    ensures ColumnClear(crosses, edges, col, rows, c)
  {
    forall e, k | e in edges && k in col && col[k] == c && Skips(col, e, c)
      ensures !crosses(CellOf(col, rows, e.0), CellOf(col, rows, e.1), CellOf(col, rows, k)) {
      var i :| 0 <= i < |crossing| && crossing[i] == (CellOf(col, rows, e.0), CellOf(col, rows, e.1));
      assert k in list && !Obstructed(crosses, crossing, Cell(c, rows[k]));
    }
  }

  const MAX_PASSES := 3

  /** A pass that starts because an edge crosses a box, and moves something. */
  ghost predicate Moves(crosses: Crossing, edges: seq<(Key, Key)>, columns: seq<int>, col: map<Key, int>,
                        rows: map<Key, real>, rows': map<Key, real>)
    requires forall e :: e in edges ==> e.0 in col && e.1 in col
  {
    && rows.Keys == col.Keys && !Clear(crosses, edges, col, rows) && rows' != rows
    && Passed(crosses, edges, columns, col, rows, rows')
  }

  /** The rows before the passes and after each of them. */
  ghost predicate Stages(crosses: Crossing, edges: seq<(Key, Key)>, columns: seq<int>, col: map<Key, int>,
                         stages: seq<map<Key, real>>)
    requires forall e :: e in edges ==> e.0 in col && e.1 in col
  {
    && 0 < |stages| <= MAX_PASSES + 1
    && forall i, j :: 0 <= i && j == i + 1 && j < |stages| ==>
         Moves(crosses, edges, columns, col, stages[i], stages[j])
  }

  lemma StagesNext(crosses: Crossing, edges: seq<(Key, Key)>, columns: seq<int>, col: map<Key, int>,
                   stages: seq<map<Key, real>>, rows: map<Key, real>)
    requires forall e :: e in edges ==> e.0 in col && e.1 in col
    requires Stages(crosses, edges, columns, col, stages) && |stages| <= MAX_PASSES
    requires Moves(crosses, edges, columns, col, stages[|stages| - 1], rows)
    ensures Stages(crosses, edges, columns, col, stages + [rows])
  {
  }

  /** At most three passes. A pass that moves nothing ends them and certifies the drawing clear; without one, three
      passes have each moved something. */
  method CrossingPasses(crosses: Crossing, edges: seq<(Key, Key)>, columns: seq<int>, byColumn: map<int, seq<Key>>,
                        col: map<Key, int>, rows: map<Key, real>, maxRow: real)
    returns (rows': map<Key, real>, maxRow': real, quiet: bool, ghost stages: seq<map<Key, real>>)
    requires ByColumn(col, byColumn) && Spaced(col, rows) && Bounds(rows, maxRow)
    requires forall c :: c in columns <==> c in byColumn && c > 0
    requires forall e :: e in edges ==> e.0 in col && e.1 in col
    ensures Spaced(col, rows') && Bounds(rows', maxRow') && MovedDown(col, rows, rows')
    ensures Stages(crosses, edges, columns, col, stages) && stages[0] == rows && stages[|stages| - 1] == rows'
    ensures quiet ==> |stages| <= MAX_PASSES && Clear(crosses, edges, col, rows')
    ensures !quiet ==> |stages| == MAX_PASSES + 1
  {
    rows', maxRow', quiet, stages := rows, maxRow, false, [rows];
    var pass := 0;
    while pass < MAX_PASSES && !quiet
      invariant Spaced(col, rows') && Bounds(rows', maxRow') && MovedDown(col, rows, rows')
      invariant Settling(crosses, edges, columns, col, stages, rows, rows', quiet, pass)
      decreases MAX_PASSES - pass
    {
      ghost var before := rows';
      var moved;
      rows', maxRow', moved := CrossingPass(crosses, edges, columns, byColumn, col, rows', maxRow');
      stages := SettleNext(crosses, edges, columns, col, stages, rows, before, rows', pass);
      MovedFurther(col, rows, before, rows');
      quiet := !moved;
      pass := pass + 1;
    }
  }

  lemma MovedFurther(col: map<Key, int>, rows: map<Key, real>, mid: map<Key, real>, rows': map<Key, real>)
    requires MovedDown(col, rows, mid) && MovedDown(col, mid, rows')
    ensures MovedDown(col, rows, rows')
  {
  }

  /** Where the passes stand after `pass` of them. */
  ghost predicate Settling(crosses: Crossing, edges: seq<(Key, Key)>, columns: seq<int>, col: map<Key, int>,
                           stages: seq<map<Key, real>>, rows: map<Key, real>, rows': map<Key, real>, quiet: bool,
                           pass: nat)
    requires forall e :: e in edges ==> e.0 in col && e.1 in col
  {
    && Stages(crosses, edges, columns, col, stages) && stages[0] == rows && stages[|stages| - 1] == rows'
    && (if quiet then |stages| == pass <= MAX_PASSES && Clear(crosses, edges, col, rows')
        else |stages| == pass + 1 <= MAX_PASSES + 1)
  }

  lemma SettleNext(crosses: Crossing, edges: seq<(Key, Key)>, columns: seq<int>, col: map<Key, int>,
                   stages: seq<map<Key, real>>, rows: map<Key, real>, mid: map<Key, real>, rows': map<Key, real>,
                   pass: nat)
    returns (more: seq<map<Key, real>>)
    requires mid.Keys == rows'.Keys == col.Keys && forall e :: e in edges ==> e.0 in col && e.1 in col
    requires Settling(crosses, edges, columns, col, stages, rows, mid, false, pass) && pass < MAX_PASSES
    requires Passed(crosses, edges, columns, col, mid, rows') && (rows' != mid <==> !Clear(crosses, edges, col, mid))
    ensures Settling(crosses, edges, columns, col, more, rows, rows', rows' == mid, pass + 1)
  {
    if rows' == mid {
      more := stages;
    } else {
      StagesNext(crosses, edges, columns, col, stages, rows');
      more := stages + [rows'];
    }
  }

  // ---- The first rows ----

  /** The vertices of every column, and the columns in the order they were first met. */
  method GroupByColumn(keys: seq<Key>, col: map<Key, int>) returns (byColumn: map<int, seq<Key>>, met: seq<int>)
    requires NoDup(keys) && forall k :: k in keys <==> k in col
    ensures ByColumn(col, byColumn) && NoDup(met) && forall c :: c in met <==> c in byColumn
  {
    byColumn, met := map[], [];
    for i := 0 to |keys|
      invariant forall c :: c in byColumn ==> NoDup(byColumn[c])
      invariant forall c, k :: c in byColumn ==> (k in byColumn[c] <==> k in keys[..i] && col[k] == c)
      invariant forall k :: k in keys[..i] ==> col[k] in byColumn
      invariant NoDup(met) && forall c :: c in met <==> c in byColumn
    {
      TakeNext(keys, i);
      var k := keys[i];
      var c := col[k];
      assert k !in keys[..i];
      if c !in byColumn {
        NoDupAppend(met, c);
        byColumn, met := byColumn[c := []], met + [c];
      }
      NoDupAppend(byColumn[c], k);
      byColumn := byColumn[c := byColumn[c] + [k]];
    }
    TakeAll(keys);
  }

  /** The row that counts for a node: its position among the groups, or 0 when it is not drawn. */
  function NodeRow(groups: seq<NodeGroup>, id: int): nat {
    if PositionOf(groups, id) < |groups| then PositionOf(groups, id) else 0
  }

  function RowSum(ids: seq<int>, groups: seq<NodeGroup>): nat {
    if ids == [] then 0 else RowSum(ids[..|ids| - 1], groups) + NodeRow(groups, ids[|ids| - 1])
  }

  /** The mean row of the nodes that traverse a vertex. */
  function Barycenter(ids: seq<int>, groups: seq<NodeGroup>): (mean: real)
    ensures mean >= 0.0
  {
    RowSum(ids, groups) as real / (if ids == [] then 1 else |ids|) as real
  }

  lemma OneMore(n: nat, x: nat)
    requires n > 0
    ensures n * x == (n - 1) * x + x
  {
  }

  lemma {:induction false} RowSumBetween(ids: seq<int>, groups: seq<NodeGroup>, low: nat, high: nat)
    requires forall i :: 0 <= i < |ids| ==> low <= NodeRow(groups, ids[i]) <= high
    ensures |ids| * low <= RowSum(ids, groups) <= |ids| * high
  {
    if ids != [] {
      RowSumBetween(ids[..|ids| - 1], groups, low, high);
      OneMore(|ids|, low);
      OneMore(|ids|, high);
    }
  }

  /** The mean row of a vertex lies between the rows of the nodes that traverse it. */
  lemma MeanBetween(ids: seq<int>, groups: seq<NodeGroup>, low: nat, high: nat)
    requires ids != [] && forall i :: 0 <= i < |ids| ==> low <= NodeRow(groups, ids[i]) <= high
    ensures low as real <= Barycenter(ids, groups) <= high as real
  {
    RowSumBetween(ids, groups, low, high);
    Quotient(RowSum(ids, groups), |ids|, low, high);
  }

  lemma Quotient(sum: nat, n: nat, low: nat, high: nat)
    requires n > 0 && n * low <= sum <= n * high
    ensures low as real <= sum as real / n as real <= high as real
  {
    assert (n * low) as real == n as real * low as real && (n * high) as real == n as real * high as real;
  }

  /** Vertices with the same nodes, in whatever order, have the same mean, and one more node moves it by its share:
      the mean times the number of nodes is the sum of their rows. */
  lemma MeanGrows(ids: seq<int>, id: int, groups: seq<NodeGroup>)
    ensures Barycenter([id], groups) == NodeRow(groups, id) as real
    ensures var total := Barycenter(ids, groups) * |ids| as real;
      Barycenter(ids + [id], groups) * (|ids| + 1) as real == total + NodeRow(groups, id) as real
  {
    assert (ids + [id])[..|ids|] == ids;
    assert [id][..0] == [] && RowSum([id], groups) == RowSum([], groups) + NodeRow(groups, id);
  }

  /** A drawn node counts by its position, and one that is not drawn counts as row 0. */
  lemma NodeRowIs(groups: seq<NodeGroup>, id: int, i: nat)
    requires i <= |groups| && forall j :: 0 <= j < i ==> groups[j].nodeId != id
    ensures i < |groups| && groups[i].nodeId == id ==> NodeRow(groups, id) == i
    ensures i == |groups| ==> NodeRow(groups, id) == 0
  {
    assert i < |groups| && groups[i].nodeId == id ==> PositionOf(groups, id) <= i;
  }

  /** Where every vertex would like to sit: a node at its own row, an AS at the mean of its nodes. */
  function Wish(k: Key, nodeIds: map<Key, seq<int>>, groups: seq<NodeGroup>): real {
    match k
    case NodeKey(id) => NodeRow(groups, id) as real
    case AsKey(_) => Barycenter(if k in nodeIds then nodeIds[k] else [], groups)
  }

  /** Nodes keep input order in column 0; every other column is sorted by wish and packed. */
  ghost predicate FirstRows(byColumn: map<int, seq<Key>>, wish: map<Key, real>, rows: map<Key, real>, c: int)
    requires c in byColumn
  {
    if c == 0 then forall k :: k in byColumn[c] ==> k in rows && k in wish && rows[k] == wish[k]
    else exists order :: SameMembers(byColumn[c], order) && Sorted(wish, order) && Packed(order, wish, rows)
  }

  /** The boxes of column c, sorted by wish, are packed. */
  ghost predicate ColumnPacked(col: map<Key, int>, wish: map<Key, real>, rows: map<Key, real>, c: int) {
    exists order :: NoDup(order) && (forall k :: k in order <==> k in col && col[k] == c) && Sorted(wish, order) &&
      Packed(order, wish, rows)
  }

  /** The rows before any crossing pass. */
  ghost predicate FirstRowsOf(col: map<Key, int>, wish: map<Key, real>, rows: map<Key, real>) {
    && rows.Keys == col.Keys
    && (forall k :: k in col && col[k] == 0 ==> k in wish && rows[k] == wish[k])
    && (forall k :: k in col && col[k] != 0 ==> ColumnPacked(col, wish, rows, col[k]))
  }

  lemma FirstRowsGiven(byColumn: map<int, seq<Key>>, col: map<Key, int>, wish: map<Key, real>, rows: map<Key, real>)
    requires ByColumn(col, byColumn) && rows.Keys == col.Keys
    requires forall c :: c in byColumn ==> FirstRows(byColumn, wish, rows, c)
    ensures FirstRowsOf(col, wish, rows)
  {
    forall k | k in col && col[k] != 0 ensures ColumnPacked(col, wish, rows, col[k]) {
      ColumnGiven(byColumn, col, wish, rows, col[k]);
    }
    forall k | k in col && col[k] == 0 ensures k in wish && rows[k] == wish[k] {
      assert FirstRows(byColumn, wish, rows, 0) && k in byColumn[0];
    }
  }

  lemma ColumnGiven(byColumn: map<int, seq<Key>>, col: map<Key, int>, wish: map<Key, real>, rows: map<Key, real>,
                    c: int)
    requires ByColumn(col, byColumn) && c in byColumn && c != 0 && FirstRows(byColumn, wish, rows, c)
    ensures ColumnPacked(col, wish, rows, c)
  {
    var order :| SameMembers(byColumn[c], order) && Sorted(wish, order) && Packed(order, wish, rows);
    forall k ensures k in order <==> k in col && col[k] == c {
      assert k in byColumn[c] <==> k in order;
    }
  }

  /** Different ASes are never tied, so a column can be sorted in one way only. */
  lemma {:induction false} OneOrder(rank: map<Key, real>, a: seq<Key>, b: seq<Key>)
    requires SameMembers(a, b) && Sorted(rank, a) && Sorted(rank, b) && forall k :: k in a ==> k.AsKey?
    ensures a == b
  {
    BothEmpty(a, b);
    if a != [] {
      var x, y := a[|a| - 1], b[|b| - 1];
      assert x in a && x in b && y in b && y in a;
      assert Before(rank, x, y) && Before(rank, y, x);
      assert a == a[..|a| - 1] + [x] && b == b[..|b| - 1] + [x];
      FrontsMatch(a, b);
      OneOrder(rank, a[..|a| - 1], b[..|b| - 1]);
    }
  }

  lemma BothEmpty(a: seq<Key>, b: seq<Key>)
    requires SameMembers(a, b)
    ensures a == [] <==> b == []
  {
    if a != [] {
      assert a[0] in b;
    }
    if b != [] {
      assert b[0] in a;
    }
  }

  lemma FrontsMatch(a: seq<Key>, b: seq<Key>)
    requires SameMembers(a, b) && a != [] && b != [] && a[|a| - 1] == b[|b| - 1]
    ensures SameMembers(a[..|a| - 1], b[..|b| - 1])
  {
    FrontMembers(a);
    FrontMembers(b);
    var x, y := a[..|a| - 1], b[..|b| - 1];
    forall k | k in x ensures k in y {
      assert k in a && k in b;
    }
    forall k | k in y ensures k in x {
      assert k in b && k in a;
    }
  }

  lemma FrontMembers(a: seq<Key>)
    requires NoDup(a) && a != []
    ensures NoDup(a[..|a| - 1]) && forall k :: k in a[..|a| - 1] <==> k in a && k != a[|a| - 1]
  {
    assert a == a[..|a| - 1] + [a[|a| - 1]];
  }

  lemma {:induction false} PackedOnce(list: seq<Key>, wish: map<Key, real>, rows: map<Key, real>,
                                      other: map<Key, real>)
    requires Packed(list, wish, rows) && Packed(list, wish, other)
    ensures forall k :: k in list ==> k in rows && k in other && rows[k] == other[k]
  {
    if list != [] {
      var front, last := list[..|list| - 1], list[|list| - 1];
      assert list == front + [last];
      PackedOnce(front, wish, rows, other);
      assert front != [] ==> front[|front| - 1] in front;
    }
  }

  /** The first rows are determined by the columns and the wishes. */
  lemma FirstRowsOnce(col: map<Key, int>, wish: map<Key, real>, rows: map<Key, real>, other: map<Key, real>)
    requires FirstRowsOf(col, wish, rows) && FirstRowsOf(col, wish, other)
    requires forall k :: k in col && col[k] != 0 ==> k.AsKey?
    ensures rows == other
  {
    forall k | k in col ensures rows[k] == other[k] {
      if col[k] != 0 {
        SameColumn(col, wish, rows, other, k);
      }
    }
  }

  lemma SameColumn(col: map<Key, int>, wish: map<Key, real>, rows: map<Key, real>, other: map<Key, real>, k: Key)
    requires k in col && ColumnPacked(col, wish, rows, col[k]) && ColumnPacked(col, wish, other, col[k])
    requires k in rows && k in other && col[k] != 0 && forall x :: x in col && col[x] != 0 ==> x.AsKey?
    ensures rows[k] == other[k]
  {
    var c := col[k];
    var a :| NoDup(a) && (forall x :: x in a <==> x in col && col[x] == c) && Sorted(wish, a) && Packed(a, wish, rows);
    var b :| NoDup(b) && (forall x :: x in b <==> x in col && col[x] == c) && Sorted(wish, b) && Packed(b, wish, other);
    OneOrder(wish, a, b);
    PackedOnce(a, wish, rows, other);
    assert k in a;
  }

  /** Nodes of column 0 have distinct whole rows to sit in. */
  ghost predicate NodeColumn(col: map<Key, int>, wish: map<Key, real>) {
    && (forall k :: k in col ==> k in wish && wish[k] >= 0.0)
    && (forall a, b :: a in col && b in col && a != b && col[a] == 0 && col[b] == 0 ==>
          wish[a] + 1.0 <= wish[b] || wish[b] + 1.0 <= wish[a])
  }

  /** The rows given out so far, in the columns that are not pending. */
  ghost predicate SpacedPart(col: map<Key, int>, rows: map<Key, real>, pending: set<int>) {
    && (forall k :: k in rows <==> k in col && col[k] !in pending)
    && (forall k :: k in rows ==> rows[k] >= 0.0)
    && (forall a, b :: a in rows && b in rows && a != b && col[a] == col[b] ==>
          rows[a] + 1.0 <= rows[b] || rows[b] + 1.0 <= rows[a])
  }

  /** Giving one whole column its rows. */
  ghost predicate ColumnAdded(list: seq<Key>, rows: map<Key, real>, rows': map<Key, real>) {
    && (forall k :: k in rows' <==> k in rows || k in list)
    && (forall k :: k in rows && k !in list ==> rows'[k] == rows[k])
  }

  lemma AddColumn(col: map<Key, int>, wish: map<Key, real>, rows: map<Key, real>, rows': map<Key, real>,
                  pending: set<int>, c: int, list: seq<Key>, order: seq<Key>)
    requires SpacedPart(col, rows, pending) && c in pending && ColumnAdded(list, rows, rows')
    requires forall k :: k in list <==> k in col && col[k] == c
    requires (forall k :: k in list ==> k in order) && Stacked(order, rows')
    ensures SpacedPart(col, rows', pending - {c})
  {
    StackedApart(order, rows');
    forall a, b | a in rows' && b in rows' && a != b && col[a] == col[b]
      ensures rows'[a] + 1.0 <= rows'[b] || rows'[b] + 1.0 <= rows'[a]
    {
      if a in list {
        var i :| 0 <= i < |order| && order[i] == a;
        var j :| 0 <= j < |order| && order[j] == b;
      }
    }
  }

  method PlaceNodes(list: seq<Key>, wish: map<Key, real>, rows: map<Key, real>, maxRow: real)
    returns (rows': map<Key, real>, maxRow': real)
    requires NoDup(list) && forall k :: k in list ==> k in wish && k !in rows
    requires Bounds(rows, maxRow)
    ensures ColumnAdded(list, rows, rows') && Bounds(rows', maxRow') && forall k :: k in list ==> rows'[k] == wish[k]
  {
    rows', maxRow' := rows, maxRow;
    for i := 0 to |list|
      invariant ColumnAdded(list[..i], rows, rows') && Bounds(rows', maxRow')
      invariant forall j :: 0 <= j < i ==> rows'[list[j]] == wish[list[j]]
    {
      TakeNext(list, i);
      BoundsNext(rows', maxRow', list[i], wish[list[i]]);
      rows' := rows'[list[i] := wish[list[i]]];
      maxRow' := Max(maxRow', wish[list[i]]);
    }
    TakeAll(list);
  }

  method AssignColumn(c: int, list: seq<Key>, ghost col: map<Key, int>, wish: map<Key, real>, ghost pending: set<int>,
                      rows: map<Key, real>, maxRow: real)
    returns (rows': map<Key, real>, maxRow': real)
    requires NodeColumn(col, wish) && SpacedPart(col, rows, pending) && Bounds(rows, maxRow) && c in pending
    requires NoDup(list) && forall k :: k in list <==> k in col && col[k] == c
    ensures SpacedPart(col, rows', pending - {c}) && Bounds(rows', maxRow') && ColumnAdded(list, rows, rows')
    ensures FirstRows(map[c := list], wish, rows', c)
  {
    if c == 0 {
      rows', maxRow' := PlaceNodes(list, wish, rows, maxRow);
    } else {
      var sorted := SortByRank(wish, list);
      rows', maxRow' := PackColumn(sorted, wish, rows, maxRow);
      PackedIsStacked(sorted, wish, rows');
      AddColumn(col, wish, rows, rows', pending, c, list, sorted);
    }
  }

  /** Rows of a column do not change when another column is given its rows. */
  lemma FirstRowsStay(byColumn: map<int, seq<Key>>, col: map<Key, int>, wish: map<Key, real>, rows: map<Key, real>,
                      rows': map<Key, real>, done: int, c: int)
    requires ByColumn(col, byColumn) && done in byColumn && c in byColumn && done != c
    requires FirstRows(byColumn, wish, rows, done) && ColumnAdded(byColumn[c], rows, rows')
    ensures FirstRows(byColumn, wish, rows', done)
  {
    assert forall k :: k in byColumn[done] ==> k !in byColumn[c];
    if done != 0 {
      var order :| SameMembers(byColumn[done], order) && Sorted(wish, order) && Packed(order, wish, rows);
      PackedIsStacked(order, wish, rows);
      PackedAgree(order, wish, rows, rows');
    }
  }

  lemma {:induction false} PackedAgree(list: seq<Key>, wish: map<Key, real>, rows: map<Key, real>,
                                       rows': map<Key, real>)
    requires Packed(list, wish, rows) && forall k :: k in list ==> k in rows && k in rows' && rows'[k] == rows[k]
    ensures Packed(list, wish, rows')
  {
    if list == [] {
    } else {
      var front := list[..|list| - 1];
      assert list == front + [list[|list| - 1]];
      PackedAgree(front, wish, rows, rows');
      assert front != [] ==> front[|front| - 1] in front;
    }
  }

  lemma ColumnMembers(col: map<Key, int>, byColumn: map<int, seq<Key>>, c: int)
    requires ByColumn(col, byColumn) && c in byColumn
    ensures NoDup(byColumn[c]) && forall k :: k in byColumn[c] <==> k in col && col[k] == c
  {
  }

  method AssignRows(met: seq<int>, byColumn: map<int, seq<Key>>, ghost col: map<Key, int>, wish: map<Key, real>)
    returns (rows: map<Key, real>, maxRow: real)
    requires ByColumn(col, byColumn) && NodeColumn(col, wish)
    requires NoDup(met) && forall c :: c in met <==> c in byColumn
    ensures Spaced(col, rows) && Bounds(rows, maxRow)
    ensures forall c :: c in byColumn ==> FirstRows(byColumn, wish, rows, c)
  {
    rows, maxRow := map[], 0.0;
    ghost var pending := byColumn.Keys;
    for i := 0 to |met|
      invariant forall c :: c in pending <==> c in byColumn && c !in met[..i]
      invariant SpacedPart(col, rows, pending) && Bounds(rows, maxRow)
      invariant forall c :: c in byColumn && c !in pending ==> FirstRows(byColumn, wish, rows, c)
    {
      TakeNext(met, i);
      var c := met[i];
      assert c !in met[..i];
      ghost var before := rows;
      ColumnMembers(col, byColumn, c);
      rows, maxRow := AssignColumn(c, byColumn[c], col, wish, pending, rows, maxRow);
      forall d | d in byColumn && d !in pending ensures FirstRows(byColumn, wish, rows, d) {
        FirstRowsStay(byColumn, col, wish, before, rows, d, c);
      }
      assert FirstRows(byColumn, wish, rows, c) by {
        assert map[c := byColumn[c]][c] == byColumn[c];
      }
      pending := pending - {c};
    }
    TakeAll(met);
    assert rows.Keys == col.Keys;
  }

  /** Every box sits at its wish or below it, and the boxes of column 0 exactly there. */
  ghost predicate Seated(col: map<Key, int>, wish: map<Key, real>, rows: map<Key, real>) {
    forall k :: k in col ==> k in wish && k in rows && rows[k] >= wish[k] && (col[k] == 0 ==> rows[k] == wish[k])
  }

  lemma FirstRowsSeat(byColumn: map<int, seq<Key>>, col: map<Key, int>, wish: map<Key, real>, rows: map<Key, real>)
    requires ByColumn(col, byColumn) && forall c :: c in byColumn ==> FirstRows(byColumn, wish, rows, c)
    ensures Seated(col, wish, rows)
  {
    forall k | k in col ensures k in wish && k in rows && rows[k] >= wish[k] && (col[k] == 0 ==> rows[k] == wish[k]) {
      FirstRowSeats(byColumn, col, wish, rows, k);
    }
  }

  lemma FirstRowSeats(byColumn: map<int, seq<Key>>, col: map<Key, int>, wish: map<Key, real>, rows: map<Key, real>,
                      k: Key)
    requires ByColumn(col, byColumn) && k in col && col[k] in byColumn && FirstRows(byColumn, wish, rows, col[k])
    ensures k in wish && k in rows && rows[k] >= wish[k] && (col[k] == 0 ==> rows[k] == wish[k])
  {
    if col[k] != 0 {
      var order :| SameMembers(byColumn[col[k]], order) && Sorted(wish, order) && Packed(order, wish, rows);
      PackedIsStacked(order, wish, rows);
      assert k in order;
    }
  }

  lemma SeatedStays(col: map<Key, int>, wish: map<Key, real>, rows: map<Key, real>, rows': map<Key, real>)
    requires Seated(col, wish, rows) && MovedDown(col, rows, rows')
    ensures Seated(col, wish, rows')
  {
  }
}
