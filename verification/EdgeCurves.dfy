/** The connectors of the network map: cubic curves between boxes, and the sampled test for the boxes they cross. */
module EdgeCurves {
  import opened Options
  import opened Graphs
  import opened GraphBuilding
  import opened MergedGraph
  import opened Layout
  import opened NetworkMap

  /** Clearance kept between a skipping edge and a box it passes. */
  const EDGE_CLEARANCE := 6.0

  /** The test looks at this many steps along a curve. */
  const STEPS: nat := 64

  function Abs(x: real): real {
    if x < 0.0 then -x else x
  }

  /** The size of a box along the paths, and across them. */
  function MainExtent(geo: Geometry, vertical: bool): real {
    if vertical then geo.boxH else geo.boxW
  }

  function CrossExtent(geo: Geometry, vertical: bool): real {
    if vertical then geo.boxW else geo.boxH
  }

  function Bezier(a: real, b: real, c: real, d: real, t: real): real {
    var u := 1.0 - t;
    u * u * u * a + 3.0 * u * u * t * b + 3.0 * u * t * t * c + t * t * t * d
  }

  function Bow(span: real): real {
    Max(span * 0.4, 12.0)
  }

  /** Where a connector leaves its first box, along the paths, and the middle of a box across them. */
  function Exit(geo: Geometry, vertical: bool, col: int): real {
    Along(geo, vertical, col) + MainExtent(geo, vertical)
  }

  function Centre(geo: Geometry, vertical: bool, row: real): real {
    Across(geo, vertical, row) + CrossExtent(geo, vertical) / 2.0
  }

  function Span(geo: Geometry, vertical: bool, from: Cell, to: Cell): real {
    Along(geo, vertical, to.col) - Exit(geo, vertical, from.col)
  }

  /** The point of the connector at t, along the paths and across them. */
  function MainAt(geo: Geometry, vertical: bool, from: Cell, to: Cell, t: real): real {
    var start, end, bow := Exit(geo, vertical, from.col), Along(geo, vertical, to.col),
                           Bow(Span(geo, vertical, from, to));
    Bezier(start, start + bow, end - bow, end, t)
  }

  function CrossAt(geo: Geometry, vertical: bool, from: Cell, to: Cell, t: real): real {
    var start, end := Centre(geo, vertical, from.row), Centre(geo, vertical, to.row);
    Bezier(start, start, end, end, t)
  }

  /** The point at t lies beside the box: within its length along the paths. */
  predicate Beside(geo: Geometry, vertical: bool, from: Cell, to: Cell, box: Cell, t: real) {
    Along(geo, vertical, box.col) <= MainAt(geo, vertical, from, to, t) <= Exit(geo, vertical, box.col)
  }

  /** How far the point at t is from the middle of the box, across the paths. */
  function Off(geo: Geometry, vertical: bool, from: Cell, to: Cell, box: Cell, t: real): real {
    Abs(CrossAt(geo, vertical, from, to, t) - Centre(geo, vertical, box.row))
  }

  /** The parameter of a sample. */
  function At(i: int): real {
    i as real / STEPS as real
  }

  predicate Hits(geo: Geometry, vertical: bool, from: Cell, to: Cell, box: Cell, i: nat) {
    && Beside(geo, vertical, from, to, box, At(i))
    && Off(geo, vertical, from, to, box, At(i)) < CrossExtent(geo, vertical) / 2.0 + EDGE_CLEARANCE
  }

  /** Whether a sample of the connector comes too close to the box; edges within a row are left out. */
  predicate Crosses(geo: Geometry, vertical: bool, from: Cell, to: Cell, box: Cell) {
    from.row != to.row && exists i: nat :: i <= STEPS && Hits(geo, vertical, from, to, box, i)
  }

  method EdgeCrossesBox(geo: Geometry, vertical: bool, from: Cell, to: Cell, box: Cell) returns (crosses: bool)
    ensures crosses <==> Crosses(geo, vertical, from, to, box)
  {
    if from.row == to.row {
      return false;
    }
    var m1, m2 := Exit(geo, vertical, from.col), Along(geo, vertical, to.col);
    var c1, c2 := Centre(geo, vertical, from.row), Centre(geo, vertical, to.row);
    var d := Max((m2 - m1) * 0.4, 12.0);
    var boxStart, boxEnd := Along(geo, vertical, box.col), Exit(geo, vertical, box.col);
    var half, centre := CrossExtent(geo, vertical) / 2.0 + EDGE_CLEARANCE, Centre(geo, vertical, box.row);
    for i := 0 to STEPS + 1
      invariant forall k: nat :: k < i ==> !Hits(geo, vertical, from, to, box, k)
    {
      var m := Bezier(m1, m1 + d, m2 - d, m2, At(i));
      if boxStart <= m <= boxEnd {
        var c := Bezier(c1, c1, c2, c2, At(i));
        if Abs(c - centre) < half {
          assert Hits(geo, vertical, from, to, box, i);
          return true;
        }
      }
    }
    return false;
  }

  // ---- The curves ----

  /** The share of its way across that a connector has gone at t, and of its way along. */
  function Rise(t: real): real {
    3.0 * t * t - 2.0 * t * t * t
  }

  function Run(t: real): real {
    1.2 * t - 0.6 * t * t + 0.4 * t * t * t
  }

  lemma Powers(t: real)
    ensures var u := 1.0 - t;
      u * u == 1.0 - 2.0 * t + t * t && u * u * u == 1.0 - 3.0 * t + 3.0 * (t * t) - t * t * t
    ensures var u := 1.0 - t;
      u * u * t == t - 2.0 * (t * t) + t * t * t && u * t * t == t * t - t * t * t
  {
  }

  lemma CrossIs(a: real, drop: real, t: real)
    ensures Bezier(a, a, a + drop, a + drop, t) == a + Rise(t) * drop
  {
    Powers(t);
  }

  lemma MainIs(a: real, span: real, t: real)
    ensures var bow := span * 0.4; Bezier(a, a + bow, a + span - bow, a + span, t) == a + Run(t) * span
  {
    Powers(t);
  }

  lemma Steeper(a: real, b: real, m: real)
    requires a <= b && 0.0 <= m
    ensures m * a <= m * b
  {
  }

  lemma Part(x: real, y: real)
    requires 0.0 <= x && 0.0 <= y <= 1.0
    ensures 0.0 <= x * y <= x
  {
  }

  lemma Products(s: real, t: real)
    requires 0.0 <= s <= 1.0 && 0.0 <= t <= 1.0
    ensures 0.0 <= s * s + s * t + t * t <= 1.5 * (s + t)
  {
    Part(s, s);
    Part(t, t);
    Part(s, t);
    Part(t, s);
    var a, b, c := s * s, s * t, t * t;
    assert a <= s && b <= s && c <= t;
    assert t * s == b;
  }

  lemma Climbs(x: real, d: real, slope: real, most: real)
    requires x == d * slope && 0.0 <= d && 0.0 <= slope <= most
    ensures 0.0 <= x <= most * d
  {
    Steeper(0.0, slope, d);
    Steeper(slope, most, d);
  }

  /** The mean slopes of the two shapes between s and t. */
  function RiseSlope(s: real, t: real): real {
    3.0 * (s + t) - 2.0 * (s * s + s * t + t * t)
  }

  function RunSlope(s: real, t: real): real {
    1.2 - 0.6 * (s + t) + 0.4 * (s * s + s * t + t * t)
  }

  lemma SlopesBounded(s: real, t: real)
    requires 0.0 <= s <= 1.0 && 0.0 <= t <= 1.0
    ensures 0.0 <= RiseSlope(s, t) <= 1.5 && 0.0 <= RunSlope(s, t) <= 1.2
  {
    Products(s, t);
    var e, f := 1.0 - s - t, s - t;
    assert e * e >= 0.0 && f * f >= 0.0;
    assert 1.5 - RiseSlope(s, t) == 1.5 * (e * e) + 0.5 * (f * f);
  }

  lemma RiseDelta(s: real, d: real)
    ensures Rise(s + d) - Rise(s) == d * RiseSlope(s, s + d)
  {
  }

  lemma RunDelta(s: real, d: real)
    ensures Run(s + d) - Run(s) == d * RunSlope(s, s + d)
  {
  }

  lemma RiseStep(s: real, d: real)
    requires 0.0 <= s && 0.0 <= d && s + d <= 1.0
    ensures 0.0 <= Rise(s + d) - Rise(s) <= 1.5 * d
  {
    SlopesBounded(s, s + d);
    RiseDelta(s, d);
    Climbs(Rise(s + d) - Rise(s), d, RiseSlope(s, s + d), 1.5);
  }

  lemma RunStep(s: real, d: real)
    requires 0.0 <= s && 0.0 <= d && s + d <= 1.0
    ensures 0.0 <= Run(s + d) - Run(s) <= 1.2 * d
  {
    SlopesBounded(s, s + d);
    RunDelta(s, d);
    Climbs(Run(s + d) - Run(s), d, RunSlope(s, s + d), 1.2);
  }

  /** Never back. */
  ghost predicate Rising(f: real -> real) {
    forall s, t :: 0.0 <= s <= t <= 1.0 ==> f(s) <= f(t)
  }

  /** At most the stride from one sample to the next, and between them. */
  ghost predicate Strides(f: real -> real, stride: real) {
    forall s, t :: 0.0 <= s <= t <= 1.0 && t - s <= At(1) ==> Abs(f(t) - f(s)) <= stride
  }

  /** Neither shape turns back; across, a connector is at most one and a half times as fast as on average, and along the
      paths 1.2 times. */
  lemma ShapesStride()
    ensures Rising(Rise) && Strides(Rise, 1.5 * At(1)) && Rising(Run) && Strides(Run, 1.2 * At(1))
  {
    forall s, t | 0.0 <= s <= t <= 1.0
      ensures 0.0 <= Rise(t) - Rise(s) <= 1.5 * (t - s) && 0.0 <= Run(t) - Run(s) <= 1.2 * (t - s)
    {
      RiseStep(s, t - s);
      RunStep(s, t - s);
      assert s + (t - s) == t;
    }
  }

  // ---- What an edge that crosses no box keeps clear of ----

  /** The connector bends freely, and no step along it jumps a box. */
  ghost predicate WellSampled(geo: Geometry, vertical: bool, from: Cell, to: Cell) {
    && 30.0 <= Span(geo, vertical, from, to)
    && 1.2 * Span(geo, vertical, from, to) <= STEPS as real * MainExtent(geo, vertical)
  }

  /** Every edge that skips a column is, in both layouts and both directions. */
  lemma SkippingIsWellSampled(geo: Geometry, vertical: bool, from: Cell, to: Cell)
    requires geo == WIDE || geo == COMPACT
    requires 0 <= from.col && from.col + 2 <= to.col <= MAX_COLS
    ensures WellSampled(geo, vertical, from, to)
  {
  }

  lemma MainCurve(geo: Geometry, vertical: bool, from: Cell, to: Cell, t: real)
    requires Span(geo, vertical, from, to) >= 30.0
    ensures MainAt(geo, vertical, from, to, t) ==
      Exit(geo, vertical, from.col) + Run(t) * Span(geo, vertical, from, to)
  {
    var start, span := Exit(geo, vertical, from.col), Span(geo, vertical, from, to);
    assert Along(geo, vertical, to.col) == start + span && Bow(span) == span * 0.4;
    MainIs(start, span, t);
  }

  lemma CrossCurve(geo: Geometry, vertical: bool, from: Cell, to: Cell, t: real, drop: real)
    requires Centre(geo, vertical, to.row) == Centre(geo, vertical, from.row) + drop
    ensures CrossAt(geo, vertical, from, to, t) == Centre(geo, vertical, from.row) + Rise(t) * drop
  {
    CrossIs(Centre(geo, vertical, from.row), drop, t);
  }

  /** A curve of the shape, stretched. */
  ghost predicate IsStretched(f: real -> real, shape: real -> real, base: real, m: real) {
    forall t :: 0.0 <= t <= 1.0 ==> f(t) == base + shape(t) * m
  }

  lemma StretchedMove(move: real, m: real, stride: real, most: real)
    requires Abs(move) <= stride && most == stride * Abs(m)
    ensures Abs(move * m) <= most
  {
    Steeper(Abs(move), stride, Abs(m));
    assert Abs(move * m) == Abs(m) * Abs(move);
  }

  lemma MoveIs(x: real, y: real, base: real, m: real, p: real, q: real, move: real)
    requires p == base + x * m && q == base + y * m && move == y - x
    ensures q - p == move * m
  {
  }

  lemma StretchedRises(x: real, y: real, base: real, m: real, p: real, q: real)
    requires p == base + x * m && q == base + y * m && x <= y && 0.0 <= m
    ensures p <= q
  {
    MoveIs(x, y, base, m, p, q, y - x);
    Steeper(0.0, y - x, m);
  }

  lemma StretchedAt(f: real -> real, shape: real -> real, base: real, m: real, stride: real, most: real, s: real,
                    t: real)
    requires IsStretched(f, shape, base, m) && most == stride * Abs(m) && 0.0 <= s <= 1.0 && 0.0 <= t <= 1.0
    ensures shape(s) <= shape(t) && 0.0 <= m ==> f(s) <= f(t)
    ensures Abs(shape(t) - shape(s)) <= stride ==> Abs(f(t) - f(s)) <= most
  {
    if shape(s) <= shape(t) && 0.0 <= m {
      StretchedRises(shape(s), shape(t), base, m, f(s), f(t));
    }
    if Abs(shape(t) - shape(s)) <= stride {
      MoveIs(shape(s), shape(t), base, m, f(s), f(t), shape(t) - shape(s));
      StretchedMove(shape(t) - shape(s), m, stride, most);
    }
  }

  lemma StretchedCurve(f: real -> real, shape: real -> real, base: real, m: real, stride: real, most: real)
    requires IsStretched(f, shape, base, m) && Strides(shape, stride) && most == stride * Abs(m)
    ensures Strides(f, most)
    ensures 0.0 <= m && Rising(shape) ==> Rising(f)
  {
    forall s, t | 0.0 <= s <= t <= 1.0
      ensures t - s <= At(1) ==> Abs(f(t) - f(s)) <= most
      ensures 0.0 <= m && Rising(shape) ==> f(s) <= f(t)
    {
      StretchedAt(f, shape, base, m, stride, most, s, t);
    }
  }

  lemma MainIsStretched(geo: Geometry, vertical: bool, from: Cell, to: Cell)
    requires Span(geo, vertical, from, to) >= 30.0
    ensures IsStretched(t => MainAt(geo, vertical, from, to, t), Run, Exit(geo, vertical, from.col),
      Span(geo, vertical, from, to))
  {
    forall t | 0.0 <= t <= 1.0
      ensures MainAt(geo, vertical, from, to, t) ==
        Exit(geo, vertical, from.col) + Run(t) * Span(geo, vertical, from, to)
    {
      MainCurve(geo, vertical, from, to, t);
    }
  }

  lemma MainStrides(geo: Geometry, vertical: bool, from: Cell, to: Cell)
    requires Span(geo, vertical, from, to) >= 30.0
    ensures Rising(t => MainAt(geo, vertical, from, to, t))
    ensures Strides(t => MainAt(geo, vertical, from, to, t), 1.2 * At(1) * Span(geo, vertical, from, to))
  {
    ShapesStride();
    MainIsStretched(geo, vertical, from, to);
    StretchedCurve(t => MainAt(geo, vertical, from, to, t), Run, Exit(geo, vertical, from.col),
      Span(geo, vertical, from, to), 1.2 * At(1), 1.2 * At(1) * Span(geo, vertical, from, to));
  }

  lemma CrossIsStretched(geo: Geometry, vertical: bool, from: Cell, to: Cell, drop: real)
    requires Centre(geo, vertical, to.row) == Centre(geo, vertical, from.row) + drop
    ensures IsStretched(t => CrossAt(geo, vertical, from, to, t), Rise, Centre(geo, vertical, from.row), drop)
  {
    forall t | 0.0 <= t <= 1.0
      ensures CrossAt(geo, vertical, from, to, t) == Centre(geo, vertical, from.row) + Rise(t) * drop
    {
      CrossCurve(geo, vertical, from, to, t, drop);
    }
  }

  lemma CrossStrides(geo: Geometry, vertical: bool, from: Cell, to: Cell, drop: real)
    requires Centre(geo, vertical, to.row) == Centre(geo, vertical, from.row) + drop
    ensures Strides(t => CrossAt(geo, vertical, from, to, t), 1.5 * At(1) * Abs(drop))
  {
    ShapesStride();
    CrossIsStretched(geo, vertical, from, to, drop);
    StretchedCurve(t => CrossAt(geo, vertical, from, to, t), Rise, Centre(geo, vertical, from.row), drop,
      1.5 * At(1), 1.5 * At(1) * Abs(drop));
  }

  /** The step t falls into. */
  lemma StepOf(t: real) returns (i: nat)
    requires 0.0 <= t <= 1.0
    ensures i < STEPS && At(i) <= t <= At(i + 1)
  {
    i := if t == 1.0 then STEPS - 1 else (t * STEPS as real).Floor;
  }

  /** A curve that enters in strides no longer than the stretch: where it is inside, a sample next to it is too. */
  lemma SampleInside(f: real -> real, stride: real, low: real, high: real, t: real) returns (i: nat)
    requires Rising(f) && Strides(f, stride) && stride <= high - low && 0.0 <= t <= 1.0 && low <= f(t) <= high
    ensures i <= STEPS && Abs(t - At(i)) <= At(1) && low <= f(At(i)) <= high
  {
    i := StepOf(t);
    assert f(At(i)) <= f(t) <= f(At(i + 1));
    assert Abs(f(At(i + 1)) - f(At(i))) <= stride;
    if f(At(i)) < low {
      i := i + 1;
    }
  }

  /** A curve whose samples inside keep away from a line keeps away from it at every point inside, but for a stride. */
  lemma CurveKeepsOff(main: real -> real, cross: real -> real, stride: real, sway: real, low: real, high: real,
                      line: real, half: real, t: real)
    requires Rising(main) && Strides(main, stride) && stride <= high - low && Strides(cross, sway)
    requires forall i: nat :: i <= STEPS && low <= main(At(i)) <= high ==> Abs(cross(At(i)) - line) >= half
    requires 0.0 <= t <= 1.0 && low <= main(t) <= high
    ensures Abs(cross(t) - line) >= half - sway
  {
    var i := SampleInside(main, stride, low, high, t);
    var s := At(i);
    assert if s <= t then Abs(cross(t) - cross(s)) <= sway else Abs(cross(s) - cross(t)) <= sway;
  }

  lemma SamplesKeepOff(geo: Geometry, vertical: bool, from: Cell, to: Cell, box: Cell)
    requires from.row != to.row && !Crosses(geo, vertical, from, to, box)
    ensures forall i: nat :: i <= STEPS && Beside(geo, vertical, from, to, box, At(i)) ==>
      Off(geo, vertical, from, to, box, At(i)) >= CrossExtent(geo, vertical) / 2.0 + EDGE_CLEARANCE
  {
    forall i: nat | i <= STEPS && Beside(geo, vertical, from, to, box, At(i))
      ensures Off(geo, vertical, from, to, box, At(i)) >= CrossExtent(geo, vertical) / 2.0 + EDGE_CLEARANCE
    {
      assert !Hits(geo, vertical, from, to, box, i);
    }
  }

  /** A connector that crosses no box by its samples keeps its distance at every point: beside the box it stays off it
      by the clearance, less what it can move across between two samples. */
  lemma KeepsOff(geo: Geometry, vertical: bool, from: Cell, to: Cell, box: Cell, t: real, drop: real)
    requires WellSampled(geo, vertical, from, to) && from.row != to.row && !Crosses(geo, vertical, from, to, box)
    requires 0.0 <= t <= 1.0 && Beside(geo, vertical, from, to, box, t)
    requires Centre(geo, vertical, to.row) == Centre(geo, vertical, from.row) + drop
    ensures Off(geo, vertical, from, to, box, t) >=
      CrossExtent(geo, vertical) / 2.0 + EDGE_CLEARANCE - 1.5 * At(1) * Abs(drop)
  {
    SamplesKeepOff(geo, vertical, from, to, box);
    MainStrides(geo, vertical, from, to);
    CrossStrides(geo, vertical, from, to, drop);
    CurveKeepsOff(t => MainAt(geo, vertical, from, to, t), t => CrossAt(geo, vertical, from, to, t),
      1.2 * At(1) * Span(geo, vertical, from, to), 1.5 * At(1) * Abs(drop),
      Along(geo, vertical, box.col), Exit(geo, vertical, box.col), Centre(geo, vertical, box.row),
      CrossExtent(geo, vertical) / 2.0 + EDGE_CLEARANCE, t);
  }

  // ---- In pixels ----

  /** The point of the drawn connector at t. */
  function PointAt(geo: Geometry, vertical: bool, from: Cell, to: Cell, t: real): (real, real) {
    var m, c := MainAt(geo, vertical, from, to, t), CrossAt(geo, vertical, from, to, t);
    if vertical then (c, m) else (m, c)
  }

  /** A connector leaves its first box in the middle of the far side and enters its second in the middle of the near
      one. */
  lemma ConnectorEnds(geo: Geometry, vertical: bool, from: Cell, to: Cell)
    ensures var a, b := BoxAt(geo, vertical, from), BoxAt(geo, vertical, to);
      && PointAt(geo, vertical, from, to, 0.0) ==
           (if vertical then (a.left + a.width / 2.0, a.top + a.height) else (a.left + a.width, a.top + a.height / 2.0))
      && PointAt(geo, vertical, from, to, 1.0) ==
           (if vertical then (b.left + b.width / 2.0, b.top) else (b.left, b.top + b.height / 2.0))
  {
  }

  /** Beside the box, the point is at least the gap away from it. */
  ghost predicate Clears(vertical: bool, point: (real, real), box: Box, gap: real) {
    if vertical then
      box.top <= point.1 <= box.top + box.height ==>
        point.0 <= box.left - gap || box.left + box.width + gap <= point.0
    else
      box.left <= point.0 <= box.left + box.width ==>
        point.1 <= box.top - gap || box.top + box.height + gap <= point.1
  }

  lemma OffIsClear(geo: Geometry, vertical: bool, m: real, c: real, cell: Cell, gap: real)
    requires Along(geo, vertical, cell.col) <= m <= Exit(geo, vertical, cell.col) ==>
      Abs(c - Centre(geo, vertical, cell.row)) >= CrossExtent(geo, vertical) / 2.0 + gap
    ensures Clears(vertical, if vertical then (c, m) else (m, c), BoxAt(geo, vertical, cell), gap)
  {
  }

  /** How far apart two boxes are across the paths. */
  function Drop(vertical: bool, a: Box, b: Box): real {
    if vertical then Abs(b.left - a.left) else Abs(b.top - a.top)
  }

  lemma DropIs(geo: Geometry, vertical: bool, a: Cell, b: Cell)
    ensures Drop(vertical, BoxAt(geo, vertical, a), BoxAt(geo, vertical, b)) ==
      Abs(Centre(geo, vertical, b.row) - Centre(geo, vertical, a.row))
  {
  }

  lemma KeepsGap(geo: Geometry, vertical: bool, from: Cell, to: Cell, cell: Cell, t: real, drop: real)
    requires WellSampled(geo, vertical, from, to) && from.row != to.row && !Crosses(geo, vertical, from, to, cell)
    requires 0.0 <= t <= 1.0 && drop == Abs(Centre(geo, vertical, to.row) - Centre(geo, vertical, from.row))
    ensures Beside(geo, vertical, from, to, cell, t) ==>
      Off(geo, vertical, from, to, cell, t) >= CrossExtent(geo, vertical) / 2.0 + (6.0 - 3.0 * drop / 128.0)
  {
    if Beside(geo, vertical, from, to, cell, t) {
      KeepsOff(geo, vertical, from, to, cell, t, Centre(geo, vertical, to.row) - Centre(geo, vertical, from.row));
    }
  }

  /** In both layouts and directions: a connector between different rows that skips a column and crosses none of its
      boxes by its samples is drawn clear of each of them, by the clearance less 3/128 of its drop. */
  lemma DrawnClear(geo: Geometry, vertical: bool, from: Cell, to: Cell, cell: Cell, t: real)
    requires (geo == WIDE || geo == COMPACT) && 0 <= from.col < cell.col < to.col <= MAX_COLS
    requires from.row != to.row && !Crosses(geo, vertical, from, to, cell) && 0.0 <= t <= 1.0
    ensures var drop := Drop(vertical, BoxAt(geo, vertical, from), BoxAt(geo, vertical, to));
      Clears(vertical, PointAt(geo, vertical, from, to, t), BoxAt(geo, vertical, cell), 6.0 - 3.0 * drop / 128.0)
  {
    var drop := Drop(vertical, BoxAt(geo, vertical, from), BoxAt(geo, vertical, to));
    SkippingIsWellSampled(geo, vertical, from, to);
    DropIs(geo, vertical, from, to);
    KeepsGap(geo, vertical, from, to, cell, t, drop);
    OffIsClear(geo, vertical, MainAt(geo, vertical, from, to, t), CrossAt(geo, vertical, from, to, t), cell,
      6.0 - 3.0 * drop / 128.0);
  }

  // ---- Boxes above or below an edge ----

  lemma Blend(a: real, d: real, share: real)
    requires 0.0 <= share <= 1.0
    ensures if d >= 0.0 then a <= a + share * d <= a + d else a + d <= a + share * d <= a
  {
    if d >= 0.0 {
      Steeper(share, 1.0, d);
      Steeper(0.0, share, d);
    } else {
      Steeper(share, 1.0, -d);
      Steeper(0.0, share, -d);
    }
  }

  lemma RiseIsShare(t: real)
    requires 0.0 <= t <= 1.0
    ensures 0.0 <= Rise(t) <= 1.0
  {
    RiseStep(0.0, t);
    RiseStep(t, 1.0 - t);
    assert 0.0 + t == t && t + (1.0 - t) == 1.0;
  }

  lemma BezierBetween(a: real, drop: real, t: real)
    requires 0.0 <= t <= 1.0
    ensures var c := Bezier(a, a, a + drop, a + drop, t);
      if drop >= 0.0 then a <= c <= a + drop else a + drop <= c <= a
  {
    RiseIsShare(t);
    Blend(a, drop, Rise(t));
    CrossIs(a, drop, t);
  }

  lemma CrossWithin(geo: Geometry, vertical: bool, from: Cell, to: Cell, t: real)
    requires 0.0 <= t <= 1.0
    ensures var a, b := Centre(geo, vertical, from.row), Centre(geo, vertical, to.row);
      a <= CrossAt(geo, vertical, from, to, t) <= b || b <= CrossAt(geo, vertical, from, to, t) <= a
  {
    BezierBetween(Centre(geo, vertical, from.row), Centre(geo, vertical, to.row) - Centre(geo, vertical, from.row), t);
  }

  /** In both layouts and directions no edge crosses a box half a row or more below both its ends, or above them. */
  lemma BeyondEnds(geo: Geometry, vertical: bool, from: Cell, to: Cell, box: Cell)
    requires geo == WIDE || geo == COMPACT
    requires
      || (from.row + 0.5 <= box.row && to.row + 0.5 <= box.row)
      || (box.row + 0.5 <= from.row && box.row + 0.5 <= to.row)
    ensures !Crosses(geo, vertical, from, to, box)
  {
    forall i: nat | i <= STEPS ensures !Hits(geo, vertical, from, to, box, i) {
      CrossWithin(geo, vertical, from, to, At(i));
    }
  }

  function CrossesIn(geo: Geometry, vertical: bool): Crossing {
    (from, to, box) => Crosses(geo, vertical, from, to, box)
  }

  /** What the half-row search finds among real edges: if the lowest end is within reach of its tries, a row that is
      clear, and either the row it started from or less than a row below that end. */
  lemma FoundRowIsClear(geo: Geometry, vertical: bool, crossing: seq<(Cell, Cell)>, c: int, start: real, row: real,
                        lowest: real)
    requires (geo == WIDE || geo == COMPACT) && FirstClear(CrossesIn(geo, vertical), crossing, c, start, row)
    requires forall i :: 0 <= i < |crossing| ==> crossing[i].0.row <= lowest && crossing[i].1.row <= lowest
    requires lowest + 0.5 <= start + (2 * MAX_NODES) as real
    ensures !Obstructed(CrossesIn(geo, vertical), crossing, Cell(c, row)) && (row == start || row < lowest + 1.0)
  {
    var n: nat :| n <= 4 * MAX_NODES && row == HalfStep(start, n)
      && (forall m: nat :: m < n ==> Obstructed(CrossesIn(geo, vertical), crossing, Cell(c, HalfStep(start, m))))
      && (n == 4 * MAX_NODES || !Obstructed(CrossesIn(geo, vertical), crossing, Cell(c, row)));
    if lowest + 0.5 <= row {
      ClearBelow(geo, vertical, crossing, c, row, lowest);
    }
    if n > 0 && lowest + 0.5 <= HalfStep(start, n - 1) {
      ClearBelow(geo, vertical, crossing, c, HalfStep(start, n - 1), lowest);
    }
  }

  lemma ClearBelow(geo: Geometry, vertical: bool, crossing: seq<(Cell, Cell)>, c: int, row: real, lowest: real)
    requires (geo == WIDE || geo == COMPACT) && lowest + 0.5 <= row
    requires forall i :: 0 <= i < |crossing| ==> crossing[i].0.row <= lowest && crossing[i].1.row <= lowest
    ensures !Obstructed(CrossesIn(geo, vertical), crossing, Cell(c, row))
  {
    forall i | 0 <= i < |crossing| ensures !Crosses(geo, vertical, crossing[i].0, crossing[i].1, Cell(c, row)) {
      BeyondEnds(geo, vertical, crossing[i].0, crossing[i].1, Cell(c, row));
    }
  }

  // ---- Edges within a row ----

  /** How close in rows a box may come to a straight edge before it blocks it. */
  function Band(geo: Geometry, vertical: bool): real
    requires geo == WIDE || geo == COMPACT
  {
    (CrossExtent(geo, vertical) / 2.0 + EDGE_CLEARANCE) / if vertical then geo.colW else geo.rowH
  }

  /** A box on the way of a straight edge blocks it exactly when the line is drawn closer to it than the clearance. */
  lemma BlocksIff(geo: Geometry, vertical: bool, row: real, cell: Cell)
    requires geo == WIDE || geo == COMPACT
    ensures var line, box := Centre(geo, vertical, row), BoxAt(geo, vertical, cell);
      Abs(cell.row - row) < Band(geo, vertical) <==>
        if vertical then box.left - 6.0 < line < box.left + box.width + 6.0
        else box.top - 6.0 < line < box.top + box.height + 6.0
  {
  }

  // ---- The drawing ----

  /** The edge from a to b passes the column of k between different rows. */
  ghost predicate Passes(d: Drawing, a: Key, b: Key, k: Key) {
    && a in d.col && b in d.col && k in d.col && d.col[a] < d.col[k] < d.col[b]
    && a in d.rows && b in d.rows && k in d.rows && d.rows[a] != d.rows[b]
    && HasEdge(d.g, a, b)
  }

  /** The connector from a to b is drawn clear of the box of k, by the clearance less 3/128 of its drop. */
  ghost predicate ConnectorClears(d: Drawing, a: Key, b: Key, k: Key, t: real)
    requires Passes(d, a, b, k)
  {
    var point := PointAt(d.geo, d.vertical, Cell(d.col[a], d.rows[a]), Cell(d.col[b], d.rows[b]), t);
    Clears(d.vertical, point, d.BoxOf(k), 6.0 - 3.0 * Drop(d.vertical, d.BoxOf(a), d.BoxOf(b)) / 128.0)
  }

  /** Every connector between different rows, at every point, against every box it passes. */
  ghost predicate AllClear(d: Drawing) {
    forall a, b, k, t :: Passes(d, a, b, k) && 0.0 <= t <= 1.0 ==> ConnectorClears(d, a, b, k, t)
  }

  /** The columns of the edge are on the map, and the box it passes is uncrossed. */
  ghost predicate Uncrossed(d: Drawing, a: Key, b: Key, k: Key)
    requires Passes(d, a, b, k)
  {
    && 0 <= d.col[a] && d.col[b] <= MAX_COLS
    && !Crosses(d.geo, d.vertical, Cell(d.col[a], d.rows[a]), Cell(d.col[b], d.rows[b]), Cell(d.col[k], d.rows[k]))
  }

  lemma QuietIsUncrossed(d: Drawing, a: Key, b: Key, k: Key)
    requires Layered(d.g, d.col) && ClearGraph(CrossesIn(d.geo, d.vertical), d.g, d.col, d.rows) && Passes(d, a, b, k)
    ensures Uncrossed(d, a, b, k)
  {
    var crosses := CrossesIn(d.geo, d.vertical);
    assert !crosses(Cell(d.col[a], d.rows[a]), Cell(d.col[b], d.rows[b]), Cell(d.col[k], d.rows[k]));
  }

  lemma UncrossedIsClear(d: Drawing, a: Key, b: Key, k: Key, t: real)
    requires (d.geo == WIDE || d.geo == COMPACT) && Passes(d, a, b, k) && Uncrossed(d, a, b, k) && 0.0 <= t <= 1.0
    ensures ConnectorClears(d, a, b, k, t)
  {
    DrawnClear(d.geo, d.vertical, Cell(d.col[a], d.rows[a]), Cell(d.col[b], d.rows[b]), Cell(d.col[k], d.rows[k]), t);
  }

  /** Passes that came to rest leave every connector clear. */
  lemma QuietIsClear(d: Drawing)
    requires (d.geo == WIDE || d.geo == COMPACT) && Layered(d.g, d.col)
    requires ClearGraph(CrossesIn(d.geo, d.vertical), d.g, d.col, d.rows)
    ensures AllClear(d)
  {
    forall a, b, k | Passes(d, a, b, k) ensures Uncrossed(d, a, b, k) {
      QuietIsUncrossed(d, a, b, k);
    }
    UncrossedAreClear(d);
  }

  lemma UncrossedAreClear(d: Drawing)
    requires (d.geo == WIDE || d.geo == COMPACT) && forall a, b, k :: Passes(d, a, b, k) ==> Uncrossed(d, a, b, k)
    ensures AllClear(d)
  {
    forall a, b, k, t | Passes(d, a, b, k) && 0.0 <= t <= 1.0 ensures ConnectorClears(d, a, b, k, t) {
      UncrossedIsClear(d, a, b, k, t);
    }
  }

  /** The network map as the page draws it, in one of its two layouts: with the sampled test, passes that came to rest
      leave every connector between different rows clear of the boxes it passes. */
  method DrawNetwork(entries: seq<Entry>, queried: Option<int>, geo: Geometry, vertical: bool)
    returns (drawing: Option<Drawing>, quiet: bool)
    requires geo == WIDE || geo == COMPACT
    ensures drawing.None? <==> RoutedIds(entries) == []
    ensures drawing.Some? ==>
      var d := drawing.value;
      && d.g == Merge(ChainsOf(Drawn(entries, queried))) && d.geo == geo && d.vertical == vertical
      && d.WellLaidOut() && (d.ReadsForward() <==> WalksAtMost(d.g, MAX_COLS))
      && (quiet ==> AllClear(d))
  {
    BothLayoutsRoomy();
    drawing, quiet := BuildNetworkGraph(entries, queried, geo, vertical, CrossesIn(geo, vertical));
    if drawing.Some? && quiet {
      QuietIsClear(drawing.value);
    }
  }
}
