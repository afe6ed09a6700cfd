/** The drop algorithm of DragAndDropView: where a dragged tile lands when it
    is released at a point of the container. `UpdateLayout` removes the tile
    from wherever it was and, when the point lies inside the container,
    inserts it again: either as a sibling at the current level (`Add`) or,
    after descending one level (`FindItem`), by splitting the leaf under the
    point or recursing into the container under it. */
module Drop {
  import opened Geometry
  import opened Layout
  import opened Removal

  /** shouldEnter's default border inset, in points. */
  const BorderInset: real := 16.0

  /** How close, in cells, the point must be to a cell boundary for the drop
      to join the current level instead of descending. */
  const BoundaryTolerance: real := 0.1

  /** getPreferredDirection cuts this fraction of the height from the top and
      from the bottom of the rectangle; the band left over prefers Horizontal. */
  const BandInset: real := 0.2

  /** Which side of an existing tile (or of the wrapped layout) a new tile goes.
      HalfSize is the source's test, which compares the point with half the
      rectangle's size; Midpoint compares it with the rectangle's centre. The
      two agree for rectangles at the origin. */
  datatype SideRule = HalfSize | Midpoint

  /** findItem's result: the child under the point, its index and its cell. */
  datatype Hit = Hit(item: Item, index: nat, rect: Rect)

  // ---------------------------------------------------------------------------
  // Decision predicates and helpers
  // ---------------------------------------------------------------------------

  /** `getPreferredDirection`: Horizontal inside the rectangle shrunk by 20% of
      its height at the top and at the bottom, Vertical elsewhere. */
  function GetPreferredDirection(r: Rect, p: Point): (d: Direction)
    ensures d == Horizontal <==>
              r.origin.x <= p.x < r.MaxX()
              && r.origin.y + r.size.height / 5.0 <= p.y < r.MaxY() - r.size.height / 5.0
  {
    if ContainsInset(r, 0.0, r.size.height * BandInset, p) then Horizontal else Vertical
  }

  /** The container's length along the layout's axis (`rectAxis`). */
  function AxisLength(d: Direction, r: Rect): NonNeg
  {
    if d == Vertical then r.size.height else r.size.width
  }

  /** The point's offset from the container's origin along the axis (`pointAxis`). */
  function AxisOffset(d: Direction, r: Rect, p: Point): real
  {
    if d == Vertical then p.y - r.origin.y else p.x - r.origin.x
  }

  /** A point of the container lies within its length along either axis. */
  lemma AxisOffsetInRange(d: Direction, r: Rect, p: Point)
    requires Contains(r, p)
    ensures 0.0 <= AxisOffset(d, r, p) < AxisLength(d, r)
  {
  }

  /** `cellSize`: the length of one cell along the axis. */
  function CellSize(l: DropLayout, r: Rect): real
    requires |l.items| > 0
  {
    AxisLength(l.direction, r) / |l.items| as real
  }

  /** `closestIndex`: the point's offset along the axis counted in cells. With
      no items the source divides by a cell size of +infinity, giving 0. */
  function FractionalIndex(l: DropLayout, r: Rect, p: Point): real
    requires |l.items| > 0 ==> AxisLength(l.direction, r) > 0.0
  {
    if |l.items| == 0 then 0.0 else AxisOffset(l.direction, r, p) / CellSize(l, r)
  }

  /** `findIndexForInsertion`: the cell boundary nearest to the point, as an
      insertion slot. `Int(x.rounded())` is Round, since the rounded value is
      already whole. */
  function FindIndexForInsertion(l: DropLayout, p: Point, container: Rect): (k: int)
    requires Contains(container, p)
    ensures 0 <= k <= |l.items|
    ensures |l.items| == 0 ==> k == 0
    ensures var t := FractionalIndex(l, container, p);
            k as real - 0.5 <= t < k as real + 0.5
  {
    if |l.items| > 0 then
      FractionalIndexInRange(l, p, container);
      Round(FractionalIndex(l, container, p))
    else
      Round(FractionalIndex(l, container, p))
  }

  /** For a point of the container the fractional index lies in [0, n) and
      counts the offset in cells of a positive size. */
  lemma FractionalIndexInRange(l: DropLayout, p: Point, container: Rect)
    requires Contains(container, p) && |l.items| > 0
    ensures 0.0 <= FractionalIndex(l, container, p) < |l.items| as real
    ensures CellSize(l, container) > 0.0
    ensures FractionalIndex(l, container, p) * CellSize(l, container) == AxisOffset(l.direction, container, p)
  {
    AxisOffsetInRange(l.direction, container, p);
    OffsetInCells(AxisOffset(l.direction, container, p), AxisLength(l.direction, container), |l.items|);
    PartOfLength(AxisLength(l.direction, container), |l.items|);
    QuotientTimes(AxisOffset(l.direction, container, p), CellSize(l, container));
  }

  /** No other slot is nearer to the point, counted in cells, than the one
      FindIndexForInsertion picks. */
  lemma FindIndexForInsertionIsNearest(l: DropLayout, p: Point, container: Rect, j: int)
    requires Contains(container, p)
    ensures var t := FractionalIndex(l, container, p);
            Abs(FindIndexForInsertion(l, p, container) as real - t) <= Abs(j as real - t)
  {
    RoundIsNearest(FractionalIndex(l, container, p), j);
  }

  /** In units: the point lies within half a cell of the slot's boundary. */
  lemma FindIndexForInsertionHalfCell(l: DropLayout, p: Point, container: Rect)
    requires Contains(container, p) && |l.items| > 0
    ensures var c := CellSize(l, container);
            var k := FindIndexForInsertion(l, p, container) as real;
            k * c - c / 2.0 <= AxisOffset(l.direction, container, p)
            && AxisOffset(l.direction, container, p) < k * c + c / 2.0
  {
    FractionalIndexInRange(l, p, container);
    var off := AxisOffset(l.direction, container, p);
    var c := CellSize(l, container);
    var t := FractionalIndex(l, container, p);
    var k := FindIndexForInsertion(l, p, container) as real;
    HalfCellBelow(off, c, t, k);
    HalfCellAbove(off, c, t, k);
  }

  /** The point lies within BoundaryTolerance cells of boundary j of the layout. */
  predicate NearBoundary(l: DropLayout, container: Rect, p: Point, j: int)
    requires |l.items| > 0 ==> AxisLength(l.direction, container) > 0.0
  {
    0 <= j <= |l.items| && Abs(FractionalIndex(l, container, p) - j as real) < BoundaryTolerance
  }

  /** `shouldEnter`: join the current level when the point is outside the
      container shrunk by BorderInset on every side, or when it lies within a
      tenth of a cell of the nearest cell boundary; otherwise descend. */
  predicate ShouldEnter(container: Rect, p: Point, l: DropLayout)
    ensures ShouldEnter(container, p, l) <==>
              !ContainsInset(container, BorderInset, BorderInset, p)
              || exists j :: NearBoundary(l, container, p, j)
  {
    !ContainsInset(container, BorderInset, BorderInset, p)
    || var t := FractionalIndex(l, container, p);
       ShouldEnterNearAnyBoundary(container, p, l);
       Abs(Round(t) as real - t) < BoundaryTolerance
  }

  /** Some cell boundary is within the tolerance exactly when the nearest one is. */
  lemma ShouldEnterNearAnyBoundary(container: Rect, p: Point, l: DropLayout)
    requires ContainsInset(container, BorderInset, BorderInset, p)
    ensures Contains(container, p)
    ensures var t := FractionalIndex(l, container, p);
            Abs(Round(t) as real - t) < BoundaryTolerance <==> exists j :: NearBoundary(l, container, p, j)
  {
    var t := FractionalIndex(l, container, p);
    var k := FindIndexForInsertion(l, p, container);
    if Abs(Round(t) as real - t) < BoundaryTolerance {
      assert NearBoundary(l, container, p, k);
    }
    if j :| NearBoundary(l, container, p, j) {
      FindIndexForInsertionIsNearest(l, p, container, j);
    }
  }

  /** `findItem`: the child whose cell contains the point. Horizontal layouts
      round the cell index down, vertical ones truncate it; the two agree here
      because the offset is never negative. */
  function FindItem(p: Point, l: DropLayout, containerRect: Rect): (h: Hit)
    requires Contains(containerRect, p) && |l.items| > 0
    ensures h.index < |l.items| && h.item == l.items[h.index]
    ensures h.rect == Strip(l.direction, |l.items|, h.index, containerRect)
    ensures Contains(h.rect, p)
  {
    var n := |l.items|;
    var o := containerRect.origin;
    CellUnderPoint(p, l, containerRect);
    match l.direction
    case Horizontal =>
      var sectionWidth := containerRect.size.width / n as real;
      var index := Floor((p.x - o.x) / sectionWidth);
      Hit(l.items[index], index,
          Rect(Point(o.x + index as real * sectionWidth, o.y), Size(sectionWidth, containerRect.size.height)))
    case Vertical =>
      var sectionHeight := containerRect.size.height / n as real;
      TruncIsFloorWhenNonNegative((p.y - o.y) / sectionHeight);
      var index := Trunc((p.y - o.y) / sectionHeight);
      Hit(l.items[index], index,
          Rect(Point(o.x, o.y + index as real * sectionHeight), Size(containerRect.size.width, sectionHeight)))
  }

  /** The cell whose index is the offset rounded down, counted in cells, is a
      cell of the layout and contains the point. */
  lemma CellUnderPoint(p: Point, l: DropLayout, r: Rect)
    requires Contains(r, p) && |l.items| > 0
    ensures var k := Floor(AxisOffset(l.direction, r, p) / CellSize(l, r));
            0 <= k < |l.items| && Contains(Strip(l.direction, |l.items|, k, r), p)
            && 0.0 <= AxisOffset(l.direction, r, p) / CellSize(l, r)
  {
    AxisOffsetInRange(l.direction, r, p);
    CellOfOffset(AxisOffset(l.direction, r, p), AxisLength(l.direction, r), |l.items|);
  }

  /** The cells of a layout partition its container: the cell FindItem returns
      is the only one that contains the point. */
  lemma FindItemCellIsUnique(p: Point, l: DropLayout, containerRect: Rect, j: int)
    requires Contains(containerRect, p) && |l.items| > 0
    requires 0 <= j < |l.items|
    ensures Contains(Strip(l.direction, |l.items|, j, containerRect), p) <==> j == FindItem(p, l, containerRect).index
  {
    var h := FindItem(p, l, containerRect);
    var n := |l.items|;
    if Contains(Strip(l.direction, n, j, containerRect), p) {
      StripsAreDisjoint(l, p, containerRect, j, h.index);
    }
  }

  /** `position(for:for:)` and `findItem` agree: the point where the item at
      index i is drawn lies in the cell of item i, in a frame of positive
      size at the origin. */
  lemma PositionFindsItsCell(l: DropLayout, i: int, size: Size)
    requires 0 <= i < |l.items| && size.width > 0.0 && size.height > 0.0
    ensures var frame := Rect(Point(0.0, 0.0), size);
            var p := Position(l, i, size);
            Contains(frame, p) && FindItem(p, l, frame).index == i
  {
    var frame := Rect(Point(0.0, 0.0), size);
    var p := Position(l, i, size);
    CentreOfStrip(l.direction, |l.items|, i, frame);
    FindItemCellIsUnique(p, l, frame, i);
  }

  /** The centre of a strip of a rectangle with positive sides lies in the
      strip and in the rectangle. */
  lemma CentreOfStrip(d: Direction, n: nat, i: int, r: Rect)
    requires 0 <= i < n && r.size.width > 0.0 && r.size.height > 0.0
    ensures var c := Centre(Strip(d, n, i, r));
            Contains(Strip(d, n, i, r), c) && Contains(r, c)
  {
    var len := AxisLength(d, r);
    var cell := len / n as real;
    CellCentreInside(len, n, i);
    PartOfLength(len, n);
    var s := Strip(d, n, i, r);
    if d == Horizontal {
      assert s.origin.x == r.origin.x + i as real * cell && s.size.width == cell;
    } else {
      assert s.origin.y == r.origin.y + i as real * cell && s.size.height == cell;
    }
  }

  /** No point lies in two different strips of a layout. */
  lemma StripsAreDisjoint(l: DropLayout, p: Point, r: Rect, j: int, k: int)
    requires |l.items| > 0
    requires Contains(Strip(l.direction, |l.items|, j, r), p)
    requires Contains(Strip(l.direction, |l.items|, k, r), p)
    ensures j == k
  {
    StripHoldsOffset(l, p, r, j);
    StripHoldsOffset(l, p, r, k);
    CellsAreDisjoint(l, p, r, j, k);
  }

  /** No offset lies in two different cells of a layout. */
  lemma CellsAreDisjoint(l: DropLayout, p: Point, r: Rect, j: int, k: int)
    requires |l.items| > 0 && CellSize(l, r) > 0.0
    requires j as real * CellSize(l, r) <= AxisOffset(l.direction, r, p) < j as real * CellSize(l, r) + CellSize(l, r)
    requires k as real * CellSize(l, r) <= AxisOffset(l.direction, r, p) < k as real * CellSize(l, r) + CellSize(l, r)
    ensures j == k
  {
    CellIsUnique(AxisOffset(l.direction, r, p), CellSize(l, r), j, k);
  }

  /** A point in the j-th strip lies between j and j + 1 cells along the axis. */
  lemma StripHoldsOffset(l: DropLayout, p: Point, r: Rect, j: int)
    requires |l.items| > 0
    ensures Contains(Strip(l.direction, |l.items|, j, r), p) ==>
              CellSize(l, r) > 0.0
              && j as real * CellSize(l, r) <= AxisOffset(l.direction, r, p) < j as real * CellSize(l, r) + CellSize(l, r)
  {
  }

  /** Whether the new item goes second (after the existing tile or layout)
      when the two are placed side by side along `d` inside `r`. */
  predicate GoesSecond(rule: SideRule, r: Rect, p: Point, d: Direction)
  {
    match rule
    case HalfSize =>
      if d == Vertical then r.size.height / 2.0 < p.y else r.size.width / 2.0 < p.x
    case Midpoint =>
      if d == Vertical then r.origin.y + r.size.height / 2.0 < p.y
      else r.origin.x + r.size.width / 2.0 < p.x
  }

  /** The two-item sequence `other` and `item`, ordered by GoesSecond. */
  function PlaceBeside(rule: SideRule, r: Rect, p: Point, d: Direction, other: Item, item: Item): (s: seq<Item>)
    ensures |s| == 2 && multiset(s) == multiset{other, item}
    ensures s[1] == item <==> (GoesSecond(rule, r, p, d) || other == item)
  {
    if GoesSecond(rule, r, p, d) then [other, item] else [item, other]
  }
}
