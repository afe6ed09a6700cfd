/** Where the new tile goes when it is placed beside an existing one.
    `insertItem` and `add` put the dropped tile after its neighbour when the
    point lies past half the rectangle's SIZE along the compared axis,
    measured from the coordinate origin rather than from the rectangle's own
    start on that axis (HalfSize). The two agree exactly when the rectangle
    starts at 0 along the compared axis, as the root board does; otherwise
    some points are sent to the wrong side. The evident intent is the
    rectangle's midpoint (Midpoint). */
module SidePlacement {
  import opened Geometry
  import opened Layout
  import opened Drop
  import opened Removal
  import opened Insertion

  /** Where the rectangle starts along the axis of `d`. */
  function AxisStart(d: Direction, r: Rect): real
  {
    if d == Vertical then r.origin.y else r.origin.x
  }

  /** The two rules agree at every point exactly when the rectangle starts
      at 0 along the compared axis. */
  lemma SideRulesAgreeAtAxisZero(r: Rect, d: Direction)
    ensures (forall p: Point :: GoesSecond(HalfSize, r, p, d) <==> GoesSecond(Midpoint, r, p, d))
            <==> AxisStart(d, r) == 0.0
  {
    if AxisStart(d, r) != 0.0 {
      var c := AxisLength(d, r) / 2.0 + AxisStart(d, r) / 2.0;
      var q := if d == Vertical then Point(0.0, c) else Point(c, 0.0);
      assert GoesSecond(HalfSize, r, q, d) != GoesSecond(Midpoint, r, q, d);
    }
  }

  /** The corrected rule: for a point of the rectangle, the new tile goes
      first exactly when the point lies in the first half of the rectangle
      along `d` (the centre line counting as the first half). */
  lemma MidpointPicksNearerHalf(r: Rect, p: Point, d: Direction)
    requires Contains(r, p)
    ensures !GoesSecond(Midpoint, r, p, d) <==>
              Contains(Strip(d, 2, 0, r), p) || AxisOffset(d, r, p) == AxisLength(d, r) / 2.0
    ensures GoesSecond(Midpoint, r, p, d) ==> Contains(Strip(d, 2, 1, r), p)
  {
  }

  /** The rule as written: in the right-hand cell (160, 0, 160, 320) of the
      320 x 320 board, a point at x = 200 lies in the cell's left half, yet
      the new tile is put on the right. */
  lemma HalfSizeMisplacesTile()
    ensures var r := Rect(Point(160.0, 0.0), Size(160.0, 320.0));
            var p := Point(200.0, 160.0);
            Contains(Strip(Horizontal, 2, 0, r), p)
            && GoesSecond(HalfSize, r, p, Horizontal)
            && !GoesSecond(Midpoint, r, p, Horizontal)
  {
  }

  /** The same defect through a whole drop: a new tile C dropped at
      (200, 160) on the board [A | B] splits B's cell. As written, C lands to
      the right of B although the point is in B's left half; with the
      corrected rule it lands to the left. */
  lemma DropBesideExample()
    ensures var a := Item(1, Content(0), false);
            var b := Item(2, Content(1), false);
            var c := Item(3, Content(2), false);
            var board := DropLayout(Horizontal, [a, b]);
            var frame := Rect(Point(0.0, 0.0), Size(320.0, 320.0));
            var p := Point(200.0, 160.0);
            UpdateLayout(HalfSize, c, p, board, frame, 9)
              == DropLayout(Horizontal, [a, Item(9, Container(DropLayout(Horizontal, [b, c])), false)])
            && UpdateLayout(Midpoint, c, p, board, frame, 9)
              == DropLayout(Horizontal, [a, Item(9, Container(DropLayout(Horizontal, [c, b])), false)])
  {
    var a := Item(1, Content(0), false);
    var b := Item(2, Content(1), false);
    var c := Item(3, Content(2), false);
    var p := Point(200.0, 160.0);
    var cell := Rect(Point(160.0, 0.0), Size(160.0, 320.0));
    BoardSplit(HalfSize, a, b, c);
    BoardSplit(Midpoint, a, b, c);
    assert PlaceBeside(HalfSize, cell, p, Horizontal, b, c) == [b, c];
    assert PlaceBeside(Midpoint, cell, p, Horizontal, b, c) == [c, b];
  }

  /** Under either rule the drop of C at (200, 160) on [A | B] splits B's
      cell side by side. */
  lemma BoardSplit(rule: SideRule, a: Item, b: Item, c: Item)
    requires a.itemType.Content? && b.itemType.Content? && a.id != c.id && b.id != c.id
    ensures var p := Point(200.0, 160.0);
            var cell := Rect(Point(160.0, 0.0), Size(160.0, 320.0));
            UpdateLayout(rule, c, p, DropLayout(Horizontal, [a, b]), Rect(Point(0.0, 0.0), Size(320.0, 320.0)), 9)
              == DropLayout(Horizontal, [a, Item(9, Container(DropLayout(Horizontal, PlaceBeside(rule, cell, p, Horizontal, b, c))), false)])
  {
    var board := DropLayout(Horizontal, [a, b]);
    var frame := Rect(Point(0.0, 0.0), Size(320.0, 320.0));
    var p := Point(200.0, 160.0);
    var cell := Rect(Point(160.0, 0.0), Size(160.0, 320.0));
    BoardKeepsShape(a, b, c);
    BoardHit(a, b, p, frame, cell);
    var split := Item(9, Container(DropLayout(Horizontal, PlaceBeside(rule, cell, p, Horizontal, b, c))), false);
    assert InsertItem(rule, c, p, board, frame, 9) == DropLayout(Horizontal, board.items[1 := split]);
    assert board.items[1 := split] == [a, split];
  }

  /** Removing a tile that is not on the board [A | B] leaves it unchanged. */
  lemma BoardKeepsShape(a: Item, b: Item, c: Item)
    requires a.itemType.Content? && b.itemType.Content? && a.id != c.id && b.id != c.id
    ensures Remove(DropLayout(Horizontal, [a, b]), c.id, 9) == DropLayout(Horizontal, [a, b])
  {
    assert [a, b][1..] == [b];
    assert RemoveItems([b], c.id, 9) == [b];
    assert RemoveItems([a, b], c.id, 9) == [a, b];
  }

  /** At (200, 160) on the 320 x 320 board [A | B] the drop splits B's cell
      side by side. */
  lemma BoardHit(a: Item, b: Item, p: Point, frame: Rect, cell: Rect)
    requires p == Point(200.0, 160.0) && frame == Rect(Point(0.0, 0.0), Size(320.0, 320.0))
    requires cell == Rect(Point(160.0, 0.0), Size(160.0, 320.0))
    ensures var board := DropLayout(Horizontal, [a, b]);
            !ShouldEnter(frame, p, board)
            && FindItem(p, board, frame) == Hit(b, 1, cell)
            && GetPreferredDirection(cell, p) == Horizontal
  {
    var board := DropLayout(Horizontal, [a, b]);
    BoardFractionalIndex(a, b, p, frame);
    assert Round(1.25) == 1;
    assert Floor(1.25) == 1;
    assert FindItem(p, board, frame).index == 1;
  }

  /** (200, 160) lies a cell and a quarter along the 320 x 320 board [A | B]. */
  lemma BoardFractionalIndex(a: Item, b: Item, p: Point, frame: Rect)
    requires p == Point(200.0, 160.0) && frame == Rect(Point(0.0, 0.0), Size(320.0, 320.0))
    ensures var board := DropLayout(Horizontal, [a, b]);
            CellSize(board, frame) == 160.0
            && AxisOffset(Horizontal, frame, p) / CellSize(board, frame) == 1.25
            && FractionalIndex(board, frame, p) == 1.25
  {
  }

}
