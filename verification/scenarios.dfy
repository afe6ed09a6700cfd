/** Concrete drops on small boards, worked through the model. */
module Scenarios {
  import opened Geometry
  import opened Layout
  import opened Drop

  /** A row of two tiles in a 200 x 100 rectangle: two points a tenth of a
      cell or less from the middle boundary join the row, while a point in the
      middle of the first cell does not. */
  lemma ShouldEnterNearBoundaryExample(a: Item, b: Item)
    ensures var row := DropLayout(Horizontal, [a, b]);
            var r := Rect(Point(0.0, 0.0), Size(200.0, 100.0));
            ShouldEnter(r, Point(98.0, 50.0), row)
            && ShouldEnter(r, Point(102.0, 50.0), row)
            && !ShouldEnter(r, Point(50.0, 50.0), row)
  {
    var row := DropLayout(Horizontal, [a, b]);
    var r := Rect(Point(0.0, 0.0), Size(200.0, 100.0));
    assert CellSize(row, r) == 100.0;
    assert FractionalIndex(row, r, Point(98.0, 50.0)) == 0.98;
    assert Round(0.98) == 1;
    assert FractionalIndex(row, r, Point(102.0, 50.0)) == 1.02;
    assert Round(1.02) == 1;
    assert FractionalIndex(row, r, Point(50.0, 50.0)) == 0.5;
    assert Round(0.5) == 1;
  }

  /** A point within the outer border band of the container always joins. */
  lemma ShouldEnterAtBorderExample(a: Item, b: Item)
    ensures var row := DropLayout(Horizontal, [a, b]);
            ShouldEnter(Rect(Point(0.0, 0.0), Size(200.0, 100.0)), Point(50.0, 10.0), row)
  {
  }

  /** In a 300 x 200 rectangle a point in the top fifth prefers a column and a
      point in the middle band prefers a row. */
  lemma PreferredDirectionExample()
    ensures var r := Rect(Point(0.0, 0.0), Size(300.0, 200.0));
            GetPreferredDirection(r, Point(150.0, 20.0)) == Vertical
            && GetPreferredDirection(r, Point(150.0, 100.0)) == Horizontal
  {
  }
}
