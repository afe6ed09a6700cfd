/** Plane geometry used by the drop layout: points, sizes and rectangles over
    exact reals (CGFloat), Core Graphics' half-open containment and insetting,
    and the three ways the layout code turns a real into an integer. */
module Geometry {

  /** A CGFloat that is never negative: the width or height of a rectangle. */
  type NonNeg = r: real | 0.0 <= r

  datatype Option<T> = None | Some(value: T)

  datatype Point = Point(x: real, y: real)

  datatype Size = Size(width: NonNeg, height: NonNeg)

  datatype Rect = Rect(origin: Point, size: Size) {
    function MaxX(): real { origin.x + size.width }
    function MaxY(): real { origin.y + size.height }
  }

  function Abs(x: real): real { if x < 0.0 then -x else x }

  /** CGRect.contains(_:): minX <= x < maxX and minY <= y < maxY. */
  predicate Contains(r: Rect, p: Point)
  {
    r.origin.x <= p.x < r.MaxX() && r.origin.y <= p.y < r.MaxY()
  }

  /** CGRect.insetBy(dx:dy:): the rectangle shrunk by dx on the left and on the
      right and by dy at the top and at the bottom. None stands for
      CGRect.null, which is what Core Graphics returns when the result would
      have a negative width or height. */
  function InsetBy(r: Rect, dx: real, dy: real): (o: Option<Rect>)
    ensures o.Some? <==> 2.0 * dx <= r.size.width && 2.0 * dy <= r.size.height
    ensures o.Some? ==> o.value.origin == Point(r.origin.x + dx, r.origin.y + dy)
    ensures o.Some? ==> o.value.MaxX() == r.MaxX() - dx && o.value.MaxY() == r.MaxY() - dy
  {
    if r.size.width - 2.0 * dx < 0.0 || r.size.height - 2.0 * dy < 0.0 then None
    else Some(Rect(Point(r.origin.x + dx, r.origin.y + dy),
                   Size(r.size.width - 2.0 * dx, r.size.height - 2.0 * dy)))
  }

  /** `r.insetBy(dx: dx, dy: dy).contains(p)`. The null rectangle contains no
      point, which is exactly what the shrunk bounds say once they cross, so
      the answer is the same band test in every case. */
  predicate ContainsInset(r: Rect, dx: real, dy: real, p: Point)
    ensures ContainsInset(r, dx, dy, p) <==>
              r.origin.x + dx <= p.x < r.MaxX() - dx && r.origin.y + dy <= p.y < r.MaxY() - dy
  {
    match InsetBy(r, dx, dy)
    case None => false
    case Some(inner) => Contains(inner, p)
  }

  /** `x.rounded(.down)`. */
  function Floor(x: real): (n: int)
    ensures n as real <= x < n as real + 1.0
  {
    x.Floor
  }

  /** `Int(x)`: truncation toward zero. */
  function Trunc(x: real): (n: int)
    ensures 0.0 <= x ==> n as real <= x < n as real + 1.0
    ensures x < 0.0 ==> n as real - 1.0 < x <= n as real
  {
    if 0.0 <= x then x.Floor else -((-x).Floor)
  }

  /** `x.rounded()`: the nearest integer, halves rounded away from zero. */
  function Round(x: real): (n: int)
    ensures x - 0.5 <= n as real <= x + 0.5
    ensures 0.0 <= x ==> x - 0.5 < n as real
    ensures x < 0.0 ==> n as real < x + 0.5
  {
    if 0.0 <= x then (x + 0.5).Floor else -((-x + 0.5).Floor)
  }

  /** Truncation and rounding down agree on non-negative reals. */
  lemma TruncIsFloorWhenNonNegative(x: real)
    requires 0.0 <= x
    ensures Trunc(x) == Floor(x)
  {
  }

  /** No integer is closer to x than Round(x). */
  lemma RoundIsNearest(x: real, k: int)
    ensures Abs(Round(x) as real - x) <= Abs(k as real - x)
  {
    var n := Round(x);
    if k < n {
      assert k as real <= n as real - 1.0;
    } else if k > n {
      assert k as real >= n as real + 1.0;
    }
  }

  // ---------------------------------------------------------------------------
  // Equal cells along one axis
  // ---------------------------------------------------------------------------

  /** Multiplying by a positive factor keeps a weak order. */
  lemma ScaleWeak(a: real, b: real, c: real)
    requires c > 0.0 && a <= b
    ensures a * c <= b * c
  {
  }

  /** Multiplying by a positive factor keeps a strict order. */
  lemma ScaleStrictPositive(a: real, b: real, c: real)
    requires c > 0.0 && a < b
    ensures a * c < b * c
  {
  }

  /** Division undone by multiplication. */
  lemma QuotientTimes(off: real, c: real)
    requires c != 0.0
    ensures (off / c) * c == off
  {
  }

  /** A positive length split into a positive number of parts has positive parts. */
  lemma PositiveQuotient(a: real, b: real)
    requires a > 0.0 && b > 0.0
    ensures a / b > 0.0
  {
    QuotientTimes(a, b);
    if a / b <= 0.0 {
      ScaleWeak(a / b, 0.0, b);
    }
  }

  /** An offset at least a cells along, counted in cells of size c, is at
      least a * c in units. */
  lemma CellLower(off: real, c: real, t: real, a: real)
    requires c > 0.0 && t * c == off && a <= t
    ensures a * c <= off
  {
    ScaleWeak(a, t, c);
  }

  /** An offset under a + 1 cells, counted in cells of size c, is under
      a * c + c in units. */
  lemma CellUpper(off: real, c: real, t: real, a: real)
    requires c > 0.0 && t * c == off && t < a + 1.0
    ensures off < a * c + c
  {
    var b := a + 1.0;
    ScaleStrictPositive(t, b, c);
    assert b * c == a * c + c;
  }

  /** Cells [a*c, a*c + c) and [b*c, b*c + c) with a + 1 <= b do not overlap. */
  lemma CellsDisjoint(off: real, c: real, a: real, b: real)
    requires c > 0.0 && a + 1.0 <= b
    requires off < a * c + c
    ensures off < b * c
  {
    var a1 := a + 1.0;
    ScaleWeak(a1, b, c);
    assert a1 * c == a * c + c;
  }

  /** Splitting a positive length into n parts gives parts of positive size
      that add back up to the length. */
  lemma PartOfLength(len: real, n: nat)
    requires 0.0 < len && n > 0
    ensures len / n as real > 0.0
    ensures (len / n as real) * n as real == len
  {
    PositiveQuotient(len, n as real);
    QuotientTimes(len, n as real);
  }

  /** An offset inside a length split into n cells is fewer than n cells along. */
  lemma OffsetInCells(off: real, len: real, n: nat)
    requires 0.0 <= off < len && n > 0
    ensures 0.0 <= off / (len / n as real) < n as real
  {
    var m := n as real;
    var c := len / m;
    PartOfLength(len, n);
    var t := off / c;
    QuotientTimes(off, c);
    if t < 0.0 {
      ScaleStrictPositive(t, 0.0, c);
    }
    if t >= m {
      ScaleWeak(m, t, c);
    }
  }

  /** A length split into n equal cells: an offset inside the length lies in
      cell Floor(offset / cell), and that cell index is in [0, n). */
  lemma CellOfOffset(off: real, len: real, n: nat)
    requires 0.0 <= off < len && n > 0
    ensures len / n as real > 0.0
    ensures 0.0 <= off / (len / n as real) < n as real
    ensures var c := len / n as real;
            var k := Floor(off / c);
            0 <= k < n && k as real * c <= off < k as real * c + c
  {
    PartOfLength(len, n);
    OffsetInCells(off, len, n);
    var c := len / n as real;
    var t := off / c;
    QuotientTimes(off, c);
    var k := Floor(t) as real;
    CellLower(off, c, t, k);
    CellUpper(off, c, t, k);
  }

  /** Two cells of the same size that both contain an offset are the same cell. */
  lemma CellIsUnique(off: real, c: real, j: int, k: int)
    requires c > 0.0
    requires j as real * c <= off < j as real * c + c
    requires k as real * c <= off < k as real * c + c
    ensures j == k
  {
    if j < k {
      CellsDisjoint(off, c, j as real, k as real);
    } else if k < j {
      CellsDisjoint(off, c, k as real, j as real);
    }
  }

  /** An offset at least half a cell below boundary k + 1, counted in cells,
      is at least k * c - c / 2 in units. */
  lemma HalfCellBelow(off: real, c: real, t: real, k: real)
    requires c > 0.0 && t * c == off && k - 0.5 <= t
    ensures k * c - c / 2.0 <= off
  {
    var a := k - 0.5;
    ScaleWeak(a, t, c);
    assert a * c == k * c - c / 2.0;
  }

  /** An offset under half a cell past boundary k, counted in cells, is under
      k * c + c / 2 in units. */
  lemma HalfCellAbove(off: real, c: real, t: real, k: real)
    requires c > 0.0 && t * c == off && t < k + 0.5
    ensures off < k * c + c / 2.0
  {
    var b := k + 0.5;
    ScaleStrictPositive(t, b, c);
    assert b * c == k * c + c / 2.0;
  }

  /** The centre of the i-th of n equal cells of a positive length lies
      inside the length. */
  lemma CellCentreInside(len: real, n: nat, i: int)
    requires 0.0 < len && 0 <= i < n
    ensures var c := len / n as real;
            0.0 <= i as real * c && i as real * c + c / 2.0 < len
  {
    var c := len / n as real;
    PartOfLength(len, n);
    ScaleWeak(0.0, i as real, c);
    var i1 := i as real + 1.0;
    ScaleWeak(i1, n as real, c);
    assert i1 * c == i as real * c + c;
  }
}
