/** Geographic point to raster pixel index, for a north-up affine transform
    without rotation (the two skew coefficients are zero). */
module Pixel {

  datatype Point = Point(x: real, y: real)

  /** The four affine coefficients the mapping uses: pixel width a, origin
      column c, pixel height e (negative for a north-up raster), origin row f. */
  datatype Transform = Transform(a: real, c: real, e: real, f: real)

  datatype PixelIndex = PixelIndex(col: int, row: int)

  predicate Invertible(t: Transform)
  {
    t.a != 0.0 && t.e != 0.0
  }

  predicate NorthUp(t: Transform)
  {
    t.a > 0.0 && t.e < 0.0
  }

  function Abs(r: real): real
  {
    if r < 0.0 then -r else r
  }

  /** Rounding to the nearest integer, ties to the even neighbour. The two
      ensures clauses determine the result (see RoundHalfEvenUnique). */
  function RoundHalfEven(r: real): (n: int)
    ensures r - 0.5 <= n as real <= r + 0.5
    ensures (n as real - r == 0.5 || r - n as real == 0.5) ==> n % 2 == 0
  {
    var fl := r.Floor;
    var frac := r - fl as real;
    if frac < 0.5 then fl
    else if frac > 0.5 then fl + 1
    else if fl % 2 == 0 then fl
    else fl + 1
  }

  /** Any integer within one half of r, and even on a tie, is the rounded value. */
  lemma RoundHalfEvenUnique(r: real, n: int)
    requires r - 0.5 <= n as real <= r + 0.5
    requires (n as real - r == 0.5 || r - n as real == 0.5) ==> n % 2 == 0
    ensures n == RoundHalfEven(r)
  {
  }

  lemma RoundHalfEvenMonotone(r1: real, r2: real)
    requires r1 <= r2
    ensures RoundHalfEven(r1) <= RoundHalfEven(r2)
  {
    if r1 < r2 {
      var n1, n2 := RoundHalfEven(r1), RoundHalfEven(r2);
      assert n1 as real <= r1 + 0.5 < r2 + 0.5 <= n2 as real + 1.0;
    }
  }

  /** Saturation of v to the closed range [0, hi]. */
  function Clamp(v: int, hi: nat): (r: int)
    ensures 0 <= r <= hi
    ensures 0 <= v <= hi ==> r == v
    ensures v < 0 ==> r == 0
    ensures hi < v ==> r == hi
  {
    if v < 0 then 0 else if v > hi then hi else v
  }

  /** The fractional column of x and the fractional row of y. */
  function ColumnOf(t: Transform, x: real): real
    requires Invertible(t)
  {
    (x - t.c) / t.a
  }

  function RowOf(t: Transform, y: real): real
    requires Invertible(t)
  {
    (t.f - y) / -t.e
  }

  /** The pixel of a geographic point on a raster of the given width and
      height: the nearest column and row (ties to even), saturated to
      [0, width] and [0, height]. The upper bounds are inclusive, so both
      indices are always valid slice bounds and nothing is rejected. */
  function EpsgToPixel(p: Point, t: Transform, width: nat, height: nat): (px: PixelIndex)
    requires Invertible(t)
    ensures 0 <= px.col <= width && 0 <= px.row <= height
    ensures 0.0 <= ColumnOf(t, p.x) <= width as real ==>
      Abs(px.col as real - ColumnOf(t, p.x)) <= 0.5
    ensures 0.0 <= RowOf(t, p.y) <= height as real ==>
      Abs(px.row as real - RowOf(t, p.y)) <= 0.5
    ensures (0.0 <= ColumnOf(t, p.x) <= width as real &&
             Abs(px.col as real - ColumnOf(t, p.x)) == 0.5) ==> px.col % 2 == 0
    ensures (0.0 <= RowOf(t, p.y) <= height as real &&
             Abs(px.row as real - RowOf(t, p.y)) == 0.5) ==> px.row % 2 == 0
    ensures ColumnOf(t, p.x) <= 0.0 ==> px.col == 0
    ensures width as real <= ColumnOf(t, p.x) ==> px.col == width
    ensures RowOf(t, p.y) <= 0.0 ==> px.row == 0
    ensures height as real <= RowOf(t, p.y) ==> px.row == height
  {
    PixelIndex(Clamp(RoundHalfEven(ColumnOf(t, p.x)), width),
               Clamp(RoundHalfEven(RowOf(t, p.y)), height))
  }

  /** Mapping a point inside the raster to its pixel and back to the
      geographic coordinates of that pixel (origin + index * size) lands
      within half a pixel of the point, on the column axis. */
  lemma ColumnWithinHalfCell(p: Point, t: Transform, width: nat, height: nat)
    requires Invertible(t)
    requires 0.0 <= ColumnOf(t, p.x) <= width as real
    ensures Abs(t.c + EpsgToPixel(p, t, width, height).col as real * t.a - p.x) <= Abs(t.a) / 2.0
  {
    QuotientScales(p.x - t.c, t.a);
    BackWithinHalfCell(p.x, t.c, t.a, EpsgToPixel(p, t, width, height).col, ColumnOf(t, p.x));
  }

  /** The same on the row axis. */
  lemma RowWithinHalfCell(p: Point, t: Transform, width: nat, height: nat)
    requires Invertible(t)
    requires 0.0 <= RowOf(t, p.y) <= height as real
    ensures Abs(t.f + EpsgToPixel(p, t, width, height).row as real * t.e - p.y) <= Abs(t.e) / 2.0
  {
    QuotientScales(t.f - p.y, -t.e);
    BackWithinHalfCell(p.y, t.f, t.e, EpsgToPixel(p, t, width, height).row, RowOf(t, p.y));
  }

  /** One axis, in general: an index within one half of the fractional
      index q, where q cells of the given size lead from origin to v, maps
      back to within half a cell of v. */
  lemma BackWithinHalfCell(v: real, origin: real, size: real, index: int, q: real)
    requires q * size == v - origin
    requires Abs(index as real - q) <= 0.5
    ensures Abs(origin + index as real * size - v) <= Abs(size) / 2.0
  {
    var d := index as real - q;
    assert origin + index as real * size - v == d * size;
    ScaledHalf(d, size);
  }

  lemma QuotientScales(n: real, d: real)
    requires d != 0.0
    ensures (n / d) * d == n
  {
  }

  lemma ScaledHalf(d: real, k: real)
    requires Abs(d) <= 0.5
    ensures Abs(d * k) <= Abs(k) / 2.0
  {
    assert Abs(d * k) == Abs(d) * Abs(k);
    assert Abs(d) * Abs(k) <= 0.5 * Abs(k);
  }

  /** On a north-up raster, moving east never decreases the column and
      moving south never decreases the row: a frame given as
      [west, north] and [east, south] corners maps to a non-inverted window. */
  lemma EpsgToPixelMonotone(p: Point, q: Point, t: Transform, width: nat, height: nat)
    requires NorthUp(t)
    ensures p.x <= q.x ==> EpsgToPixel(p, t, width, height).col <= EpsgToPixel(q, t, width, height).col
    ensures q.y <= p.y ==> EpsgToPixel(p, t, width, height).row <= EpsgToPixel(q, t, width, height).row
  {
    if p.x <= q.x {
      assert ColumnOf(t, q.x) - ColumnOf(t, p.x) == (q.x - p.x) / t.a;
      RoundHalfEvenMonotone(ColumnOf(t, p.x), ColumnOf(t, q.x));
    }
    if q.y <= p.y {
      assert RowOf(t, q.y) - RowOf(t, p.y) == (p.y - q.y) / -t.e;
      RoundHalfEvenMonotone(RowOf(t, p.y), RowOf(t, q.y));
    }
  }
}
