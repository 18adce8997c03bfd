/** The per-lake matcher: crop a window of the mask around one reference
    lake, trace and repair the contours found in it, localise and repair the
    reference's own rings, and keep the traced contours that intersect at
    least one reference part. */
module Lake {
  import opened Geometry
  import opened Pixel
  import opened Hierarchy
  import opened Repair

  datatype Option<T> = None | Some(value: T)

  /** The bounds of a geometry: minimum x, minimum y, maximum x, maximum y. */
  datatype Bounds = Bounds(left: real, bottom: real, right: real, top: real)

  /** A reference lake record: its identifier, the bounds of its geometry,
      the square root of its geometry's area, and the exterior ring of each
      of its parts, in raster coordinates. */
  datatype Reference = Reference(id: int, bounds: Bounds, sqrtArea: real, rings: seq<seq<Point>>)

  /** The mask raster: its transform, its width and height in pixels, and
      its cells row by row. */
  datatype Raster = Raster(transform: Transform, width: nat, height: nat, cells: seq<seq<int>>)

  predicate WellFormed(r: Raster)
  {
    Invertible(r.transform) && |r.cells| == r.height &&
    forall i :: 0 <= i < |r.cells| ==> |r.cells[i]| == r.width
  }

  /** A matched lake: the reference's identity, the date and tile of the
      raster, and the parts of the matched multi-polygon. */
  datatype Match<G> = Match(id: int, date: string, tile: string, geometry: seq<G>)

  /** Minimum area of a traced contour, a hole or a repaired part. */
  const MinArea: real := 10.0

  /** Minimum crop margin, in geographic units. */
  const MarginFloor: real := 50.0

  /** The crop margin: the larger of the floor and a fifth of the square
      root of the lake's area. */
  function Margin(sqrtArea: real): (b: real)
    ensures b >= MarginFloor && b >= 0.2 * sqrtArea
    ensures b == MarginFloor || b == 0.2 * sqrtArea
  {
    if MarginFloor < 0.2 * sqrtArea then 0.2 * sqrtArea else MarginFloor
  }

  /** The crop frame, as its north-west and south-east corners. */
  datatype Frame = Frame(topLeft: Point, bottomRight: Point)

  predicate InBounds(p: Point, b: Bounds)
  {
    b.left <= p.x <= b.right && b.bottom <= p.y <= b.top
  }

  /** What a reference record read from the database satisfies: its bounds
      enclose every point of every ring, and the square root of its area is
      not negative. */
  predicate ValidReference(ref: Reference)
  {
    ref.sqrtArea >= 0.0 &&
    forall j, k :: 0 <= j < |ref.rings| && 0 <= k < |ref.rings[j]| ==> InBounds(ref.rings[j][k], ref.bounds)
  }

  /** The bounds pushed outwards by the margin on every side. */
  function FrameOf(ref: Reference): (fr: Frame)
    ensures fr.topLeft.x == ref.bounds.left - Margin(ref.sqrtArea)
    ensures fr.topLeft.y == ref.bounds.top + Margin(ref.sqrtArea)
    ensures fr.bottomRight.x == ref.bounds.right + Margin(ref.sqrtArea)
    ensures fr.bottomRight.y == ref.bounds.bottom - Margin(ref.sqrtArea)
  {
    var b := Margin(ref.sqrtArea);
    Frame(Point(ref.bounds.left - b, ref.bounds.top + b), Point(ref.bounds.right + b, ref.bounds.bottom - b))
  }

  /** Every point of the bounds lies at least MarginFloor inside the frame. */
  lemma FrameEnclosesBounds(ref: Reference, p: Point)
    requires InBounds(p, ref.bounds)
    ensures FrameOf(ref).topLeft.x + MarginFloor <= p.x <= FrameOf(ref).bottomRight.x - MarginFloor
    ensures FrameOf(ref).bottomRight.y + MarginFloor <= p.y <= FrameOf(ref).topLeft.y - MarginFloor
  {
  }

  /** The pixel corners of the frame. */
  function Corners(r: Raster, ref: Reference): (PixelIndex, PixelIndex)
    requires WellFormed(r)
  {
    var fr := FrameOf(ref);
    (EpsgToPixel(fr.topLeft, r.transform, r.width, r.height),
     EpsgToPixel(fr.bottomRight, r.transform, r.width, r.height))
  }

  /** s[lo:hi] with both bounds already within [0, |s|]: empty when the
      bounds are inverted. */
  function Slice<T>(s: seq<T>, lo: nat, hi: nat): (r: seq<T>)
    requires lo <= |s| && hi <= |s|
    ensures |r| == if lo <= hi then hi - lo else 0
    ensures forall k :: 0 <= k < |r| ==> r[k] == s[lo + k]
  {
    if lo <= hi then s[lo..hi] else []
  }

  /** The window of the mask between two pixel corners: rows from the first
      corner's row up to the second's, columns likewise. */
  function Window(r: Raster, tl: PixelIndex, br: PixelIndex): (w: Mask)
    requires WellFormed(r)
    requires 0 <= tl.col <= r.width && 0 <= br.col <= r.width
    requires 0 <= tl.row <= r.height && 0 <= br.row <= r.height
    ensures |w| == if tl.row <= br.row then br.row - tl.row else 0
    ensures forall i :: 0 <= i < |w| ==> |w[i]| == if tl.col <= br.col then br.col - tl.col else 0
    ensures forall i, j :: 0 <= i < |w| && 0 <= j < |w[i]| ==> w[i][j] == r.cells[tl.row + i][tl.col + j]
  {
    var rows := Slice(r.cells, tl.row, br.row);
    seq(|rows|, i requires 0 <= i < |rows| => Slice(rows[i], tl.col, br.col))
  }

  /** A reference ring in window-local pixels: each point's pixel, shifted
      by the window origin. */
  function LocalRing(r: Raster, ring: seq<Point>, origin: PixelIndex): (local: PixelRing)
    requires WellFormed(r)
  {
    seq(|ring|, k requires 0 <= k < |ring| =>
      var px := EpsgToPixel(ring[k], r.transform, r.width, r.height);
      (px.col - origin.col, px.row - origin.row))
  }

  /** One repaired polygon per reference ring. */
  function RefPolygons<G>(ops: GeoOps<G>, r: Raster, rings: seq<seq<Point>>, origin: PixelIndex): seq<G>
    requires WellFormed(r)
  {
    seq(|rings|, j requires 0 <= j < |rings| => ops.buffer0(ops.polygon(LocalRing(r, rings[j], origin), [])))
  }

  method LocalizeReferences<G>(ops: GeoOps<G>, r: Raster, rings: seq<seq<Point>>, origin: PixelIndex)
    returns (polys: seq<G>)
    requires WellFormed(r)
    ensures polys == RefPolygons(ops, r, rings, origin)
  {
    polys := [];
    for j := 0 to |rings|
      invariant polys == RefPolygons(ops, r, rings[..j], origin)
    {
      var coord := LocalRing(r, rings[j], origin);
      polys := polys + [ops.buffer0(ops.polygon(coord, []))];
    }
    assert rings[..|rings|] == rings;
  }

  /** The polygon a shape stands for: its shell ring with its hole rings. */
  function ShapeGeometry<G>(ops: GeoOps<G>, cs: seq<Traced>, s: Shape): G
    requires s.shell < |cs|
    requires forall h :: 0 <= h < |s.holes| ==> s.holes[h] < |cs|
  {
    ops.polygon(cs[s.shell].ring, seq(|s.holes|, h requires 0 <= h < |s.holes| => cs[s.holes[h]].ring))
  }

  /** The polygons of a trace, in shell order. */
  function TracedPolygons<G>(ops: GeoOps<G>, cs: seq<Traced>): seq<G>
  {
    var shapes := Polygons(cs, MinArea);
    seq(|shapes|, k requires 0 <= k < |shapes| => ShapeGeometry(ops, cs, shapes[k]))
  }

  /** The repaired contours traced in a reference's window. */
  function Contours<G>(ops: GeoOps<G>, r: Raster, ref: Reference): seq<G>
    requires WellFormed(r)
  {
    var (tl, br) := Corners(r, ref);
    Resolved(ops, TracedPolygons(ops, ops.trace(Window(r, tl, br))), MinArea)
  }

  /** The repaired parts of a reference, in window-local pixels. */
  function ReferenceParts<G>(ops: GeoOps<G>, r: Raster, ref: Reference): seq<G>
    requires WellFormed(r)
  {
    Resolved(ops, RefPolygons(ops, r, ref.rings, Corners(r, ref).0), MinArea)
  }

  /** The steps both pipelines share for one reference: window, reference
      localisation, tracing and repair of both sides. */
  method PrepareRecord<G>(ops: GeoOps<G>, r: Raster, ref: Reference) returns (contours: seq<G>, refs: seq<G>)
    requires WellFormed(r)
    ensures contours == Contours(ops, r, ref)
    ensures refs == ReferenceParts(ops, r, ref)
  {
    var fr := FrameOf(ref);
    var tl := EpsgToPixel(fr.topLeft, r.transform, r.width, r.height);
    var br := EpsgToPixel(fr.bottomRight, r.transform, r.width, r.height);
    var window := Window(r, tl, br);
    var refPolys := LocalizeReferences(ops, r, ref.rings, tl);
    var cs := ops.trace(window);
    var shapes := MaskToPolygons(cs, MinArea);
    var traced := seq(|shapes|, k requires 0 <= k < |shapes| => ShapeGeometry(ops, cs, shapes[k]));
    contours := ResolveGeometries(ops, traced, MinArea);
    refs := ResolveGeometries(ops, refPolys, MinArea);
  }

  predicate IntersectsAny<G>(ops: GeoOps<G>, g: G, refs: seq<G>)
  {
    exists j :: 0 <= j < |refs| && ops.intersects(g, refs[j])
  }

  /** The contours that intersect at least one reference part, in order. */
  function Matching<G>(ops: GeoOps<G>, contours: seq<G>, refs: seq<G>): seq<G>
  {
    if |contours| == 0 then []
    else
      var last := contours[|contours| - 1];
      Matching(ops, contours[..|contours| - 1], refs) + (if IntersectsAny(ops, last, refs) then [last] else [])
  }

  /** The decision on repaired contours and reference parts: no record
      without contours or without a match, else the matching contours. */
  function Decide<G>(ops: GeoOps<G>, contours: seq<G>, refs: seq<G>, id: int, date: string, tile: string)
    : Option<Match<G>>
  {
    if |contours| == 0 then None
    else
      var hits := Matching(ops, contours, refs);
      if |hits| == 0 then None else Some(Match(id, date, tile, hits))
  }

  /** The record for one reference lake, if any contour matches. */
  function LakeRecord<G>(ops: GeoOps<G>, r: Raster, ref: Reference, date: string, tile: string): Option<Match<G>>
    requires WellFormed(r)
  {
    Decide(ops, Contours(ops, r, ref), ReferenceParts(ops, r, ref), ref.id, date, tile)
  }

  /** The matched record of one reference lake: present exactly when some
      traced, repaired contour intersects some repaired reference part, and
      then made of the reference's identity, the raster's date and tile and
      the intersecting contours. */
  method GetLake<G>(ops: GeoOps<G>, r: Raster, ref: Reference, date: string, tile: string)
    returns (result: Option<Match<G>>)
    requires WellFormed(r)
    ensures result == LakeRecord(ops, r, ref, date, tile)
    ensures result.Some? <==> (exists k :: 0 <= k < |Contours(ops, r, ref)| &&
                                 IntersectsAny(ops, Contours(ops, r, ref)[k], ReferenceParts(ops, r, ref)))
    ensures result.Some? ==> result.value.id == ref.id && result.value.date == date && result.value.tile == tile
  {
    var contours, refs := PrepareRecord(ops, r, ref);
    if |contours| == 0 {
      return None;
    }
    var hits := MatchContours(ops, contours, refs);
    if |hits| != 0 {
      result := Some(Match(ref.id, date, tile, hits));
    } else {
      result := None;
    }
    DecideExact(ops, contours, refs, ref.id, date, tile);
  }

  /** The intersection filter loop: every contour, in order, that
      intersects at least one reference part. */
  method MatchContours<G>(ops: GeoOps<G>, contours: seq<G>, refs: seq<G>) returns (hits: seq<G>)
    ensures hits == Matching(ops, contours, refs)
    ensures forall x :: x in hits <==> x in contours && IntersectsAny(ops, x, refs)
  {
    hits := [];
    for k := 0 to |contours|
      invariant hits == Matching(ops, contours[..k], refs)
    {
      var contour := contours[k];
      if IntersectsAny(ops, contour, refs) {
        hits := hits + [contour];
      }
      assert contours[..k + 1][..k] == contours[..k];
    }
    assert contours[..|contours|] == contours;
    MatchingExact(ops, contours, refs);
  }

  /** A contour is kept exactly when it intersects some reference part. */
  lemma {:induction false} MatchingExact<G>(ops: GeoOps<G>, contours: seq<G>, refs: seq<G>)
    ensures forall x :: x in Matching(ops, contours, refs) <==> x in contours && IntersectsAny(ops, x, refs)
  {
    if |contours| > 0 {
      MatchingExact(ops, contours[..|contours| - 1], refs);
      assert contours == contours[..|contours| - 1] + [contours[|contours| - 1]];
    }
  }

  /** Matching keeps the contours' relative order. */
  lemma {:induction false} MatchingAppend<G>(ops: GeoOps<G>, a: seq<G>, b: seq<G>, refs: seq<G>)
    ensures Matching(ops, a + b, refs) == Matching(ops, a, refs) + Matching(ops, b, refs)
  {
    if |b| > 0 {
      var b' := b[..|b| - 1];
      MatchingAppend(ops, a, b', refs);
      assert (a + b)[..|a + b| - 1] == a + b';
    } else {
      assert a + b == a;
    }
  }

  /** Matching is empty exactly when no contour intersects any part. */
  lemma {:induction false} MatchingEmpty<G>(ops: GeoOps<G>, contours: seq<G>, refs: seq<G>)
    ensures |Matching(ops, contours, refs)| == 0 <==>
      forall k :: 0 <= k < |contours| ==> !IntersectsAny(ops, contours[k], refs)
  {
    if |contours| > 0 {
      MatchingEmpty(ops, contours[..|contours| - 1], refs);
      assert forall k :: 0 <= k < |contours| - 1 ==> contours[..|contours| - 1][k] == contours[k];
    }
  }

  /** No record when there are no contours or none intersects a reference
      part; otherwise a record with the given identity whose geometry is
      exactly the intersecting contours, in order. */
  lemma DecideExact<G>(ops: GeoOps<G>, contours: seq<G>, refs: seq<G>, id: int, date: string, tile: string)
    ensures Decide(ops, contours, refs, id, date, tile).Some? <==>
      exists k :: 0 <= k < |contours| && IntersectsAny(ops, contours[k], refs)
    ensures Decide(ops, contours, refs, id, date, tile).Some? ==>
      Decide(ops, contours, refs, id, date, tile).value == Match(id, date, tile, Matching(ops, contours, refs))
  {
    MatchingEmpty(ops, contours, refs);
  }

  /** Every contour that intersects a reference part is in the record's
      geometry, and every part of that geometry is such a contour. */
  lemma DecideGeometryExact<G>(ops: GeoOps<G>, contours: seq<G>, refs: seq<G>, id: int, date: string, tile: string)
    requires Decide(ops, contours, refs, id, date, tile).Some?
    ensures forall x :: x in Decide(ops, contours, refs, id, date, tile).value.geometry <==>
      x in contours && IntersectsAny(ops, x, refs)
  {
    MatchingExact(ops, contours, refs);
  }

  /** On a north-up raster, every point of a valid reference lands, once
      localised, inside the window: its column offset is between 0 and the
      window width and its row offset between 0 and the window height. */
  lemma WindowCoversReference(r: Raster, ref: Reference, j: nat, k: nat)
    requires WellFormed(r) && NorthUp(r.transform) && ValidReference(ref)
    requires j < |ref.rings| && k < |ref.rings[j]|
    ensures 0 <= LocalRing(r, ref.rings[j], Corners(r, ref).0)[k].0 <= Corners(r, ref).1.col - Corners(r, ref).0.col
    ensures 0 <= LocalRing(r, ref.rings[j], Corners(r, ref).0)[k].1 <= Corners(r, ref).1.row - Corners(r, ref).0.row
  {
    var fr := FrameOf(ref);
    var p := ref.rings[j][k];
    EpsgToPixelMonotone(fr.topLeft, p, r.transform, r.width, r.height);
    EpsgToPixelMonotone(p, fr.bottomRight, r.transform, r.width, r.height);
  }
}
