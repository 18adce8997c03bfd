/** The per-record decision of the visualisation pipeline: the same window,
    tracing, repair and intersection test as the vectoriser, ending in an
    image written to a VECTOR or a NOVECTOR folder. */
module Visu {
  import opened Geometry
  import opened Pixel
  import opened Hierarchy
  import opened Lake

  /** The folder an image of the record is written to. */
  datatype Folder = Vector | NoVector

  /** Some contour intersects some reference part. */
  predicate AnyMatch<G>(ops: GeoOps<G>, contours: seq<G>, refs: seq<G>)
  {
    exists k :: 0 <= k < |contours| && IntersectsAny(ops, contours[k], refs)
  }

  /** The is_contour flag: false to start with, set by the first contour
      that intersects a reference part, never reset. */
  method IsContour<G>(ops: GeoOps<G>, contours: seq<G>, refs: seq<G>) returns (isContour: bool)
    ensures isContour <==> AnyMatch(ops, contours, refs)
  {
    isContour := false;
    for k := 0 to |contours|
      invariant isContour <==> exists i :: 0 <= i < k && IntersectsAny(ops, contours[i], refs)
    {
      if IntersectsAny(ops, contours[k], refs) {
        isContour := true;
      }
    }
  }

  /** The folders written to, in order, by the record loop as it stands: one
      NOVECTOR image when there is no contour, one VECTOR image per contour
      (whether or not it matched), and one NOVECTOR image when no contour
      matched. */
  function WritesAsWritten(contourCount: nat, isContour: bool): seq<Folder>
  {
    (if contourCount == 0 then [NoVector] else []) +
    VectorImages(contourCount) +
    (if isContour then [] else [NoVector])
  }

  /** n writes to the VECTOR folder. */
  function VectorImages(n: nat): seq<Folder>
  {
    if n == 0 then [] else VectorImages(n - 1) + [Vector]
  }

  lemma {:induction false} VectorImagesOnly(n: nat)
    ensures NoVector !in VectorImages(n)
    ensures n > 0 <==> Vector in VectorImages(n)
  {
    if n > 0 {
      VectorImagesOnly(n - 1);
    }
  }

  /** The record loop body as it stands, reduced to the folders it writes. */
  method ProcessRecordAsWritten<G>(ops: GeoOps<G>, r: Raster, ref: Reference) returns (writes: seq<Folder>)
    requires WellFormed(r)
    ensures writes == WritesAsWritten(|Contours(ops, r, ref)|, AnyMatch(ops, Contours(ops, r, ref), ReferenceParts(ops, r, ref)))
    ensures Vector in writes <==> |Contours(ops, r, ref)| > 0
    ensures NoVector in writes <==> !AnyMatch(ops, Contours(ops, r, ref), ReferenceParts(ops, r, ref))
  {
    var contours, refs := PrepareRecord(ops, r, ref);
    writes := RecordWrites(ops, contours, refs);
  }

  /** The image writes of lines 177-188 for given repaired contours and
      reference parts. */
  method RecordWrites<G>(ops: GeoOps<G>, contours: seq<G>, refs: seq<G>) returns (writes: seq<Folder>)
    ensures writes == WritesAsWritten(|contours|, AnyMatch(ops, contours, refs))
    ensures Vector in writes <==> |contours| > 0
    ensures NoVector in writes <==> !AnyMatch(ops, contours, refs)
  {
    var start: seq<Folder> := if |contours| == 0 then [NoVector] else [];
    var isContour;
    isContour, writes := ContourLoop(ops, contours, refs, start);
    writes := writes + (if isContour then [] else [NoVector]);
    WritesAsWrittenFolders(|contours|, isContour);
  }

  /** The loop of lines 180-184: sets the flag on a match and writes a
      VECTOR image for every contour, after the writes already made. */
  method ContourLoop<G>(ops: GeoOps<G>, contours: seq<G>, refs: seq<G>, start: seq<Folder>)
    returns (isContour: bool, writes: seq<Folder>)
    ensures isContour <==> AnyMatch(ops, contours, refs)
    ensures writes == start + VectorImages(|contours|)
  {
    writes := start;
    isContour := false;
    for k := 0 to |contours|
      invariant isContour <==> exists i :: 0 <= i < k && IntersectsAny(ops, contours[i], refs)
      invariant writes == start + VectorImages(k)
    {
      if IntersectsAny(ops, contours[k], refs) {
        isContour := true;
      }
      assert start + VectorImages(k + 1) == writes + [Vector];
      writes := writes + [Vector];
    }
  }

  /** The writes as they stand include a VECTOR image exactly when there is a
      contour, and a NOVECTOR image exactly when nothing matched. */
  lemma WritesAsWrittenFolders(n: nat, isContour: bool)
    ensures Vector in WritesAsWritten(n, isContour) <==> n > 0
    ensures NoVector in WritesAsWritten(n, isContour) <==> n == 0 || !isContour
  {
    VectorImagesOnly(n);
  }

  /** A concrete record exhibiting the discrepancy. The reference lake is
      the square [400, 600] x [400, 600]; the mask holds water only in a
      strip of the margin north of it, which the tracer returns as one large
      contour that does not meet the reference ring. Its images go to both
      the VECTOR and the NOVECTOR folder. */
  function ExampleOps(): GeoOps<int>
  {
    GeoOps(
      g => true,
      g => g,
      g => true,
      g => [],
      g => 100.0,
      (g, h) => false,
      (shell, holes) => 0,
      m => if Wet(m) then [Traced([(0, 0), (29, 0), (29, 3), (0, 3)], 87.0, NoParent)] else [])
  }

  /** Some cell of the mask is water. */
  predicate Wet(m: Mask)
  {
    exists i, j :: 0 <= i < |m| && 0 <= j < |m[i]| && m[i][j] != 0
  }

  /** 10-unit pixels, origin (0, 1000); water in rows 35..38, columns 35..64. */
  function ExampleRaster(): Raster
  {
    Raster(Transform(10.0, 0.0, -10.0, 1000.0), 100, 100,
           seq(100, i => seq(100, j => if 35 <= i < 39 && 35 <= j < 65 then 255 else 0)))
  }

  function ExampleReference(): Reference
  {
    Reference(7, Bounds(400.0, 400.0, 600.0, 600.0), 200.0,
              [[Point(400.0, 400.0), Point(400.0, 600.0), Point(600.0, 600.0),
                Point(600.0, 400.0), Point(400.0, 400.0)]])
  }

  /** The example's frame is [350, 650] x [350, 650], its window rows and
      columns 35..64. */
  lemma ExampleCorners()
    ensures WellFormed(ExampleRaster())
    ensures Corners(ExampleRaster(), ExampleReference()) == (PixelIndex(35, 35), PixelIndex(65, 65))
  {
    RoundHalfEvenUnique(35.0, 35);
    RoundHalfEvenUnique(65.0, 65);
  }

  /** The window holds water, so one contour is traced; it survives the
      area filter and the repair. */
  lemma ExampleContours()
    ensures WellFormed(ExampleRaster())
    ensures Contours(ExampleOps(), ExampleRaster(), ExampleReference()) == [0]
  {
    var ops, r, ref := ExampleOps(), ExampleRaster(), ExampleReference();
    ExampleCorners();
    var w := Window(r, PixelIndex(35, 35), PixelIndex(65, 65));
    assert w[0][0] == 255;
    var cs := ops.trace(w);
    assert IsShell(cs, 0, MinArea);
    assert Holes(cs, 0, MinArea) == [] by {
      assert HolesBelow(cs, 0, MinArea, 0) == [];
    }
    assert PolygonsBelow(cs, MinArea, 0) == [];
    assert Polygons(cs, MinArea) == [Shape(0, [])];
    var traced := TracedPolygons(ops, cs);
    assert traced == [0];
    assert Repair.Resolved(ops, traced, MinArea) == [0] by {
      assert traced[..0] == [];
    }
  }

  /** The reference's single ring gives a single part. */
  lemma ExampleParts()
    ensures WellFormed(ExampleRaster())
    ensures ReferenceParts(ExampleOps(), ExampleRaster(), ExampleReference()) == [0]
  {
    var ops, r, ref := ExampleOps(), ExampleRaster(), ExampleReference();
    ExampleCorners();
    var refPolys := RefPolygons(ops, r, ref.rings, PixelIndex(35, 35));
    assert refPolys == [0];
    assert Repair.Resolved(ops, refPolys, MinArea) == [0] by {
      assert refPolys[..0] == [];
    }
  }

  /** The reference's ring lies inside its bounds. */
  lemma ExampleReferenceValid()
    ensures ValidReference(ExampleReference())
  {
    var ref := ExampleReference();
    forall j, k | 0 <= j < |ref.rings| && 0 <= k < |ref.rings[j]|
      ensures InBounds(ref.rings[j][k], ref.bounds)
    {
      var p := ref.rings[0][k];
      assert p.x == 400.0 || p.x == 600.0;
      assert p.y == 400.0 || p.y == 600.0;
    }
  }

  lemma UnmatchedRecordWrittenTwice()
    ensures WellFormed(ExampleRaster()) && ValidReference(ExampleReference())
    ensures |Contours(ExampleOps(), ExampleRaster(), ExampleReference())| == 1
    ensures |ReferenceParts(ExampleOps(), ExampleRaster(), ExampleReference())| == 1
    ensures !AnyMatch(ExampleOps(), Contours(ExampleOps(), ExampleRaster(), ExampleReference()),
                      ReferenceParts(ExampleOps(), ExampleRaster(), ExampleReference()))
    ensures var w := WritesAsWritten(1, false); Vector in w && NoVector in w
  {
    ExampleReferenceValid();
    ExampleContours();
    ExampleParts();
    WritesAsWrittenFolders(1, false);
  }

  /** The intended classification: exactly one folder per record, VECTOR
      exactly when the vectoriser would emit a record for the same reference
      lake, and NOVECTOR otherwise (including when no contour was traced). */
  method ClassifyRecord<G>(ops: GeoOps<G>, r: Raster, ref: Reference, date: string, tile: string)
    returns (folder: Folder)
    requires WellFormed(r)
    ensures folder == Vector <==> AnyMatch(ops, Contours(ops, r, ref), ReferenceParts(ops, r, ref))
    ensures folder == Vector <==> LakeRecord(ops, r, ref, date, tile).Some?
  {
    var contours, refs := PrepareRecord(ops, r, ref);
    var isContour := IsContour(ops, contours, refs);
    folder := if isContour then Vector else NoVector;
    DecideExact(ops, contours, refs, ref.id, date, tile);
  }
}
