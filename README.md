# Per-lake raster-to-vector matching, modelled in Dafny

This project models the core of a pipeline. The pipeline turns a binary water
mask raster into lake polygons and cross-checks them against a reference lake
database. For each reference lake record it does five things:

- it crops a window of the mask around the lake's bounds, with a margin;
- it traces the contours in that window and assembles them into polygons with holes;
- it repairs invalid geometries, both traced ones and the reference's own;
- it localises the reference rings into window pixels;
- it keeps the traced contours that intersect at least one reference part.

The vectoriser (`vectorize/vectorize.py`) turns the result into an optional
record `{id, date, tile, geometry}`. The visualisation script
(`visualisation/visu.py`) writes an image of the record to a VECTOR or a
NOVECTOR folder instead.

`epsg_to_pixel`, `mask_to_polygons` and `resolve_geometries` appear twice,
word for word: `vectorize/vectorize.py:11-57` and `visualisation/visu.py:87-134`.
Each is modelled once. Some rows below cite the visualisation copy.

Modules:

- `Geometry` (geometry.dfy): pixel rings, traced contours, and `GeoOps<G>`, a
  record of the foreign operations the pipeline calls. These are validity,
  zero-buffer repair, geometry type, parts, area, intersection, polygon
  construction and contour tracing. They are taken as parameters and
  nothing is assumed about them.
- `Pixel` (pixel.dfy): geographic point to pixel index, with round-half-to-even
  and saturation.
- `Hierarchy` (hierarchy.dfy): assembling shells and holes from the traced
  contours' parent indices, with a minimum area.
- `Repair` (repair.dfy): the geometry repair filter.
- `Lake` (lake.dfy): margin, frame, window, reference localisation, the
  intersection filter and the optional record (`get_lake`).
- `Visu` (visu.py's per-record loop body): the `is_contour` flag and the
  folders written.

## Model

| member | source | states |
|---|---|---|
| `Pixel.RoundHalfEven` | vectorize/vectorize.py:13-14 | the rounded value is within one half of its input, and even when the input lies exactly halfway between two integers |
| `Pixel.RoundHalfEvenUnique` | visualisation/visu.py:89-90 | those two properties determine the rounded value |
| `Pixel.RoundHalfEvenMonotone` | vectorize/vectorize.py:13-14 | rounding never reverses the order of two inputs |
| `Pixel.Clamp` | visualisation/visu.py:89-90 | clipping to [0, hi]: in range the value is unchanged; below it gives 0, above it gives hi |
| `Pixel.EpsgToPixel` | vectorize/vectorize.py:11-15 | column is in [0, width] and row in [0, height], upper bounds inclusive; inside the raster each index is within one half of the fractional index (x-c)/a or (f-y)/-e; an index exactly halfway between two integers is even; outside, it saturates to the nearer edge and never fails |
| `Pixel.ColumnWithinHalfCell` | vectorize/vectorize.py:13 | for a point inside the raster, origin + column * pixel width is within half a pixel width of x (the round trip back to geographic coordinates) |
| `Pixel.RowWithinHalfCell` | vectorize/vectorize.py:14 | the same on the row axis, with pixel height e |
| `Pixel.EpsgToPixelMonotone` | visualisation/visu.py:87-91 | on a north-up raster, a point further east never gets a smaller column and a point further south never gets a smaller row |
| `Hierarchy.MaskToPolygons` | vectorize/vectorize.py:18-41 | the two-pass loop returns exactly `Polygons` of the trace, and the empty list when the trace has no contours |
| `Hierarchy.RecordChildren` | vectorize/vectorize.py:24-30 | the first pass marks exactly the contours whose parent index is not -1 as children, and leaves the buckets equal to `Buckets` of the whole trace |
| `Hierarchy.EmitPolygons` | vectorize/vectorize.py:32-41 | given the first pass's results, the second pass returns exactly `Polygons` of the trace |
| `Hierarchy.BucketsExact` | vectorize/vectorize.py:24-30 | after the first pass, the bucket of each parent index other than -1 holds exactly the contours recorded with that parent, in index order; an absent key has none |
| `Hierarchy.HolesFromChildren` | vectorize/vectorize.py:38-39 | filtering a shell's bucket by area gives exactly its holes |
| `Hierarchy.ShellsExact` | vectorize/vectorize.py:27-34 | a contour is the shell of an output polygon iff its parent index is -1 and its area is at least min_area; a contour with a parent is never a shell |
| `Hierarchy.ShellsInContourOrder` | vectorize/vectorize.py:33-40 | output polygons are in strictly increasing order of their shell's contour index |
| `Hierarchy.HolesExact` | vectorize/vectorize.py:28-39 | a contour is a hole of an output polygon iff its recorded parent is that polygon's shell and its area is at least min_area; holes are in contour order |
| `Hierarchy.OrphansDropped` | visualisation/visu.py:103-116 | a child whose parent is not an emitted shell (filtered out, or itself a child) appears nowhere in the output |
| `Hierarchy.RingWithHoleExample` | visualisation/visu.py:109-116 | an outer contour with one large inner child and one tiny speck gives exactly one polygon with one hole |
| `Repair.ResolveGeometries` | vectorize/vectorize.py:44-57 | the loop returns exactly `Resolved` of its input |
| `Repair.AppendLargeParts` | vectorize/vectorize.py:54-56 | the inner loop appends, in part order, exactly the parts kept by `LargeParts` |
| `Repair.ResolvedAllValid` | vectorize/vectorize.py:46-48 | on a list of valid geometries the filter is the identity |
| `Repair.ValidPassThrough` | visualisation/visu.py:123-125 | a valid input appears unchanged in the output, between the outputs of the inputs before it and those after it |
| `Repair.ResolvedAppend` | visualisation/visu.py:122-134 | the filter works input by input: filtering a concatenation gives the concatenation of the two filtered halves, so input order is kept |
| `Repair.InvalidContribution` | vectorize/vectorize.py:49-56 | an invalid input whose repair is a single polygon contributes that polygon whatever its area; a multi-part repair contributes exactly its parts with area strictly above min_area |
| `Repair.LargePartsExact` | visualisation/visu.py:131-133 | a part is kept iff its area is strictly above min_area |
| `Repair.LargePartsAppend` | vectorize/vectorize.py:54-56 | kept parts stay in part order |
| `Repair.ResolvedOrigin` | visualisation/visu.py:127-133 | every output comes from an input: the valid input itself, its single-polygon repair, or a part of its repair with area above min_area |
| `Lake.Margin` | vectorize/vectorize.py:62 | the margin is the larger of 50 and 0.2·√area: at least both, and equal to one of them |
| `Lake.FrameOf` | vectorize/vectorize.py:61-64 | the frame corners are [left−b, top+b] and [right+b, bottom−b] with b the margin |
| `Lake.FrameEnclosesBounds` | visualisation/visu.py:156-160 | every point of the bounds lies at least 50 units inside the frame on every side |
| `Lake.Slice` | vectorize/vectorize.py:66 | s[lo:hi] with clamped bounds has length hi−lo (0 if inverted) and holds s[lo+k] at k |
| `Lake.Window` | visualisation/visu.py:161-162 | the window has rows v0..v1 and columns u0..u1 of the mask, and its cell (i, j) is mask cell (v0+i, u0+j) |
| `Lake.LocalizeReferences` | vectorize/vectorize.py:67-72 | the loop builds one zero-buffered polygon per reference ring, from its points converted to pixels and shifted by the window origin |
| `Lake.WindowCoversReference` | visualisation/visu.py:168-171 | on a north-up raster, every ring point of a reference whose bounds enclose its rings (`ValidReference`) localises to offsets between 0 and the window's width and height |
| `Lake.PrepareRecord` | vectorize/vectorize.py:61-75 | window, localisation, tracing and both repairs give exactly the record's `Contours` and `ReferenceParts` |
| `Lake.MatchContours` | vectorize/vectorize.py:78-81 | the loop keeps, in order, exactly the contours that intersect at least one reference part |
| `Lake.MatchingExact` | vectorize/vectorize.py:79-81 | a contour is kept iff it intersects some reference part |
| `Lake.MatchingAppend` | visualisation/visu.py:180-181 | matching keeps the contours' relative order |
| `Lake.MatchingEmpty` | vectorize/vectorize.py:82-89 | nothing is kept iff no contour intersects any reference part (so always nothing when there is no reference part) |
| `Lake.DecideExact` | vectorize/vectorize.py:76-89 | a record exists iff some contour intersects some reference part (never when there are no contours); it then carries the given id, date and tile, and its geometry is exactly the matching contours, in order |
| `Lake.DecideGeometryExact` | vectorize/vectorize.py:83-87 | every contour intersecting a reference part is in the record's geometry, and nothing else is |
| `Lake.GetLake` | vectorize/vectorize.py:60-89 | returns `LakeRecord`: present iff some repaired traced contour intersects some repaired reference part, with the reference's id and the given date and tile |
| `Visu.IsContour` | visualisation/visu.py:179-182 | the flag ends true iff at least one contour intersects at least one reference part |
| `Visu.ContourLoop` | visualisation/visu.py:180-184 | the contour loop ends with the flag set iff some contour intersects some reference part, having written one VECTOR image per contour |
| `Visu.RecordWrites` | visualisation/visu.py:177-188 | the folders written, as the code stands: a VECTOR image iff there is at least one contour, a NOVECTOR image iff nothing matched |
| `Visu.ProcessRecordAsWritten` | visualisation/visu.py:156-188 | the same, for the record's own contours and reference parts |
| `Visu.WritesAsWrittenFolders` | visualisation/visu.py:180-188 | in the write sequence as the code stands, VECTOR appears iff there are contours and NOVECTOR iff there are none or the flag is false |
| `Visu.UnmatchedRecordWrittenTwice` | visualisation/visu.py:184 | a well-formed record whose mask has water only in a strip of the margin gets images in both VECTOR and NOVECTOR: one large contour is traced, and it meets none of the reference's parts (one ring, inside its bounds) |
| `Visu.ClassifyRecord` | visualisation/visu.py:174-188 | intended classification: exactly one folder; VECTOR iff some contour matches, which is iff the vectoriser emits a record for the same lake |

## Findings

| source | as written | input that shows it | evidently intended | confidence | as-written member | corrected member |
|---|---|---|---|---|---|---|
| visualisation/visu.py:184 | the VECTOR image is written inside the `for contour` loop, outside the `if`. So it is written once per contour, whether or not that contour matched. | a record whose window traces one contour of area at least 10 and that intersects no reference part: it gets a VECTOR image and then, at line 188, a NOVECTOR image | each record goes to exactly one folder: VECTOR iff `is_contour` | not executed; medium | `Visu.UnmatchedRecordWrittenTwice` | `Visu.ClassifyRecord` |

## Left out

- Contour tracing and contour area (`cv2.findContours`, `cv2.contourArea`) are foreign. `GeoOps.trace` returns, for a window, each contour's ring, area and parent index.
- The `hierarchy.shape[0] == 1` and `cnt.shape[1] == 1` assertions are not modelled. They hold for every result of the tracer.
- Shapely operations are foreign: validity, `buffer(0)`, `geom_type`, `.geoms`, `.area`, `intersects` and polygon construction. They are fields of `GeoOps`, and nothing is assumed of them. The error shapely raises for a ring with fewer than four coordinates is not modelled. Traced contours of area at least 10 always have enough points.
- `MultiPolygon(list_polygon)` is modelled as the sequence of its parts.
- The square root in the margin is floating point. The record carries `sqrtArea`, the square root of its geometry's area.
- Floating point in general: coordinates, quotients and areas are `real`. Rounding of the float quotient is exact round-half-to-even on the real quotient.
- `Hierarchy.MaskToPolygons` takes the traced contours, not the mask, because tracing is foreign. It returns contour indices (a shell and its holes). `Lake.ShapeGeometry` builds the polygons from those indices.
- Reference geometries are modelled as a sequence of 2-D exterior rings, one per part. The code unpacks three coordinates per point and reads `.geoms`, so a single-part Polygon reference or 2-D points would raise. That case is not modelled.
- Image processing is floating-point numerics and rendering, and is not modelled: `build_mask` (NDPI ratio, bilinear resampling), `build_img` (percentile scaling) and `adjust_gamma`.
- File and geodata I/O is not modelled: `load_inpe`, `array_to_raster`, `vectorize()` (apply, dropna, reprojection, `to_file`), `rio.to_raster`, argparse and logging.
- Image drawing (`cv2.drawContours`) is not modelled. Image writing (`cv2.imwrite`) is modelled only as the folder each image goes to.
- `main` in visu.py as a whole is not modelled: line 145 reads `data` and `i` before they are assigned, so the function fails before its loop. Only the loop body's decision (lines 156-188) is modelled, as a per-record method.
- ndpi/ndpi.py only builds and runs a shell command for an external tool. It is not part of this model.
- No record is skipped for lack of overlap: an empty window is passed to the tracer as it is.
- A single-polygon repair is kept whatever its area or validity (`Repair.InvalidContribution`).
- Nothing maps pixels back to geographic coordinates: `get_lake`'s geometry stays in window-local pixels. `Pixel.ColumnWithinHalfCell` and `Pixel.RowWithinHalfCell` state the half-pixel bound for origin + index · pixel size.
