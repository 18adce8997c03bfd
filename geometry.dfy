/** Shared vocabulary of the raster-to-vector matcher: pixel rings, traced
    contours and the foreign geometry/raster operations the pipeline calls. */
module Geometry {

  /** A ring in pixel coordinates: the (column, row) integer pairs of a
      traced contour or of a localised reference ring. */
  type PixelRing = seq<(int, int)>

  /** A raster window (rows of cell values) handed to the contour tracer. */
  type Mask = seq<seq<int>>

  /** One contour found by the tracer: its points, its enclosed area and the
      index of its parent contour in the same trace, -1 when it has none. */
  datatype Traced = Traced(ring: PixelRing, area: real, parent: int)

  const NoParent: int := -1

  /** The operations the pipeline borrows from its geometry and imaging
      libraries. Nothing is assumed about them beyond their types.
      - isValid:    topological validity of a geometry
      - buffer0:    the zero-distance buffer repair
      - isPolygon:  whether a geometry is a single polygon (as opposed to a
                    multi-part collection)
      - parts:      the member geometries of a multi-part geometry
      - area:       the area of a geometry
      - intersects: the spatial intersection predicate
      - polygon:    polygon construction from a shell ring and hole rings
      - trace:      contour tracing with a two-level hierarchy, with the
                    area of every contour */
  datatype GeoOps<!G> = GeoOps(
    isValid: G -> bool,
    buffer0: G -> G,
    isPolygon: G -> bool,
    parts: G -> seq<G>,
    area: G -> real,
    intersects: (G, G) -> bool,
    polygon: (PixelRing, seq<PixelRing>) -> G,
    trace: Mask -> seq<Traced>)
}
