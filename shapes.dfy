/**
 * The records the script reads: planar points, polygons given by their vertex rings, and the
 * attribute rows of the boundary dataset. Coordinates are an abstract ordered pair; the float
 * values of the projected coordinate system are not modelled.
 */
module Shapes {

  datatype Point = Point(x: int, y: int)

  /** Lexicographic order on points, first `x` then `y`: the row order of `np.unique(axis=0)`. */
  predicate PointLess(p: Point, q: Point)
  {
    p.x < q.x || (p.x == q.x && p.y < q.y)
  }

  /** One polygon: its exterior ring (`part.exterior.coords`) and its holes. */
  datatype Part = Part(exterior: seq<Point>, interiors: seq<seq<Point>>)

  datatype Geometry = Polygon(shell: Part) | MultiPolygon(members: seq<Part>)

  /** `geom.geoms if geom.geom_type == "MultiPolygon" else [geom]`. */
  function Parts(g: Geometry): seq<Part>
  {
    match g
    case Polygon(p) => [p]
    case MultiPolygon(ps) => ps
  }

  /** One row of the boundary dataset, with the columns the script reads. */
  datatype Row = Row(
    parentName: string,
    parentSubtype: string,   // already through `.astype(str)`
    shapeClass: string,
    shapeId: string,
    countryId: string,
    geometry: Geometry)
}
