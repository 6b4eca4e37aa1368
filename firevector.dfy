/** The geometry engine the fire objects call (`FireVector` and shapely),
    seen only through its interface: hulls and fire lines are symbolic
    values, and every measurement is a function supplied by the engine. */
module FireVector {
  import opened Wrappers

  /** A projected location (metres). */
  datatype Point = Point(x: real, y: real)

  /** A closed boundary curve. */
  type Ring = seq<Point>

  datatype Sensor = VIIRS | MODIS

  /** A fire hull, by the geometry type the engine reports for it:
      one polygon, several polygons, or something else (a degenerate hull). */
  datatype Shape =
    | Polygon(exterior: Ring)
    | MultiPolygon(exteriors: seq<Ring>)
    | OtherShape(points: seq<Point>)

  /** Geometry built while extracting a fire line. */
  datatype Geom =
    | MultiPoint(pts: seq<Point>)
    | Buffer(base: Geom, dist: real)
    | Lines(rings: seq<Ring>)
    | Intersection(left: Geom, right: Geom)

  /** The engine's operations. `hullOf` may give no hull; `within(a, b)` says
      that `a` lies inside `b`; areas are in m2 and lengths in m;
      `flineMask` marks which of the given new pixels lie near the hull
      boundary, or fails (None). */
  datatype Engine = Engine(
    hullOf: (seq<Point>, Sensor) -> Option<Shape>,
    union: (Shape, Shape) -> Shape,
    within: (Shape, Shape) -> bool,
    area: Shape -> real,
    length: Shape -> real,
    lineLength: Geom -> real,
    flineMask: (seq<Point>, Shape) -> Option<seq<bool>>)

  /** What the model assumes of the engine: a union contains both operands,
      and a shape inside another has no larger area. */
  ghost predicate Sound(g: Engine) {
    && (forall a, b :: g.within(a, g.union(a, b)) && g.within(b, g.union(a, b)))
    && (forall a, b :: g.within(a, b) ==> g.area(a) <= g.area(b))
  }

  /** The exterior boundary curves of a hull, one per part. */
  function Exteriors(h: Shape): seq<Ring> {
    match h
    case Polygon(e) => [e]
    case MultiPolygon(es) => es
    case OtherShape(_) => []
  }

  /** The fire line of hull `h` given the fire-line pixel locations `flp`:
      the buffered points themselves for a degenerate hull, otherwise the
      part of the hull's exterior curves that meets the points buffered twice. */
  function FireLineOf(h: Shape, flp: seq<Point>, viirsBuf: real, flBuffer: real): (g: Geom)
    ensures h.OtherShape? ==> g == Buffer(MultiPoint(flp), viirsBuf)
    ensures !h.OtherShape? ==>
      g == Intersection(Lines(Exteriors(h)), Buffer(Buffer(MultiPoint(flp), viirsBuf), flBuffer))
  {
    var near := Buffer(MultiPoint(flp), viirsBuf);
    match h
    case MultiPolygon(es) => Intersection(Lines(es), Buffer(near, flBuffer))
    case Polygon(e) => Intersection(Lines([e]), Buffer(near, flBuffer))
    case OtherShape(_) => near
  }

  /** A one-part hull gets the same fire line as a multi-part hull holding
      that one part. This records a modelling choice: the single exterior of
      a polygon is taken as a one-curve collection, the same shape the
      multi-part branch builds from its exteriors. */
  lemma SinglePartAsMultiPart(e: Ring, flp: seq<Point>, viirsBuf: real, flBuffer: real)
    ensures FireLineOf(Polygon(e), flp, viirsBuf, flBuffer)
         == FireLineOf(MultiPolygon([e]), flp, viirsBuf, flBuffer)
  {
  }
}
