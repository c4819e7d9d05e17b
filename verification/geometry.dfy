/** Geometry of the road-map inference engine (anim_map/methods.py).

    Circular heading difference and Python's `int()` truncation are computed
    over exact `real`s; the rounding of the source's IEEE doubles is not
    modelled.  The geodesic primitives the engine borrows from
    geopy (distance, bearing, destination) and the planar direction
    `vector_direction_re_north` are floating-point trigonometry; they are
    kept abstract as the fields of a `Geo` record that every operation
    needing them receives as a parameter. */
module Geometry {

  /** A (longitude, latitude) pair.  The source keeps both the (lat, lon)
      and the (lon, lat) orders; the model keeps one record for both. */
  datatype Coord = Coord(lon: real, lat: real)

  /** The geodesic primitives, left abstract. */
  datatype Geo = Geo(
    /** geopy.distance.distance(a, b).meters */
    distance: (Coord, Coord) -> real,
    /** calculate_bearing(a, b): initial compass bearing from a to b */
    bearing: (Coord, Coord) -> real,
    /** vector_direction_re_north(s, d): planar direction of d seen from s */
    direction: (Coord, Coord) -> real,
    /** VincentyDistance(meters=m).destination(point=a, bearing=b) */
    destination: (Coord, real, real) -> Coord)

  /** `math.fabs` / `abs` on a real. */
  function Abs(x: real): (r: real)
    ensures r >= 0.0
    ensures r == x || r == -x
  {
    if x < 0.0 then -x else x
  }

  function Min(x: real, y: real): real {
    if x <= y then x else y
  }

  /** `diffangles(a1, a2)`: the circular difference of two headings in degrees. */
  function DiffAngles(a1: real, a2: real): (r: real)
    ensures r <= 180.0
    ensures 0.0 <= a1 < 360.0 && 0.0 <= a2 < 360.0 ==> 0.0 <= r
    ensures a1 == a2 ==> r == 0.0
  {
    180.0 - Abs(Abs(a1 - a2) - 180.0)
  }

  /** The heading difference does not depend on the order of its arguments. */
  lemma DiffAnglesSymmetric(a1: real, a2: real)
    ensures DiffAngles(a1, a2) == DiffAngles(a2, a1)
  {
    assert Abs(a1 - a2) == Abs(a2 - a1);
  }

  /** On headings in [0, 360) the formula is the shorter way round the
      circle: the direct difference or its complement to a full turn. */
  lemma DiffAnglesIsShorterArc(a1: real, a2: real)
    requires 0.0 <= a1 < 360.0 && 0.0 <= a2 < 360.0
    ensures DiffAngles(a1, a2) == Min(Abs(a1 - a2), 360.0 - Abs(a1 - a2))
  {
  }

  /** Python's `int(x)` on a float: truncation toward zero. */
  function TruncToInt(x: real): (r: int)
    ensures x >= 0.0 ==> 0 <= r && r as real <= x < r as real + 1.0
    ensures x < 0.0 ==> r <= 0 && r as real - 1.0 < x <= r as real
  {
    if x >= 0.0 then x.Floor else -((-x).Floor)
  }
}
