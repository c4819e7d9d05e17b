/** `partition_edge` (anim_map/methods.py:178-209): the fictional points
    ("holes") laid every `interval` metres along a new edge. */
module Partition {
  import opened Geometry
  import opened Clusters

  /** `n` holes walked from `from`, each one `interval` metres further along
      `bearing` than the one before, all carrying the same heading and
      timestamp. */
  function Walk(from: Coord, bearing: real, interval: int, n: nat, timestamp: int, geo: Geo): (holes: seq<GpsPoint>)
    ensures |holes| == n
    decreases n
  {
    if n == 0 then []
    else
      var next := geo.destination(from, bearing, interval as real);
      [FictionalPoint(next, bearing, timestamp)] + Walk(next, bearing, interval, n - 1, timestamp, geo)
  }

  /** The number of holes on an edge of length `d`: Python 2's
      `int(d) / interval` on integers. */
  function HoleCount(d: real, interval: int): int
    requires interval > 0
  {
    TruncToInt(d) / interval
  }

  /** `partition_edge([a, b], interval)`.  An edge shorter than the interval
      gets no hole; otherwise `int(d) / interval` holes, all heading along the
      bearing from `a` to `b`, and all stamped `a.lastSeen` plus ONE time
      increment (the increment is not multiplied by the hole's rank). */
  function PartitionEdge(a: Cluster, b: Cluster, interval: int, geo: Geo): (holes: seq<GpsPoint>)
    requires interval > 0
    ensures geo.distance(a.Pos(), b.Pos()) < interval as real <==> |holes| == 0
    ensures geo.distance(a.Pos(), b.Pos()) >= interval as real ==>
      |holes| == HoleCount(geo.distance(a.Pos(), b.Pos()), interval) >= 1
  {
    var d := geo.distance(a.Pos(), b.Pos());
    if d < interval as real then []
    else
      var n := HoleCount(d, interval);
      var bearing := geo.bearing(a.Pos(), b.Pos());
      var increment := (b.lastSeen - a.lastSeen) / n;
      Walk(a.Pos(), bearing, interval, n, a.lastSeen + increment, geo)
  }

  lemma {:induction false} WalkShape(from: Coord, bearing: real, interval: int, n: nat, timestamp: int, geo: Geo)
    ensures var holes := Walk(from, bearing, interval, n, timestamp, geo);
      && (forall i :: 0 <= i < n ==> holes[i].angle == bearing && holes[i].timestamp == timestamp)
      && (forall i :: 0 <= i < n ==> holes[i].trajId.None? && holes[i].vehicleId == 0)
      && (n > 0 ==> holes[0].Pos() == geo.destination(from, bearing, interval as real))
      && (forall i :: 0 <= i < n - 1 ==>
            holes[i + 1].Pos() == geo.destination(holes[i].Pos(), bearing, interval as real))
    decreases n
  {
    if n > 0 {
      var next := geo.destination(from, bearing, interval as real);
      var holes := Walk(from, bearing, interval, n, timestamp, geo);
      var rest := Walk(next, bearing, interval, n - 1, timestamp, geo);
      WalkShape(next, bearing, interval, n - 1, timestamp, geo);
      assert holes[1..] == rest;
      forall i | 0 <= i < n - 1
        ensures holes[i + 1].Pos() == geo.destination(holes[i].Pos(), bearing, interval as real)
      {
        assert holes[i + 1] == rest[i];
        if i > 0 {
          assert holes[i] == rest[i - 1];
        }
      }
    }
  }

  /** Every hole of a long enough edge heads along the bearing from `a` to
      `b` and carries the single timestamp `a.lastSeen + (b.lastSeen -
      a.lastSeen) / n` (floor division); the first hole is one interval from
      `a` and each further hole one interval past the previous one. */
  lemma HolesAlongBearing(a: Cluster, b: Cluster, interval: int, geo: Geo)
    requires interval > 0
    requires geo.distance(a.Pos(), b.Pos()) >= interval as real
    ensures var holes := PartitionEdge(a, b, interval, geo);
      var bearing := geo.bearing(a.Pos(), b.Pos());
      var n := |holes|;
      var stamp := a.lastSeen + (b.lastSeen - a.lastSeen) / n;
      && (forall i :: 0 <= i < n ==> holes[i].angle == bearing && holes[i].timestamp == stamp)
      && holes[0].Pos() == geo.destination(a.Pos(), bearing, interval as real)
      && (forall i :: 0 <= i < n - 1 ==>
            holes[i + 1].Pos() == geo.destination(holes[i].Pos(), bearing, interval as real))
  {
    var d := geo.distance(a.Pos(), b.Pos());
    var n := HoleCount(d, interval);
    WalkShape(a.Pos(), geo.bearing(a.Pos(), b.Pos()), interval, n,
      a.lastSeen + (b.lastSeen - a.lastSeen) / n, geo);
  }
}
