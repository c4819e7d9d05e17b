/** The GPS fix record and the cluster aggregate (anim_map/methods.py:16-70). */
module Clusters {
  import opened Wrappers
  import opened Geometry

  /** A GPS fix.  Timestamps are whole seconds; `trajId` is absent until the
      stream driver tags the fix with the index of its trajectory, and stays
      absent on fictional points. */
  datatype GpsPoint = GpsPoint(
    vehicleId: int,
    lon: real,
    lat: real,
    speed: real,
    timestamp: int,
    angle: real,
    trajId: Option<int>)
  {
    function Pos(): Coord {
      Coord(lon, lat)
    }
  }

  /** A discovered road-segment anchor.  Its position and heading are fixed at
      creation: centroid recomputation is disabled, so only `lastSeen`,
      `nbPoints` and `points` grow. */
  datatype Cluster = Cluster(
    cid: int,
    lon: real,
    lat: real,
    angle: real,
    lastSeen: int,
    nbPoints: int,
    points: seq<GpsPoint>)
  {
    function Pos(): Coord {
      Coord(lon, lat)
    }

    /** Every cluster is created with a count of one and no members, and each
        addition bumps both by one. */
    predicate CountConsistent() {
      nbPoints == |points| + 1
    }

    /** `Cluster.add`: append a member and advance `lastSeen`; position and
        heading stay where they were. */
    function Add(p: GpsPoint): (c: Cluster)
      ensures c.points == points + [p]
      ensures c.nbPoints == nbPoints + 1
      ensures c.lastSeen == p.timestamp
      ensures c.cid == cid && c.Pos() == Pos() && c.angle == angle
      ensures CountConsistent() ==> c.CountConsistent()
    {
      this.(points := points + [p], nbPoints := nbPoints + 1, lastSeen := p.timestamp)
    }
  }

  /** `Cluster(cid=.., nb_points=1, last_seen=.., lat=.., lon=.., angle=..)`:
      every construction site in the engine passes a count of one. */
  function NewCluster(cid: int, lastSeen: int, at: Coord, angle: real): (c: Cluster)
    ensures c.cid == cid && c.Pos() == at && c.angle == angle && c.lastSeen == lastSeen
    ensures c.points == [] && c.CountConsistent()
  {
    Cluster(cid, at.lon, at.lat, angle, lastSeen, 1, [])
  }

  /** The point that `partition_edge` builds for a hole: no vehicle, no speed,
      no trajectory. */
  function FictionalPoint(at: Coord, angle: real, timestamp: int): (p: GpsPoint)
    ensures p.Pos() == at && p.angle == angle && p.timestamp == timestamp
    ensures p.trajId.None?
  {
    GpsPoint(0, at.lon, at.lat, 0.0, timestamp, angle, None)
  }

  /** `[c.get_lonlat() for c in clusters]`. */
  function Positions(cs: seq<Cluster>): (ps: seq<Coord>)
    ensures |ps| == |cs|
    ensures forall i :: 0 <= i < |cs| ==> ps[i] == cs[i].Pos()
  {
    if |cs| == 0 then [] else Positions(cs[..|cs| - 1]) + [cs[|cs| - 1].Pos()]
  }

  /** Appending clusters leaves the positions of the earlier ones alone. */
  lemma PositionsPrefix(cs: seq<Cluster>, ds: seq<Cluster>)
    requires |cs| <= |ds| && ds[..|cs|] == cs
    ensures Positions(ds)[..|cs|] == Positions(cs)
  {
    assert forall i :: 0 <= i < |cs| ==> ds[i] == cs[i];
  }

  /** Replacing a cluster by one at the same place leaves the positions
      alone. */
  lemma PositionsUpdate(cs: seq<Cluster>, k: int, c: Cluster)
    requires 0 <= k < |cs| && c.Pos() == cs[k].Pos()
    ensures Positions(cs[k := c]) == Positions(cs)
  {
  }
}
