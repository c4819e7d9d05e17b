/** The incremental engine of `kharitaStar` (anim_map/methods.py:465-625):
    the state it carries from one GPS fix to the next and the per-fix step.
    Geometry is the abstract `Geo`; the spatial index is the snapshot of
    cluster positions taken at the last rebuild. */
module Kharita {
  import opened Wrappers
  import opened Geometry
  import opened Clusters
  import opened Search
  import opened Partition
  import opened Roadnet
  import opened Spatial

  /** The algorithm parameters the step reads. */
  datatype Config = Config(
    /** RADIUS_DEGREE: ball radius of the index query, in degrees */
    radius: real,
    /** HEADING_ANGLE_TOLERANCE, in degrees */
    tolerance: real,
    /** SAMPLING_DISTANCE: metres between fictional points */
    interval: int,
    /** fixes stamped before this instant are skipped */
    cutoff: int)

  /** A fix farther than this (in metres) from its trajectory's previous
      cluster is dropped. */
  const JumpMeters: real := 200.0

  /** Everything the loop of `kharitaStar` carries between fixes. */
  datatype State = State(
    clusters: seq<Cluster>,
    roadnet: Graph,
    /** list_of_edges */
    edgeList: seq<EdgeEntry>,
    /** edge_weight, parallel to list_of_edges */
    weights: seq<int>,
    /** building_trajectories: trajectory id to its latest cluster */
    building: map<int, nat>,
    /** the positions cluster_kdtree was built from */
    snapshot: seq<Coord>,
    /** update_kd_tree */
    dirty: bool,
    /** original_osm_clusters_lonlats */
    baseline: seq<Coord>,
    /** matched_osm_clusters */
    matched: seq<Coord>,
    /** new_osm_clusters */
    created: seq<Coord>)

  /** Cluster ids are list positions and counts match member lists. */
  ghost predicate Numbered(cs: seq<Cluster>) {
    forall i :: 0 <= i < |cs| ==> cs[i].cid == i && cs[i].CountConsistent()
  }

  /** The index snapshot is a prefix of the cluster positions (clusters
      never move and are only appended), and it is stale exactly when the
      rebuild flag is up. */
  ghost predicate SnapshotPrefix(s: State) {
    && |s.snapshot| <= |s.clusters|
    && (forall i :: 0 <= i < |s.snapshot| ==> s.snapshot[i] == s.clusters[i].Pos())
    && (s.dirty <==> |s.snapshot| < |s.clusters|)
  }

  /** The seeded clusters come first and `new_osm_clusters` lists the
      position of every cluster after them, in founding order. */
  ghost predicate CreatedTracked(s: State) {
    && |s.baseline| + |s.created| == |s.clusters|
    && forall j :: 0 <= j < |s.created| ==> s.created[j] == s.clusters[|s.baseline| + j].Pos()
  }

  /** The invariant of the engine's state. */
  ghost predicate Valid(s: State) {
    && Numbered(s.clusters)
    && SnapshotPrefix(s)
    && CreatedTracked(s)
    && (forall t :: t in s.building ==> s.building[t] < |s.clusters|)
    && NodesAre(s.roadnet, |s.clusters|)
    && EdgesListed(s.roadnet, Positions(s.clusters), s.edgeList)
    && |s.edgeList| == |s.weights|
    && (forall i :: 0 <= i < |s.weights| ==> s.weights[i] >= 0)
  }

  // ---------------------------------------------------------------------
  // Primitive updates

  /** `Cluster(cid=len(clusters), nb_points=1, ...)`, `clusters.append`,
      `roadnet.add_node`, `new_osm_clusters.append`, `update_kd_tree = True`. */
  function AppendCluster(s: State, at: Coord, angle: real, lastSeen: int): (r: State)
    requires Valid(s)
    ensures Valid(r)
    ensures r.clusters == s.clusters + [NewCluster(|s.clusters|, lastSeen, at, angle)]
  {
    var n := |s.clusters|;
    var r := s.(clusters := s.clusters + [NewCluster(n, lastSeen, at, angle)],
                roadnet := s.roadnet.AddNode(n),
                created := s.created + [at],
                dirty := true);
    PositionsPrefix(s.clusters, r.clusters);
    EdgesListedExtend(s.roadnet, Positions(s.clusters), s.edgeList, Positions(r.clusters), r.edgeList);
    CreatedAppend(s, r);
    r
  }

  lemma CreatedAppend(s: State, r: State)
    requires CreatedTracked(s) && r.baseline == s.baseline
    requires |r.clusters| == |s.clusters| + 1 && r.clusters[..|s.clusters|] == s.clusters
    requires r.created == s.created + [r.clusters[|s.clusters|].Pos()]
    ensures CreatedTracked(r)
  {
    var b := |s.baseline|;
    forall j | 0 <= j < |r.created| ensures r.created[j] == r.clusters[b + j].Pos() {
      if j < |s.created| {
        assert r.created[j] == s.created[j] && r.clusters[b + j] == s.clusters[b + j];
      }
    }
  }

  /** `list_of_edges.append([lonlat(a), lonlat(b)])`, `edge_weight.append(1)`,
      `roadnet.add_edge(a, b)`. */
  function Link(s: State, a: nat, b: nat): (r: State)
    requires Valid(s) && a < |s.clusters| && b < |s.clusters|
    ensures Valid(r)
    ensures r.clusters == s.clusters
  {
    var entry := EdgeEntry(s.clusters[a].Pos(), s.clusters[b].Pos());
    var r := s.(edgeList := s.edgeList + [entry], weights := s.weights + [1],
                roadnet := s.roadnet.AddEdge(a, b));
    assert r.edgeList[..|s.edgeList|] == s.edgeList;
    assert r.edgeList[|s.edgeList|] == entry;
    EdgesListedGrow(s.roadnet, Positions(s.clusters), s.edgeList, Positions(s.clusters), r.edgeList, a, b);
    r
  }

  /** `edge_weight[list_of_edges.index([lonlat(a), lonlat(b)])] += 1` on an
      edge of the graph, whose entry the invariant guarantees.  Coordinates
      may repeat in the list; `index` picks the first matching entry, and
      only its weight changes. */
  function Reinforce(s: State, a: nat, b: nat): (r: State)
    requires Valid(s) && (a, b) in s.roadnet.edges
    ensures Valid(r)
    ensures r.clusters == s.clusters && r.edgeList == s.edgeList && r.roadnet == s.roadnet
    ensures exists k ::
      && 0 <= k < |s.weights| && s.edgeList[k] == EdgeEntry(s.clusters[a].Pos(), s.clusters[b].Pos())
      && (forall j :: 0 <= j < k ==> s.edgeList[j] != s.edgeList[k])
      && r == s.(weights := s.weights[k := s.weights[k] + 1])
  {
    var e := EdgeEntry(s.clusters[a].Pos(), s.clusters[b].Pos());
    var k := FirstIndex(s.edgeList, e);
    assert forall j :: 0 <= j < k ==> s.edgeList[j] != e;
    s.(weights := s.weights[k := s.weights[k] + 1])
  }

  /** `clusters[k].add(q)`. */
  function AddMember(s: State, k: nat, q: GpsPoint): (r: State)
    requires Valid(s) && k < |s.clusters|
    ensures Valid(r)
    ensures r.clusters == s.clusters[k := s.clusters[k].Add(q)]
  {
    var r := s.(clusters := s.clusters[k := s.clusters[k].Add(q)]);
    PositionsUpdate(s.clusters, k, s.clusters[k].Add(q));
    r
  }

  /** `building_trajectories[traj_id] = current_cluster`: the trajectory's
      latest cluster is now `cur`, and nothing else changes. */
  function MoveTo(s: State, traj: int, cur: nat): (r: State)
    requires Valid(s) && cur < |s.clusters|
    ensures Valid(r)
    ensures r.building == s.building[traj := cur] && r.(building := s.building) == s
  {
    s.(building := s.building[traj := cur])
  }

  /** `if update_kd_tree: cluster_kdtree = cKDTree(...); update_kd_tree = False`. */
  function Rebuild(s: State): (r: State)
    requires Valid(s)
    ensures Valid(r)
    ensures !r.dirty && r.snapshot == Positions(r.clusters)
    ensures r.clusters == s.clusters
  {
    if s.dirty then s.(snapshot := Positions(s.clusters), dirty := false) else
      assert s.snapshot == Positions(s.clusters);
      s
  }

  // ---------------------------------------------------------------------
  // Matching

  /** The geodesic distance from `at` to each candidate cluster. */
  function Distances(clusters: seq<Cluster>, at: Coord, cands: seq<nat>, geo: Geo): (ds: seq<real>)
    requires forall j :: 0 <= j < |cands| ==> cands[j] < |clusters|
    ensures |ds| == |cands|
    ensures forall j :: 0 <= j < |cands| ==> ds[j] == geo.distance(at, clusters[cands[j]].Pos())
  {
    seq(|cands|, j requires 0 <= j < |cands| => geo.distance(at, clusters[cands[j]].Pos()))
  }

  /** `cands[distances.index(min(distances))]`. */
  function Nearest(clusters: seq<Cluster>, at: Coord, cands: seq<nat>, geo: Geo): (k: nat)
    requires |cands| > 0
    requires forall j :: 0 <= j < |cands| ==> cands[j] < |clusters|
    ensures k in cands
  {
    var ds := Distances(clusters, at, cands, geo);
    cands[FirstIndex(ds, MinOf(ds))]
  }

  /** The candidates of a fix (or fictional point) at `at` heading `angle`. */
  function CandidatesOf(s: State, at: Coord, angle: real, cfg: Config): (cands: seq<nat>)
    requires Valid(s)
    ensures forall j :: 0 <= j < |cands| ==> cands[j] < |s.snapshot| <= |s.clusters|
  {
    var cands := Candidates(s.snapshot, s.clusters, at, angle, cfg.radius, cfg.tolerance);
    assert forall j :: 0 <= j < |cands| ==> cands[j] in cands;
    cands
  }

  /** The cluster a fictional point belongs to, if any (`-1` in the source). */
  function MatchHole(s: State, hole: GpsPoint, cfg: Config, geo: Geo): (id: Option<nat>)
    requires Valid(s)
    ensures id.Some? ==> id.value < |s.snapshot|
  {
    var cands := CandidatesOf(s, hole.Pos(), hole.angle, cfg);
    if |cands| == 0 then None else Some(Nearest(s.clusters, hole.Pos(), cands, geo))
  }

  /** `intermediate_fictional_cluster_ids`: every hole matched against the
      same, stale, index before any is turned into a cluster. */
  function HoleIds(s: State, holes: seq<GpsPoint>, cfg: Config, geo: Geo): (ids: seq<Option<nat>>)
    requires Valid(s)
    ensures |ids| == |holes|
    ensures forall j :: 0 <= j < |ids| ==> ids[j] == MatchHole(s, holes[j], cfg, geo)
    ensures IdsBelow(ids, |s.snapshot|)
  {
    seq(|holes|, j requires 0 <= j < |holes| => MatchHole(s, holes[j], cfg, geo))
  }

  // ---------------------------------------------------------------------
  // Chaining the fictional points

  /** Where the chain stands: the state and `prev_path_point`. */
  datatype Walker = Walker(s: State, at: nat)

  /** The edge from `from` to a new cluster `to` is drawn only when `to`
      heads like `from` and lies in the direction `from` is heading. */
  predicate HeadingConsistent(from: Cluster, to: Cluster, tolerance: real, geo: Geo) {
    && HeadingClose(from.angle, to.angle, tolerance)
    && HeadingClose(geo.direction(from.Pos(), to.Pos()), from.angle, tolerance)
  }

  /** All ids name existing clusters. */
  predicate IdsBelow(ids: seq<Option<nat>>, n: nat) {
    forall j :: 0 <= j < |ids| ==> ids[j].Some? ==> ids[j].value < n
  }

  /** One iteration of the loop over `intermediate_fictional_cluster_ids`. */
  function ChainHole(w: Walker, hole: GpsPoint, id: Option<nat>, stamp: int, cfg: Config, geo: Geo): (r: Walker)
    requires Valid(w.s) && w.at < |w.s.clusters|
    requires id.Some? ==> id.value < |w.s.clusters|
    ensures Valid(r.s) && r.at < |r.s.clusters|
    ensures |w.s.clusters| <= |r.s.clusters|
  {
    match id
    case None =>
      var c := |w.s.clusters|;
      var s1 := AppendCluster(w.s, hole.Pos(), hole.angle, stamp);
      if !HeadingConsistent(s1.clusters[w.at], s1.clusters[c], cfg.tolerance, geo) then
        Walker(s1, c)
      else if !Listed(IdPair(w.at, c), s1.edgeList) then
        Walker(Link(s1, w.at, c), c)
      else
        // `edge_weight[list_of_edges.index(...)] += 1` is never reached: an
        // id pair is never found among coordinate pairs.
        IdPairNeverListed(w.at, c, s1.edgeList);
        assert false;
        w
    case Some(k) =>
      Walker(AddMember(w.s, k, hole), k)
  }

  /** The whole loop over the holes, in order. */
  function Chain(w: Walker, holes: seq<GpsPoint>, ids: seq<Option<nat>>, stamp: int, cfg: Config, geo: Geo): (r: Walker)
    requires Valid(w.s) && w.at < |w.s.clusters|
    requires |holes| == |ids| && IdsBelow(ids, |w.s.clusters|)
    ensures Valid(r.s) && r.at < |r.s.clusters|
    ensures |w.s.clusters| <= |r.s.clusters|
    decreases |holes|
  {
    if |holes| == 0 then w
    else
      var w1 := ChainHole(w, holes[0], ids[0], stamp, cfg, geo);
      Chain(w1, holes[1..], ids[1..], stamp, cfg, geo)
  }

  /** The edge closing the chain at the fix's own new cluster `cur`. */
  function FinalEdge(w: Walker, cur: nat, ids: seq<Option<nat>>): (r: State)
    requires Valid(w.s) && w.at < |w.s.clusters| && cur < |w.s.clusters|
    ensures Valid(r)
    ensures r.clusters == w.s.clusters
  {
    if (|ids| == 0 || ids[|ids| - 1] != Some(cur)) && (w.at, cur) !in w.s.roadnet.edges then
      Link(w.s, w.at, cur)
    else if (w.at, cur) in w.s.roadnet.edges then
      Reinforce(w.s, w.at, cur)
    else
      w.s
  }

  // ---------------------------------------------------------------------
  // The step

  /** The gap from the trajectory's previous cluster `prev` to the fix's
      new cluster `cur` is filled: the holes are matched against the stale
      index, chained from `prev`, and closed with an edge into `cur`; the
      trajectory moves to `cur` and the index is rebuilt. */
  function Extend(s: State, traj: int, prev: nat, cur: nat, stamp: int, cfg: Config, geo: Geo): (r: State)
    requires Valid(s) && cfg.interval > 0 && prev < |s.clusters| && cur < |s.clusters|
    ensures Valid(r)
  {
    var holes := PartitionEdge(s.clusters[prev], s.clusters[cur], cfg.interval, geo);
    var ids := HoleIds(s, holes, cfg, geo);
    var w := Chain(Walker(s, prev), holes, ids, stamp, cfg, geo);
    Rebuild(MoveTo(FinalEdge(w, cur, ids), traj, cur))
  }

  /** No candidate: the fix founds a cluster, and unless it starts its
      trajectory, the gap from the trajectory's previous cluster is filled
      with fictional clusters and edges. */
  function CreateBranch(s: State, p: GpsPoint, traj: int, prev: Option<nat>, cfg: Config, geo: Geo): (r: State)
    requires Valid(s) && cfg.interval > 0
    requires prev.Some? ==> prev.value < |s.clusters|
    ensures Valid(r)
  {
    var cur := |s.clusters|;
    var s1 := AppendCluster(s, p.Pos(), p.angle, p.timestamp);
    if prev.None? then
      // `continue`: the index is not rebuilt
      MoveTo(s1, traj, cur)
    else
      Extend(s1, traj, prev.value, cur, p.timestamp, cfg, geo)
  }

  /** Some candidate: the fix joins the nearest one, which is recorded as a
      matched OSM cluster when it sits where an OSM cluster was seeded. */
  function MatchBranch(s: State, p: GpsPoint, cands: seq<nat>, geo: Geo): (r: State)
    requires Valid(s) && |cands| > 0
    requires forall j :: 0 <= j < |cands| ==> cands[j] < |s.clusters|
    ensures Valid(r)
  {
    var k := Nearest(s.clusters, p.Pos(), cands, geo);
    var s1 := AddMember(s, k, p);
    if s.clusters[k].Pos() in s.baseline then Matched(s1, s.clusters[k].Pos()) else s1
  }

  /** `matched_osm_clusters.append(c)`. */
  function Matched(s: State, c: Coord): (r: State)
    requires Valid(s)
    ensures Valid(r)
    ensures r.matched == s.matched + [c] && r.(matched := s.matched) == s
  {
    s.(matched := s.matched + [c])
  }

  /** The body of the loop over `gps_point_stream`. */
  function Step(s: State, p: GpsPoint, cfg: Config, geo: Geo): (r: State)
    requires Valid(s) && cfg.interval > 0
    requires p.trajId.Some?
    ensures Valid(r)
  {
    if p.timestamp < cfg.cutoff then s
    else
      var traj := p.trajId.value;
      var prev := if traj in s.building then Some(s.building[traj]) else None;
      var cands := CandidatesOf(s, p.Pos(), p.angle, cfg);
      if prev.Some? && geo.distance(s.clusters[prev.value].Pos(), p.Pos()) > JumpMeters then s
      else if |cands| == 0 then CreateBranch(s, p, traj, prev, cfg, geo)
      else Rebuild(MatchBranch(s, p, cands, geo))
  }
}
