/** `kharitaStar` end to end (anim_map/methods.py:451-630): the trajectories
    are cut and merged into one time-ordered stream, the OSM map seeds the
    state, every fix is stepped through, and the seeded clusters no fix
    matched are reported dead. */
module Driver {
  import opened Wrappers
  import opened Geometry
  import opened Clusters
  import opened Roadnet
  import opened Search
  import opened Sorting
  import opened Trajectories
  import opened Osm
  import opened Kharita
  import opened ChainFacts
  import opened StepFacts

  /** `waiting_threshold` passed to `create_trajectories`, in seconds. */
  const WaitingThreshold: int := 21

  /** The state right after seeding: the index is built over the seeded
      clusters, which are also the OSM baseline; no trajectory is under
      construction and nothing is matched or created yet. */
  function FromSeed(g: Seed): State {
    var ps := Positions(g.clusters);
    State(g.clusters, g.roadnet, g.edgeList, g.weights, map[], ps, false, ps, [], [])
  }

  /** A well-formed seed gives a valid engine state whose clusters have no
      members yet. */
  lemma FromSeedValid(g: Seed)
    requires SeedValid(g)
    ensures Valid(FromSeed(g)) && MatchedSeeded(FromSeed(g))
    ensures forall i :: 0 <= i < |g.clusters| ==> g.clusters[i].points == []
  {
    var s := FromSeed(g);
    assert Numbered(s.clusters);
    assert SnapshotPrefix(s);
  }

  function InitialState(lines: seq<OsmLine>, now: int): (s: State)
    ensures Valid(s) && MatchedSeeded(s)
    ensures s.clusters == BuildInitialGraph(lines, now).clusters
    ensures s.roadnet == BuildInitialGraph(lines, now).roadnet
    ensures s.baseline == Positions(s.clusters)
    ensures forall i :: 0 <= i < |s.clusters| ==> s.clusters[i].points == []
  {
    var g := BuildInitialGraph(lines, now);
    SeedingValid(lines, now);
    FromSeedValid(g);
    FromSeed(g)
  }

  /** Member points of clusters without members fit any configuration. */
  lemma EmptyAligned(cs: seq<Cluster>, cfg: Config)
    requires forall i :: 0 <= i < |cs| ==> cs[i].points == []
    ensures Aligned(cs, cfg)
  {
  }

  /** The loop over `gps_point_stream`. */
  function Run(s: State, ps: seq<GpsPoint>, cfg: Config, geo: Geo): (r: State)
    requires Valid(s) && cfg.interval > 0
    requires forall i :: 0 <= i < |ps| ==> ps[i].trajId.Some?
    ensures Valid(r)
    decreases |ps|
  {
    if |ps| == 0 then s else Run(Step(s, ps[0], cfg, geo), ps[1..], cfg, geo)
  }

  lemma GrowsReflexive(s: State)
    ensures Grows(s, s)
  {
    SameEdgesAppended(s, s);
    assert s.matched[..|s.matched|] == s.matched;
  }

  lemma GrowsTransitive(a: State, b: State, c: State)
    requires Grows(a, b) && Grows(b, c)
    ensures Grows(a, c)
  {
    GrownTransitive(a.clusters, b.clusters, c.clusters);
    EdgesAppendedTransitive(a, b, c);
    assert c.matched[..|a.matched|] == c.matched[..|b.matched|][..|a.matched|];
  }

  /** Over the whole stream the map only grows: no cluster moves, entries
      and weights are only appended, no edge is removed, the baseline stays,
      matched clusters are only appended and are all seeded. */
  lemma {:induction false} RunGrows(s: State, ps: seq<GpsPoint>, cfg: Config, geo: Geo)
    requires Valid(s) && cfg.interval > 0
    requires forall i :: 0 <= i < |ps| ==> ps[i].trajId.Some?
    ensures Grows(s, Run(s, ps, cfg, geo))
    decreases |ps|
  {
    if |ps| == 0 {
      GrowsReflexive(s);
    } else {
      var s1 := Step(s, ps[0], cfg, geo);
      StepGrows(s, ps[0], cfg, geo);
      RunGrows(s1, ps[1..], cfg, geo);
      GrowsTransitive(s, s1, Run(s1, ps[1..], cfg, geo));
    }
  }

  /** Over the whole stream every member point fits its cluster. */
  lemma {:induction false} RunAligned(s: State, ps: seq<GpsPoint>, cfg: Config, geo: Geo)
    requires Valid(s) && cfg.interval > 0
    requires forall i :: 0 <= i < |ps| ==> ps[i].trajId.Some?
    requires Aligned(s.clusters, cfg)
    ensures Aligned(Run(s, ps, cfg, geo).clusters, cfg)
    decreases |ps|
  {
    if |ps| > 0 {
      StepAligned(s, ps[0], cfg, geo);
      RunAligned(Step(s, ps[0], cfg, geo), ps[1..], cfg, geo);
    }
  }

  /** `dead_osm_clusters`: the seeded positions no fix matched, in seeding
      order. */
  function DeadClusters(baseline: seq<Coord>, matched: seq<Coord>): (dead: seq<Coord>)
    ensures forall c :: c in dead <==> c in baseline && c !in matched
    ensures |dead| <= |baseline|
  {
    if |baseline| == 0 then []
    else
      var rest := DeadClusters(baseline[..|baseline| - 1], matched);
      var c := baseline[|baseline| - 1];
      assert forall x :: x in baseline <==> x in baseline[..|baseline| - 1] || x == c;
      if c !in matched then rest + [c] else rest
  }

  /** Matching more only shrinks the dead list. */
  lemma {:induction false} DeadShrinks(baseline: seq<Coord>, matched: seq<Coord>, more: seq<Coord>)
    ensures |DeadClusters(baseline, matched + more)| <= |DeadClusters(baseline, matched)|
    decreases |baseline|
  {
    if |baseline| > 0 {
      var c := baseline[|baseline| - 1];
      DeadShrinks(baseline[..|baseline| - 1], matched, more);
      if c in matched {
        assert c in matched + more;
      }
    }
  }

  /** A valid state grown from one whose positions are its baseline lists
      the seeded positions and then the created ones. */
  lemma SeededThenCreated(s: State, r: State)
    requires s.baseline == Positions(s.clusters) && Valid(r) && Grows(s, r)
    ensures Positions(r.clusters) == s.baseline + r.created
  {
    var n := |s.baseline|;
    forall i | 0 <= i < |r.clusters|
      ensures Positions(r.clusters)[i] == (s.baseline + r.created)[i]
    {
      if i >= n {
        assert r.created[i - n] == r.clusters[n + (i - n)].Pos();
      }
    }
  }

  /** What `kharitaStar` returns. */
  datatype Output = Output(
    roadnet: Graph,
    clusters: seq<Cluster>,
    matched: seq<Coord>,
    created: seq<Coord>,
    dead: seq<Coord>)

  /** The stream `kharitaStar` consumes: time-ordered, and holding fix `m`
      of trajectory `i` tagged `i`, for every trajectory and fix, and
      nothing else. */
  function Stream(fixes: seq<GpsPoint>, vehicles: seq<int>): (ps: seq<GpsPoint>)
    requires VehicleOrder(fixes, vehicles)
    ensures forall i :: 0 <= i < |ps| ==> ps[i].trajId.Some?
    ensures SortedByTime(ps)
    ensures var ts := CreateTrajectories(fixes, WaitingThreshold, vehicles);
      && |ps| == |Flatten(ts)|
      && (forall i, m :: 0 <= i < |ts| && 0 <= m < |ts[i]| ==> ts[i][m].(trajId := Some(i)) in ps)
      && (forall p :: p in ps ==>
            exists i, m :: 0 <= i < |ts| && 0 <= m < |ts[i]| && p == ts[i][m].(trajId := Some(i)))
  {
    var ts := CreateTrajectories(fixes, WaitingThreshold, vehicles);
    PointStreamHolds(ts);
    PointStream(ts)
  }

  /** `kharitaStar`.  The seeded clusters all survive where they were and
      every member point fits its cluster; the OSM lines' edges are all
      still in the graph; matched clusters are seeded ones; a seeded
      position is dead exactly when no fix matched it; the created list
      holds the positions of every cluster past the seeded ones, in order. */
  function KharitaStar(fixes: seq<GpsPoint>, vehicles: seq<int>, lines: seq<OsmLine>, now: int, cfg: Config, geo: Geo): (o: Output)
    requires VehicleOrder(fixes, vehicles) && cfg.interval > 0
    ensures var seeded := Positions(BuildInitialGraph(lines, now).clusters);
      && |seeded| <= |o.clusters|
      && (forall i :: 0 <= i < |seeded| ==> o.clusters[i].Pos() == seeded[i])
      && Aligned(o.clusters, cfg)
      && (forall i :: 0 <= i < |o.matched| ==> o.matched[i] in seeded)
      && (forall c :: c in o.dead <==> c in seeded && c !in o.matched)
      && BuildInitialGraph(lines, now).roadnet.edges <= o.roadnet.edges
      && Positions(o.clusters) == seeded + o.created
  {
    var s0 := InitialState(lines, now);
    var ps := Stream(fixes, vehicles);
    var r := Run(s0, ps, cfg, geo);
    RunGrows(s0, ps, cfg, geo);
    EmptyAligned(s0.clusters, cfg);
    RunAligned(s0, ps, cfg, geo);
    SeededThenCreated(s0, r);
    Output(r.roadnet, r.clusters, r.matched, r.created, DeadClusters(r.baseline, r.matched))
  }

  /** Every OSM line still has its edge in the output graph, between
      clusters that still sit at the line's two ends. */
  lemma OsmLinesSurvive(fixes: seq<GpsPoint>, vehicles: seq<int>, lines: seq<OsmLine>, now: int, cfg: Config, geo: Geo, i: int)
    requires VehicleOrder(fixes, vehicles) && cfg.interval > 0 && 0 <= i < |lines|
    ensures var o := KharitaStar(fixes, vehicles, lines, now, cfg, geo);
      exists a: nat, b: nat :: a < |o.clusters| && b < |o.clusters| && (a, b) in o.roadnet.edges
        && o.clusters[a].Pos() == lines[i].Src() && o.clusters[b].Pos() == lines[i].Dst()
  {
    var o := KharitaStar(fixes, vehicles, lines, now, cfg, geo);
    var ps := Positions(BuildInitialGraph(lines, now).clusters);
    SeedingLineIsEdge(lines, now, i);
    var a := FirstIndex(ps, lines[i].Src());
    var b := FirstIndex(ps, lines[i].Dst());
    assert (a, b) in o.roadnet.edges;
    assert o.clusters[a].Pos() == ps[a];
  }
}
