/** `build_initial_graph_from_osm` (anim_map/methods.py:402-429): the map the
    engine starts from.  Reading the file is left to the caller; the model
    takes its lines already split into six numbers. */
module Osm {
  import opened Geometry
  import opened Clusters
  import opened Roadnet
  import opened Search

  /** One line `slon slat sang tlon tlat tang` of the OSM extract. */
  datatype OsmLine = OsmLine(slon: real, slat: real, sang: real, tlon: real, tlat: real, tang: real)
  {
    function Src(): Coord { Coord(slon, slat) }
    function Dst(): Coord { Coord(tlon, tlat) }
  }

  /** The four structures the seeding returns. */
  datatype Seed = Seed(clusters: seq<Cluster>, roadnet: Graph, edgeList: seq<EdgeEntry>, weights: seq<int>)

  /** Append a cluster at `at` unless one already sits at exactly those
      coordinates; its id is its position in the list. */
  function EnsureCluster(cs: seq<Cluster>, at: Coord, angle: real, now: int): (r: seq<Cluster>)
    ensures at in Positions(r)
    ensures at in Positions(cs) ==> r == cs
    ensures at !in Positions(cs) ==> r == cs + [NewCluster(|cs|, now, at, angle)]
  {
    if at !in Positions(cs) then cs + [NewCluster(|cs|, now, at, angle)] else cs
  }

  /** The loop body for one line: both end clusters exist afterwards, the
      graph gets the edge between their ids, the edge list the coordinate
      pair, and the weight list a 0. */
  function SeedLine(g: Seed, line: OsmLine, now: int): (r: Seed)
    ensures r.edgeList == g.edgeList + [EdgeEntry(line.Src(), line.Dst())]
    ensures r.weights == g.weights + [0]
    ensures |g.clusters| <= |r.clusters| && r.clusters[..|g.clusters|] == g.clusters
    ensures line.Src() in Positions(r.clusters) && line.Dst() in Positions(r.clusters)
    ensures r.roadnet.edges == g.roadnet.edges
      + {(FirstIndex(Positions(r.clusters), line.Src()), FirstIndex(Positions(r.clusters), line.Dst()))}
  {
    var cs1 := EnsureCluster(g.clusters, line.Src(), line.sang, now);
    var cs := LineClusters(g.clusters, line, now);
    assert cs1[..|g.clusters|] == g.clusters && cs[..|cs1|] == cs1;
    assert cs[..|g.clusters|] == cs[..|cs1|][..|g.clusters|];
    assert line.Src() in Positions(cs1);
    assert line.Src() in Positions(cs);
    var a := FirstIndex(Positions(cs), line.Src());
    var b := FirstIndex(Positions(cs), line.Dst());
    Seed(cs, g.roadnet.AddEdge(a, b), g.edgeList + [EdgeEntry(line.Src(), line.Dst())], g.weights + [0])
  }

  /** The whole seeding, line after line. */
  function BuildInitialGraph(lines: seq<OsmLine>, now: int): (r: Seed)
    ensures |r.edgeList| == |r.weights| == |lines|
  {
    if |lines| == 0 then Seed([], Graph({}, {}), [], [])
    else SeedLine(BuildInitialGraph(lines[..|lines| - 1], now), lines[|lines| - 1], now)
  }

  predicate DistinctPositions(cs: seq<Cluster>) {
    forall i, j :: 0 <= i < j < |cs| ==> cs[i].Pos() != cs[j].Pos()
  }

  /** Clusters at pairwise distinct coordinates, numbered by position,
      fresh (one count, no members). */
  ghost predicate FreshClusters(cs: seq<Cluster>) {
    && DistinctPositions(cs)
    && (forall i :: 0 <= i < |cs| ==> cs[i].cid == i && cs[i].CountConsistent() && cs[i].points == [])
  }

  /** What the seeding guarantees at every stage: fresh clusters at distinct
      coordinates; graph nodes are exactly the cluster ids; every graph edge
      has its coordinate pair in the edge list; one weight per entry, all 0. */
  ghost predicate SeedValid(g: Seed) {
    && FreshClusters(g.clusters)
    && NodesAre(g.roadnet, |g.clusters|)
    && EdgesListed(g.roadnet, Positions(g.clusters), g.edgeList)
    && |g.edgeList| == |g.weights|
    && (forall i :: 0 <= i < |g.weights| ==> g.weights[i] == 0)
  }

  /** `EnsureCluster` keeps the clusters fresh and distinct and only ever
      appends. */
  lemma EnsureClusterKeeps(cs: seq<Cluster>, at: Coord, angle: real, now: int)
    requires FreshClusters(cs)
    ensures var r := EnsureCluster(cs, at, angle, now);
      && FreshClusters(r)
      && |cs| <= |r| <= |cs| + 1
      && r[..|cs|] == cs
  {
    var r := EnsureCluster(cs, at, angle, now);
    if at !in Positions(cs) {
      forall i | 0 <= i < |cs| ensures r[i].Pos() != r[|cs|].Pos() {
        assert Positions(cs)[i] == cs[i].Pos();
      }
    }
  }

  /** The clusters after line `line`'s two ends are ensured. */
  function LineClusters(cs: seq<Cluster>, line: OsmLine, now: int): seq<Cluster> {
    EnsureCluster(EnsureCluster(cs, line.Src(), line.sang, now), line.Dst(), line.tang, now)
  }

  lemma LineClustersKeep(cs: seq<Cluster>, line: OsmLine, now: int)
    requires FreshClusters(cs)
    ensures var r := LineClusters(cs, line, now);
      && FreshClusters(r)
      && |cs| <= |r| <= |cs| + 2
      && r[..|cs|] == cs
      && (forall v :: |cs| <= v < |r| ==> r[v].Pos() == line.Src() || r[v].Pos() == line.Dst())
  {
    var cs1 := EnsureCluster(cs, line.Src(), line.sang, now);
    EnsureClusterKeeps(cs, line.Src(), line.sang, now);
    EnsureClusterKeeps(cs1, line.Dst(), line.tang, now);
    var r := LineClusters(cs, line, now);
    assert r[..|cs1|][..|cs|] == cs1[..|cs|];
  }

  /** An id a line adds is the id of one of its two ends. */
  lemma NewIdIsEnd(cs: seq<Cluster>, line: OsmLine, now: int, v: nat)
    requires FreshClusters(cs)
    requires |cs| <= v < |LineClusters(cs, line, now)|
    ensures var ps := Positions(LineClusters(cs, line, now));
      line.Src() in ps && line.Dst() in ps &&
      (v == FirstIndex(ps, line.Src()) || v == FirstIndex(ps, line.Dst()))
  {
    var r := LineClusters(cs, line, now);
    LineClustersKeep(cs, line, now);
    var ps := Positions(r);
    assert line.Src() in ps && line.Dst() in ps;
    assert ps[v] == r[v].Pos();
    if r[v].Pos() == line.Src() {
      DistinctIndex(r, v, FirstIndex(ps, line.Src()));
    } else {
      DistinctIndex(r, v, FirstIndex(ps, line.Dst()));
    }
  }

  /** Among distinct positions, two indices at the same place are equal. */
  lemma DistinctIndex(cs: seq<Cluster>, i: int, j: int)
    requires DistinctPositions(cs)
    requires 0 <= i < |cs| && 0 <= j < |cs| && cs[i].Pos() == cs[j].Pos()
    ensures i == j
  {
  }

  lemma SeedLineValid(g: Seed, line: OsmLine, now: int)
    requires SeedValid(g)
    ensures var r := SeedLine(g, line, now);
      && SeedValid(r)
      && |g.clusters| <= |r.clusters| && r.clusters[..|g.clusters|] == g.clusters
      && r.edgeList == g.edgeList + [EdgeEntry(line.Src(), line.Dst())]
      && r.roadnet.edges == g.roadnet.edges
           + {(FirstIndex(Positions(r.clusters), line.Src()), FirstIndex(Positions(r.clusters), line.Dst()))}
  {
    var cs := LineClusters(g.clusters, line, now);
    LineClustersKeep(g.clusters, line, now);
    var r := SeedLine(g, line, now);
    assert r.clusters == cs;
    var ps := Positions(cs);
    assert line.Src() in ps && line.Dst() in ps;
    var a := FirstIndex(ps, line.Src());
    var b := FirstIndex(ps, line.Dst());
    assert r.roadnet == g.roadnet.AddEdge(a, b);
    forall v: nat | v < |cs| ensures v in r.roadnet.nodes {
      if v >= |g.clusters| {
        NewIdIsEnd(g.clusters, line, now, v);
      }
    }
    PositionsPrefix(g.clusters, cs);
    assert r.edgeList[..|g.edgeList|] == g.edgeList;
    assert r.edgeList[|g.edgeList|] == EdgeEntry(ps[a], ps[b]);
    EdgesListedGrow(g.roadnet, Positions(g.clusters), g.edgeList, ps, r.edgeList, a, b);
  }

  lemma {:induction false} SeedingValid(lines: seq<OsmLine>, now: int)
    ensures SeedValid(BuildInitialGraph(lines, now))
    decreases |lines|
  {
    if |lines| > 0 {
      var n := |lines| - 1;
      SeedingValid(lines[..n], now);
      SeedLineValid(BuildInitialGraph(lines[..n], now), lines[n], now);
    }
  }

  /** The coordinate pair a line contributes to the edge list. */
  function LineEntry(line: OsmLine): EdgeEntry {
    EdgeEntry(line.Src(), line.Dst())
  }

  function LineEntries(lines: seq<OsmLine>): (r: seq<EdgeEntry>)
    ensures |r| == |lines|
    ensures forall i :: 0 <= i < |lines| ==> r[i] == LineEntry(lines[i])
  {
    if |lines| == 0 then [] else LineEntries(lines[..|lines| - 1]) + [LineEntry(lines[|lines| - 1])]
  }

  /** Entry `i` of the edge list is line `i`'s coordinate pair. */
  lemma {:induction false} SeedingEntries(lines: seq<OsmLine>, now: int)
    ensures BuildInitialGraph(lines, now).edgeList == LineEntries(lines)
    decreases |lines|
  {
    if |lines| > 0 {
      SeedingEntries(lines[..|lines| - 1], now);
    }
  }

  /** A line only appends clusters and adds the edge between its ends. */
  lemma SeedLineGrows(g: Seed, line: OsmLine, now: int)
    requires FreshClusters(g.clusters)
    ensures var r := SeedLine(g, line, now);
      && FreshClusters(r.clusters)
      && |g.clusters| <= |r.clusters| && r.clusters[..|g.clusters|] == g.clusters
      && line.Src() in Positions(r.clusters) && line.Dst() in Positions(r.clusters)
      && r.roadnet.edges == g.roadnet.edges
           + {(FirstIndex(Positions(r.clusters), line.Src()), FirstIndex(Positions(r.clusters), line.Dst()))}
  {
    LineClustersKeep(g.clusters, line, now);
  }

  lemma {:induction false} SeedingFresh(lines: seq<OsmLine>, now: int)
    ensures FreshClusters(BuildInitialGraph(lines, now).clusters)
    decreases |lines|
  {
    if |lines| > 0 {
      var n := |lines| - 1;
      SeedingFresh(lines[..n], now);
      SeedLineGrows(BuildInitialGraph(lines[..n], now), lines[n], now);
    }
  }

  /** Line `i` yields a graph edge between the clusters sitting at its two
      ends. */
  lemma {:induction false} SeedingLineIsEdge(lines: seq<OsmLine>, now: int, i: int)
    requires 0 <= i < |lines|
    ensures var ps := Positions(BuildInitialGraph(lines, now).clusters);
      && lines[i].Src() in ps && lines[i].Dst() in ps
      && (FirstIndex(ps, lines[i].Src()), FirstIndex(ps, lines[i].Dst())) in BuildInitialGraph(lines, now).roadnet.edges
    decreases |lines|
  {
    var h := BuildInitialGraph(lines[..|lines| - 1], now);
    var g := BuildInitialGraph(lines, now);
    SeedingFresh(lines[..|lines| - 1], now);
    SeedLineGrows(h, lines[|lines| - 1], now);
    if i < |lines| - 1 {
      SeedingLineIsEdge(lines[..|lines| - 1], now, i);
      assert lines[..|lines| - 1][i] == lines[i];
      PositionsGrow(h.clusters, g.clusters, lines[i].Src());
      PositionsGrow(h.clusters, g.clusters, lines[i].Dst());
    }
  }

  /** Every graph edge of the seeding is the edge of some line: the
      clusters at its ends sit at that line's two coordinates. */
  lemma SeedingEdgeIsLine(lines: seq<OsmLine>, now: int, e: (nat, nat))
    requires e in BuildInitialGraph(lines, now).roadnet.edges
    ensures var cs := BuildInitialGraph(lines, now).clusters;
      e.0 < |cs| && e.1 < |cs| &&
      exists i :: 0 <= i < |lines| && cs[e.0].Pos() == lines[i].Src() && cs[e.1].Pos() == lines[i].Dst()
  {
    var g := BuildInitialGraph(lines, now);
    SeedingValid(lines, now);
    SeedingEntries(lines, now);
    var ps := Positions(g.clusters);
    var k := FirstIndex(g.edgeList, EdgeEntry(ps[e.0], ps[e.1]));
    assert g.edgeList[k] == LineEntry(lines[k]);
  }

  /** A coordinate already present keeps its first index when clusters are
      appended. */
  lemma PositionsGrow(cs: seq<Cluster>, ds: seq<Cluster>, at: Coord)
    requires |cs| <= |ds| && ds[..|cs|] == cs
    requires at in Positions(cs)
    ensures at in Positions(ds)
    ensures FirstIndex(Positions(ds), at) == FirstIndex(Positions(cs), at)
  {
    var k := FirstIndex(Positions(cs), at);
    PositionsPrefix(cs, ds);
    assert Positions(ds)[k] == at;
    forall j | 0 <= j < k ensures Positions(ds)[j] != at {
      assert Positions(ds)[j] == Positions(cs)[j];
    }
  }
}
