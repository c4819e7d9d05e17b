/** What one pass of the loop over `gps_point_stream`
    (anim_map/methods.py:490-625) does, branch by branch. */
module StepFacts {
  import opened Wrappers
  import opened Geometry
  import opened Clusters
  import opened Search
  import opened Partition
  import opened Roadnet
  import opened Spatial
  import opened Kharita
  import opened ChainFacts

  /** The fix is dropped: stamped before the cutoff, or more than
      `JumpMeters` from the latest cluster of its trajectory. */
  predicate Skipped(s: State, p: GpsPoint, cfg: Config, geo: Geo)
    requires Valid(s) && p.trajId.Some?
  {
    var traj := p.trajId.value;
    || p.timestamp < cfg.cutoff
    || (traj in s.building && geo.distance(s.clusters[s.building[traj]].Pos(), p.Pos()) > JumpMeters)
  }

  /** The fix's candidates. */
  function CandidatesOfFix(s: State, p: GpsPoint, cfg: Config): (cands: seq<nat>)
    requires Valid(s)
    ensures forall i: nat :: i in cands <==> i < |s.snapshot| && Fits(s.clusters[i], p, cfg)
  {
    var cands := CandidatesOf(s, p.Pos(), p.angle, cfg);
    assert forall i :: 0 <= i < |s.snapshot| ==> s.snapshot[i] == s.clusters[i].Pos();
    cands
  }

  /** Rebuilding the index touches only the snapshot and the flag. */
  lemma RebuildFrame(s: State)
    requires Valid(s)
    ensures Rebuild(s) == s.(snapshot := Positions(s.clusters), dirty := false)
  {
    if !s.dirty {
      assert s.snapshot == Positions(s.clusters);
    }
  }

  /** `closest_cluster_indx`: a candidate at the least distance, and the
      first such in candidate order. */
  lemma NearestIsFirstClosest(clusters: seq<Cluster>, at: Coord, cands: seq<nat>, geo: Geo)
    requires |cands| > 0
    requires forall j :: 0 <= j < |cands| ==> cands[j] < |clusters|
    ensures exists j ::
      && 0 <= j < |cands| && Nearest(clusters, at, cands, geo) == cands[j]
      && (forall i :: 0 <= i < |cands| ==>
            geo.distance(at, clusters[cands[j]].Pos()) <= geo.distance(at, clusters[cands[i]].Pos()))
      && (forall i :: 0 <= i < j ==>
            geo.distance(at, clusters[cands[j]].Pos()) < geo.distance(at, clusters[cands[i]].Pos()))
  {
    var ds := Distances(clusters, at, cands, geo);
    var m := MinOf(ds);
    var j := FirstIndex(ds, m);
    assert Nearest(clusters, at, cands, geo) == cands[j];
    forall i | 0 <= i < j
      ensures geo.distance(at, clusters[cands[j]].Pos()) < geo.distance(at, clusters[cands[i]].Pos())
    {
      assert ds[i] != m && m <= ds[i];
    }
  }

  // ---------------------------------------------------------------------
  // Dropped fixes

  /** A fix is dropped exactly when the clusters come out unchanged, and a
      dropped fix changes nothing at all. */
  lemma StepSkipsExactly(s: State, p: GpsPoint, cfg: Config, geo: Geo)
    requires Valid(s) && cfg.interval > 0 && p.trajId.Some?
    ensures Skipped(s, p, cfg, geo) ==> Step(s, p, cfg, geo) == s
    ensures Step(s, p, cfg, geo).clusters == s.clusters <==> Skipped(s, p, cfg, geo)
  {
    if !Skipped(s, p, cfg, geo) {
      var r := Step(s, p, cfg, geo);
      var cands := CandidatesOf(s, p.Pos(), p.angle, cfg);
      if |cands| == 0 && p.trajId.value in s.building {
        StepExtends(s, p, cfg, geo);
        assert |r.clusters| > |s.clusters|;
      } else if |cands| == 0 {
        StepStarts(s, p, cfg, geo);
        assert |r.clusters| > |s.clusters|;
      } else {
        StepMatches(s, p, cfg, geo);
        var k := Nearest(s.clusters, p.Pos(), cands, geo);
        assert r.clusters[k].points == s.clusters[k].points + [p];
      }
    }
  }

  // ---------------------------------------------------------------------
  // Joining a cluster

  /** Some candidate: the fix joins the nearest candidate, which it fits;
      no other cluster changes, no edge is drawn and no trajectory entry
      moves; the cluster is recorded as matched exactly when it sits where
      an OSM cluster was seeded. */
  lemma StepMatches(s: State, p: GpsPoint, cfg: Config, geo: Geo)
    requires Valid(s) && cfg.interval > 0 && p.trajId.Some? && !Skipped(s, p, cfg, geo)
    requires |CandidatesOf(s, p.Pos(), p.angle, cfg)| > 0
    ensures var k := Nearest(s.clusters, p.Pos(), CandidatesOf(s, p.Pos(), p.angle, cfg), geo);
      var r := Step(s, p, cfg, geo);
      && k < |s.snapshot| && Fits(s.clusters[k], p, cfg)
      && r.clusters == s.clusters[k := s.clusters[k].Add(p)]
      && r.roadnet == s.roadnet && r.edgeList == s.edgeList && r.weights == s.weights
      && r.building == s.building && r.baseline == s.baseline && r.created == s.created
      && r.matched == s.matched + (if s.clusters[k].Pos() in s.baseline then [s.clusters[k].Pos()] else [])
      && !r.dirty && r.snapshot == Positions(r.clusters)
  {
    var cands := CandidatesOf(s, p.Pos(), p.angle, cfg);
    var k := Nearest(s.clusters, p.Pos(), cands, geo);
    assert k in CandidatesOfFix(s, p, cfg);
    MatchBranchFrame(s, p, cands, geo);
    RebuildFrame(MatchBranch(s, p, cands, geo));
  }

  lemma MatchBranchFrame(s: State, p: GpsPoint, cands: seq<nat>, geo: Geo)
    requires Valid(s) && |cands| > 0
    requires forall j :: 0 <= j < |cands| ==> cands[j] < |s.clusters|
    ensures var k := Nearest(s.clusters, p.Pos(), cands, geo);
      var c := s.clusters[k].Pos();
      MatchBranch(s, p, cands, geo)
        == s.(clusters := s.clusters[k := s.clusters[k].Add(p)],
              matched := s.matched + (if c in s.baseline then [c] else []))
  {
  }

  // ---------------------------------------------------------------------
  // Founding a cluster

  /** No candidate and no earlier cluster on the trajectory: the fix founds
      cluster `len(clusters)` and its trajectory starts there; no edge is
      drawn, and the index stays stale until a later fix rebuilds it. */
  lemma StepStarts(s: State, p: GpsPoint, cfg: Config, geo: Geo)
    requires Valid(s) && cfg.interval > 0 && p.trajId.Some? && !Skipped(s, p, cfg, geo)
    requires |CandidatesOf(s, p.Pos(), p.angle, cfg)| == 0 && p.trajId.value !in s.building
    ensures var n := |s.clusters|; var r := Step(s, p, cfg, geo);
      && r.clusters == s.clusters + [NewCluster(n, p.timestamp, p.Pos(), p.angle)]
      && r.building == s.building[p.trajId.value := n]
      && r.roadnet.edges == s.roadnet.edges && r.edgeList == s.edgeList && r.weights == s.weights
      && r.dirty && r.snapshot == s.snapshot
      && r.created == s.created + [p.Pos()]
      && r.baseline == s.baseline && r.matched == s.matched
  {
  }

  /** The state just after the fix founded `cur`: it is the newest
      cluster, the index predates it, and no edge enters it. */
  ghost predicate JustFounded(s: State, cur: nat) {
    && Valid(s)
    && cur + 1 == |s.clusters| && |s.snapshot| <= cur
    && (forall e :: e in s.roadnet.edges ==> e.1 != cur)
  }

  lemma FoundedByAppend(s: State, p: GpsPoint)
    requires Valid(s)
    ensures JustFounded(AppendCluster(s, p.Pos(), p.angle, p.timestamp), |s.clusters|)
  {
    AppendFrame(s, p.Pos(), p.angle, p.timestamp);
    assert forall e :: e in s.roadnet.edges ==> e.1 < |Positions(s.clusters)|;
  }

  /** The ids of the holes name clusters of the stale snapshot only, so
      never the fix's own new cluster. */
  lemma HoleIdsStale(s: State, cur: nat, holes: seq<GpsPoint>, cfg: Config, geo: Geo)
    requires JustFounded(s, cur)
    ensures var ids := HoleIds(s, holes, cfg, geo);
      && IdsBelow(ids, |s.clusters|)
      && Some(cur) !in ids
  {
    var ids := HoleIds(s, holes, cfg, geo);
    forall j | 0 <= j < |ids| && ids[j].Some? ensures ids[j].value < cur {
      assert ids[j] == MatchHole(s, holes[j], cfg, geo);
    }
  }

  /** The holes between `prev` and `cur`, as matched against the index. */
  function HolesBetween(s: State, prev: nat, cur: nat, cfg: Config, geo: Geo): (ids: seq<Option<nat>>)
    requires JustFounded(s, cur) && cfg.interval > 0 && prev < |s.clusters|
    ensures IdsBelow(ids, |s.clusters|) && Some(cur) !in ids
  {
    var holes := PartitionEdge(s.clusters[prev], s.clusters[cur], cfg.interval, geo);
    HoleIdsStale(s, cur, holes, cfg, geo);
    HoleIds(s, holes, cfg, geo)
  }

  /** The chain from `prev` over those holes. */
  function Fill(s: State, prev: nat, cur: nat, stamp: int, cfg: Config, geo: Geo): (w: Walker)
    requires JustFounded(s, cur) && cfg.interval > 0 && prev < |s.clusters|
    ensures Valid(w.s) && w.at < |w.s.clusters| && cur < |w.s.clusters|
  {
    var holes := PartitionEdge(s.clusters[prev], s.clusters[cur], cfg.interval, geo);
    var ids := HolesBetween(s, prev, cur, cfg, geo);
    Chain(Walker(s, prev), holes, ids, stamp, cfg, geo)
  }

  /** The chain never reaches the fix's own cluster `cur`, nor ends on it,
      so the closing edge from `prev_path_point` is always new: the first
      test at anim_map/methods.py:602-604 always holds and the weight
      increment after it is never reached. */
  lemma ClosingEdgeIsNew(s: State, prev: nat, cur: nat, stamp: int, cfg: Config, geo: Geo)
    requires JustFounded(s, cur) && cfg.interval > 0 && prev < |s.clusters|
    ensures var ids := HolesBetween(s, prev, cur, cfg, geo);
      var w := Fill(s, prev, cur, stamp, cfg, geo);
      && (|ids| == 0 || ids[|ids| - 1] != Some(cur))
      && (w.at, cur) !in w.s.roadnet.edges
      && FinalEdge(w, cur, ids) == Link(w.s, w.at, cur)
  {
    var holes := PartitionEdge(s.clusters[prev], s.clusters[cur], cfg.interval, geo);
    var ids := HolesBetween(s, prev, cur, cfg, geo);
    ChainEdgesConsistent(Walker(s, prev), holes, ids, stamp, cfg, geo);
    if |ids| > 0 {
      assert ids[|ids| - 1] in ids;
    }
  }

  /** The chain from `prev`, then a new edge into `cur`, the trajectory
      moved to `cur` and the index rebuilt. */
  function Closed(s: State, traj: int, prev: nat, cur: nat, stamp: int, cfg: Config, geo: Geo): State
    requires JustFounded(s, cur) && cfg.interval > 0 && prev < |s.clusters|
  {
    var w := Fill(s, prev, cur, stamp, cfg, geo);
    var s2 := MoveTo(Link(w.s, w.at, cur), traj, cur);
    s2.(snapshot := Positions(s2.clusters), dirty := false)
  }

  /** The creation branch after the founding, spelled out: chain, the
      always-new closing edge, the trajectory moved, the index rebuilt. */
  lemma ExtendUnfolds(s: State, traj: int, prev: nat, cur: nat, stamp: int, cfg: Config, geo: Geo)
    requires JustFounded(s, cur) && cfg.interval > 0 && prev < |s.clusters|
    ensures Extend(s, traj, prev, cur, stamp, cfg, geo) == Closed(s, traj, prev, cur, stamp, cfg, geo)
  {
    ClosingEdgeIsNew(s, prev, cur, stamp, cfg, geo);
    var w := Fill(s, prev, cur, stamp, cfg, geo);
    RebuildFrame(MoveTo(Link(w.s, w.at, cur), traj, cur));
  }

  /** Filling the gap moves no cluster and leaves `cur` as founded; it
      only appends entries and weights (at least the closing edge's), moves
      the trajectory to `cur`, and rebuilds the index. */
  lemma ExtendGrows(s: State, traj: int, prev: nat, cur: nat, stamp: int, cfg: Config, geo: Geo)
    requires JustFounded(s, cur) && cfg.interval > 0 && prev < |s.clusters|
    ensures var r := Extend(s, traj, prev, cur, stamp, cfg, geo);
      && Grown(s.clusters, r.clusters) && r.clusters[cur] == s.clusters[cur]
      && EdgesAppended(s, r) && |s.weights| < |r.weights|
      && r.building == s.building[traj := cur]
      && !r.dirty && r.snapshot == Positions(r.clusters)
      && r.baseline == s.baseline && r.matched == s.matched
  {
    ExtendUnfolds(s, traj, prev, cur, stamp, cfg, geo);
    var holes := PartitionEdge(s.clusters[prev], s.clusters[cur], cfg.interval, geo);
    var ids := HolesBetween(s, prev, cur, cfg, geo);
    var w := Fill(s, prev, cur, stamp, cfg, geo);
    ChainGrows(Walker(s, prev), holes, ids, stamp, cfg, geo);
    ChainKeepsUnmatched(Walker(s, prev), holes, ids, stamp, cfg, geo, cur);
    LinkFrame(w.s, w.at, cur);
    EdgesAppendedTransitive(s, w.s, Link(w.s, w.at, cur));
  }

  /** The edges filling the gap draws: one enters `cur`, and every other
      one enters a fictional cluster founded after `cur`, from a cluster it
      is heading-consistent with. */
  lemma ExtendEdges(s: State, traj: int, prev: nat, cur: nat, stamp: int, cfg: Config, geo: Geo)
    requires JustFounded(s, cur) && cfg.interval > 0 && prev < |s.clusters|
    ensures var r := Extend(s, traj, prev, cur, stamp, cfg, geo);
      && (exists a :: (a, cur) in r.roadnet.edges - s.roadnet.edges)
      && forall e :: e in r.roadnet.edges - s.roadnet.edges ==>
           || e.1 == cur
           || (cur < e.1 < |r.clusters| && e.0 < |r.clusters| &&
               HeadingConsistent(r.clusters[e.0], r.clusters[e.1], cfg.tolerance, geo))
  {
    ExtendUnfolds(s, traj, prev, cur, stamp, cfg, geo);
    ClosingEdgeIsNew(s, prev, cur, stamp, cfg, geo);
    var holes := PartitionEdge(s.clusters[prev], s.clusters[cur], cfg.interval, geo);
    var ids := HolesBetween(s, prev, cur, cfg, geo);
    var w := Fill(s, prev, cur, stamp, cfg, geo);
    ChainEdgesConsistent(Walker(s, prev), holes, ids, stamp, cfg, geo);
    LinkFrame(w.s, w.at, cur);
    assert (w.at, cur) !in s.roadnet.edges;
  }

  /** Filling the gap keeps every member next to its cluster. */
  lemma ExtendAligned(s: State, traj: int, prev: nat, cur: nat, stamp: int, cfg: Config, geo: Geo)
    requires JustFounded(s, cur) && cfg.interval > 0 && prev < |s.clusters|
    requires Aligned(s.clusters, cfg)
    ensures Aligned(Extend(s, traj, prev, cur, stamp, cfg, geo).clusters, cfg)
  {
    ExtendUnfolds(s, traj, prev, cur, stamp, cfg, geo);
    var holes := PartitionEdge(s.clusters[prev], s.clusters[cur], cfg.interval, geo);
    var ids := HolesBetween(s, prev, cur, cfg, geo);
    HoleIdsFit(s, holes, cfg, geo);
    ChainAligned(Walker(s, prev), holes, ids, stamp, cfg, geo);
  }

  /** No candidate, with an earlier cluster on the trajectory: the fix
      founds cluster `len(clusters)`, which no hole joins; no existing
      cluster moves; entries and weights are only appended, with weight 1;
      the trajectory moves to the new cluster; the index is rebuilt. */
  lemma StepExtends(s: State, p: GpsPoint, cfg: Config, geo: Geo)
    requires Valid(s) && cfg.interval > 0 && p.trajId.Some? && !Skipped(s, p, cfg, geo)
    requires |CandidatesOf(s, p.Pos(), p.angle, cfg)| == 0 && p.trajId.value in s.building
    ensures var n := |s.clusters|; var r := Step(s, p, cfg, geo);
      && n < |r.clusters| && r.clusters[n] == NewCluster(n, p.timestamp, p.Pos(), p.angle)
      && Grown(s.clusters, r.clusters)
      && EdgesAppended(s, r) && |s.weights| < |r.weights|
      && r.building == s.building[p.trajId.value := n]
      && !r.dirty && r.snapshot == Positions(r.clusters)
      && r.baseline == s.baseline && r.matched == s.matched
  {
    var traj := p.trajId.value;
    var n := |s.clusters|;
    var s1 := AppendCluster(s, p.Pos(), p.angle, p.timestamp);
    FoundedByAppend(s, p);
    AppendFrame(s, p.Pos(), p.angle, p.timestamp);
    var r := Extend(s1, traj, s.building[traj], n, p.timestamp, cfg, geo);
    assert Step(s, p, cfg, geo) == r;
    ExtendGrows(s1, traj, s.building[traj], n, p.timestamp, cfg, geo);
    GrownTransitive(s.clusters, s1.clusters, r.clusters);
    EdgesAppendedTransitive(s, s1, r);
  }

  /** The edges of that branch: one enters the fix's new cluster, and
      every other one enters a fictional cluster founded after it, from a
      cluster it is heading-consistent with. */
  lemma StepExtendsEdges(s: State, p: GpsPoint, cfg: Config, geo: Geo)
    requires Valid(s) && cfg.interval > 0 && p.trajId.Some? && !Skipped(s, p, cfg, geo)
    requires |CandidatesOf(s, p.Pos(), p.angle, cfg)| == 0 && p.trajId.value in s.building
    ensures var n := |s.clusters|; var r := Step(s, p, cfg, geo);
      && (exists a :: (a, n) in r.roadnet.edges - s.roadnet.edges)
      && forall e :: e in r.roadnet.edges - s.roadnet.edges ==>
           || e.1 == n
           || (n < e.1 < |r.clusters| && e.0 < |r.clusters| &&
               HeadingConsistent(r.clusters[e.0], r.clusters[e.1], cfg.tolerance, geo))
  {
    var traj := p.trajId.value;
    var n := |s.clusters|;
    var s1 := AppendCluster(s, p.Pos(), p.angle, p.timestamp);
    FoundedByAppend(s, p);
    AppendFrame(s, p.Pos(), p.angle, p.timestamp);
    assert Step(s, p, cfg, geo) == Extend(s1, traj, s.building[traj], n, p.timestamp, cfg, geo);
    ExtendEdges(s1, traj, s.building[traj], n, p.timestamp, cfg, geo);
  }

  // ---------------------------------------------------------------------
  // What every step keeps

  /** Every cluster recorded as matched sits where an OSM cluster was
      seeded. */
  predicate MatchedSeeded(s: State) {
    forall i :: 0 <= i < |s.matched| ==> s.matched[i] in s.baseline
  }

  /** Every step keeps each member point next to its cluster: a fix or a
      hole joins a cluster only when it passed that cluster's candidate
      test, and founded clusters start without members. */
  lemma StepAligned(s: State, p: GpsPoint, cfg: Config, geo: Geo)
    requires Valid(s) && cfg.interval > 0 && p.trajId.Some?
    requires Aligned(s.clusters, cfg)
    ensures Aligned(Step(s, p, cfg, geo).clusters, cfg)
  {
    StepSkipsExactly(s, p, cfg, geo);
    if !Skipped(s, p, cfg, geo) {
      var cands := CandidatesOf(s, p.Pos(), p.angle, cfg);
      var n := |s.clusters|;
      var founded := NewCluster(n, p.timestamp, p.Pos(), p.angle);
      if |cands| == 0 && p.trajId.value in s.building {
        var traj := p.trajId.value;
        var s1 := AppendCluster(s, p.Pos(), p.angle, p.timestamp);
        FoundedByAppend(s, p);
        AlignedAppend(s.clusters, founded, cfg);
        assert Step(s, p, cfg, geo) == Extend(s1, traj, s.building[traj], n, p.timestamp, cfg, geo);
        ExtendAligned(s1, traj, s.building[traj], n, p.timestamp, cfg, geo);
      } else if |cands| == 0 {
        StepStarts(s, p, cfg, geo);
        AlignedAppend(s.clusters, founded, cfg);
      } else {
        StepMatches(s, p, cfg, geo);
        AlignedAdd(s.clusters, Nearest(s.clusters, p.Pos(), cands, geo), p, cfg);
      }
    }
  }

  /** The map only grows: no cluster moves or changes heading, entries
      and weights are only appended (weight 1 each), no edge is removed, the
      OSM baseline stays, and matched clusters are only appended. */
  ghost predicate Grows(s: State, r: State) {
    && Grown(s.clusters, r.clusters)
    && EdgesAppended(s, r)
    && r.baseline == s.baseline
    && |s.matched| <= |r.matched| && r.matched[..|s.matched|] == s.matched
    && (MatchedSeeded(s) ==> MatchedSeeded(r))
  }

  lemma SameEdgesAppended(s: State, r: State)
    requires r.edgeList == s.edgeList && r.weights == s.weights && r.roadnet.edges == s.roadnet.edges
    ensures EdgesAppended(s, r)
  {
    assert r.edgeList[..|s.edgeList|] == s.edgeList;
    assert r.weights[..|s.weights|] == s.weights;
  }

  lemma GrownByAdd(cs: seq<Cluster>, k: nat, q: GpsPoint)
    requires k < |cs|
    ensures Grown(cs, cs[k := cs[k].Add(q)])
  {
  }

  lemma MatchedAppend(m: seq<Coord>, extra: seq<Coord>, baseline: seq<Coord>)
    requires forall i :: 0 <= i < |extra| ==> extra[i] in baseline
    ensures (m + extra)[..|m|] == m
    ensures (forall i :: 0 <= i < |m| ==> m[i] in baseline) ==>
      forall i :: 0 <= i < |m + extra| ==> (m + extra)[i] in baseline
  {
  }

  lemma MatchesGrow(s: State, p: GpsPoint, cfg: Config, geo: Geo)
    requires Valid(s) && cfg.interval > 0 && p.trajId.Some? && !Skipped(s, p, cfg, geo)
    requires |CandidatesOf(s, p.Pos(), p.angle, cfg)| > 0
    ensures Grows(s, Step(s, p, cfg, geo))
  {
    var cands := CandidatesOf(s, p.Pos(), p.angle, cfg);
    var m := MatchBranch(s, p, cands, geo);
    MatchBranchGrows(s, p, cands, geo);
    RebuildFrame(m);
    assert Step(s, p, cfg, geo) == Rebuild(m);
  }

  /** Joining a candidate only grows the map. */
  lemma MatchBranchGrows(s: State, p: GpsPoint, cands: seq<nat>, geo: Geo)
    requires Valid(s) && |cands| > 0
    requires forall j :: 0 <= j < |cands| ==> cands[j] < |s.clusters|
    ensures Grows(s, MatchBranch(s, p, cands, geo))
  {
    MatchBranchFrame(s, p, cands, geo);
    var r := MatchBranch(s, p, cands, geo);
    var k := Nearest(s.clusters, p.Pos(), cands, geo);
    SameEdgesAppended(s, r);
    GrownByAdd(s.clusters, k, p);
    var c := s.clusters[k].Pos();
    MatchedAppend(s.matched, if c in s.baseline then [c] else [], s.baseline);
  }

  lemma StartsGrow(s: State, p: GpsPoint, cfg: Config, geo: Geo)
    requires Valid(s) && cfg.interval > 0 && p.trajId.Some? && !Skipped(s, p, cfg, geo)
    requires |CandidatesOf(s, p.Pos(), p.angle, cfg)| == 0 && p.trajId.value !in s.building
    ensures Grows(s, Step(s, p, cfg, geo))
  {
    var r := Step(s, p, cfg, geo);
    StepStarts(s, p, cfg, geo);
    SameEdgesAppended(s, r);
    assert r.matched[..|s.matched|] == s.matched;
  }

  lemma ExtendsGrow(s: State, p: GpsPoint, cfg: Config, geo: Geo)
    requires Valid(s) && cfg.interval > 0 && p.trajId.Some? && !Skipped(s, p, cfg, geo)
    requires |CandidatesOf(s, p.Pos(), p.angle, cfg)| == 0 && p.trajId.value in s.building
    ensures Grows(s, Step(s, p, cfg, geo))
  {
    var r := Step(s, p, cfg, geo);
    StepExtends(s, p, cfg, geo);
    assert r.matched[..|s.matched|] == s.matched;
  }

  /** Every step only grows the map: no cluster moves or changes heading,
      entries and weights are only appended (weight 1 each), no edge is
      removed, the OSM baseline stays, and matched clusters are only
      appended, each one seeded. */
  lemma StepGrows(s: State, p: GpsPoint, cfg: Config, geo: Geo)
    requires Valid(s) && cfg.interval > 0 && p.trajId.Some?
    ensures Grows(s, Step(s, p, cfg, geo))
  {
    if Skipped(s, p, cfg, geo) {
      StepSkipsExactly(s, p, cfg, geo);
      SameEdgesAppended(s, s);
      assert s.matched[..|s.matched|] == s.matched;
    } else if |CandidatesOf(s, p.Pos(), p.angle, cfg)| > 0 {
      MatchesGrow(s, p, cfg, geo);
    } else if p.trajId.value in s.building {
      ExtendsGrow(s, p, cfg, geo);
    } else {
      StartsGrow(s, p, cfg, geo);
    }
  }
}
