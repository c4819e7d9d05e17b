/** What the chaining loop over the fictional points
    (anim_map/methods.py:560-601) does to the state. */
module ChainFacts {
  import opened Wrappers
  import opened Geometry
  import opened Clusters
  import opened Roadnet
  import opened Spatial
  import opened Kharita

  /** `b` extends `a` without moving anything: clusters are only appended,
      and an existing cluster keeps its id, position and heading. */
  predicate Grown(a: seq<Cluster>, b: seq<Cluster>) {
    && |a| <= |b|
    && forall i :: 0 <= i < |a| ==>
         b[i].cid == a[i].cid && b[i].Pos() == a[i].Pos() && b[i].angle == a[i].angle
  }

  lemma GrownTransitive(a: seq<Cluster>, b: seq<Cluster>, c: seq<Cluster>)
    requires Grown(a, b) && Grown(b, c)
    ensures Grown(a, c)
  {
  }

  /** Edge entries and weights only get appended, each appended weight 1. */
  ghost predicate EdgesAppended(a: State, b: State) {
    && |a.edgeList| <= |b.edgeList| && b.edgeList[..|a.edgeList|] == a.edgeList
    && |a.weights| <= |b.weights| && b.weights[..|a.weights|] == a.weights
    && (forall j :: |a.weights| <= j < |b.weights| ==> b.weights[j] == 1)
    && a.roadnet.edges <= b.roadnet.edges
  }

  lemma EdgesAppendedTransitive(a: State, b: State, c: State)
    requires EdgesAppended(a, b) && EdgesAppended(b, c)
    ensures EdgesAppended(a, c)
  {
    assert c.edgeList[..|a.edgeList|] == c.edgeList[..|b.edgeList|][..|a.edgeList|];
    assert c.weights[..|a.weights|] == c.weights[..|b.weights|][..|a.weights|];
    forall j | |a.weights| <= j < |c.weights| ensures c.weights[j] == 1 {
      if j < |b.weights| {
        assert c.weights[..|b.weights|][j] == c.weights[j];
      }
    }
  }

  /** The parts of the state the chain never touches. */
  ghost predicate Untouched(a: State, b: State) {
    && b.snapshot == a.snapshot
    && b.building == a.building
    && b.baseline == a.baseline
    && b.matched == a.matched
  }

  /** What founding a cluster leaves alone. */
  lemma AppendFrame(s: State, at: Coord, angle: real, lastSeen: int)
    requires Valid(s)
    ensures var r := AppendCluster(s, at, angle, lastSeen);
      && Untouched(s, r) && EdgesAppended(s, r) && Grown(s.clusters, r.clusters)
      && r.roadnet.edges == s.roadnet.edges
  {
    var r := AppendCluster(s, at, angle, lastSeen);
    assert r.edgeList[..|s.edgeList|] == s.edgeList;
    assert r.weights[..|s.weights|] == s.weights;
  }

  /** What drawing an edge leaves alone. */
  lemma LinkFrame(s: State, a: nat, b: nat)
    requires Valid(s) && a < |s.clusters| && b < |s.clusters|
    ensures var r := Link(s, a, b);
      && Untouched(s, r) && EdgesAppended(s, r) && Grown(s.clusters, r.clusters)
      && r.roadnet.edges == s.roadnet.edges + {(a, b)}
  {
    var r := Link(s, a, b);
    assert r.weights[..|s.weights|] == s.weights;
  }

  /** What adding a member leaves alone. */
  lemma MemberFrame(s: State, k: nat, q: GpsPoint)
    requires Valid(s) && k < |s.clusters|
    ensures var r := AddMember(s, k, q);
      && Untouched(s, r) && EdgesAppended(s, r) && Grown(s.clusters, r.clusters)
      && r.roadnet.edges == s.roadnet.edges
  {
    var r := AddMember(s, k, q);
    assert r.edgeList[..|s.edgeList|] == s.edgeList;
    assert r.weights[..|s.weights|] == s.weights;
  }

  /** One hole, whatever it is: the index, the trajectories and the OSM
      bookkeeping are untouched, entries and weights are only appended, and
      no cluster moves. */
  lemma ChainHoleFacts(w: Walker, hole: GpsPoint, id: Option<nat>, stamp: int, cfg: Config, geo: Geo)
    requires Valid(w.s) && w.at < |w.s.clusters|
    requires id.Some? ==> id.value < |w.s.clusters|
    ensures var r := ChainHole(w, hole, id, stamp, cfg, geo);
      && Untouched(w.s, r.s)
      && EdgesAppended(w.s, r.s)
      && Grown(w.s.clusters, r.s.clusters)
      && |r.s.clusters| == |w.s.clusters| + (if id.None? then 1 else 0)
      && r.at == (if id.None? then |w.s.clusters| else id.value)
  {
    match id
    case None =>
      var c := |w.s.clusters|;
      var s1 := AppendCluster(w.s, hole.Pos(), hole.angle, stamp);
      IdPairNeverListed(w.at, c, s1.edgeList);
      AppendFrame(w.s, hole.Pos(), hole.angle, stamp);
      if HeadingConsistent(s1.clusters[w.at], s1.clusters[c], cfg.tolerance, geo) {
        LinkFrame(s1, w.at, c);
        EdgesAppendedTransitive(w.s, s1, Link(s1, w.at, c));
      }
    case Some(k) =>
      MemberFrame(w.s, k, hole);
  }

  /** A hole without a cluster founds one, stamped with the fix's time, at
      the hole's place and heading, and it becomes `prev_path_point`
      whether or not the edge to it is drawn; the edge is drawn exactly when
      the heading checks pass. */
  lemma ChainHoleFounds(w: Walker, hole: GpsPoint, stamp: int, cfg: Config, geo: Geo)
    requires Valid(w.s) && w.at < |w.s.clusters|
    ensures var r := ChainHole(w, hole, None, stamp, cfg, geo);
      var n := |w.s.clusters|;
      && r.s.clusters == w.s.clusters + [NewCluster(n, stamp, hole.Pos(), hole.angle)]
      && r.at == n
      && (HeadingConsistent(w.s.clusters[w.at], r.s.clusters[n], cfg.tolerance, geo) ==>
            r.s.roadnet.edges == w.s.roadnet.edges + {(w.at, n)})
      && (!HeadingConsistent(w.s.clusters[w.at], r.s.clusters[n], cfg.tolerance, geo) ==>
            r.s.roadnet.edges == w.s.roadnet.edges)
  {
    IdPairNeverListed(w.at, |w.s.clusters|, AppendCluster(w.s, hole.Pos(), hole.angle, stamp).edgeList);
  }

  /** A hole with a cluster joins it, draws nothing, and makes it
      `prev_path_point`. */
  lemma ChainHoleJoins(w: Walker, hole: GpsPoint, k: nat, stamp: int, cfg: Config, geo: Geo)
    requires Valid(w.s) && w.at < |w.s.clusters| && k < |w.s.clusters|
    ensures var r := ChainHole(w, hole, Some(k), stamp, cfg, geo);
      && r.s.clusters == w.s.clusters[k := w.s.clusters[k].Add(hole)]
      && r.at == k
      && r.s.roadnet.edges == w.s.roadnet.edges
  {
  }

  /** The heading checks read only places and headings, which growth keeps. */
  lemma ConsistentKept(a: seq<Cluster>, b: seq<Cluster>, i: nat, j: nat, tolerance: real, geo: Geo)
    requires Grown(a, b) && i < |a| && j < |a|
    ensures HeadingConsistent(a[i], a[j], tolerance, geo) <==> HeadingConsistent(b[i], b[j], tolerance, geo)
  {
  }

  /** The edge a single hole draws. */
  lemma ChainHoleEdges(w: Walker, hole: GpsPoint, id: Option<nat>, stamp: int, cfg: Config, geo: Geo)
    requires Valid(w.s) && w.at < |w.s.clusters|
    requires id.Some? ==> id.value < |w.s.clusters|
    ensures var r := ChainHole(w, hole, id, stamp, cfg, geo);
      forall e :: e in r.s.roadnet.edges && e !in w.s.roadnet.edges ==>
        && e.1 == |w.s.clusters| < |r.s.clusters| && e.0 < |w.s.clusters|
        && HeadingConsistent(r.s.clusters[e.0], r.s.clusters[e.1], cfg.tolerance, geo)
  {
    var r := ChainHole(w, hole, id, stamp, cfg, geo);
    if id.None? {
      ChainHoleFounds(w, hole, stamp, cfg, geo);
      var n := |w.s.clusters|;
      assert r.s.clusters[..n] == w.s.clusters;
      assert forall e :: e in r.s.roadnet.edges && e !in w.s.roadnet.edges ==> e == (w.at, n);
    } else {
      ChainHoleJoins(w, hole, id.value, stamp, cfg, geo);
    }
  }

  /** The number of holes without a cluster. */
  function CountNone(ids: seq<Option<nat>>): (k: nat)
    ensures k <= |ids|
    ensures k == 0 <==> forall j :: 0 <= j < |ids| ==> ids[j].Some?
    ensures k == |ids| <==> forall j :: 0 <= j < |ids| ==> ids[j].None?
  {
    if |ids| == 0 then 0 else (if ids[0].None? then 1 else 0) + CountNone(ids[1..])
  }

  /** Over the whole loop: the index, the trajectories and the OSM
      bookkeeping are untouched; entries and weights are only appended, with
      weight 1; one cluster is founded per unmatched hole and no existing
      cluster moves. */
  lemma {:induction false} ChainGrows(w: Walker, holes: seq<GpsPoint>, ids: seq<Option<nat>>, stamp: int, cfg: Config, geo: Geo)
    requires Valid(w.s) && w.at < |w.s.clusters|
    requires |holes| == |ids| && IdsBelow(ids, |w.s.clusters|)
    ensures var r := Chain(w, holes, ids, stamp, cfg, geo);
      && Untouched(w.s, r.s)
      && EdgesAppended(w.s, r.s)
      && Grown(w.s.clusters, r.s.clusters)
      && |r.s.clusters| == |w.s.clusters| + CountNone(ids)
    decreases |holes|
  {
    if |holes| > 0 {
      var w1 := ChainHole(w, holes[0], ids[0], stamp, cfg, geo);
      ChainHoleFacts(w, holes[0], ids[0], stamp, cfg, geo);
      assert IdsBelow(ids[1..], |w1.s.clusters|);
      ChainGrows(w1, holes[1..], ids[1..], stamp, cfg, geo);
      var r := Chain(w, holes, ids, stamp, cfg, geo);
      assert r == Chain(w1, holes[1..], ids[1..], stamp, cfg, geo);
      EdgesAppendedTransitive(w.s, w1.s, r.s);
      GrownTransitive(w.s.clusters, w1.s.clusters, r.s.clusters);
    }
  }

  /** Every edge the loop draws ends at a cluster it founded, and its two
      ends pass the heading checks. */
  lemma {:induction false} ChainEdgesConsistent(w: Walker, holes: seq<GpsPoint>, ids: seq<Option<nat>>, stamp: int, cfg: Config, geo: Geo)
    requires Valid(w.s) && w.at < |w.s.clusters|
    requires |holes| == |ids| && IdsBelow(ids, |w.s.clusters|)
    ensures var r := Chain(w, holes, ids, stamp, cfg, geo);
      forall e :: e in r.s.roadnet.edges && e !in w.s.roadnet.edges ==>
        && |w.s.clusters| <= e.1 < |r.s.clusters| && e.0 < |r.s.clusters|
        && HeadingConsistent(r.s.clusters[e.0], r.s.clusters[e.1], cfg.tolerance, geo)
    decreases |holes|
  {
    if |holes| > 0 {
      var w1 := ChainHole(w, holes[0], ids[0], stamp, cfg, geo);
      ChainHoleEdges(w, holes[0], ids[0], stamp, cfg, geo);
      assert IdsBelow(ids[1..], |w1.s.clusters|);
      ChainEdgesConsistent(w1, holes[1..], ids[1..], stamp, cfg, geo);
      ChainGrows(w1, holes[1..], ids[1..], stamp, cfg, geo);
      var r := Chain(w, holes, ids, stamp, cfg, geo);
      assert r == Chain(w1, holes[1..], ids[1..], stamp, cfg, geo);
      forall e | e in r.s.roadnet.edges && e !in w.s.roadnet.edges
        ensures |w.s.clusters| <= e.1 < |r.s.clusters| && e.0 < |r.s.clusters|
        ensures HeadingConsistent(r.s.clusters[e.0], r.s.clusters[e.1], cfg.tolerance, geo)
      {
        if e in w1.s.roadnet.edges {
          ConsistentKept(w1.s.clusters, r.s.clusters, e.0, e.1, cfg.tolerance, geo);
        }
      }
    }
  }

  /** After the loop, `prev_path_point` is the cluster of the last hole: the
      one it matched, or the one it founded (the newest cluster). */
  lemma {:induction false} ChainEndsAtLastHole(w: Walker, holes: seq<GpsPoint>, ids: seq<Option<nat>>, stamp: int, cfg: Config, geo: Geo)
    requires Valid(w.s) && w.at < |w.s.clusters|
    requires |holes| == |ids| && IdsBelow(ids, |w.s.clusters|)
    ensures var r := Chain(w, holes, ids, stamp, cfg, geo);
      && (|ids| == 0 ==> r == w)
      && (|ids| > 0 && ids[|ids| - 1].Some? ==> r.at == ids[|ids| - 1].value)
      && (|ids| > 0 && ids[|ids| - 1].None? ==> r.at == |r.s.clusters| - 1)
    decreases |holes|
  {
    if |holes| > 0 {
      var w1 := ChainHole(w, holes[0], ids[0], stamp, cfg, geo);
      ChainHoleFacts(w, holes[0], ids[0], stamp, cfg, geo);
      assert IdsBelow(ids[1..], |w1.s.clusters|);
      ChainEndsAtLastHole(w1, holes[1..], ids[1..], stamp, cfg, geo);
      if |holes| > 1 {
        assert ids[1..][|ids| - 2] == ids[|ids| - 1];
      }
    }
  }

  /** A hole leaves every cluster but its own alone. */
  lemma ChainHoleKeeps(w: Walker, hole: GpsPoint, id: Option<nat>, stamp: int, cfg: Config, geo: Geo, c: nat)
    requires Valid(w.s) && w.at < |w.s.clusters|
    requires id.Some? ==> id.value < |w.s.clusters|
    requires c < |w.s.clusters| && id != Some(c)
    ensures ChainHole(w, hole, id, stamp, cfg, geo).s.clusters[c] == w.s.clusters[c]
  {
    match id
    case None =>
      ChainHoleFounds(w, hole, stamp, cfg, geo);
    case Some(k) =>
      ChainHoleJoins(w, hole, k, stamp, cfg, geo);
  }

  /** A cluster no hole was matched to leaves the loop exactly as it entered. */
  lemma {:induction false} ChainKeepsUnmatched(w: Walker, holes: seq<GpsPoint>, ids: seq<Option<nat>>, stamp: int, cfg: Config, geo: Geo, c: nat)
    requires Valid(w.s) && w.at < |w.s.clusters|
    requires |holes| == |ids| && IdsBelow(ids, |w.s.clusters|)
    requires c < |w.s.clusters| && Some(c) !in ids
    ensures Chain(w, holes, ids, stamp, cfg, geo).s.clusters[c] == w.s.clusters[c]
    decreases |holes|
  {
    if |holes| > 0 {
      var w1 := ChainHole(w, holes[0], ids[0], stamp, cfg, geo);
      ChainHoleKeeps(w, holes[0], ids[0], stamp, cfg, geo, c);
      assert IdsBelow(ids[1..], |w1.s.clusters|);
      assert Some(c) !in ids[1..];
      ChainKeepsUnmatched(w1, holes[1..], ids[1..], stamp, cfg, geo, c);
      assert Chain(w, holes, ids, stamp, cfg, geo) == Chain(w1, holes[1..], ids[1..], stamp, cfg, geo);
    }
  }

  // ---------------------------------------------------------------------
  // Members stay close to their cluster

  /** `q` passed the candidate test of cluster `c`: in its ball and within
      the heading tolerance of it. */
  predicate Fits(c: Cluster, q: GpsPoint, cfg: Config) {
    InBall(c.Pos(), q.Pos(), cfg.radius) && HeadingClose(q.angle, c.angle, cfg.tolerance)
  }

  /** Every member point of every cluster fits it. */
  predicate Aligned(cs: seq<Cluster>, cfg: Config) {
    forall i, q :: 0 <= i < |cs| && q in cs[i].points ==> Fits(cs[i], q, cfg)
  }

  /** Every hole given a cluster fits it. */
  predicate HolesFit(cs: seq<Cluster>, holes: seq<GpsPoint>, ids: seq<Option<nat>>, cfg: Config)
    requires |holes| == |ids|
  {
    forall j :: 0 <= j < |ids| && ids[j].Some? ==> ids[j].value < |cs| && Fits(cs[ids[j].value], holes[j], cfg)
  }

  lemma AlignedAdd(cs: seq<Cluster>, k: nat, q: GpsPoint, cfg: Config)
    requires Aligned(cs, cfg) && k < |cs| && Fits(cs[k], q, cfg)
    ensures Aligned(cs[k := cs[k].Add(q)], cfg)
  {
    var ds := cs[k := cs[k].Add(q)];
    forall i, x | 0 <= i < |ds| && x in ds[i].points ensures Fits(ds[i], x, cfg) {
      if i == k && x != q {
        assert x in cs[k].points;
      }
    }
  }

  lemma AlignedAppend(cs: seq<Cluster>, c: Cluster, cfg: Config)
    requires Aligned(cs, cfg) && c.points == []
    ensures Aligned(cs + [c], cfg)
  {
    var ds := cs + [c];
    forall i, x | 0 <= i < |ds| && x in ds[i].points ensures Fits(ds[i], x, cfg) {
      assert ds[i] == cs[i];
    }
  }

  lemma HolesFitGrown(cs: seq<Cluster>, ds: seq<Cluster>, holes: seq<GpsPoint>, ids: seq<Option<nat>>, cfg: Config)
    requires |holes| == |ids| && HolesFit(cs, holes, ids, cfg) && Grown(cs, ds)
    ensures HolesFit(ds, holes, ids, cfg)
  {
    forall j | 0 <= j < |ids| && ids[j].Some? ensures ids[j].value < |ds| && Fits(ds[ids[j].value], holes[j], cfg) {
      assert ds[ids[j].value].Pos() == cs[ids[j].value].Pos();
    }
  }

  /** A hole the index matched fits the cluster it was matched to. */
  lemma MatchHoleFits(s: State, hole: GpsPoint, cfg: Config, geo: Geo)
    requires Valid(s)
    ensures var id := MatchHole(s, hole, cfg, geo);
      id.Some? ==> Fits(s.clusters[id.value], hole, cfg)
  {
    var id := MatchHole(s, hole, cfg, geo);
    if id.Some? {
      var k := id.value;
      assert k in CandidatesOf(s, hole.Pos(), hole.angle, cfg);
      assert s.snapshot[k] == s.clusters[k].Pos();
    }
  }

  /** All holes fit the clusters the stale index matched them to. */
  lemma HoleIdsFit(s: State, holes: seq<GpsPoint>, cfg: Config, geo: Geo)
    requires Valid(s)
    ensures HolesFit(s.clusters, holes, HoleIds(s, holes, cfg, geo), cfg)
  {
    var ids := HoleIds(s, holes, cfg, geo);
    forall j | 0 <= j < |ids| && ids[j].Some?
      ensures ids[j].value < |s.clusters| && Fits(s.clusters[ids[j].value], holes[j], cfg)
    {
      MatchHoleFits(s, holes[j], cfg, geo);
    }
  }

  /** One hole keeps every member next to its cluster. */
  lemma ChainHoleAligned(w: Walker, hole: GpsPoint, id: Option<nat>, stamp: int, cfg: Config, geo: Geo)
    requires Valid(w.s) && w.at < |w.s.clusters|
    requires id.Some? ==> id.value < |w.s.clusters| && Fits(w.s.clusters[id.value], hole, cfg)
    requires Aligned(w.s.clusters, cfg)
    ensures Aligned(ChainHole(w, hole, id, stamp, cfg, geo).s.clusters, cfg)
  {
    match id
    case None =>
      ChainHoleFounds(w, hole, stamp, cfg, geo);
      AlignedAppend(w.s.clusters, NewCluster(|w.s.clusters|, stamp, hole.Pos(), hole.angle), cfg);
    case Some(k) =>
      ChainHoleJoins(w, hole, k, stamp, cfg, geo);
      AlignedAdd(w.s.clusters, k, hole, cfg);
  }

  lemma HolesFitTail(cs: seq<Cluster>, holes: seq<GpsPoint>, ids: seq<Option<nat>>, cfg: Config)
    requires |holes| == |ids| > 0 && HolesFit(cs, holes, ids, cfg)
    ensures HolesFit(cs, holes[1..], ids[1..], cfg)
  {
    forall j | 0 <= j < |ids| - 1 && ids[1..][j].Some?
      ensures ids[1..][j].value < |cs| && Fits(cs[ids[1..][j].value], holes[1..][j], cfg)
    {
      assert ids[1..][j] == ids[j + 1] && holes[1..][j] == holes[j + 1];
    }
  }

  /** The loop keeps every member next to its cluster: a hole joins a
      cluster only when it fits it, and founded clusters start empty. */
  lemma {:induction false} ChainAligned(w: Walker, holes: seq<GpsPoint>, ids: seq<Option<nat>>, stamp: int, cfg: Config, geo: Geo)
    requires Valid(w.s) && w.at < |w.s.clusters|
    requires |holes| == |ids| && IdsBelow(ids, |w.s.clusters|)
    requires Aligned(w.s.clusters, cfg) && HolesFit(w.s.clusters, holes, ids, cfg)
    ensures Aligned(Chain(w, holes, ids, stamp, cfg, geo).s.clusters, cfg)
    decreases |holes|
  {
    if |holes| > 0 {
      var w1 := ChainHole(w, holes[0], ids[0], stamp, cfg, geo);
      ChainHoleFacts(w, holes[0], ids[0], stamp, cfg, geo);
      ChainHoleAligned(w, holes[0], ids[0], stamp, cfg, geo);
      assert IdsBelow(ids[1..], |w1.s.clusters|);
      HolesFitTail(w.s.clusters, holes, ids, cfg);
      HolesFitGrown(w.s.clusters, w1.s.clusters, holes[1..], ids[1..], cfg);
      ChainAligned(w1, holes[1..], ids[1..], stamp, cfg, geo);
    }
  }
}
