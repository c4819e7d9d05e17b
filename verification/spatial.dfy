/** The spatial index: `cKDTree(...).query_ball_point(x, r, p=2)` over the
    cluster positions captured at the last rebuild, followed by the heading
    filter of the engine (anim_map/methods.py:501-502, 542-545). */
module Spatial {
  import opened Geometry
  import opened Clusters

  /** Euclidean (p = 2) distance in the (lon, lat) plane at most `r`.  A
      negative radius holds nothing. */
  predicate InBall(c: Coord, x: Coord, r: real) {
    var dx := c.lon - x.lon;
    var dy := c.lat - x.lat;
    r >= 0.0 && dx * dx + dy * dy <= r * r
  }

  predicate Ascending(idx: seq<nat>) {
    forall i, j :: 0 <= i < j < |idx| ==> idx[i] < idx[j]
  }

  /** The indices among the first `k` snapshot points that lie in the ball,
      in increasing order. */
  function BallUpTo(points: seq<Coord>, x: Coord, r: real, k: nat): (idx: seq<nat>)
    requires k <= |points|
    ensures forall i: nat :: i in idx <==> i < k && InBall(points[i], x, r)
    ensures forall j :: 0 <= j < |idx| ==> idx[j] < k
  {
    if k == 0 then []
    else BallUpTo(points, x, r, k - 1) + (if InBall(points[k - 1], x, r) then [k - 1] else [])
  }

  /** `query_ball_point(x, r)`: every snapshot index within `r` of `x`.
      The index order of the real tree is not specified; the model lists
      them in increasing order. */
  function BallQuery(points: seq<Coord>, x: Coord, r: real): (idx: seq<nat>)
    ensures forall i: nat :: i in idx <==> i < |points| && InBall(points[i], x, r)
  {
    BallUpTo(points, x, r, |points|)
  }

  lemma {:induction false} BallUpToAscending(points: seq<Coord>, x: Coord, r: real, k: nat)
    requires k <= |points|
    ensures Ascending(BallUpTo(points, x, r, k))
    decreases k
  {
    if k > 0 {
      BallUpToAscending(points, x, r, k - 1);
    }
  }

  /** Every hit appears once, in increasing index order. */
  lemma BallQueryAscending(points: seq<Coord>, x: Coord, r: real)
    ensures Ascending(BallQuery(points, x, r))
  {
    BallUpToAscending(points, x, r, |points|);
  }

  /** `math.fabs(diffangles(a, b)) <= tolerance`. */
  predicate HeadingClose(a: real, b: real, tolerance: real) {
    Abs(DiffAngles(a, b)) <= tolerance
  }

  /** The list comprehension keeping the hits whose cluster heads within
      `tolerance` of `angle`, in the order the query gave them. */
  function HeadingFilter(hits: seq<nat>, clusters: seq<Cluster>, angle: real, tolerance: real): (idx: seq<nat>)
    requires forall j :: 0 <= j < |hits| ==> hits[j] < |clusters|
    ensures forall i: nat :: i in idx <==> i in hits && HeadingClose(angle, clusters[i].angle, tolerance)
    ensures |idx| <= |hits|
  {
    if |hits| == 0 then []
    else
      var last := hits[|hits| - 1];
      HeadingFilter(hits[..|hits| - 1], clusters, angle, tolerance)
        + (if HeadingClose(angle, clusters[last].angle, tolerance) then [last] else [])
  }

  lemma {:induction false} HeadingFilterKeepsOrder(hits: seq<nat>, clusters: seq<Cluster>, angle: real, tolerance: real)
    requires forall j :: 0 <= j < |hits| ==> hits[j] < |clusters|
    requires Ascending(hits)
    ensures Ascending(HeadingFilter(hits, clusters, angle, tolerance))
    decreases |hits|
  {
    if |hits| > 0 {
      var init := hits[..|hits| - 1];
      assert Ascending(init);
      HeadingFilterKeepsOrder(init, clusters, angle, tolerance);
      var f := HeadingFilter(init, clusters, angle, tolerance);
      forall j | 0 <= j < |f| ensures f[j] < hits[|hits| - 1] {
        assert f[j] in init;
      }
    }
  }

  /** The candidate clusters of a fix at `x` heading `angle`: the snapshot
      hits within `radius` whose cluster heading is within `tolerance`. */
  function Candidates(snapshot: seq<Coord>, clusters: seq<Cluster>, x: Coord, angle: real, radius: real, tolerance: real): (idx: seq<nat>)
    requires |snapshot| <= |clusters|
    ensures forall i: nat :: i in idx <==>
      i < |snapshot| && InBall(snapshot[i], x, radius) && HeadingClose(angle, clusters[i].angle, tolerance)
  {
    HeadingFilter(BallQuery(snapshot, x, radius), clusters, angle, tolerance)
  }

  /** Candidates are listed once each, in increasing index order. */
  lemma CandidatesAscending(snapshot: seq<Coord>, clusters: seq<Cluster>, x: Coord, angle: real, radius: real, tolerance: real)
    requires |snapshot| <= |clusters|
    ensures Ascending(Candidates(snapshot, clusters, x, angle, radius, tolerance))
  {
    BallQueryAscending(snapshot, x, radius);
    HeadingFilterKeepsOrder(BallQuery(snapshot, x, radius), clusters, angle, tolerance);
  }
}
