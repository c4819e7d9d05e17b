/** `satisfy_path_condition_distance` (anim_map/methods.py:87-109): an edge
    from `s` to `t` is worth adding unless the graph already links them by a
    route not much longer than the straight distance.  `nx.has_path` and
    `nx.shortest_path` are foreign: their answer comes in as `route`, with
    the contract networkx gives it (a route of fewest hops, or none when `t`
    is unreachable). */
module PathCondition {
  import opened Wrappers
  import opened Geometry
  import opened Clusters
  import opened Roadnet

  /** `path` walks graph edges from `s` to `t`. */
  ghost predicate IsPath(edges: set<(nat, nat)>, path: seq<nat>, s: nat, t: nat) {
    && |path| >= 1 && path[0] == s && path[|path| - 1] == t
    && forall i :: 1 <= i < |path| ==> (path[i - 1], path[i]) in edges
  }

  ghost predicate Reachable(edges: set<(nat, nat)>, s: nat, t: nat) {
    exists path :: IsPath(edges, path, s, t)
  }

  /** A path with the fewest hops. */
  ghost predicate Shortest(edges: set<(nat, nat)>, path: seq<nat>, s: nat, t: nat) {
    && IsPath(edges, path, s, t)
    && forall q :: IsPath(edges, q, s, t) ==> |path| <= |q|
  }

  /** What networkx answers for `s` and `t`. */
  ghost predicate RouteOf(edges: set<(nat, nat)>, route: Option<seq<nat>>, s: nat, t: nat) {
    && (route.None? <==> !Reachable(edges, s, t))
    && (route.Some? ==> Shortest(edges, route.value, s, t))
  }

  predicate OnClusters(path: seq<nat>, clusters: seq<Cluster>) {
    forall i :: 0 <= i < |path| ==> path[i] < |clusters|
  }

  /** The geodesic distance between two clusters. */
  function Leg(clusters: seq<Cluster>, a: nat, b: nat, geo: Geo): real
    requires a < |clusters| && b < |clusters|
  {
    geo.distance(clusters[a].Pos(), clusters[b].Pos())
  }

  /** `path_length_meters`: the legs of the path summed in order. */
  function PathLength(path: seq<nat>, clusters: seq<Cluster>, geo: Geo): (len: real)
    requires OnClusters(path, clusters)
    ensures |path| <= 1 ==> len == 0.0
    ensures |path| == 2 ==> len == Leg(clusters, path[0], path[1], geo)
  {
    if |path| <= 1 then 0.0
    else
      var n := |path| - 1;
      PathLength(path[..n], clusters, geo) + Leg(clusters, path[n - 1], path[n], geo)
  }

  /** With no negative distance, no path is negative in length. */
  lemma {:induction false} PathLengthNonnegative(path: seq<nat>, clusters: seq<Cluster>, geo: Geo)
    requires OnClusters(path, clusters)
    requires forall a, b :: geo.distance(a, b) >= 0.0
    ensures PathLength(path, clusters, geo) >= 0.0
    decreases |path|
  {
    if |path| > 1 {
      PathLengthNonnegative(path[..|path| - 1], clusters, geo);
    }
  }

  /** `satisfy_path_condition_distance(s, t, g, clusters, alpha)`; `-1`
      stands for "no cluster".  `None` stands for the `NodeNotFound` that
      `nx.has_path` raises when either end is not a node of the graph: it
      catches only `NetworkXNoPath`, so the error reaches the caller. */
  function SatisfyPathCondition(s: int, t: int, g: Graph, clusters: seq<Cluster>, alpha: real, geo: Geo,
                                route: Option<seq<nat>>): (ok: Option<bool>)
    requires -1 <= s < |clusters| && -1 <= t < |clusters|
    requires route.Some? ==> OnClusters(route.value, clusters)
    requires s >= 0 && t >= 0 && s in g.nodes && t in g.nodes ==> RouteOf(g.edges, route, s, t)
    ensures s == -1 || t == -1 || s == t ==> ok == Some(false)
    ensures s >= 0 && t >= 0 && s != t ==> (ok.None? <==> s !in g.nodes || t !in g.nodes)
    ensures s >= 0 && t >= 0 && s != t && s in g.nodes && t in g.nodes && !Reachable(g.edges, s, t) ==>
      ok == Some(true)
  {
    if s == -1 || t == -1 || s == t then Some(false)
    else
      var edgeDistance := Leg(clusters, s, t, geo);
      if s !in g.nodes || t !in g.nodes then None
      else if route.None? then Some(true)
      else Some(PathLength(route.value, clusters, geo) >= alpha * edgeDistance)
  }

  /** A path between two different nodes has at least one hop. */
  lemma PathHasHop(edges: set<(nat, nat)>, path: seq<nat>, s: nat, t: nat)
    requires IsPath(edges, path, s, t) && s != t
    ensures |path| >= 2
  {
  }

  /** When the graph already has the edge `s -> t`, networkx's route is
      that edge, so the test only compares `1` with `alpha`: with a
      positive distance, it holds exactly when `alpha <= 1`. */
  lemma DirectEdgeDecides(s: nat, t: nat, g: Graph, clusters: seq<Cluster>, alpha: real, geo: Geo,
                          route: Option<seq<nat>>)
    requires s < |clusters| && t < |clusters| && s != t && (s, t) in g.edges
    requires s in g.nodes && t in g.nodes
    requires route.Some? ==> OnClusters(route.value, clusters)
    requires RouteOf(g.edges, route, s, t)
    requires Leg(clusters, s, t, geo) > 0.0
    ensures SatisfyPathCondition(s, t, g, clusters, alpha, geo, route) == Some(alpha <= 1.0)
  {
    var direct := [s, t];
    assert IsPath(g.edges, direct, s, t);
    var path := route.value;
    PathHasHop(g.edges, path, s, t);
    assert |path| == 2;
    var d := Leg(clusters, s, t, geo);
    assert PathLength(path, clusters, geo) == d;
    if alpha > 1.0 {
      assert alpha * d > 1.0 * d;
    }
  }
}
