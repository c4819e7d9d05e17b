# Kharita road-map inference, modelled in Dafny

Kharita builds a directed road map incrementally from vehicle GPS fixes,
starting from an OpenStreetMap (OSM) extract:

1. The OSM lines seed clusters and edges.
2. The fixes of each vehicle are sorted and cut into trajectories wherever two
   consecutive fixes are more than `waiting_threshold` seconds apart.
3. All fixes are merged into one stream, stably sorted by time.
4. Each fix is processed in turn:
   - it joins the nearest cluster within the search radius whose heading is
     close enough;
   - or it founds a new cluster. The gap back to the trajectory's previous
     cluster is then filled with fictional clusters ("holes", one every
     `SAMPLING_DISTANCE` metres) and edges.
5. At the end, the seeded OSM clusters that no fix joined are reported dead.

The model covers all of `anim_map/methods.py` that computes:

- `diffangles`;
- the `Cluster` record and `Cluster.add`;
- the splitting loop of `create_trajectories`;
- `partition_edge`;
- `build_initial_graph_from_osm`;
- the point stream and the per-fix loop body of `kharitaStar`, with its lazy
  spatial-index rebuild and its dead-cluster list;
- `satisfy_path_condition_distance`.

The per-fix step is a pure function `Kharita.Step` over an explicit `State`.
The state holds:

- the clusters;
- the graph;
- `list_of_edges` and `edge_weight`;
- `building_trajectories`;
- the positions the k-d tree was last built from, and the rebuild flag;
- the OSM baseline and the matched and created lists.

Modules, one per file:

| file | module | what it holds |
|---|---|---|
| wrappers.dfy | Wrappers | `Option`, for the source's `-1` sentinels |
| geometry.dfy | Geometry | coordinates, `diffangles`, `int()` truncation, and the abstract geodesic primitives `Geo` |
| clusters.dfy | Clusters | `GpsPoint`, `Cluster`, `Cluster.add` |
| search.dfy | Search | `min` and `list.index` |
| sorting.dfy | Sorting | Python's stable `sorted(..., key=timestamp)` |
| trajectories.dfy | Trajectories | `create_trajectories` and the point stream |
| partition.dfy | Partition | `partition_edge` |
| roadnet.dfy | Roadnet | the graph, the edge-list entries, and enough of Python's `==` to decide the test at line 583 |
| spatial.dfy | Spatial | the ball query and the heading filter |
| osm.dfy | Osm | `build_initial_graph_from_osm` |
| kharita.dfy | Kharita | the engine state and the per-fix step |
| chain.dfy | ChainFacts | what the loop over the holes does |
| step.dfy | StepFacts | what one step does, branch by branch |
| driver.dfy | Driver | `kharitaStar` end to end |
| pathcond.dfy | PathCondition | `satisfy_path_condition_distance` |

Behaviours of the code that the model reproduces and proves:

- **Heading filter.** The candidates of a fix are exactly the snapshot
  clusters in the ball whose heading passes the filter
  (`StepFacts.CandidatesOfFix`).
- **Match branch.**
  - A matched fix joins the first candidate at the least distance.
  - It does not move its trajectory's entry in `building_trajectories`: only
    the creation branch writes that entry (lines 532 and 611).
- **Holes are matched against the stale index.** Every hole is matched
  before any fictional cluster is founded. None of them can match the fix's
  own new cluster, because the index was built before that cluster existed.
- **The edge-list test at line 583 is always true.** It looks for an id tuple
  among lists of coordinate tuples, which Python never finds
  (`Roadnet.IdPairNeverListed`). So the weight increment at lines 587-589 is
  unreachable. The model keeps that branch and proves it dead.
- **The closing edge is always new.** No edge enters the fix's new cluster
  before the closing edge, so the test at lines 602-604 always holds
  (`StepFacts.ClosingEdgeIsNew`). The reinforcement at lines 608-610 is
  therefore never reached either. The model keeps it as
  `Kharita.Reinforce`.
- **The lazy rebuild.** A fix that starts its trajectory with a new cluster
  leaves the index stale (the `continue` at line 533 skips the rebuild at
  623-625). So does a fix dropped by the jump guard at lines 505-508. The
  next fix that reaches line 623 rebuilds it.
- **`new_osm_clusters` lists the founded clusters.** Both founding sites
  (lines 524 and 571) append the new position, so the output's positions
  are the seeded ones followed by `new_osm_clusters`, in founding order
  (`Kharita.CreatedTracked`, `Driver.KharitaStar`).
- **All holes of an edge carry the same time.** Each one is stamped the
  first endpoint's `last_seen` plus ONE `time_increment`: line 204 does not
  multiply the increment by the hole's rank.
- **Each vehicle's last fix is dropped.** The final trajectory of a vehicle
  is `points[source:-1]`, so a vehicle with one fix yields one empty
  trajectory.
- **No weight is ever incremented.** Every edge the loop proposes enters a
  cluster founded during the same fix, so no proposed edge exists already.
  Seeded entries keep weight 0, and every later entry is appended with
  weight 1 (`StepFacts.StepExtendsEdges`, `StepFacts.StepGrows`,
  `Driver.RunGrows`).

## Model

| member | source | states |
|---|---|---|
| Geometry.DiffAngles | anim_map/methods.py:168-175 | the heading difference is at most 180, is non-negative for headings in [0, 360), and is 0 for equal headings |
| Geometry.DiffAnglesSymmetric | anim_map/methods.py:168-175 | the difference does not depend on argument order |
| Geometry.DiffAnglesIsShorterArc | anim_map/methods.py:168-175 | on [0, 360) the formula equals the shorter arc: the smaller of the direct difference and its complement to 360 |
| Geometry.TruncToInt | anim_map/methods.py:201-202 | Python's `int()` truncates toward zero: the result is within one of the argument, on the zero side |
| Clusters.Cluster.Add | anim_map/methods.py:66-70 | `add` appends the point, raises `nb_points` by exactly one, sets `last_seen` to the point's time, and keeps id, position and heading; it keeps `nb_points == len(points) + 1` |
| Clusters.NewCluster | anim_map/methods.py:50-58 | a new cluster has the given id, position, heading and time, no members, and a count of one |
| Clusters.Positions | anim_map/methods.py:486 | the list of `get_lonlat()` of every cluster, position by position |
| Clusters.PositionsPrefix | anim_map/methods.py:624 | appending clusters leaves the earlier positions of the rebuilt index unchanged |
| Clusters.PositionsUpdate | anim_map/methods.py:619 | adding a member to a cluster leaves every position unchanged |
| Search.MinOf | anim_map/methods.py:618 | `min` returns an element of the list that is no larger than any other |
| Search.FirstIndex | anim_map/methods.py:618 | `index` returns the first position that holds the value |
| Sorting.AtTimeAppend | anim_map/methods.py:462 | the fixes at one timestamp of a concatenation are those of each part, in order |
| Sorting.InsertByTime | anim_map/methods.py:462 | one insertion step adds exactly the inserted fix, as a multiset |
| Sorting.InsertByTimeBelow | anim_map/methods.py:462 | insertion adds no timestamp above a bound that all its inputs respect |
| Sorting.InsertByTimeSorted | anim_map/methods.py:462 | inserting into a time-sorted list keeps it sorted |
| Sorting.InsertByTimeStable | anim_map/methods.py:462 | the inserted fix lands behind every fix that already has its timestamp |
| Sorting.SortByTime | anim_map/methods.py:152 | the sort is a permutation, ordered by time, and stable: the fixes at each timestamp keep their input order |
| Trajectories.SplitByGap | anim_map/methods.py:153-164 | the splitting loop agrees with the recursive definition: a new trajectory at every gap above the threshold, the last one closed one fix short of the end |
| Trajectories.SplitFromCount | anim_map/methods.py:156-164 | from any point of the loop, the rest yields one trajectory more than there are long gaps left |
| Trajectories.SplitCount | anim_map/methods.py:153-164 | a vehicle's fixes yield exactly 1 + (number of consecutive gaps above the threshold) trajectories |
| Trajectories.SplitSingleFix | anim_map/methods.py:163-164 | a vehicle with one fix yields exactly one empty trajectory |
| Trajectories.SplitFromCovers | anim_map/methods.py:156-164 | the rest of the loop covers the fixes from `source` up to, but not including, the last fix |
| Trajectories.SplitCoversAllButLast | anim_map/methods.py:153-164 | the trajectories, concatenated, are the sorted fixes without the last one |
| Trajectories.SplitFromRuns | anim_map/methods.py:156-164 | no trajectory closed from a gap-free prefix holds a gap above the threshold |
| Trajectories.SplitRuns | anim_map/methods.py:153-164 | no trajectory has consecutive fixes more than the threshold apart, and only the last can be empty |
| Trajectories.SplitFromContiguous | anim_map/methods.py:156-164 | each trajectory the loop closes is a contiguous slice of the fixes |
| Trajectories.SplitIsContiguous | anim_map/methods.py:153-164 | every trajectory is a contiguous slice of its vehicle's sorted fixes |
| Trajectories.DetectionsCount | anim_map/methods.py:144-146 | `detections[v]` holds every fix of vehicle `v` exactly as often as the file does, and no fix of another vehicle |
| Trajectories.DetectionsAppend | anim_map/methods.py:144-146 | reading more lines appends to each vehicle's detections, in file order |
| Trajectories.FlattenAppend | anim_map/methods.py:458-461 | concatenating trajectory lists concatenates their fixes |
| Trajectories.LatestFix | anim_map/methods.py:163-164 | the fix the last slice `points[source:-1]` leaves out is a fix of the file of that vehicle |
| Trajectories.VehicleKeeps | anim_map/methods.py:151-164 | one vehicle's trajectories hold each of its fixes as often as the file does, except its latest fix, held once less, and no fix of another vehicle |
| Trajectories.ByVehicleKeeps | anim_map/methods.py:148-164 | over distinct vehicles, the trajectories hold each listed vehicle's fixes as the file does minus each latest fix, and nothing of unlisted vehicles |
| Trajectories.CreateTrajectoriesKeeps | anim_map/methods.py:135-165 | the trajectories hold every fix of the file as often as the file does, except each vehicle's latest fix, held once less |
| Trajectories.SliceOfSorted | anim_map/methods.py:159 | a slice of one vehicle's sorted fixes is sorted and belongs to that vehicle |
| Trajectories.VehicleTrajectory | anim_map/methods.py:151-164 | each trajectory cut from one vehicle's sorted fixes is that vehicle's, time-ordered and gap-bounded |
| Trajectories.TrajectoriesWellFormed | anim_map/methods.py:135-165 | every trajectory returned belongs to one listed vehicle, is ordered by time, and has no gap above the threshold |
| Trajectories.Tagged | anim_map/methods.py:458-461 | the tagged list is as long as the trajectories together; every fix of trajectory `i` is in it tagged with `i`, and everything in it is such a fix |
| Trajectories.PointStream | anim_map/methods.py:454-462 | the stream is sorted by time, a permutation of the tagged fixes, stable per timestamp, and every fix is tagged |
| Trajectories.PointStreamHolds | anim_map/methods.py:454-462 | the stream has one entry per trajectory fix, each trajectory fix is in it tagged with its index, and nothing else is |
| Partition.Walk | anim_map/methods.py:202-207 | the walk lays exactly the requested number of holes |
| Partition.PartitionEdge | anim_map/methods.py:192-202 | an edge shorter than the interval gets no hole; otherwise exactly `int(d) / interval` holes, at least one |
| Partition.WalkShape | anim_map/methods.py:202-207 | each hole is one interval past the previous one along the bearing, with the bearing as heading and one common timestamp |
| Partition.HolesAlongBearing | anim_map/methods.py:196-209 | all holes head along the start-to-end bearing and share the single time `last_seen + (delta / n)`; the first is one interval from the start |
| Roadnet.Graph.AddNode | anim_map/methods.py:520 | `add_node` adds the node and no edge, and adding a node already present leaves the graph as it was |
| Roadnet.Graph.AddEdge | anim_map/methods.py:585 | `add_edge` adds the edge and both end nodes, removes nothing, and adding an edge already present leaves the graph as it was |
| Roadnet.AddNodeDense | anim_map/methods.py:517-520 | adding node `len(clusters)` keeps the node ids exactly `0 .. len(clusters) - 1` |
| Roadnet.EdgesListedExtend | anim_map/methods.py:588-589 | appending clusters and entries keeps every graph edge listed, so `list_of_edges.index` cannot fail |
| Roadnet.EdgesListedGrow | anim_map/methods.py:584-586 | adding an edge whose entry was appended keeps every graph edge listed |
| Roadnet.IdPairNeverListed | anim_map/methods.py:583 | an id tuple is never found in `list_of_edges`, so the test at 583 is always true and its `else` branch is dead |
| Roadnet.EntryListedIffPresent | anim_map/methods.py:588-589 | a coordinate entry is found by `in` / `index` exactly when it is present |
| Roadnet.PyEqReflexive | anim_map/methods.py:583 | Python `==` on numbers, tuples and lists is reflexive |
| Spatial.BallUpTo | anim_map/methods.py:501 | among the first `k` snapshot points, the query lists exactly those in the ball |
| Spatial.BallQuery | anim_map/methods.py:501 | `query_ball_point` returns exactly the snapshot indices within the radius |
| Spatial.BallUpToAscending | anim_map/methods.py:501 | the partial query lists its hits once each, in increasing order |
| Spatial.BallQueryAscending | anim_map/methods.py:501 | the query lists its hits once each, in increasing order |
| Spatial.HeadingFilter | anim_map/methods.py:501-502 | the comprehension keeps exactly the hits whose cluster heading is within the tolerance |
| Spatial.HeadingFilterKeepsOrder | anim_map/methods.py:501-502 | the filter keeps the query's order |
| Spatial.Candidates | anim_map/methods.py:501-502 | the candidates are exactly the snapshot clusters in the ball and within the heading tolerance |
| Spatial.CandidatesAscending | anim_map/methods.py:501-502 | the candidates are listed once each, in increasing index order |
| Osm.EnsureCluster | anim_map/methods.py:417-424 | a cluster is appended at a coordinate exactly when none sits there, with the next id |
| Osm.SeedLine | anim_map/methods.py:416-427 | a line appends its coordinate pair to the edge list with weight 0, keeps the earlier clusters in place, has clusters at both ends, and adds exactly the edge between the first indices of its two coordinates |
| Osm.BuildInitialGraph | anim_map/methods.py:402-429 | one edge entry and one weight per line |
| Osm.EnsureClusterKeeps | anim_map/methods.py:417-424 | the deduplication keeps the clusters fresh, at distinct coordinates and numbered by position, and only appends |
| Osm.LineClustersKeep | anim_map/methods.py:417-424 | a line appends at most its two ends, and the clusters stay fresh and distinct |
| Osm.NewIdIsEnd | anim_map/methods.py:417-425 | every id a line adds is the index of one of its two ends |
| Osm.DistinctIndex | anim_map/methods.py:417-425 | among distinct coordinates, `clusters_latlon.index` is unambiguous |
| Osm.SeedLineValid | anim_map/methods.py:416-427 | one line keeps the seed well formed: ids dense, every edge listed, all weights 0 |
| Osm.SeedingValid | anim_map/methods.py:402-429 | the seed has distinct, freshly numbered clusters, node ids `0 .. n - 1`, every edge listed, and equal-length lists with all weights 0 |
| Osm.LineEntries | anim_map/methods.py:426 | entry `i` is line `i`'s coordinate pair |
| Osm.SeedingEntries | anim_map/methods.py:426 | the edge list is exactly the lines' coordinate pairs, in order |
| Osm.SeedLineGrows | anim_map/methods.py:417-425 | a line only appends clusters, and it adds exactly the edge between the indices of its ends |
| Osm.SeedingFresh | anim_map/methods.py:408-424 | the seeded clusters are at distinct coordinates, have `cid == i`, a count of one and no members |
| Osm.SeedingLineIsEdge | anim_map/methods.py:425 | every line yields a graph edge between the indices whose coordinates are its endpoints |
| Osm.SeedingEdgeIsLine | anim_map/methods.py:425 | every graph edge joins the two endpoints of some line |
| Osm.PositionsGrow | anim_map/methods.py:417-425 | appending clusters keeps the first index of every present coordinate |
| Kharita.AppendCluster | anim_map/methods.py:517-524 | founding appends a cluster with id `len(clusters)` and keeps the state invariant |
| Kharita.CreatedAppend | anim_map/methods.py:524 | appending a founded cluster's position to `new_osm_clusters` keeps it the list of the positions after the seeded ones |
| Kharita.Link | anim_map/methods.py:584-586 | drawing an edge keeps the invariant and moves no cluster |
| Kharita.Reinforce | anim_map/methods.py:608-610 | reinforcing adds one to the weight of the first entry holding the edge's coordinate pair; the clusters, the graph, the edge list and everything else stay the same |
| Kharita.AddMember | anim_map/methods.py:601 | adding a member replaces only that cluster, with its `add` |
| Kharita.MoveTo | anim_map/methods.py:611 | the fix's cluster becomes its trajectory's latest cluster; nothing else changes and the invariant holds |
| Kharita.Rebuild | anim_map/methods.py:623-625 | after the rebuild the index holds every cluster position and the flag is down |
| Kharita.Nearest | anim_map/methods.py:555-556 | the chosen cluster is one of the candidates |
| Kharita.CandidatesOf | anim_map/methods.py:501-502 | every candidate is a cluster indexed at the last rebuild |
| Kharita.MatchHole | anim_map/methods.py:542-557 | a hole's cluster, if any, was indexed at the last rebuild |
| Kharita.HoleIds | anim_map/methods.py:540-557 | there is one id per hole, and every id names a cluster indexed at the last rebuild |
| Kharita.ChainHole | anim_map/methods.py:561-601 | one hole keeps the invariant and only appends clusters |
| Kharita.Chain | anim_map/methods.py:560-601 | the loop over the holes keeps the invariant and only appends clusters |
| Kharita.FinalEdge | anim_map/methods.py:602-610 | the closing step keeps the invariant and moves no cluster |
| Kharita.Extend | anim_map/methods.py:535-611 | filling the gap keeps the invariant |
| Kharita.CreateBranch | anim_map/methods.py:515-611 | the creation branch keeps the invariant |
| Kharita.MatchBranch | anim_map/methods.py:613-622 | the match branch keeps the invariant |
| Kharita.Matched | anim_map/methods.py:621-622 | recording a matched position appends it to `matched_osm_clusters` and changes nothing else |
| Kharita.Step | anim_map/methods.py:490-625 | every step keeps the invariant: numbered, count-consistent clusters, a snapshot that is a prefix of the positions and stale exactly when flagged, trajectory entries naming clusters, dense node ids, every edge listed, equal-length lists, non-negative weights |
| ChainFacts.GrownTransitive | anim_map/methods.py:560-601 | "only appended, nothing moved" composes |
| ChainFacts.EdgesAppendedTransitive | anim_map/methods.py:584-607 | "entries and weights only appended, with weight 1" composes |
| ChainFacts.AppendFrame | anim_map/methods.py:565-574 | founding touches no edge, entry, index snapshot, trajectory entry or OSM list |
| ChainFacts.LinkFrame | anim_map/methods.py:584-586 | drawing an edge adds exactly that edge and appends one entry with weight 1 |
| ChainFacts.MemberFrame | anim_map/methods.py:601 | adding a member touches no edge, entry or index |
| ChainFacts.ChainHoleFacts | anim_map/methods.py:561-601 | one hole founds a cluster exactly when it has none, and `prev_path_point` becomes the hole's cluster |
| ChainFacts.ChainHoleFounds | anim_map/methods.py:562-590 | a hole without a cluster founds one at its place, stamped with the fix's time; the edge is drawn exactly when both heading checks pass; `prev_path_point` advances either way |
| ChainFacts.ChainHoleJoins | anim_map/methods.py:591-601 | a hole with a cluster joins it, draws no edge, and becomes `prev_path_point` |
| ChainFacts.ConsistentKept | anim_map/methods.py:576-579 | the heading checks read only positions and headings, which never change |
| ChainFacts.ChainHoleEdges | anim_map/methods.py:562-590 | the only edge a hole can draw enters the cluster it founds and passes the heading checks |
| ChainFacts.CountNone | anim_map/methods.py:546-547 | the count of holes without a cluster is 0 exactly when every hole has one, and equals the number of holes exactly when none has one |
| ChainFacts.ChainGrows | anim_map/methods.py:560-601 | the loop founds one cluster per unmatched hole, moves none, only appends entries and weights (weight 1), and leaves index, trajectories and OSM lists alone |
| ChainFacts.ChainEdgesConsistent | anim_map/methods.py:560-601 | every edge the loop draws enters a cluster it founded, from a heading-consistent cluster |
| ChainFacts.ChainEndsAtLastHole | anim_map/methods.py:560-601 | after the loop `prev_path_point` is the last hole's cluster, matched or founded |
| ChainFacts.ChainHoleKeeps | anim_map/methods.py:561-601 | one hole leaves every other cluster alone |
| ChainFacts.ChainKeepsUnmatched | anim_map/methods.py:560-601 | a cluster that no hole matched leaves the loop unchanged |
| ChainFacts.AlignedAdd | anim_map/methods.py:601 | adding a member that fits its cluster keeps every member fitting |
| ChainFacts.AlignedAppend | anim_map/methods.py:565-568 | founding an empty cluster keeps every member fitting |
| ChainFacts.HolesFitGrown | anim_map/methods.py:560-601 | holes keep fitting their clusters as clusters are added |
| ChainFacts.MatchHoleFits | anim_map/methods.py:542-557 | a matched hole passed its cluster's ball and heading test |
| ChainFacts.HoleIdsFit | anim_map/methods.py:540-557 | every matched hole fits its cluster |
| ChainFacts.ChainHoleAligned | anim_map/methods.py:561-601 | one hole keeps every member fitting its cluster |
| ChainFacts.HolesFitTail | anim_map/methods.py:561 | the remaining holes still fit |
| ChainFacts.ChainAligned | anim_map/methods.py:560-601 | the loop keeps every member fitting its cluster |
| StepFacts.CandidatesOfFix | anim_map/methods.py:501-502 | a cluster is a candidate of a fix exactly when it was indexed and the fix is in its ball and heading tolerance |
| StepFacts.RebuildFrame | anim_map/methods.py:623-625 | the rebuild changes only the index and its flag |
| StepFacts.NearestIsFirstClosest | anim_map/methods.py:616-618 | the chosen cluster is at the least distance and strictly closer than every earlier candidate |
| StepFacts.StepSkipsExactly | anim_map/methods.py:491-508 | a fix before the cutoff or more than 200 m from its trajectory's previous cluster changes nothing; the clusters are unchanged exactly for those fixes |
| StepFacts.StepMatches | anim_map/methods.py:613-625 | a fix with candidates joins the first nearest one, which it fits; no other cluster, no edge, entry, weight or trajectory entry changes; it is recorded as matched exactly when seeded |
| StepFacts.MatchBranchFrame | anim_map/methods.py:613-622 | the match branch changes only that cluster and the matched list |
| StepFacts.StepStarts | anim_map/methods.py:515-533 | a fix without candidates or previous cluster founds cluster `len(clusters)`, starts its trajectory there, draws nothing, and leaves the index stale and flagged |
| StepFacts.FoundedByAppend | anim_map/methods.py:517-521 | after founding, the new cluster is the newest, unindexed, and no edge enters it |
| StepFacts.HoleIdsStale | anim_map/methods.py:540-557 | no hole can be matched to the fix's own new cluster |
| StepFacts.HolesBetween | anim_map/methods.py:537-557 | the hole ids name existing clusters, never the new one |
| StepFacts.Fill | anim_map/methods.py:560-601 | the loop ends on an existing cluster, with the new one still present |
| StepFacts.ClosingEdgeIsNew | anim_map/methods.py:602-610 | the closing edge is always absent, so it is appended and the weight increment is never reached |
| StepFacts.ExtendUnfolds | anim_map/methods.py:535-625 | the gap filling is: the chain, one new closing edge, the trajectory moved, the index rebuilt |
| StepFacts.ExtendGrows | anim_map/methods.py:535-625 | the gap filling moves no cluster, appends at least the closing entry with weight 1, and moves the trajectory to the new cluster |
| StepFacts.ExtendEdges | anim_map/methods.py:560-610 | the gap filling draws an edge into the new cluster, and every other edge enters a fictional cluster from a heading-consistent one |
| StepFacts.ExtendAligned | anim_map/methods.py:535-611 | the gap filling keeps every member fitting its cluster |
| StepFacts.StepExtends | anim_map/methods.py:515-625 | a fix without candidates but with a previous cluster founds cluster `len(clusters)`, moves no cluster, only appends entries and weights, and moves its trajectory there; the index is rebuilt |
| StepFacts.StepExtendsEdges | anim_map/methods.py:535-610 | that branch draws an edge into the fix's cluster; every other new edge enters a later fictional cluster from a heading-consistent one |
| StepFacts.StepAligned | anim_map/methods.py:490-625 | every member of every cluster passed that cluster's ball and heading test |
| StepFacts.SameEdgesAppended | anim_map/methods.py:613-622 | a step that draws nothing appends nothing |
| StepFacts.GrownByAdd | anim_map/methods.py:619 | `add` moves no cluster |
| StepFacts.MatchedAppend | anim_map/methods.py:621-622 | appending seeded positions keeps the matched list a seeded extension |
| StepFacts.MatchesGrow | anim_map/methods.py:613-625 | the match branch only grows the map |
| StepFacts.MatchBranchGrows | anim_map/methods.py:613-622 | joining a candidate only grows the map |
| StepFacts.StartsGrow | anim_map/methods.py:515-533 | starting a trajectory only grows the map |
| StepFacts.ExtendsGrow | anim_map/methods.py:515-625 | the gap-filling branch only grows the map |
| StepFacts.StepGrows | anim_map/methods.py:490-625 | every step only grows the map: no cluster moves, entries and weights are only appended (weight 1), no edge is removed, the baseline stays, and the matched list only grows with seeded positions |
| Driver.FromSeedValid | anim_map/methods.py:476-486 | the seeded state, with the index built over every seeded cluster, satisfies the engine invariant, and its clusters have no members |
| Driver.InitialState | anim_map/methods.py:476-486 | the loop starts from the seeded clusters and graph, with the baseline their positions and no members |
| Driver.EmptyAligned | anim_map/methods.py:476 | clusters without members trivially fit |
| Driver.Run | anim_map/methods.py:490-625 | the loop keeps the state invariant |
| Driver.GrowsReflexive | anim_map/methods.py:490-625 | a state grows into itself |
| Driver.GrowsTransitive | anim_map/methods.py:490-625 | growth composes across steps |
| Driver.RunGrows | anim_map/methods.py:490-625 | over the whole stream the map only grows |
| Driver.RunAligned | anim_map/methods.py:490-625 | over the whole stream every member fits its cluster |
| Driver.DeadClusters | anim_map/methods.py:626 | a position is dead exactly when it was seeded and not matched |
| Driver.DeadShrinks | anim_map/methods.py:626 | matching more never lengthens the dead list |
| Driver.Stream | anim_map/methods.py:452-462 | the stream is time-sorted; it has one entry per fix of the trajectories, every trajectory fix appears tagged with its index, and nothing else appears |
| Driver.KharitaStar | anim_map/methods.py:432-630 | the seeded clusters keep their place, every member fits its cluster, matched positions are seeded, dead is exactly seeded-and-unmatched, every seeded edge survives, and `new_osm_clusters` lists the position of every cluster founded after the seeding, in order |
| Driver.SeededThenCreated | anim_map/methods.py:524-630 | when the run starts from the seeded positions, the final positions are the seeded ones followed by `new_osm_clusters` |
| Driver.OsmLinesSurvive | anim_map/methods.py:402-630 | every OSM line still has an edge in the output between clusters at its two ends |
| PathCondition.PathLength | anim_map/methods.py:103-106 | a path of one node has length 0, and a one-hop path has the length of its leg |
| PathCondition.PathLengthNonnegative | anim_map/methods.py:103-106 | with non-negative distances, no path has negative length |
| PathCondition.SatisfyPathCondition | anim_map/methods.py:87-109 | a missing or repeated end is refused; an end outside the graph raises (`None`), exactly then; an unreachable target between present nodes is accepted |
| PathCondition.PathHasHop | anim_map/methods.py:102-104 | a path between two different nodes has at least one hop |
| PathCondition.DirectEdgeDecides | anim_map/methods.py:98-109 | when the edge already exists between present nodes and has positive length, the test answers exactly `alpha <= 1` |

## Left out

- File reading and timestamp parsing (`load_data`, `GpsPoint.__init__`, the
  `open` of the OSM file, the writes to `distances.txt`) are I/O. Fixes and
  OSM lines arrive as parsed records, and timestamps are whole seconds.
- Microseconds are not modelled: `delta.days * 24 * 3600 + delta.seconds` is
  the whole-second difference.
- Geodesic distance, `calculate_bearing`, `vector_direction_re_north` and
  the Vincenty destination are floating-point trigonometry from geopy. They
  are the fields of an abstract `Geo` record, and no property depends on
  their values.
- Geometry.DiffAngles, Geometry.HeadingClose, Spatial.InBall,
  Geometry.TruncToInt: headings, coordinates and their arithmetic are exact
  `real`s. The source computes in IEEE doubles, and its rounding (for
  example in `abs(a - b) % 360`, the squared Euclidean distance or `int()` of
  a quotient near a whole number) is not modelled.
- `cKDTree.query_ball_point` is a foreign library. The model lists the
  snapshot indices in the Euclidean ball in increasing order. The real
  tree's order is unspecified, which only affects which of several
  equally close candidates is chosen.
- networkx is a foreign library. The graph is a node set and an edge set.
  `nx.has_path` and `nx.shortest_path` are inputs to
  `PathCondition.SatisfyPathCondition`, constrained to be a fewest-hop path
  or none. The `NodeNotFound` that `nx.has_path` raises for an end outside
  the graph is the result `None`. Its only caller, line 582, is commented
  out.
- The iteration order of the `detections` dictionary is an input to
  `Trajectories.CreateTrajectories` (any order listing every vehicle once).
- The date cutoff at line 491 is the `cutoff` field of the configuration.
- `_recompute_center` and `_meanangle` are never called (line 70 is
  commented out), and they are float trigonometry.
- Plotting and animation (`draw_roadnet*`, `road_color*`, `generate_image`,
  `create_proxy`, the `p_X`/`p_Y` buffers) are user interface only.
- `crop_osm_graph` and `removePathsOSM` are stubs.
- The console `print`s are output only.
- Kharita.Step: requires that the fix carries a trajectory index. Every fix
  of the stream does (`Driver.Stream`), so this only restates how the
  stream is built.
- Kharita.Nearest: its own contract says only that the choice is a
  candidate; that it is the first closest one is
  `StepFacts.NearestIsFirstClosest`.
- Partition.PartitionEdge, Kharita.Extend, Kharita.CreateBranch,
  Kharita.Step, Driver.Run, Driver.KharitaStar: require `interval > 0`. With
  `0` the source raises `ZeroDivisionError` at line 201, which the model
  does not reproduce; a negative interval is not modelled either.
