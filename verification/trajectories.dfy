/** Trajectory splitting of `create_trajectories` and the point stream of
    `kharitaStar` (anim_map/methods.py:135-165, 454-462).  Reading the file
    and parsing timestamps is left to the caller: fixes arrive as records with
    whole-second timestamps. */
module Trajectories {
  import opened Wrappers
  import opened Clusters
  import opened Sorting

  /** Seconds between fix `k - 1` and fix `k`.  With whole-second timestamps
      `delta.days * 24 * 3600 + delta.seconds` is exactly this difference. */
  function Gap(ps: seq<GpsPoint>, k: int): int
    requires 1 <= k < |ps|
  {
    ps[k].timestamp - ps[k - 1].timestamp
  }

  /** The positions at or after `i` where the gap to the previous fix
      exceeds the threshold. */
  function LongGapsFrom(ps: seq<GpsPoint>, threshold: int, i: nat): set<nat>
  {
    set k: nat | i <= k < |ps| && 1 <= k && Gap(ps, k) > threshold
  }

  /** The trajectories the splitting loop closes from the state where the
      current trajectory starts at `source` and fix `i` is examined next. */
  function SplitFrom(ps: seq<GpsPoint>, threshold: int, source: nat, i: nat): (r: seq<seq<GpsPoint>>)
    requires source < i <= |ps|
    ensures |r| >= 1
    decreases |ps| - i
  {
    if i == |ps| then [ps[source..|ps| - 1]]
    else if Gap(ps, i) > threshold then [ps[source..i]] + SplitFrom(ps, threshold, i, i + 1)
    else SplitFrom(ps, threshold, source, i + 1)
  }

  /** The trajectories of one vehicle's time-sorted fixes: a new trajectory
      at every gap above the threshold, the last one closed one fix short of
      the end (`points[source:-1]`). */
  function Split(ps: seq<GpsPoint>, threshold: int): (r: seq<seq<GpsPoint>>)
  {
    if |ps| == 0 then [] else SplitFrom(ps, threshold, 0, 1)
  }

  /** The splitting loop of `create_trajectories`, as written. */
  method SplitByGap(ps: seq<GpsPoint>, threshold: int) returns (trajectories: seq<seq<GpsPoint>>)
    ensures trajectories == Split(ps, threshold)
  {
    trajectories := [];
    var source := 0;
    var prevPoint := 0;
    var i := 1;
    while i < |ps|
      invariant 1 <= i && (|ps| > 0 ==> i <= |ps|)
      invariant prevPoint == i - 1
      invariant source < i
      invariant |ps| == 0 ==> trajectories == []
      invariant |ps| > 0 ==> trajectories + SplitFrom(ps, threshold, source, i) == Split(ps, threshold)
    {
      if ps[i].timestamp - ps[prevPoint].timestamp > threshold {
        assert SplitFrom(ps, threshold, source, i) == [ps[source..i]] + SplitFrom(ps, threshold, i, i + 1);
        trajectories := trajectories + [ps[source..i]];
        source := i;
      }
      prevPoint := i;
      i := i + 1;
    }
    if |ps| == 0 {
      assert Split(ps, threshold) == [];
    } else {
      assert i == |ps| && source < |ps|;
      assert SplitFrom(ps, threshold, source, i) == [ps[source..|ps| - 1]];
      trajectories := trajectories + [ps[source..|ps| - 1]];
    }
  }

  /** Concatenation of a list of trajectories. */
  function Flatten(ss: seq<seq<GpsPoint>>): seq<GpsPoint>
  {
    if |ss| == 0 then [] else ss[0] + Flatten(ss[1..])
  }

  lemma {:induction false} FlattenAppend(ss: seq<seq<GpsPoint>>, tt: seq<seq<GpsPoint>>)
    ensures Flatten(ss + tt) == Flatten(ss) + Flatten(tt)
    decreases |ss|
  {
    if |ss| > 0 {
      assert (ss + tt)[1..] == ss[1..] + tt;
      FlattenAppend(ss[1..], tt);
    } else {
      assert ss + tt == tt;
    }
  }

  lemma {:induction false} SplitFromCount(ps: seq<GpsPoint>, threshold: int, source: nat, i: nat)
    requires source < i <= |ps|
    ensures |SplitFrom(ps, threshold, source, i)| == 1 + |LongGapsFrom(ps, threshold, i)|
    decreases |ps| - i
  {
    if i == |ps| {
      assert LongGapsFrom(ps, threshold, i) == {};
    } else {
      SplitFromCount(ps, threshold, if Gap(ps, i) > threshold then i else source, i + 1);
      var rest := LongGapsFrom(ps, threshold, i + 1);
      if Gap(ps, i) > threshold {
        assert LongGapsFrom(ps, threshold, i) == rest + {i};
        assert i !in rest;
      } else {
        assert LongGapsFrom(ps, threshold, i) == rest;
      }
    }
  }

  /** One trajectory per long gap, plus one: every vehicle with at least one
      fix yields `1 + (number of gaps above the threshold)` trajectories. */
  lemma SplitCount(ps: seq<GpsPoint>, threshold: int)
    requires |ps| > 0
    ensures |Split(ps, threshold)| == 1 + |LongGapsFrom(ps, threshold, 1)|
  {
    SplitFromCount(ps, threshold, 0, 1);
  }

  /** A vehicle with a single fix yields one empty trajectory: the final slice
      stops before the last fix. */
  lemma SplitSingleFix(ps: seq<GpsPoint>, threshold: int)
    requires |ps| == 1
    ensures Split(ps, threshold) == [[]]
  {
  }

  lemma {:induction false} SplitFromCovers(ps: seq<GpsPoint>, threshold: int, source: nat, i: nat)
    requires source < i <= |ps|
    ensures Flatten(SplitFrom(ps, threshold, source, i)) == ps[source..|ps| - 1]
    decreases |ps| - i
  {
    if i < |ps| {
      if Gap(ps, i) > threshold {
        SplitFromCovers(ps, threshold, i, i + 1);
        var r := SplitFrom(ps, threshold, source, i);
        assert r[1..] == SplitFrom(ps, threshold, i, i + 1);
        assert ps[source..i] + ps[i..|ps| - 1] == ps[source..|ps| - 1];
      } else {
        SplitFromCovers(ps, threshold, source, i + 1);
      }
    }
  }

  /** Together the trajectories hold every fix but the last, in order. */
  lemma SplitCoversAllButLast(ps: seq<GpsPoint>, threshold: int)
    requires |ps| > 0
    ensures Flatten(Split(ps, threshold)) == ps[..|ps| - 1]
  {
    SplitFromCovers(ps, threshold, 0, 1);
  }

  /** No trajectory holds a gap above the threshold, and only the last one
      can be empty. */
  ghost predicate RunsWithin(r: seq<seq<GpsPoint>>, threshold: int) {
    && (forall j, m :: 0 <= j < |r| && 0 <= m < |r[j]| - 1 ==>
          r[j][m + 1].timestamp - r[j][m].timestamp <= threshold)
    && (forall j :: 0 <= j < |r| - 1 ==> |r[j]| > 0)
  }

  lemma {:induction false} SplitFromRuns(ps: seq<GpsPoint>, threshold: int, source: nat, i: nat)
    requires source < i <= |ps|
    requires forall k :: source < k < i ==> Gap(ps, k) <= threshold
    ensures RunsWithin(SplitFrom(ps, threshold, source, i), threshold)
    decreases |ps| - i
  {
    var r: seq<seq<GpsPoint>> := SplitFrom(ps, threshold, source, i);
    if i == |ps| {
      var t := ps[source..|ps| - 1];
      assert r == [t];
      forall m | 0 <= m < |t| - 1
        ensures t[m + 1].timestamp - t[m].timestamp <= threshold
      {
        assert t[m + 1] == ps[source + m + 1] && t[m] == ps[source + m];
        assert Gap(ps, source + m + 1) <= threshold;
      }
    } else if Gap(ps, i) > threshold {
      SplitFromRuns(ps, threshold, i, i + 1);
      var t := ps[source..i];
      var rest := SplitFrom(ps, threshold, i, i + 1);
      assert r == [t] + rest;
      forall j: int, m: int | 0 <= j < |r| && 0 <= m < |r[j]| - 1
        ensures r[j][m + 1].timestamp - r[j][m].timestamp <= threshold
      {
        if j == 0 {
          assert t[m + 1] == ps[source + m + 1] && t[m] == ps[source + m];
          assert Gap(ps, source + m + 1) <= threshold;
        } else {
          assert r[j] == rest[j - 1];
        }
      }
      forall j | 0 <= j < |r| - 1
        ensures |r[j]| > 0
      {
        if j > 0 {
          assert r[j] == rest[j - 1];
        }
      }
    } else {
      SplitFromRuns(ps, threshold, source, i + 1);
    }
  }

  /** Inside a trajectory no two consecutive fixes are more than `threshold`
      seconds apart, and only the last trajectory can be empty. */
  lemma SplitRuns(ps: seq<GpsPoint>, threshold: int)
    ensures RunsWithin(Split(ps, threshold), threshold)
  {
    if |ps| > 0 {
      SplitFromRuns(ps, threshold, 0, 1);
    }
  }

  /** Each trajectory is a contiguous run of the fixes it was cut from. */
  lemma {:induction false} SplitFromContiguous(ps: seq<GpsPoint>, threshold: int, source: nat, i: nat, j: int)
    requires source < i <= |ps|
    requires 0 <= j < |SplitFrom(ps, threshold, source, i)|
    ensures exists a, b :: 0 <= a <= b <= |ps| && SplitFrom(ps, threshold, source, i)[j] == ps[a..b]
    decreases |ps| - i
  {
    var r: seq<seq<GpsPoint>> := SplitFrom(ps, threshold, source, i);
    if i == |ps| {
      assert r[j] == ps[source..|ps| - 1];
    } else if Gap(ps, i) > threshold {
      if j == 0 {
        assert r[j] == ps[source..i];
      } else {
        SplitFromContiguous(ps, threshold, i, i + 1, j - 1);
        assert r[j] == SplitFrom(ps, threshold, i, i + 1)[j - 1];
      }
    } else {
      SplitFromContiguous(ps, threshold, source, i + 1, j);
    }
  }

  lemma SplitIsContiguous(ps: seq<GpsPoint>, threshold: int, j: int)
    requires 0 <= j < |Split(ps, threshold)|
    ensures exists a, b :: 0 <= a <= b <= |ps| && Split(ps, threshold)[j] == ps[a..b]
  {
    SplitFromContiguous(ps, threshold, 0, 1, j);
  }

  /** `detections[v]`: the fixes of vehicle `v`, in input order
      (`DetectionsCount` and `DetectionsAppend` state which and in what
      order). */
  function Detections(ps: seq<GpsPoint>, v: int): (r: seq<GpsPoint>)
    ensures forall i :: 0 <= i < |r| ==> r[i].vehicleId == v
  {
    if |ps| == 0 then []
    else Detections(ps[..|ps| - 1], v) + (if ps[|ps| - 1].vehicleId == v then [ps[|ps| - 1]] else [])
  }

  /** Grouping keeps every fix of `v` as often as the input has it, and
      nothing else. */
  lemma {:induction false} DetectionsCount(ps: seq<GpsPoint>, v: int)
    ensures forall p :: multiset(Detections(ps, v))[p] == if p.vehicleId == v then multiset(ps)[p] else 0
    decreases |ps|
  {
    if |ps| > 0 {
      var n := |ps| - 1;
      assert ps == ps[..n] + [ps[n]];
      DetectionsCount(ps[..n], v);
    }
  }

  /** Grouping keeps the input order: the fixes of `v` in `a + b` are those
      in `a` followed by those in `b`. */
  lemma {:induction false} DetectionsAppend(a: seq<GpsPoint>, b: seq<GpsPoint>, v: int)
    ensures Detections(a + b, v) == Detections(a, v) + Detections(b, v)
    decreases |b|
  {
    if |b| > 0 {
      var n := |b| - 1;
      var ab := a + b;
      var tail := if b[n].vehicleId == v then [b[n]] else [];
      assert ab[..|ab| - 1] == a + b[..n] && ab[|ab| - 1] == b[n];
      assert Detections(ab, v) == Detections(a + b[..n], v) + tail;
      assert Detections(b, v) == Detections(b[..n], v) + tail;
      DetectionsAppend(a, b[..n], v);
    } else {
      assert a + b == a;
    }
  }

  /** An iteration order of the `detections` dictionary: every vehicle that
      has a fix, each exactly once. */
  ghost predicate VehicleOrder(ps: seq<GpsPoint>, vehicles: seq<int>) {
    && (forall i, j :: 0 <= i < j < |vehicles| ==> vehicles[i] != vehicles[j])
    && (forall v :: v in vehicles <==> exists p :: p in ps && p.vehicleId == v)
  }

  /** The trajectories of the vehicles listed in `vehicles`, in that order. */
  function ByVehicle(ps: seq<GpsPoint>, threshold: int, vehicles: seq<int>): seq<seq<GpsPoint>>
  {
    if |vehicles| == 0 then []
    else
      ByVehicle(ps, threshold, vehicles[..|vehicles| - 1])
        + Split(SortByTime(Detections(ps, vehicles[|vehicles| - 1])), threshold)
  }

  /** The fix of `v` the splitting leaves out (`points[source:-1]`): the
      last of its fixes in time order, if `v` has any. */
  function LatestFix(ps: seq<GpsPoint>, v: int): (r: Option<GpsPoint>)
    ensures r.Some? ==> r.value in ps && r.value.vehicleId == v
  {
    var q := SortByTime(Detections(ps, v));
    if |q| == 0 then None
    else
      DetectionsCount(ps, v);
      assert q[|q| - 1] in multiset(Detections(ps, v));
      Some(q[|q| - 1])
  }

  /** Together the trajectories of one vehicle hold each of its fixes as
      often as the input does, except its latest fix, once less. */
  lemma VehicleKeeps(ps: seq<GpsPoint>, threshold: int, v: int)
    ensures forall p :: multiset(Flatten(Split(SortByTime(Detections(ps, v)), threshold)))[p] ==
              if p.vehicleId == v then multiset(ps)[p] - (if LatestFix(ps, v) == Some(p) then 1 else 0) else 0
  {
    var d := Detections(ps, v);
    var q := SortByTime(d);
    DetectionsCount(ps, v);
    if |q| > 0 {
      SplitCoversAllButLast(q, threshold);
      var n := |q| - 1;
      assert q == q[..n] + [q[n]];
      assert q[n] in multiset(d);
    } else {
      assert multiset(d) == multiset(q) == multiset{};
    }
  }

  /** Over distinct vehicles, the trajectories hold each fix of a listed
      vehicle as often as the input does, less its vehicle's latest fix
      once, and nothing else. */
  lemma {:induction false} ByVehicleKeeps(ps: seq<GpsPoint>, threshold: int, vehicles: seq<int>)
    requires forall i, j :: 0 <= i < j < |vehicles| ==> vehicles[i] != vehicles[j]
    ensures forall p :: multiset(Flatten(ByVehicle(ps, threshold, vehicles)))[p] ==
              if p.vehicleId in vehicles then multiset(ps)[p] - (if LatestFix(ps, p.vehicleId) == Some(p) then 1 else 0) else 0
    decreases |vehicles|
  {
    if |vehicles| > 0 {
      var init := vehicles[..|vehicles| - 1];
      var v := vehicles[|vehicles| - 1];
      ByVehicleKeeps(ps, threshold, init);
      VehicleKeeps(ps, threshold, v);
      FlattenAppend(ByVehicle(ps, threshold, init), Split(SortByTime(Detections(ps, v)), threshold));
      assert vehicles == init + [v];
      assert v !in init;
    }
  }

  /** `create_trajectories` once the file is read: group the fixes per
      vehicle, sort each group by time, split it at long gaps.  The
      dictionary's iteration order is the parameter `vehicles`. */
  function CreateTrajectories(ps: seq<GpsPoint>, threshold: int, vehicles: seq<int>): seq<seq<GpsPoint>>
    requires VehicleOrder(ps, vehicles)
  {
    ByVehicle(ps, threshold, vehicles)
  }

  /** Every fix of the file lands in the trajectories as often as the file
      has it, except each vehicle's latest fix, which they hold once less. */
  lemma CreateTrajectoriesKeeps(ps: seq<GpsPoint>, threshold: int, vehicles: seq<int>)
    requires VehicleOrder(ps, vehicles)
    ensures forall p :: multiset(Flatten(CreateTrajectories(ps, threshold, vehicles)))[p] ==
              multiset(ps)[p] - (if LatestFix(ps, p.vehicleId) == Some(p) then 1 else 0)
  {
    ByVehicleKeeps(ps, threshold, vehicles);
    assert forall p :: p in ps ==> p.vehicleId in vehicles;
  }

  /** Well-formed trajectory: one vehicle, ordered by time, no gap above
      the threshold. */
  ghost predicate TrajectoryOf(t: seq<GpsPoint>, v: int, threshold: int) {
    && (forall i :: 0 <= i < |t| ==> t[i].vehicleId == v)
    && SortedByTime(t)
    && (forall m :: 0 <= m < |t| - 1 ==> t[m + 1].timestamp - t[m].timestamp <= threshold)
  }

  /** A slice of a sorted, single-vehicle sequence is sorted and
      single-vehicle. */
  lemma SliceOfSorted(qs: seq<GpsPoint>, v: int, a: int, b: int)
    requires 0 <= a <= b <= |qs|
    requires SortedByTime(qs)
    requires forall i :: 0 <= i < |qs| ==> qs[i].vehicleId == v
    ensures SortedByTime(qs[a..b])
    ensures forall i :: 0 <= i < b - a ==> qs[a..b][i].vehicleId == v
  {
    var t := qs[a..b];
    forall i, j | 0 <= i < j < |t| ensures t[i].timestamp <= t[j].timestamp {
      assert t[i] == qs[a + i] && t[j] == qs[a + j];
    }
    forall i | 0 <= i < |t| ensures t[i].vehicleId == v {
      assert t[i] == qs[a + i];
    }
  }

  /** Each trajectory of one vehicle's sorted detections is well formed. */
  lemma VehicleTrajectory(ps: seq<GpsPoint>, threshold: int, v: int, j: int)
    requires 0 <= j < |Split(SortByTime(Detections(ps, v)), threshold)|
    ensures TrajectoryOf(Split(SortByTime(Detections(ps, v)), threshold)[j], v, threshold)
  {
    var ds := Detections(ps, v);
    var qs := SortByTime(ds);
    var r := Split(qs, threshold);
    forall i | 0 <= i < |qs| ensures qs[i].vehicleId == v {
      assert qs[i] in multiset(ds);
      assert qs[i] in ds;
    }
    SplitIsContiguous(qs, threshold, j);
    var a, b :| 0 <= a <= b <= |qs| && r[j] == qs[a..b];
    SliceOfSorted(qs, v, a, b);
    SplitRuns(qs, threshold);
    assert forall m :: 0 <= m < |r[j]| - 1 ==> r[j][m + 1].timestamp - r[j][m].timestamp <= threshold;
  }

  /** Every trajectory `create_trajectories` returns belongs to a single
      listed vehicle, is ordered by time, and has no gap above the threshold. */
  lemma {:induction false} TrajectoriesWellFormed(ps: seq<GpsPoint>, threshold: int, vehicles: seq<int>, k: int)
    requires 0 <= k < |ByVehicle(ps, threshold, vehicles)|
    ensures exists v :: v in vehicles && TrajectoryOf(ByVehicle(ps, threshold, vehicles)[k], v, threshold)
    decreases |vehicles|
  {
    var init := vehicles[..|vehicles| - 1];
    var v := vehicles[|vehicles| - 1];
    var before := ByVehicle(ps, threshold, init);
    var t := ByVehicle(ps, threshold, vehicles)[k];
    if k < |before| {
      TrajectoriesWellFormed(ps, threshold, init, k);
      assert t == before[k];
      var w :| w in init && TrajectoryOf(before[k], w, threshold);
      assert w in vehicles;
    } else {
      VehicleTrajectory(ps, threshold, v, k - |before|);
      assert t == Split(SortByTime(Detections(ps, v)), threshold)[k - |before|];
    }
  }

  /** `point.set_traj_id(i)` on every fix of trajectory `i`. */
  function Tag(t: seq<GpsPoint>, i: int): (r: seq<GpsPoint>)
    ensures |r| == |t|
    ensures forall m :: 0 <= m < |r| ==> r[m] == t[m].(trajId := Some(i))
  {
    seq(|t|, m requires 0 <= m < |t| => t[m].(trajId := Some(i)))
  }

  /** The fixes of all trajectories, each tagged with its trajectory's
      index: fix `m` of trajectory `i` appears tagged `i`, nothing else
      appears, and there are as many as the trajectories hold. */
  function Tagged(trajectories: seq<seq<GpsPoint>>): (r: seq<GpsPoint>)
    ensures forall m :: 0 <= m < |r| ==>
      r[m].trajId.Some? && 0 <= r[m].trajId.value < |trajectories|
    ensures |r| == |Flatten(trajectories)|
    ensures forall i, m :: 0 <= i < |trajectories| && 0 <= m < |trajectories[i]| ==>
      trajectories[i][m].(trajId := Some(i)) in r
    ensures forall p :: p in r ==>
      exists i, m :: 0 <= i < |trajectories| && 0 <= m < |trajectories[i]| && p == trajectories[i][m].(trajId := Some(i))
  {
    if |trajectories| == 0 then []
    else
      var n := |trajectories| - 1;
      var init := trajectories[..n];
      var last := trajectories[n];
      assert trajectories == init + [last];
      assert [last][1..] == [];
      FlattenAppend(init, [last]);
      assert forall i :: 0 <= i < n ==> init[i] == trajectories[i];
      Tagged(init) + Tag(last, n)
  }

  /** The global stream of `kharitaStar`: all tagged fixes, stably sorted by
      time. */
  function PointStream(trajectories: seq<seq<GpsPoint>>): (r: seq<GpsPoint>)
    ensures SortedByTime(r)
    ensures multiset(r) == multiset(Tagged(trajectories))
    ensures forall t :: AtTime(r, t) == AtTime(Tagged(trajectories), t)
    ensures forall m :: 0 <= m < |r| ==>
      r[m].trajId.Some? && 0 <= r[m].trajId.value < |trajectories|
  {
    var tagged := Tagged(trajectories);
    var r := SortByTime(tagged);
    assert forall m :: 0 <= m < |r| ==> r[m] in multiset(tagged);
    r
  }

  /** The stream holds fix `m` of trajectory `i` tagged `i`, for every
      trajectory and fix, nothing else, and as many fixes as the
      trajectories. */
  lemma PointStreamHolds(trajectories: seq<seq<GpsPoint>>)
    ensures var r := PointStream(trajectories);
      && |r| == |Flatten(trajectories)|
      && (forall i, m :: 0 <= i < |trajectories| && 0 <= m < |trajectories[i]| ==>
            trajectories[i][m].(trajId := Some(i)) in r)
      && (forall p :: p in r ==>
            exists i, m :: 0 <= i < |trajectories| && 0 <= m < |trajectories[i]| && p == trajectories[i][m].(trajId := Some(i)))
  {
    var r := PointStream(trajectories);
    var tagged := Tagged(trajectories);
    assert |r| == |multiset(r)| == |multiset(tagged)| == |tagged|;
    forall p ensures p in r <==> p in tagged {
      assert p in r <==> p in multiset(r);
      assert p in tagged <==> p in multiset(tagged);
    }
  }
}
