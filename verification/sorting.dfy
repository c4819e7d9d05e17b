/** Python's `sorted(points, key=operator.attrgetter('timestamp'))`
    (anim_map/methods.py:152 and :462): a stable sort of fixes by timestamp,
    modelled as an insertion sort. */
module Sorting {
  import opened Clusters

  predicate SortedByTime(s: seq<GpsPoint>) {
    forall i, j :: 0 <= i < j < |s| ==> s[i].timestamp <= s[j].timestamp
  }

  /** The fixes of `s` stamped `t`, in their order in `s`. */
  function AtTime(s: seq<GpsPoint>, t: int): (r: seq<GpsPoint>)
    ensures |r| <= |s|
  {
    if |s| == 0 then []
    else AtTime(s[..|s| - 1], t) + (if s[|s| - 1].timestamp == t then [s[|s| - 1]] else [])
  }

  lemma {:induction false} AtTimeAppend(a: seq<GpsPoint>, b: seq<GpsPoint>, t: int)
    ensures AtTime(a + b, t) == AtTime(a, t) + AtTime(b, t)
    decreases |b|
  {
    if |b| == 0 {
      assert a + b == a;
    } else {
      var b' := b[..|b| - 1];
      assert (a + b)[..|a + b| - 1] == a + b';
      AtTimeAppend(a, b', t);
    }
  }

  /** Place `x` after every element of `s` whose timestamp is not later than its own. */
  function InsertByTime(s: seq<GpsPoint>, x: GpsPoint): (r: seq<GpsPoint>)
    ensures |r| == |s| + 1
    ensures multiset(r) == multiset(s) + multiset{x}
    decreases |s|
  {
    if |s| == 0 || s[|s| - 1].timestamp <= x.timestamp then
      s + [x]
    else
      assert s == s[..|s| - 1] + [s[|s| - 1]];
      InsertByTime(s[..|s| - 1], x) + [s[|s| - 1]]
  }

  /** No timestamp of `InsertByTime(s, x)` exceeds a bound all its inputs keep. */
  lemma {:induction false} InsertByTimeBelow(s: seq<GpsPoint>, x: GpsPoint, b: int)
    requires forall i :: 0 <= i < |s| ==> s[i].timestamp <= b
    requires x.timestamp <= b
    ensures forall i :: 0 <= i < |InsertByTime(s, x)| ==> InsertByTime(s, x)[i].timestamp <= b
    decreases |s|
  {
    if |s| > 0 && s[|s| - 1].timestamp > x.timestamp {
      InsertByTimeBelow(s[..|s| - 1], x, b);
    }
  }

  lemma {:induction false} InsertByTimeSorted(s: seq<GpsPoint>, x: GpsPoint)
    requires SortedByTime(s)
    ensures SortedByTime(InsertByTime(s, x))
    decreases |s|
  {
    if |s| > 0 && s[|s| - 1].timestamp > x.timestamp {
      var init := s[..|s| - 1];
      var last := s[|s| - 1];
      var r' := InsertByTime(init, x);
      InsertByTimeSorted(init, x);
      InsertByTimeBelow(init, x, last.timestamp);
      assert InsertByTime(s, x) == r' + [last];
    }
  }

  /** Two pieces of which one is empty can be appended in either order. */
  lemma SwapEmpty<T>(a: seq<T>, b: seq<T>, c: seq<T>)
    requires b == [] || c == []
    ensures a + b + c == a + c + b
  {
    if b == [] {
      assert a + b == a;
    } else {
      assert a + c == a;
    }
  }

  lemma AtTimeSingle(x: GpsPoint, t: int)
    ensures AtTime([x], t) == if x.timestamp == t then [x] else []
  {
    assert [x][..0] == [];
  }

  /** Inserting `x` adds it behind every fix already stamped with its timestamp. */
  lemma {:induction false} InsertByTimeStable(s: seq<GpsPoint>, x: GpsPoint, t: int)
    ensures AtTime(InsertByTime(s, x), t) == AtTime(s, t) + AtTime([x], t)
    decreases |s|
  {
    if |s| == 0 || s[|s| - 1].timestamp <= x.timestamp {
      AtTimeAppend(s, [x], t);
    } else {
      var init := s[..|s| - 1];
      var last := s[|s| - 1];
      var r' := InsertByTime(init, x);
      assert s == init + [last];
      assert InsertByTime(s, x) == r' + [last];
      InsertByTimeStable(init, x, t);
      AtTimeAppend(r', [last], t);
      AtTimeAppend(init, [last], t);
      AtTimeSingle(x, t);
      AtTimeSingle(last, t);
      var ax, al := AtTime([x], t), AtTime([last], t);
      assert ax == [] || al == [];
      SwapEmpty(AtTime(init, t), ax, al);
    }
  }

  /** The stable sort: a permutation of its input, ordered by timestamp, that
      keeps fixes with equal timestamps in their input order. */
  function SortByTime(s: seq<GpsPoint>): (r: seq<GpsPoint>)
    ensures |r| == |s|
    ensures multiset(r) == multiset(s)
    ensures SortedByTime(r)
    ensures forall t :: AtTime(r, t) == AtTime(s, t)
    decreases |s|
  {
    if |s| == 0 then []
    else
      var init := s[..|s| - 1];
      assert s == init + [s[|s| - 1]];
      assert forall t :: AtTime(s, t) == AtTime(init, t) + AtTime([s[|s| - 1]], t) by {
        forall t ensures AtTime(s, t) == AtTime(init, t) + AtTime([s[|s| - 1]], t) {
          AtTimeAppend(init, [s[|s| - 1]], t);
        }
      }
      var r := InsertByTime(SortByTime(init), s[|s| - 1]);
      InsertByTimeSorted(SortByTime(init), s[|s| - 1]);
      assert forall t :: AtTime(r, t) == AtTime(s, t) by {
        forall t ensures AtTime(r, t) == AtTime(s, t) {
          InsertByTimeStable(SortByTime(init), s[|s| - 1], t);
        }
      }
      r
  }
}
