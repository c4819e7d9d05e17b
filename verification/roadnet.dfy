/** The road network (a networkx `DiGraph` over cluster ids) and the
    parallel edge list `list_of_edges`, whose entries are coordinate pairs
    rather than id pairs. */
module Roadnet {
  import opened Geometry

  /** A directed graph over cluster ids. */
  datatype Graph = Graph(nodes: set<nat>, edges: set<(nat, nat)>)
  {
    /** `add_node(v)`: the node is present afterwards, no edge changes, and
        adding a node already present changes nothing. */
    function AddNode(v: nat): (g: Graph)
      ensures g.nodes == nodes + {v} && g.edges == edges
      ensures v in g.nodes && nodes <= g.nodes
      ensures v in nodes ==> g == this
    {
      this.(nodes := nodes + {v})
    }

    /** `add_edge(a, b)`: networkx adds missing end nodes too, and adding
        an edge already present (between present nodes) changes nothing. */
    function AddEdge(a: nat, b: nat): (g: Graph)
      ensures g.nodes == nodes + {a, b} && g.edges == edges + {(a, b)}
      ensures (a, b) in g.edges && a in g.nodes && b in g.nodes
      ensures edges <= g.edges && nodes <= g.nodes
      ensures (a, b) in edges && a in nodes && b in nodes ==> g == this
    {
      Graph(nodes + {a, b}, edges + {(a, b)})
    }
  }

  /** The graph's nodes are exactly the ids `0 .. n - 1`. */
  ghost predicate NodesAre(g: Graph, n: nat) {
    forall v: nat :: v in g.nodes <==> v < n
  }

  /** Every edge joins two of the `|ps|` clusters (at positions `ps`) and
      has its coordinate pair in `entries`, so `entries.index(...)` on an
      edge of the graph cannot fail. */
  ghost predicate EdgesListed(g: Graph, ps: seq<Coord>, entries: seq<EdgeEntry>) {
    forall e :: e in g.edges ==>
      e.0 < |ps| && e.1 < |ps| && EdgeEntry(ps[e.0], ps[e.1]) in entries
  }

  /** Adding a node keeps the ids dense when it is the next id. */
  lemma AddNodeDense(g: Graph, n: nat)
    requires NodesAre(g, n)
    ensures NodesAre(g.AddNode(n), n + 1)
  {
  }

  /** Clusters and entries may be appended: positions never move, so every
      edge stays listed. */
  lemma EdgesListedExtend(g: Graph, ps: seq<Coord>, entries: seq<EdgeEntry>,
                          ps': seq<Coord>, entries': seq<EdgeEntry>)
    requires EdgesListed(g, ps, entries)
    requires |ps| <= |ps'| && ps'[..|ps|] == ps
    requires |entries| <= |entries'| && entries'[..|entries|] == entries
    ensures EdgesListed(g, ps', entries')
  {
    forall e | e in g.edges
      ensures EdgeEntry(ps'[e.0], ps'[e.1]) in entries'
    {
      assert ps'[e.0] == ps[e.0] && ps'[e.1] == ps[e.1];
      var k :| 0 <= k < |entries| && entries[k] == EdgeEntry(ps[e.0], ps[e.1]);
      assert entries'[k] == entries[k];
    }
  }

  /** ... and an edge whose coordinate pair is listed may be added. */
  lemma EdgesListedGrow(g: Graph, ps: seq<Coord>, entries: seq<EdgeEntry>,
                        ps': seq<Coord>, entries': seq<EdgeEntry>, a: nat, b: nat)
    requires EdgesListed(g, ps, entries)
    requires |ps| <= |ps'| && ps'[..|ps|] == ps
    requires |entries| <= |entries'| && entries'[..|entries|] == entries
    requires a < |ps'| && b < |ps'| && EdgeEntry(ps'[a], ps'[b]) in entries'
    ensures EdgesListed(g.AddEdge(a, b), ps', entries')
  {
    EdgesListedExtend(g, ps, entries, ps', entries');
  }

  /** One entry of `list_of_edges`: `[(lon, lat) of source, (lon, lat) of
      target]`. */
  datatype EdgeEntry = EdgeEntry(src: Coord, dst: Coord)

  /** Enough of Python's value model to evaluate `x in list_of_edges`:
      numbers, tuples and lists. */
  datatype PyValue = PyNum(num: real) | PyTuple(items: seq<PyValue>) | PyList(elems: seq<PyValue>)

  /** Python `==`: numbers by value, tuples and lists element-wise, and a
      tuple never equals a list. */
  predicate PyEq(x: PyValue, y: PyValue)
    decreases x
  {
    match (x, y)
    case (PyNum(a), PyNum(b)) => a == b
    case (PyTuple(xs), PyTuple(ys)) =>
      |xs| == |ys| && forall i :: 0 <= i < |xs| ==> PyEq(xs[i], ys[i])
    case (PyList(xs), PyList(ys)) =>
      |xs| == |ys| && forall i :: 0 <= i < |xs| ==> PyEq(xs[i], ys[i])
    case _ => false
  }

  function CoordValue(c: Coord): PyValue {
    PyTuple([PyNum(c.lon), PyNum(c.lat)])
  }

  /** How an entry of `list_of_edges` looks to Python: a list of two tuples. */
  function EntryValue(e: EdgeEntry): (v: PyValue)
    ensures v.PyList?
  {
    PyList([CoordValue(e.src), CoordValue(e.dst)])
  }

  /** The id pair `(a, b)` as Python builds it. */
  function IdPair(a: nat, b: nat): PyValue {
    PyTuple([PyNum(a as real), PyNum(b as real)])
  }

  /** `key in list_of_edges`. */
  predicate Listed(key: PyValue, entries: seq<EdgeEntry>) {
    exists i :: 0 <= i < |entries| && PyEq(EntryValue(entries[i]), key)
  }

  /** The test `(prev_path_point, new_cluster.cid) not in list_of_edges`
      looks for an id tuple among coordinate lists, so it never finds
      anything, whatever the ids and whatever the list holds. */
  lemma IdPairNeverListed(a: nat, b: nat, entries: seq<EdgeEntry>)
    ensures !Listed(IdPair(a, b), entries)
  {
    forall i | 0 <= i < |entries|
      ensures !PyEq(EntryValue(entries[i]), IdPair(a, b))
    {
    }
  }

  /** A coordinate-pair entry IS found when it is present, so the lookup
      by coordinates (`list_of_edges.index([...])`) behaves as membership. */
  lemma EntryListedIffPresent(e: EdgeEntry, entries: seq<EdgeEntry>)
    ensures Listed(EntryValue(e), entries) <==> e in entries
  {
    if Listed(EntryValue(e), entries) {
      var i :| 0 <= i < |entries| && PyEq(EntryValue(entries[i]), EntryValue(e));
      var x := EntryValue(entries[i]).elems;
      var y := EntryValue(e).elems;
      assert PyEq(x[0], y[0]) && PyEq(x[1], y[1]);
      assert PyEq(x[0].items[0], y[0].items[0]) && PyEq(x[0].items[1], y[0].items[1]);
      assert PyEq(x[1].items[0], y[1].items[0]) && PyEq(x[1].items[1], y[1].items[1]);
      assert entries[i] == e;
    }
    if e in entries {
      var i :| 0 <= i < |entries| && entries[i] == e;
      PyEqReflexive(EntryValue(e));
    }
  }

  lemma {:induction false} PyEqReflexive(x: PyValue)
    ensures PyEq(x, x)
    decreases x
  {
    match x
    case PyNum(_) =>
    case PyTuple(xs) =>
      forall i | 0 <= i < |xs| ensures PyEq(xs[i], xs[i]) {
        PyEqReflexive(xs[i]);
      }
    case PyList(xs) =>
      forall i | 0 <= i < |xs| ensures PyEq(xs[i], xs[i]) {
        PyEqReflexive(xs[i]);
      }
  }
}
