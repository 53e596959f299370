/**
 The graph engine: it holds the lodge catalog indexed by id, rebuilds an
 undirected graph of lodges from the connections established up to a given
 year, and answers queries about the graph it last built.
 */
module LodgeGraph {
  import opened Connections
  import opened Graphs

  /** The outcome of resolving node ids to lodge records: the records, or a
      node id that has no record. */
  datatype Result<T> = Ok(value: T) | Err(missingId: int)

  // ---------------------------------------------------------------------
  // The id map

  /** The index of a list of lodges by id. When several records carry the
      same id, the later one replaces the earlier. */
  function IdMap(lodges: seq<Lodge>): (m: map<int, Lodge>)
    ensures m.Keys == set l | l in lodges :: l.id
    ensures forall k :: k in m ==> m[k].id == k && m[k] in lodges
    decreases |lodges|
  {
    if lodges == [] then map[]
    else
      var last := lodges[|lodges| - 1];
      IdMap(lodges[..|lodges| - 1])[last.id := last]
  }

  /** The record an id is mapped to is the last record in the list with that id. */
  lemma {:induction false} IdMapLastWins(lodges: seq<Lodge>, i: int)
    requires 0 <= i < |lodges|
    requires forall j :: i < j < |lodges| ==> lodges[j].id != lodges[i].id
    ensures lodges[i].id in IdMap(lodges) && IdMap(lodges)[lodges[i].id] == lodges[i]
    decreases |lodges|
  {
    if i < |lodges| - 1 {
      IdMapLastWins(lodges[..|lodges| - 1], i);
    }
  }

  /** Every key of the index maps to a record with that id. */
  ghost predicate IndexConsistent(m: map<int, Lodge>)
  {
    forall k :: k in m ==> m[k].id == k
  }

  // ---------------------------------------------------------------------
  // What the graph built for a cutoff year is

  /** The connections the catalog hands over for the cutoff `year`: those
      established in or before that year, in catalog order. */
  function Qualifying(catalog: seq<Connection>, year: int): (q: seq<Connection>)
    ensures forall c :: c in q <==> c in catalog && c.year <= year
    ensures |q| <= |catalog|
  {
    if catalog == [] then []
    else if catalog[0].year <= year then [catalog[0]] + Qualifying(catalog[1..], year)
    else Qualifying(catalog[1..], year)
  }

  /** The edge a connection contributes: the unordered pair of its lodges' ids. */
  function EdgeOf(c: Connection): Edge
  {
    MkEdge(c.lodge1.id, c.lodge2.id)
  }

  function Endpoints(cs: seq<Connection>): set<int>
  {
    (set c | c in cs :: c.lodge1.id) + (set c | c in cs :: c.lodge2.id)
  }

  function EdgesOf(cs: seq<Connection>): set<Edge>
  {
    set c | c in cs :: EdgeOf(c)
  }

  /** The graph built for `year`: one edge per qualifying connection, and
      exactly the ends of those connections as nodes. */
  function BuiltGraph(catalog: seq<Connection>, year: int): (g: Graph)
    ensures Valid(g)
    ensures g.nodes == {} <==> g.edges == {}
  {
    var q := Qualifying(catalog, year);
    EdgesOfValid(q);
    assert q != [] ==> EdgeOf(q[0]) in EdgesOf(q) && q[0].lodge1.id in Endpoints(q);
    Graph(Endpoints(q), EdgesOf(q))
  }

  /** Every edge of a list of connections is in normal form and joins two of
      their ends. */
  lemma EdgesOfValid(cs: seq<Connection>)
    ensures Valid(Graph(Endpoints(cs), EdgesOf(cs)))
  {
    forall e | e in EdgesOf(cs)
      ensures e.lo <= e.hi && e.lo in Endpoints(cs) && e.hi in Endpoints(cs)
    {
      var c :| c in cs && e == EdgeOf(c);
    }
  }

  /** Connection `c` joins lodges `a` and `b`, in either direction. */
  predicate Joins(c: Connection, a: int, b: int)
  {
    (c.lodge1.id == a && c.lodge2.id == b) || (c.lodge1.id == b && c.lodge2.id == a)
  }

  /** Connection `c` qualifies for `year` and has `v` as one of its ends. */
  predicate Touches(catalog: seq<Connection>, year: int, c: Connection, v: int)
  {
    c in catalog && c.year <= year && (c.lodge1.id == v || c.lodge2.id == v)
  }

  lemma MkEdgeSamePair(a: int, b: int, x: int, y: int)
    ensures MkEdge(a, b) == MkEdge(x, y) <==> (a == x && b == y) || (a == y && b == x)
  {
  }

  /** Two lodges are adjacent in the built graph exactly when some
      connection established by `year` joins them. */
  lemma BuiltGraphAdjacency(catalog: seq<Connection>, year: int, a: int, b: int)
    ensures Adjacent(BuiltGraph(catalog, year), a, b) <==>
            exists c :: c in catalog && c.year <= year && Joins(c, a, b)
  {
    var q := Qualifying(catalog, year);
    if Adjacent(BuiltGraph(catalog, year), a, b) {
      var c :| c in q && EdgeOf(c) == MkEdge(a, b);
      MkEdgeSamePair(c.lodge1.id, c.lodge2.id, a, b);
      assert c in catalog && c.year <= year && Joins(c, a, b);
    }
    if c :| c in catalog && c.year <= year && Joins(c, a, b) {
      MkEdgeSamePair(c.lodge1.id, c.lodge2.id, a, b);
      assert c in q && EdgeOf(c) == MkEdge(a, b);
    }
  }

  /** A lodge is a node of the built graph exactly when it is an end of some
      connection established by `year`. */
  lemma BuiltGraphNodes(catalog: seq<Connection>, year: int, v: int)
    ensures v in BuiltGraph(catalog, year).nodes <==> exists c :: Touches(catalog, year, c, v)
  {
    var q := Qualifying(catalog, year);
    if v in BuiltGraph(catalog, year).nodes {
      var c :| c in q && (c.lodge1.id == v || c.lodge2.id == v);
      assert Touches(catalog, year, c, v);
    }
    if c :| Touches(catalog, year, c, v) {
      assert c in q;
    }
  }

  /** The built graph is well formed and has no isolated node: every node
      has degree at least 1. */
  lemma BuiltGraphValid(catalog: seq<Connection>, year: int)
    ensures Valid(BuiltGraph(catalog, year))
    ensures NoIsolatedNodes(BuiltGraph(catalog, year))
  {
    var g := BuiltGraph(catalog, year);
    forall v | v in g.nodes
      ensures Degree(g, v) >= 1
    {
      BuiltGraphNodeHasNeighbor(catalog, year, v);
      DegreePositiveIffNeighbor(g, v);
    }
  }

  /** Every node of the built graph shares an edge with some lodge. */
  lemma BuiltGraphNodeHasNeighbor(catalog: seq<Connection>, year: int, v: int)
    requires v in BuiltGraph(catalog, year).nodes
    ensures exists u :: Adjacent(BuiltGraph(catalog, year), v, u)
  {
    var g := BuiltGraph(catalog, year);
    var c :| c in Qualifying(catalog, year) && (c.lodge1.id == v || c.lodge2.id == v);
    assert EdgeOf(c) in g.edges;
    if c.lodge1.id == v {
      assert Adjacent(g, v, c.lodge2.id);
    } else {
      assert Adjacent(g, v, c.lodge1.id);
    }
  }

  /** The built graph is empty exactly when no connection qualifies. */
  lemma BuiltGraphEmptyIffNoneQualify(catalog: seq<Connection>, year: int)
    ensures BuiltGraph(catalog, year) == Graph({}, {}) <==>
            forall c :: c in catalog ==> c.year > year
  {
    var q := Qualifying(catalog, year);
    if c :| c in catalog && c.year <= year {
      assert c in q && c.lodge1.id in BuiltGraph(catalog, year).nodes;
    }
  }

  /** Raising the cutoff year only adds nodes and edges. */
  lemma BuiltGraphMonotone(catalog: seq<Connection>, year1: int, year2: int)
    requires year1 <= year2
    ensures BuiltGraph(catalog, year1).nodes <= BuiltGraph(catalog, year2).nodes
    ensures BuiltGraph(catalog, year1).edges <= BuiltGraph(catalog, year2).edges
  {
    var q1 := Qualifying(catalog, year1);
    var q2 := Qualifying(catalog, year2);
    assert forall c :: c in q1 ==> c in q2;
  }

  /** Connections joining the same two lodges, in either direction, give
      one and the same edge. */
  lemma ParallelConnectionsOneEdge(c1: Connection, c2: Connection, a: int, b: int)
    requires Joins(c1, a, b) && Joins(c2, a, b)
    ensures EdgeOf(c1) == EdgeOf(c2)
  {
    MkEdgeSamePair(c1.lodge1.id, c1.lodge2.id, c2.lodge1.id, c2.lodge2.id);
  }

  /** Parallel connections collapse: the graph has no more edges than there
      are qualifying connections. */
  lemma BuiltGraphEdgeCount(catalog: seq<Connection>, year: int)
    ensures |BuiltGraph(catalog, year).edges| <= |Qualifying(catalog, year)|
  {
    EdgesOfCardinality(Qualifying(catalog, year));
  }

  lemma {:induction false} EdgesOfCardinality(cs: seq<Connection>)
    ensures |EdgesOf(cs)| <= |cs|
    decreases |cs|
  {
    if cs != [] {
      var init := cs[..|cs| - 1];
      EdgesOfCardinality(init);
      assert cs == init + [cs[|cs| - 1]];
      assert EdgesOf(cs) == EdgesOf(init) + {EdgeOf(cs[|cs| - 1])};
    }
  }

  // ---------------------------------------------------------------------
  // The engine

  class Model {
    /** The graph last built: its node ids and its edges. */
    var nodes: set<int>
    var edges: set<Edge>
    /** The lodge catalog and its index by id. */
    var lodges: seq<Lodge>
    var lodgeIndex: map<int, Lodge>

    function Current(): Graph
      reads this
    {
      Graph(nodes, edges)
    }

    /** The graph is well formed, no node of it is isolated, and the index
        maps every id to a record with that id. */
    ghost predicate Valid()
      reads this
    {
      Graphs.Valid(Current()) &&
      NoIsolatedNodes(Current()) &&
      IndexConsistent(lodgeIndex)
    }

    /** A new engine: an empty graph and the catalog loaded. */
    constructor (catalog: seq<Lodge>)
      ensures Valid()
      ensures nodes == {} && edges == {}
      ensures lodges == catalog && lodgeIndex == IdMap(catalog)
    {
      nodes, edges := {}, {};
      lodges, lodgeIndex := [], map[];
      new;
      LoadLodges(catalog);
    }

    /** Loads the catalog and indexes it by id; an empty catalog leaves the
        index as it was. */
    method LoadLodges(catalog: seq<Lodge>)
      requires Valid()
      modifies this
      ensures Valid()
      ensures lodges == catalog
      ensures lodgeIndex == if catalog == [] then old(lodgeIndex) else IdMap(catalog)
      ensures nodes == old(nodes) && edges == old(edges)
    {
      lodges := catalog;
      if catalog != [] {
        lodgeIndex := IdMap(catalog);
      }
    }

    /** Discards the current graph and builds the one for the connections
        of `catalog` established by `year`. The result depends on
        `catalog` and `year` only. */
    method BuildGraph(year: int, catalog: seq<Connection>)
      requires Valid()
      modifies this
      ensures Valid()
      ensures Current() == BuiltGraph(catalog, year)
      ensures lodges == old(lodges) && lodgeIndex == old(lodgeIndex)
    {
      nodes, edges := {}, {};
      var connections := Qualifying(catalog, year);
      if |connections| == 0 {
        BuiltFromPairs(catalog, year, [], {}, nodes, edges);
        return;
      }
      var edgeList: seq<(int, int)> := [];
      var involved: set<int> := {};
      for i := 0 to |connections|
        invariant edgeList == IdPairs(connections[..i])
        invariant involved == PairEnds(edgeList)
        modifies {}
      {
        var id1 := connections[i].lodge1.id;
        var id2 := connections[i].lodge2.id;
        involved := involved + {id1};
        involved := involved + {id2};
        PairEndsAppend(edgeList, (id1, id2));
        IdPairsAppend(connections, i);
        edgeList := edgeList + [(id1, id2)];
      }
      // adding the edges also adds their ends as nodes
      edges := edges + PairEdges(edgeList);
      nodes := nodes + PairEnds(edgeList);
      // then every involved id is added as a node
      nodes := nodes + involved;
      assert connections[..|connections|] == connections;
      BuiltFromPairs(catalog, year, edgeList, involved, nodes, edges);
    }

    /** The lodge records of the graph's nodes, one per node, in no
        particular order; a node id that has no record is an error. */
    method GetNodes() returns (r: Result<seq<Lodge>>)
      requires IndexConsistent(lodgeIndex)
      ensures r.Ok? <==> nodes <= lodgeIndex.Keys
      ensures r.Ok? ==> |r.value| == |nodes|
      ensures r.Ok? ==> forall i :: 0 <= i < |r.value| ==> r.value[i].id in nodes && r.value[i].id in lodgeIndex && r.value[i] == lodgeIndex[r.value[i].id]
      ensures r.Ok? ==> forall v :: v in nodes ==> exists i :: 0 <= i < |r.value| && r.value[i].id == v
      ensures r.Ok? ==> forall i, j :: 0 <= i < j < |r.value| ==> r.value[i].id != r.value[j].id
      ensures r.Err? ==> r.missingId in nodes && r.missingId !in lodgeIndex
    {
      var remaining := nodes;
      var found: seq<Lodge> := [];
      ghost var order: seq<int> := [];
      while remaining != {}
        invariant remaining <= nodes
        invariant |found| == |order| && |order| + |remaining| == |nodes|
        invariant forall v :: v in order <==> v in nodes && v !in remaining
        invariant forall i :: 0 <= i < |order| ==> order[i] in lodgeIndex && found[i] == lodgeIndex[order[i]]
        invariant forall i, j :: 0 <= i < j < |order| ==> order[i] != order[j]
        decreases |remaining|
      {
        // names a witness, so that the choice on the next line is known to exist
        ghost var some := Pick(remaining);
        var id :| id in remaining;
        if id !in lodgeIndex {
          return Err(id);
        }
        found := found + [lodgeIndex[id]];
        order := order + [id];
        remaining := remaining - {id};
      }
      assert forall i :: 0 <= i < |found| ==> found[i].id == order[i];
      forall v | v in nodes
        ensures v in lodgeIndex
      {
        var i :| 0 <= i < |order| && order[i] == v;
      }
      return Ok(found);
    }

    /** The degree of a lodge in the graph; 0 for a lodge that is not a node. */
    function NumNeighbors(node: Lodge): (d: nat)
      reads this
      requires Valid()
      ensures d >= 1 <==> node.id in nodes
      ensures node.id in nodes && !Adjacent(Current(), node.id, node.id) ==> d == |Neighbors(Current(), node.id)|
    {
      if node.id in nodes then Degree(Current(), node.id) else 0
    }

    /** The number of connected components of the graph. */
    function NumConnectedComponents(): (n: nat)
      reads this
      requires Valid()
      ensures n == 0 <==> nodes == {}
      ensures n <= |nodes|
    {
      |Components(Current())|
    }
  }

  /** The edges a list of id pairs adds to a graph. */
  function PairEdges(pairs: seq<(int, int)>): set<Edge>
  {
    set p | p in pairs :: MkEdge(p.0, p.1)
  }

  /** The nodes a list of id pairs adds to a graph along with its edges. */
  function PairEnds(pairs: seq<(int, int)>): set<int>
  {
    (set p | p in pairs :: p.0) + (set p | p in pairs :: p.1)
  }

  lemma PairEndsAppend(pairs: seq<(int, int)>, p: (int, int))
    ensures PairEnds(pairs + [p]) == PairEnds(pairs) + {p.0} + {p.1}
  {
    assert forall x :: x in pairs + [p] <==> x in pairs || x == p;
  }

  /** The node and edge sets that adding the collected pairs and ids to an
      empty graph gives are the built graph, well formed and without an
      isolated node. */
  lemma BuiltFromPairs(catalog: seq<Connection>, year: int, pairs: seq<(int, int)>,
                       ids: set<int>, ns: set<int>, es: set<Edge>)
    requires pairs == IdPairs(Qualifying(catalog, year)) && ids == PairEnds(pairs)
    requires ns == PairEnds(pairs) + ids && es == PairEdges(pairs)
    ensures Graph(ns, es) == BuiltGraph(catalog, year)
    ensures Valid(Graph(ns, es)) && NoIsolatedNodes(Graph(ns, es))
  {
    PairsBuildGraph(catalog, year, pairs);
    BuiltGraphValid(catalog, year);
  }

  /** The pair of lodge ids of each connection, in order. */
  function IdPairs(cs: seq<Connection>): (pairs: seq<(int, int)>)
    ensures |pairs| == |cs|
    ensures forall k :: 0 <= k < |cs| ==> pairs[k] == (cs[k].lodge1.id, cs[k].lodge2.id)
    decreases |cs|
  {
    if cs == [] then []
    else
      var last := cs[|cs| - 1];
      IdPairs(cs[..|cs| - 1]) + [(last.lodge1.id, last.lodge2.id)]
  }

  lemma IdPairsAppend(cs: seq<Connection>, i: int)
    requires 0 <= i < |cs|
    ensures IdPairs(cs[..i + 1]) == IdPairs(cs[..i]) + [(cs[i].lodge1.id, cs[i].lodge2.id)]
  {
    assert cs[..i + 1][..i] == cs[..i];
  }

  /** The pairs collected from the qualifying connections give the built
      graph. */
  lemma PairsBuildGraph(catalog: seq<Connection>, year: int, pairs: seq<(int, int)>)
    requires pairs == IdPairs(Qualifying(catalog, year))
    ensures Graph(PairEnds(pairs), PairEdges(pairs)) == BuiltGraph(catalog, year)
  {
    PairsAreEdges(Qualifying(catalog, year), pairs);
  }

  /** The pairs collected from the connections give exactly their edges and
      their ends. */
  lemma PairsAreEdges(cs: seq<Connection>, pairs: seq<(int, int)>)
    requires |pairs| == |cs|
    requires forall k :: 0 <= k < |cs| ==> pairs[k] == (cs[k].lodge1.id, cs[k].lodge2.id)
    ensures PairEdges(pairs) == EdgesOf(cs)
    ensures PairEnds(pairs) == Endpoints(cs)
  {
    forall e | e in EdgesOf(cs)
      ensures e in PairEdges(pairs)
    {
      var c :| c in cs && e == EdgeOf(c);
      var k :| 0 <= k < |cs| && cs[k] == c;
      assert pairs[k] in pairs;
    }
    forall e | e in PairEdges(pairs)
      ensures e in EdgesOf(cs)
    {
      var p :| p in pairs && e == MkEdge(p.0, p.1);
      var k :| 0 <= k < |pairs| && pairs[k] == p;
      assert e == EdgeOf(cs[k]);
    }
    forall v | v in PairEnds(pairs)
      ensures v in Endpoints(cs)
    {
      var p :| p in pairs && (p.0 == v || p.1 == v);
      var k :| 0 <= k < |pairs| && pairs[k] == p;
      assert cs[k] in cs;
    }
    forall v | v in Endpoints(cs)
      ensures v in PairEnds(pairs)
    {
      var c :| c in cs && (c.lodge1.id == v || c.lodge2.id == v);
      var k :| 0 <= k < |cs| && cs[k] == c;
      assert pairs[k] in pairs;
    }
  }
}
