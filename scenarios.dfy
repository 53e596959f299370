/**
 Worked scenarios: small catalogs whose built graphs and query answers are
 computed by the definitions of the engine.
 */
module Scenarios {
  import opened Connections
  import opened Graphs
  import opened LodgeGraph

  function Trail(id: int, a: int, b: int, year: int): Connection
  {
    Connection(id, Lodge(a, ""), Lodge(b, ""), 0, "", "", year)
  }

  /** Lodges 1 to 4 on a line: 1-2 opened in 2000, 2-3 in 2005, 3-4 in 2010. */
  function Line(): seq<Connection>
  {
    [Trail(1, 1, 2, 2000), Trail(2, 2, 3, 2005), Trail(3, 3, 4, 2010)]
  }

  /** Cutoff 2005: lodges 1, 2, 3 joined in a path and lodge 4 absent. */
  lemma LineUpTo2005Graph()
    ensures BuiltGraph(Line(), 2005) == Graph({1, 2, 3}, {Edge(1, 2), Edge(2, 3)})
  {
    var q := Qualifying(Line(), 2005);
    assert q == [Trail(1, 1, 2, 2000), Trail(2, 2, 3, 2005)];
    assert EdgesOf(q) == {Edge(1, 2), Edge(2, 3)};
    assert Endpoints(q) == {1, 2, 3};
  }

  /** In the path 1-2-3, lodge 2 has degree 2 and there is one component. */
  lemma PathQueries(g: Graph)
    requires g == Graph({1, 2, 3}, {Edge(1, 2), Edge(2, 3)})
    ensures Valid(g) && Degree(g, 2) == 2
    ensures |Components(g)| == 1
  {
    assert Neighbors(g, 2) == {1, 3};
    assert IsPath(g, [1, 2]) && IsPath(g, [2, 3]);
    ConnectedTransitive(g, 1, 2, 3);
    ConnectedReflexive(g, 1);
    forall a, b | a in g.nodes && b in g.nodes
      ensures Connected(g, a, b)
    {
      ConnectedSymmetric(g, 1, a);
      ConnectedTransitive(g, a, 1, b);
    }
    ConnectedGraphOneComponent(g);
  }

  lemma LineUpTo2005()
    ensures BuiltGraph(Line(), 2005).nodes == {1, 2, 3}
    ensures Valid(BuiltGraph(Line(), 2005)) && Degree(BuiltGraph(Line(), 2005), 2) == 2
    ensures |Components(BuiltGraph(Line(), 2005))| == 1
  {
    LineUpTo2005Graph();
    PathQueries(BuiltGraph(Line(), 2005));
  }

  /** Cutoff 1999: no trail is open yet, so the graph is empty and has no
      component. */
  lemma LineUpTo1999()
    ensures BuiltGraph(Line(), 1999) == Graph({}, {})
    ensures |Components(BuiltGraph(Line(), 1999))| == 0
  {
    BuiltGraphEmptyIffNoneQualify(Line(), 1999);
    BuiltGraphValid(Line(), 1999);
  }

  /** Two separate trails, 1-2 and 3-4, both opened in 2000. */
  function TwoPairs(): seq<Connection>
  {
    [Trail(1, 1, 2, 2000), Trail(2, 3, 4, 2000)]
  }

  lemma TwoPairsGraph()
    ensures BuiltGraph(TwoPairs(), 2000) == Graph({1, 2, 3, 4}, {Edge(1, 2), Edge(3, 4)})
  {
    var q := Qualifying(TwoPairs(), 2000);
    assert q == TwoPairs();
    assert EdgesOf(q) == {Edge(1, 2), Edge(3, 4)};
    assert Endpoints(q) == {1, 2, 3, 4};
  }

  /** The closure of either end of an edge whose two ends form a closed set
      is that pair. */
  lemma PairClosure(g: Graph, a: int, b: int)
    requires Valid(g) && Edge(a, b) in g.edges && Closed(g, {a, b})
    ensures Closure(g, {a}) == {a, b} && Closure(g, {b}) == {a, b}
  {
    ClosureLeast(g, a, {a, b});
    ClosureLeast(g, b, {a, b});
  }

  lemma TwoPairsClosures(g: Graph)
    requires g == Graph({1, 2, 3, 4}, {Edge(1, 2), Edge(3, 4)})
    ensures Valid(g)
    ensures Closure(g, {1}) == {1, 2} && Closure(g, {2}) == {1, 2}
    ensures Closure(g, {3}) == {3, 4} && Closure(g, {4}) == {3, 4}
  {
    assert Closed(g, {1, 2}) && Closed(g, {3, 4});
    PairClosure(g, 1, 2);
    PairClosure(g, 3, 4);
  }

  /** Counting components needs only the node set and the four closures. */
  lemma TwoClosuresTwoComponents(g: Graph)
    requires Valid(g) && g.nodes == {1, 2, 3, 4}
    requires Closure(g, {1}) == {1, 2} && Closure(g, {2}) == {1, 2}
    requires Closure(g, {3}) == {3, 4} && Closure(g, {4}) == {3, 4}
    ensures |Components(g)| == 2
  {
    ComponentsOfFour(g);
    assert {1, 2} != {3, 4} by { assert 1 !in {3, 4}; }
    TwoMembers(Components(g), {1, 2}, {3, 4});
  }

  /** A set holding two different values and nothing else has two members. */
  lemma TwoMembers<T>(s: set<T>, a: T, b: T)
    requires a in s && b in s && a != b
    requires forall x :: x in s ==> x == a || x == b
    ensures |s| == 2
  {
    assert s == {a, b};
  }

  lemma ComponentsOfFour(g: Graph)
    requires Valid(g) && g.nodes == {1, 2, 3, 4}
    requires Closure(g, {1}) == {1, 2} && Closure(g, {2}) == {1, 2}
    requires Closure(g, {3}) == {3, 4} && Closure(g, {4}) == {3, 4}
    ensures {1, 2} in Components(g) && {3, 4} in Components(g)
    ensures forall c :: c in Components(g) ==> c == {1, 2} || c == {3, 4}
  {
    assert 1 in g.nodes && 3 in g.nodes;
    assert forall v :: v in g.nodes ==> v == 1 || v == 2 || v == 3 || v == 4;
  }

  lemma TwoPairsUpTo2000()
    ensures Valid(BuiltGraph(TwoPairs(), 2000)) && |Components(BuiltGraph(TwoPairs(), 2000))| == 2
  {
    TwoPairsGraph();
    TwoPairsClosures(BuiltGraph(TwoPairs(), 2000));
    TwoClosuresTwoComponents(BuiltGraph(TwoPairs(), 2000));
  }
}
