/**
 An undirected graph over integer ids, as the engine uses it: a set of nodes
 and a set of unordered edges. This module fixes the meaning of the graph
 queries the engine asks for (neighbours, degree, connected components);
 the library that answers them in the program is not part of this
 model, so the answers are defined here from first principles.
 */
module Graphs {

  /** An unordered edge, kept with its smaller end first, so that the edge
      between a and b and the edge between b and a are one value. A
      self-loop is an edge whose two ends coincide. */
  datatype Edge = Edge(lo: int, hi: int)

  function MkEdge(a: int, b: int): (e: Edge)
    ensures e.lo <= e.hi
    ensures (e.lo == a && e.hi == b) || (e.lo == b && e.hi == a)
  {
    if a <= b then Edge(a, b) else Edge(b, a)
  }

  datatype Graph = Graph(nodes: set<int>, edges: set<Edge>)

  /** Every edge is kept in normal form and joins two nodes of the graph. */
  ghost predicate Valid(g: Graph)
  {
    forall e :: e in g.edges ==> e.lo <= e.hi && e.lo in g.nodes && e.hi in g.nodes
  }

  predicate Adjacent(g: Graph, a: int, b: int)
  {
    MkEdge(a, b) in g.edges
  }

  /** The graph is undirected: adjacency does not depend on the order of the ends. */
  lemma AdjacentSymmetric(g: Graph, a: int, b: int)
    ensures Adjacent(g, a, b) <==> Adjacent(g, b, a)
  {
  }

  /** Some element of a non-empty set. */
  ghost function Pick<T>(s: set<T>): (x: T)
    requires s != {}
    ensures x in s
  {
    var x :| x in s;
    x
  }

  /** The end of `e` that is not `v` (or `v` itself for a self-loop). */
  function Other(e: Edge, v: int): int
  {
    if e.lo == v then e.hi else e.lo
  }

  function IncidentEdges(g: Graph, v: int): set<Edge>
  {
    set e | e in g.edges && (e.lo == v || e.hi == v)
  }

  /** The ids that share an edge with `v`; `v` itself belongs to them when it
      has a self-loop. */
  function Neighbors(g: Graph, v: int): (ns: set<int>)
    requires Valid(g)
    ensures forall u :: u in ns <==> Adjacent(g, v, u)
  {
    var ns := set e | e in IncidentEdges(g, v) :: Other(e, v);
    NeighborsAreAdjacent(g, v, ns);
    ns
  }

  lemma NeighborsAreAdjacent(g: Graph, v: int, ns: set<int>)
    requires Valid(g)
    requires ns == set e | e in IncidentEdges(g, v) :: Other(e, v)
    ensures forall u :: u in ns <==> Adjacent(g, v, u)
  {
    forall u ensures u in ns <==> Adjacent(g, v, u) {
      if Adjacent(g, v, u) {
        var e := MkEdge(v, u);
        assert e in IncidentEdges(g, v) && Other(e, v) == u;
      }
    }
  }

  /** The degree of `v` as an undirected graph counts it: every neighbour
      once, and a self-loop once more, since both its ends are at `v`. So it
      is the number of edge ends at `v`, and an id that is not a node has
      degree 0. */
  function Degree(g: Graph, v: int): (d: nat)
    requires Valid(g)
    ensures d == |IncidentEdges(g, v)| + (if Adjacent(g, v, v) then 1 else 0)
    ensures v !in g.nodes ==> d == 0
  {
    OtherIsInjective(IncidentEdges(g, v), v);
    |Neighbors(g, v)| + (if Adjacent(g, v, v) then 1 else 0)
  }

  /** Without a self-loop the degree is the number of distinct neighbours,
      none of which is `v` itself. */
  lemma DegreeWithoutSelfLoop(g: Graph, v: int)
    requires Valid(g) && !Adjacent(g, v, v)
    ensures Degree(g, v) == |Neighbors(g, v)|
    ensures v !in Neighbors(g, v)
  {
  }

  lemma {:induction false} OtherIsInjective(es: set<Edge>, v: int)
    requires forall e :: e in es ==> e.lo <= e.hi && (e.lo == v || e.hi == v)
    ensures |(set e | e in es :: Other(e, v))| == |es|
  {
    if es != {} {
      var e :| e in es;
      var rest := es - {e};
      OtherIsInjective(rest, v);
      var img := set x | x in rest :: Other(x, v);
      assert (set x | x in es :: Other(x, v)) == img + {Other(e, v)};
      assert Other(e, v) !in img;
    }
  }

  /** Every node has degree at least 1. */
  ghost predicate NoIsolatedNodes(g: Graph)
    requires Valid(g)
  {
    forall v {:trigger Degree(g, v)} :: v in g.nodes ==> Degree(g, v) >= 1
  }

  /** A node has positive degree exactly when it has a neighbour. */
  lemma DegreePositiveIffNeighbor(g: Graph, v: int)
    requires Valid(g)
    ensures Degree(g, v) >= 1 <==> exists u :: Adjacent(g, v, u)
  {
    var ns := Neighbors(g, v);
    if Degree(g, v) >= 1 && !Adjacent(g, v, v) {
      assert ns != {};
      var u := Pick(ns);
      assert Adjacent(g, v, u);
    }
    if u :| Adjacent(g, v, u) {
      assert u in ns;
    }
  }

  // ---------------------------------------------------------------------
  // Paths and connectivity

  /** A non-empty walk through nodes of `g`, each step along an edge. */
  ghost predicate IsPath(g: Graph, p: seq<int>)
  {
    |p| > 0 &&
    (forall i :: 0 <= i < |p| ==> p[i] in g.nodes) &&
    (forall i :: 0 <= i < |p| - 1 ==> Adjacent(g, p[i], p[i + 1]))
  }

  ghost predicate Connected(g: Graph, a: int, b: int)
  {
    exists p :: IsPath(g, p) && p[0] == a && p[|p| - 1] == b
  }

  lemma ConnectedReflexive(g: Graph, a: int)
    requires a in g.nodes
    ensures Connected(g, a, a)
  {
    assert IsPath(g, [a]);
  }

  /** A path can be extended by one edge at its end. */
  lemma ConnectedStep(g: Graph, a: int, b: int, c: int)
    requires Connected(g, a, b) && Adjacent(g, b, c) && c in g.nodes
    ensures Connected(g, a, c)
  {
    var p :| IsPath(g, p) && p[0] == a && p[|p| - 1] == b;
    var q := p + [c];
    assert forall i :: 0 <= i < |p| ==> q[i] == p[i];
    assert IsPath(g, q);
  }

  lemma ConnectedSymmetric(g: Graph, a: int, b: int)
    requires Connected(g, a, b)
    ensures Connected(g, b, a)
  {
    var p :| IsPath(g, p) && p[0] == a && p[|p| - 1] == b;
    var n := |p|;
    var q := seq(n, i requires 0 <= i < n => p[n - 1 - i]);
    forall i | 0 <= i < n - 1
      ensures Adjacent(g, q[i], q[i + 1])
    {
      assert Adjacent(g, p[n - 2 - i], p[n - 1 - i]);
      AdjacentSymmetric(g, p[n - 2 - i], p[n - 1 - i]);
    }
    assert IsPath(g, q);
  }

  lemma ConnectedTransitive(g: Graph, a: int, b: int, c: int)
    requires Connected(g, a, b) && Connected(g, b, c)
    ensures Connected(g, a, c)
  {
    var p :| IsPath(g, p) && p[0] == a && p[|p| - 1] == b;
    var q :| IsPath(g, q) && q[0] == b && q[|q| - 1] == c;
    var r := p + q[1..];
    forall i | 0 <= i < |r| - 1
      ensures Adjacent(g, r[i], r[i + 1])
    {
      if i < |p| - 1 {
        assert r[i] == p[i] && r[i + 1] == p[i + 1];
      } else {
        var j := i - |p| + 1;
        assert r[i] == q[j] && r[i + 1] == q[j + 1];
      }
    }
    assert IsPath(g, r);
  }

  // ---------------------------------------------------------------------
  // Growing a set of nodes along edges

  /** Every edge has both ends inside `c` or both ends outside it. */
  ghost predicate Closed(g: Graph, c: set<int>)
  {
    forall e :: e in g.edges ==> (e.lo in c <==> e.hi in c)
  }

  /** `s` together with every node one edge away from it. */
  function Step(g: Graph, s: set<int>): set<int>
  {
    s + (set e | e in g.edges && e.lo in s :: e.hi) + (set e | e in g.edges && e.hi in s :: e.lo)
  }

  /** `s` grown along edges until no edge leaves it. */
  function Closure(g: Graph, s: set<int>): (c: set<int>)
    requires Valid(g) && s <= g.nodes
    ensures s <= c <= g.nodes
    ensures Closed(g, c)
    decreases |g.nodes - s|
  {
    var t := Step(g, s);
    if t == s then s
    else
      SubsetCardinality(g.nodes - t, g.nodes - s);
      Closure(g, t)
  }

  lemma {:induction false} SubsetCardinality<T>(a: set<T>, b: set<T>)
    requires a <= b
    ensures |a| <= |b|
    ensures a < b ==> |a| < |b|
  {
    if a != {} {
      var x :| x in a;
      SubsetCardinality(a - {x}, b - {x});
    } else if b != {} {
      var y :| y in b;
    }
  }

  /** Everything the closure of `s` adds is connected to whatever `s` was. */
  lemma {:induction false} ClosureSound(g: Graph, v: int, s: set<int>)
    requires Valid(g) && s <= g.nodes
    requires forall w :: w in s ==> Connected(g, v, w)
    ensures forall w :: w in Closure(g, s) ==> Connected(g, v, w)
    decreases |g.nodes - s|
  {
    var t := Step(g, s);
    if t != s {
      forall w | w in t
        ensures Connected(g, v, w)
      {
        if w !in s {
          if e :| e in g.edges && e.lo in s && e.hi == w {
            ConnectedStep(g, v, e.lo, w);
          } else {
            var e :| e in g.edges && e.hi in s && e.lo == w;
            ConnectedStep(g, v, e.hi, w);
          }
        }
      }
      SubsetCardinality(g.nodes - t, g.nodes - s);
      ClosureSound(g, v, t);
    }
  }

  /** A closed set holds everything connected to any of its members. */
  lemma ClosedContainsConnected(g: Graph, c: set<int>, a: int, b: int)
    requires Closed(g, c) && a in c && Connected(g, a, b)
    ensures b in c
  {
    var p :| IsPath(g, p) && p[0] == a && p[|p| - 1] == b;
    var i := 0;
    while i < |p| - 1
      invariant 0 <= i < |p| && p[i] in c
    {
      assert MkEdge(p[i], p[i + 1]) in g.edges;
      i := i + 1;
    }
  }

  // ---------------------------------------------------------------------
  // Connected components

  /** A connected component: a non-empty set of nodes, any two of them
      joined by a path, and no path leading out of it. */
  ghost predicate IsComponent(g: Graph, c: set<int>)
  {
    c != {} && c <= g.nodes &&
    (forall a, b :: a in c && b in c ==> Connected(g, a, b)) &&
    (forall a, b :: a in c && Connected(g, a, b) ==> b in c)
  }

  /** The closure of a single node is the component of that node. */
  lemma ClosureIsComponent(g: Graph, v: int)
    requires Valid(g) && v in g.nodes
    ensures IsComponent(g, Closure(g, {v}))
  {
    var c := Closure(g, {v});
    ConnectedReflexive(g, v);
    ClosureSound(g, v, {v});
    forall a, b | a in c && b in c
      ensures Connected(g, a, b)
    {
      ConnectedSymmetric(g, v, a);
      ConnectedTransitive(g, a, v, b);
    }
    forall a, b | a in c && Connected(g, a, b)
      ensures b in c
    {
      ConnectedTransitive(g, v, a, b);
      ClosedContainsConnected(g, c, v, b);
    }
  }

  /** The closure of a node is the least closed set holding that node. */
  lemma ClosureLeast(g: Graph, v: int, c: set<int>)
    requires Valid(g) && v in g.nodes && Closed(g, c) && v in c
    ensures Closure(g, {v}) <= c
  {
    ConnectedReflexive(g, v);
    ClosureSound(g, v, {v});
    forall w | w in Closure(g, {v}) ensures w in c {
      ClosedContainsConnected(g, c, v, w);
    }
  }

  /** Two components with a node in common are the same component. */
  lemma ComponentsMeetingAreEqual(g: Graph, c: set<int>, d: set<int>, a: int)
    requires IsComponent(g, c) && IsComponent(g, d) && a in c && a in d
    ensures c == d
  {
    forall x | x in c ensures x in d {
      assert Connected(g, a, x);
    }
    forall x | x in d ensures x in c {
      assert Connected(g, a, x);
    }
  }

  /** The closures of the single nodes of `r`. */
  function ClosuresOf(g: Graph, r: set<int>): set<set<int>>
    requires Valid(g) && r <= g.nodes
  {
    set v | v in r :: Closure(g, {v})
  }

  /** The connected components of `g`, one per distinct closure of a node. */
  function Components(g: Graph): (cs: set<set<int>>)
    requires Valid(g)
    ensures |cs| <= |g.nodes|
    ensures cs == {} <==> g.nodes == {}
  {
    ClosuresAtMostNodes(g, g.nodes);
    ClosuresOf(g, g.nodes)
  }

  lemma {:induction false} ClosuresAtMostNodes(g: Graph, r: set<int>)
    requires Valid(g) && r <= g.nodes
    ensures |ClosuresOf(g, r)| <= |r|
    ensures ClosuresOf(g, r) == {} <==> r == {}
  {
    if r != {} {
      var v := Pick(r);
      var rest := r - {v};
      ClosuresAtMostNodes(g, rest);
      var c := Closure(g, {v});
      assert c in ClosuresOf(g, r);
      forall d | d in ClosuresOf(g, r)
        ensures d in ClosuresOf(g, rest) + {c}
      {
        var w :| w in r && d == Closure(g, {w});
        if w != v {
          assert w in rest;
        }
      }
      SubsetCardinality(ClosuresOf(g, r), ClosuresOf(g, rest) + {c});
    }
  }

  /** Components(g) is exactly the set of connected components of `g`, so its
      size is the number of connected components. */
  lemma ComponentsExactly(g: Graph)
    requires Valid(g)
    ensures forall c :: IsComponent(g, c) <==> c in Components(g)
  {
    forall c | c in Components(g)
      ensures IsComponent(g, c)
    {
      var v :| v in g.nodes && c == Closure(g, {v});
      ClosureIsComponent(g, v);
    }
    forall c | IsComponent(g, c)
      ensures c in Components(g)
    {
      var a := Pick(c);
      ClosureIsComponent(g, a);
      ComponentsMeetingAreEqual(g, c, Closure(g, {a}), a);
    }
  }

  /** The components partition the nodes: every node lies in one of them,
      and two different components have no node in common. */
  lemma ComponentsPartitionNodes(g: Graph)
    requires Valid(g)
    ensures forall v :: v in g.nodes ==> exists c :: c in Components(g) && v in c
    ensures forall c, d :: c in Components(g) && d in Components(g) && c != d ==> c !! d
  {
    forall v | v in g.nodes
      ensures exists c :: c in Components(g) && v in c
    {
      assert v in Closure(g, {v}) && Closure(g, {v}) in Components(g);
    }
    forall c, d | c in Components(g) && d in Components(g) && c != d
      ensures c !! d
    {
      ComponentsDisjoint(g, c, d);
    }
  }

  lemma ComponentsDisjoint(g: Graph, c: set<int>, d: set<int>)
    requires Valid(g) && c in Components(g) && d in Components(g) && c != d
    ensures c !! d
  {
    var u :| u in g.nodes && c == Closure(g, {u});
    var w :| w in g.nodes && d == Closure(g, {w});
    forall v | v in c
      ensures v !in d
    {
      if v in d {
        ClosuresMeetingAreEqual(g, u, w, v);
      }
    }
  }

  lemma ClosuresMeetingAreEqual(g: Graph, u: int, w: int, v: int)
    requires Valid(g) && u in g.nodes && w in g.nodes
    requires v in Closure(g, {u}) && v in Closure(g, {w})
    ensures Closure(g, {u}) == Closure(g, {w})
  {
    ClosureIsComponent(g, u);
    ClosureIsComponent(g, w);
    ComponentsMeetingAreEqual(g, Closure(g, {u}), Closure(g, {w}), v);
  }

  /** A graph without edges has one component per node. */
  lemma NoEdgesOneComponentPerNode(g: Graph)
    requires Valid(g) && g.edges == {}
    ensures |Components(g)| == |g.nodes|
  {
    forall v | v in g.nodes
      ensures Closure(g, {v}) == {v}
    {
      assert Step(g, {v}) == {v};
    }
    assert Components(g) == set v | v in g.nodes :: {v};
    SingletonsCardinality(g.nodes);
  }

  lemma {:induction false} SingletonsCardinality(r: set<int>)
    ensures |(set v | v in r :: {v})| == |r|
  {
    if r != {} {
      var v := Pick(r);
      var rest := r - {v};
      SingletonsCardinality(rest);
      assert (set w | w in r :: {w}) == (set w | w in rest :: {w}) + {{v}};
      assert {v} !in (set w | w in rest :: {w});
    }
  }

  /** A non-empty graph in which every two nodes are joined by a path has
      exactly one component. */
  lemma ConnectedGraphOneComponent(g: Graph)
    requires Valid(g) && g.nodes != {}
    requires forall a, b :: a in g.nodes && b in g.nodes ==> Connected(g, a, b)
    ensures |Components(g)| == 1
  {
    forall v | v in g.nodes
      ensures Closure(g, {v}) == g.nodes
    {
      forall w | w in g.nodes ensures w in Closure(g, {v}) {
        ClosedContainsConnected(g, Closure(g, {v}), v, w);
      }
    }
    assert Components(g) == {g.nodes};
  }
}
