# Mountain lodge graph — a Dafny model of the graph engine

The application keeps a catalog of mountain lodges (rifugi) and of the trails
(connessioni) between them. Each trail has the year in which it was
established. Its engine, the `Model` class, does five things:

- it indexes the lodge catalog by id;
- for a cutoff year, it rebuilds an undirected graph whose nodes are lodge ids
  and whose edges are the trails established in or before that year, keeping
  only lodges that lie on at least one such trail;
- it lists the lodge records of the graph's nodes;
- it reports the degree of a lodge;
- it counts the connected components of the graph.

The project has four modules:

- `Connections` (connessione.dfy) models the lodge and trail records. A trail
  is identified by its id alone.
- `Graphs` (graph.dfy) defines from first principles the graph notions the
  engine relies on:
  - unordered edges, neighbours and degree;
  - paths and connectivity;
  - connected components, computed as the closure of a node along edges.

  These notions are then proved against an independent definition of a
  component, and components are proved to partition the nodes.
- `LodgeGraph` (model.dfy) has three parts:
  - the id map;
  - `BuiltGraph`, the specification of the graph built for a catalog and a
    year, with its properties;
  - the `Model` class. Its `BuildGraph` and `GetNodes` methods are loops
    proved against that specification.
- `Scenarios` (scenarios.dfy) works a few small catalogs through the
  definitions.

The engine keeps the lodge list it last read in the field `lodges`. It
replaces the list on every load, even with an empty list, while the index by
id changes only when the list is non-empty.

The database is not modelled. The trail list and the lodge list that the
program reads from it are parameters of `BuildGraph` and of the
constructor / `LoadLodges`. The year filter the database query applies is
stated as `Qualifying`.

## Model

| member | source | states |
|---|---|---|
| Connections.Equals | model/connessione.py:17-18 | a trail equals a value exactly when the value is a trail with the same id: it equals itself, never equals a value that is not a trail, and equals another trail exactly when the ids agree |
| Connections.SameConnection | model/connessione.py:17-18 | two trails are the same connection exactly when their ids are equal |
| Connections.EqualsIffSameId | model/connessione.py:17-18 | two trails are equal exactly when their ids are equal |
| Connections.EqualsIgnoresPayload | model/connessione.py:7-18 | a trail equals any trail with the same id, whatever its lodges, distance, difficulty, duration and year |
| Connections.NeverEqualsNonConnection | model/connessione.py:18 | a trail is never equal to a value that is not a trail |
| Connections.SameConnectionIsEquivalence | model/connessione.py:17-18 | trail equality is reflexive, symmetric and transitive |
| Graphs.MkEdge | model/model.py:52-56 | the edge added for a pair of ids is the unordered pair of those ids, in normal form |
| Graphs.AdjacentSymmetric | model/model.py:56 | the graph is undirected: a is adjacent to b exactly when b is adjacent to a |
| Graphs.Neighbors | model/model.py:74-76 | the neighbours of v are exactly the ids adjacent to v |
| Graphs.Degree | model/model.py:79-80 | the degree of v is the number of edges at v, with a self-loop counted twice; an id that is not a node has degree 0 |
| Graphs.DegreeWithoutSelfLoop | model/model.py:78-80 | when v has no self-loop, its degree is its number of distinct neighbours, and v is not among them |
| Graphs.DegreePositiveIffNeighbor | model/model.py:78-80 | a node has degree at least 1 exactly when some id is adjacent to it |
| Graphs.ConnectedReflexive | model/model.py:94-95 | a node is connected to itself, so a single node with no edges is connected |
| Graphs.ConnectedStep | model/model.py:94 | a path extends by one edge at its end |
| Graphs.ConnectedSymmetric | model/model.py:94 | if a path leads from a to b, a path leads from b to a |
| Graphs.ConnectedTransitive | model/model.py:94 | paths from a to b and from b to c give a path from a to c |
| Graphs.Closure | model/model.py:89-93 | growing a set of nodes along edges ends in a set of nodes that contains it and that no edge leaves |
| Graphs.ClosureSound | model/model.py:93-94 | everything the growth adds is reachable by a path from where it started |
| Graphs.ClosedContainsConnected | model/model.py:93 | a set that no edge leaves contains every node reachable from one of its members |
| Graphs.ClosureIsComponent | model/model.py:93 | the closure of a node is a connected component: non-empty, any two members joined by a path, and nothing outside it reachable |
| Graphs.ClosureLeast | model/model.py:93 | the closure of a node is contained in every set that holds the node and that no edge leaves |
| Graphs.ComponentsMeetingAreEqual | model/model.py:93 | two connected components with a node in common are equal |
| Graphs.Components | model/model.py:89-95 | there are at most as many components as nodes, and none exactly when there are no nodes |
| Graphs.ComponentsExactly | model/model.py:93 | a set of nodes is a connected component exactly when it is one of the computed components |
| Graphs.ComponentsPartitionNodes | model/model.py:93 | the components partition the nodes: every node is in one, and distinct components share no node |
| Graphs.ComponentsDisjoint | model/model.py:93 | two distinct computed components have no node in common |
| Graphs.ClosuresMeetingAreEqual | model/model.py:93 | the closures of two nodes that share a node are the same |
| Graphs.NoEdgesOneComponentPerNode | model/model.py:93-95 | a graph without edges has one component per node |
| Graphs.ConnectedGraphOneComponent | model/model.py:94-95 | a non-empty graph in which every two nodes are joined by a path has exactly one component |
| LodgeGraph.IdMap | model/model.py:18 | the keys of the id map are exactly the ids of the records, and each key maps to a record of the list that has that id |
| LodgeGraph.IdMapLastWins | model/model.py:18 | when several records share an id, the id maps to the last of them |
| LodgeGraph.Qualifying | model/model.py:22-26 | the trails used are exactly the catalog's trails established in or before the cutoff year, and no more than the catalog holds |
| LodgeGraph.BuiltGraph | model/model.py:21-58 | the graph built for a cutoff year: its nodes are the ends of the trails established by that year and its edges their unordered id pairs; it is well formed, and it has no nodes exactly when it has no edges |
| LodgeGraph.EdgesOfValid | model/model.py:52-58 | every edge of a list of trails is in normal form and joins two ends of those trails |
| LodgeGraph.MkEdgeSamePair | model/model.py:52-56 | two id pairs give the same edge exactly when they are equal or one is the other reversed |
| LodgeGraph.BuiltGraphAdjacency | model/model.py:32-56 | two lodges are adjacent in the built graph exactly when some trail established by the cutoff year joins them, in either direction |
| LodgeGraph.BuiltGraphNodes | model/model.py:40-58 | a lodge is a node of the built graph exactly when it is an end of some trail established by the cutoff year |
| LodgeGraph.BuiltGraphValid | model/model.py:54-58 | the built graph is well formed and no node of it is isolated (every node has degree at least 1) |
| LodgeGraph.BuiltGraphNodeHasNeighbor | model/model.py:40-58 | every node of the built graph shares an edge with some lodge |
| LodgeGraph.BuiltGraphEmptyIffNoneQualify | model/model.py:29-36 | the built graph has no nodes and no edges exactly when no trail is established by the cutoff year |
| LodgeGraph.BuiltGraphMonotone | model/model.py:21-32 | raising the cutoff year only adds nodes and edges |
| LodgeGraph.ParallelConnectionsOneEdge | model/model.py:52-56 | two trails between the same two lodges, in either direction, give one and the same edge |
| LodgeGraph.BuiltGraphEdgeCount | model/model.py:52-56 | the built graph has no more edges than there are qualifying trails |
| LodgeGraph.Model.constructor | model/model.py:7-12 | a new engine has an empty graph and the catalog loaded and indexed by id |
| LodgeGraph.Model.LoadLodges | model/model.py:14-18 | the catalog is stored; a non-empty catalog replaces the index with its id map, while an empty one leaves the index as it was; the graph is untouched |
| LodgeGraph.Model.BuildGraph | model/model.py:21-58 | the graph after the call is exactly the graph built for the catalog and the year, whatever the graph was before; it is well formed with no isolated node, and the lodge index is untouched |
| LodgeGraph.IdPairs | model/model.py:39-52 | the list of id pairs collected from the trails has one pair per trail, in order, each holding that trail's two lodge ids |
| LodgeGraph.IdPairsAppend | model/model.py:42-52 | handling one more trail appends exactly that trail's pair of ids to the list |
| LodgeGraph.PairEndsAppend | model/model.py:47-52 | recording one more pair of ids adds exactly its two ids to the involved nodes |
| LodgeGraph.PairsAreEdges | model/model.py:39-58 | the pairs collected from the trails give exactly those trails' edges and their ends |
| LodgeGraph.PairsBuildGraph | model/model.py:39-58 | the ends and edges of the pairs collected from the qualifying trails are the built graph |
| LodgeGraph.BuiltFromPairs | model/model.py:54-58 | adding the collected edges and then the involved ids to an empty graph gives the built graph, well formed and with no isolated node |
| LodgeGraph.Model.GetNodes | model/model.py:62-70 | for an index that maps every id to a record with that id: when every node id is in the index, the result holds one record per node, each the index's record for a distinct node id; otherwise it reports a node id missing from the index |
| LodgeGraph.Model.NumNeighbors | model/model.py:72-81 | the answer is 0 exactly for a lodge whose id is not a node, and at least 1 for a node; for a node without a self-loop it is its number of distinct neighbours |
| LodgeGraph.Model.NumConnectedComponents | model/model.py:84-95 | the count is 0 exactly for an empty graph, at least 1 otherwise, and at most the number of nodes |
| Scenarios.LineUpTo2005Graph | model/model.py:21-58 | for trails 1-2 (2000), 2-3 (2005) and 3-4 (2010), the graph for 2005 is the path 1-2-3 |
| Scenarios.PathQueries | model/model.py:72-89 | in the path 1-2-3, lodge 2 has degree 2 and there is one component |
| Scenarios.LineUpTo2005 | model/model.py:21-89 | the graph for 2005 has nodes 1, 2, 3, lodge 2 has degree 2, and there is one component |
| Scenarios.LineUpTo1999 | model/model.py:29-36 | the graph for 1999 is empty and has no component |
| Scenarios.TwoPairsGraph | model/model.py:21-58 | trails 1-2 and 3-4 give the graph with those two edges on nodes 1 to 4 |
| Scenarios.PairClosure | model/model.py:93 | when an edge's two ends form a set no edge leaves, the closure of either end is that pair |
| Scenarios.TwoPairsClosures | model/model.py:93 | in the graph with edges 1-2 and 3-4, the closures are {1, 2} and {3, 4} |
| Scenarios.ComponentsOfFour | model/model.py:93 | with those closures, the components are exactly {1, 2} and {3, 4} |
| Scenarios.TwoClosuresTwoComponents | model/model.py:89 | with those closures, there are two components |
| Scenarios.TwoPairsUpTo2000 | model/model.py:84-89 | trails 1-2 and 3-4 give a graph with two components |

## Left out

- Database access is not modelled. The lodge list and the trail list are
  parameters. The year filter of the trail query (model/model.py:32) is not
  part of this model, so it is stated as `Qualifying`: trails established in
  or before the cutoff year, in catalog order.
- The graph library is not modelled. Its graph, degree and
  connected-component count are replaced by the definitions in `Graphs`. The
  degree follows the library's convention that a self-loop counts twice.
  The description of the degree query speaks of distinct neighbours; the
  code asks the library for the degree, so the model follows the code. The
  two agree whenever there is no self-loop (`Graphs.DegreeWithoutSelfLoop`).
- `get_reachable` (model/model.py:100-117) is not modelled, because its body
  is unwritten. The `Connected` predicate is only the definition used for
  components.
- `Connessione.__str__` (model/connessione.py:20-21) is presentation only.
- The lodge record is not part of this model beyond its id. Its other fields
  are abstracted as one `details` string that the engine never reads.
- LodgeGraph.Model.GetNodes: the order of the returned records is not
  modelled. The program lists them in the order the graph library first saw
  each node id; the model promises only one record per node.
- LodgeGraph.Model.GetNodes: the missing key is modelled as an `Err`
  result, not as an exception. Which missing id it names is not specified.
- A comment in `build_graph` (model/model.py:34) says that without
  qualifying trails the graph keeps its nodes but has no edges. The code
  clears the graph first (model/model.py:29) and then returns, so the graph
  is empty. The model follows the code (`LodgeGraph.BuiltGraphEmptyIffNoneQualify`).
