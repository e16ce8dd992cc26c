# Airline network — a Dafny model

This project models the core of an airline-network application written in
Java. The application keeps airports and the routes between them in an
undirected graph. It answers questions about that graph: shortest paths by
Dijkstra's algorithm, the farthest pair of airports, the longest and
shortest route, the most connected airports, and the airports without
routes. An undo history of graph backups sits on top of it.

The Dafny model follows the source class by class.

- `Graphs.Graph` (graph.dfy) is the adjacency-map graph, `GraphAdjacencyMatrix`.
  - Vertices and edges are `Vertex`/`Edge` objects compared by identity, each with a mutable element.
  - Each vertex owns a mutable neighbour map, a `Neighbours` object.
  - The graph's `adjacency` field maps every vertex to its neighbour map.
  - The ghost function `Index()` reads all of this as a value, a map of maps.
  - Every graph operation is proved against a pure operation on that value: `AddVertex`, `AddEdge`, `DropVertex`, `Without`.
  - The lemmas of module `AdjacencyIndex` (index.dfy) prove what those operations keep and change.
  - The key invariant is `WellFormed`: every route is stored under both its ends and nowhere else.
- `Dijkstra.DijkstraResult` (dijkstra.dfy) is the shortest-path search, loop by loop.
  - `ShortestPaths` (paths.dfy) holds the loop invariants.
  - It also holds the proof that the answer is a cheapest walk, or infinity exactly when the end cannot be reached.
  - `DijkstraConcreteResult` is a datatype, a cost and an optional path.
- `Network.AirportNetwork` (network.dfy) is the network.
  - Its invariant `Consistent` says that the index is well formed and that every route joins the airports of the two vertices it is stored between.
  - Every operation that changes the graph is proved to keep `Consistent`.
- `Domain` (domain.dfy) holds `Airport`, a class with reference equality, and `Route`, a value whose `Equals` ignores distance and orientation.
- `JavaText` (text.dfy) models `String.compareTo` and `equalsIgnoreCase`.
- `Ranking` (ranking.dfy) is the sort the source calls, proved to yield an ordered permutation.
- `Commands` (commands.dfy) is the undo machinery: `CopyCommand`, `CommandHistory` and what a backup does and does not protect.

Exceptions are modelled as error values of `Result`.

- `GraphError` covers the graph's `InvalidVertexException` and `InvalidEdgeException` and a null dereference.
- `NetworkError` covers the network's own messages. `Uncaught(...)` is a graph exception that escapes the network method unchanged.

Java `double` distances become a `Distance` datatype: a finite integer, or infinity in place of `Double.MAX_VALUE`.

The source and its documentation disagree in a few places; the model follows the code.

- `removeRoute(String, String)` documents an error for an unknown route, but the code silently matches no edge.
- `removeRoute(Edge)` catches only the network's own exception, so the graph's exceptions pass through.
- The copy constructor used for undo backups copies only the outer vertex map. A backup therefore shares the live graph's neighbour maps:
  - a route added or removed after the backup shows through the backup too;
  - after an undo the index need not be well formed.
  The `Commands` scenarios state this. Queries that need a well-formed index state their results under `WellFormed`.

## Model

| member | source | states |
|---|---|---|
| Domain.Airport.constructor | src/model/pa/model/Airport.java:55-60 | the airport holds the given name, abbreviation and screen position |
| Domain.Airport.Geographic | src/model/pa/model/Airport.java:22-28 | the airport holds the given name and abbreviation and sits at position (0, 0) |
| Domain.Airport.GeographicAt | src/model/pa/model/Airport.java:40-46 | the airport holds the given name, abbreviation and position |
| Domain.Airport.CompareTo | src/model/pa/model/Airport.java:87-89 | airports compare as their abbreviations do: zero exactly for equal abbreviations, and swapping the operands negates the answer |
| Domain.Route.CompareTo | src/model/pa/model/Route.java:23-25 | positive, zero or negative exactly when the other route is longer, as long or shorter (descending order of distance) |
| Domain.RouteCompareAntisymmetric | src/model/pa/model/Route.java:23-25 | comparing two routes one way is the negation of comparing them the other way |
| Domain.RouteEqualsIsEquivalence | src/model/pa/model/Route.java:29-34 | route equality is reflexive, symmetric and transitive, and ignores orientation and distance |
| Domain.Route.Equals | src/model/pa/model/Route.java:29-34 | two routes are equal exactly when they join the same unordered pair of airports, whatever their distances |
| JavaText.CompareStrings | src/model/pa/model/Airport.java:87-89 | the difference of the characters at the first index where the strings differ, or the length difference when one string is a prefix of the other |
| JavaText.CompareZeroIffEqual | src/model/pa/model/Airport.java:87-89 | the lexicographic comparison is zero exactly for equal strings |
| JavaText.CompareAntisymmetric | src/model/pa/model/Airport.java:87-89 | swapping the strings negates the comparison |
| JavaText.CompareTransitive | src/model/pa/model/Airport.java:87-89 | "not after" is transitive |
| JavaText.NotAfterIsTotalPreorder | src/model/pa/model/AirportNetwork.java:447 | ordering by abbreviation is a total preorder, so the alphabetical sort is well defined |
| JavaText.Folded | src/model/pa/model/AirportNetwork.java:127 | case folding keeps the length and folds every character |
| JavaText.EqualsIgnoreCase | src/model/pa/model/AirportNetwork.java:127 | case-insensitive equality holds exactly when the folded strings are equal, so it is an equivalence |
| Ranking.Insert | src/model/pa/graph/GraphAdjacencyMatrix.java:304 | inserting adds exactly one occurrence of the element |
| Ranking.Sort | src/model/pa/graph/GraphAdjacencyMatrix.java:304 | the sorted list is a permutation of the input |
| Ranking.InsertOrdered | src/model/pa/graph/GraphAdjacencyMatrix.java:304 | under a total preorder, inserting into an ordered list keeps it ordered |
| Ranking.SortOrdered | src/model/pa/graph/GraphAdjacencyMatrix.java:304 | under a total preorder, the sorted list is ordered |
| Ranking.DescendingIsTotalPreorder | src/model/pa/model/AirportNetwork.java:416 | descending order of counts is a total preorder |
| Lists.DistinctMembers | src/model/pa/graph/GraphAdjacencyMatrix.java:112-122 | a list without repetitions has as many members as elements, each occurring once |
| Lists.Reverse | src/model/pa/dijkstra/DijkstraResult.java:71 | the reversed list has the same length, with element i taken from position length-1-i |
| Lists.ReverseAppend | src/model/pa/dijkstra/DijkstraResult.java:66-71 | reversing a list with one more element at the end puts that element first |
| Lists.RemoveFirst | src/model/pa/dijkstra/DijkstraResult.java:56 | removing a present element shortens the list by one and keeps every other element; removing an absent one changes nothing; a list without repetitions loses the element entirely |
| Lists.RemoveFirstAt | src/model/pa/dijkstra/DijkstraResult.java:56 | the occurrence removed is the first one, and the remaining elements keep their order |
| AdjacencyIndex.AddVertex | src/model/pa/graph/GraphAdjacencyMatrix.java:176-181 | one more vertex with an empty neighbour map; every other map unchanged |
| AdjacencyIndex.AddVertexKeepsInvariant | src/model/pa/graph/GraphAdjacencyMatrix.java:176-181 | a fresh vertex keeps the index well formed, adds one vertex and no edge |
| AdjacencyIndex.AddEdge | src/model/pa/graph/GraphAdjacencyMatrix.java:193-202 | same vertices; the edge is stored under u -> v and v -> u |
| AdjacencyIndex.AddEdgeEdges | src/model/pa/graph/GraphAdjacencyMatrix.java:193-202 | the edges afterwards are the old ones, less any edge stored between the same pair, plus the new one |
| AdjacencyIndex.AddEdgeWellFormed | src/model/pa/graph/GraphAdjacencyMatrix.java:193-202 | a fresh edge between two vertices keeps the index well formed |
| AdjacencyIndex.AddEdgeKeepsInvariant | src/model/pa/graph/GraphAdjacencyMatrix.java:193-202 | the index stays well formed, and the edge count grows by one exactly when the pair was not adjacent |
| AdjacencyIndex.DropVertex | src/model/pa/graph/GraphAdjacencyMatrix.java:227-235 | the vertex set loses exactly the removed vertex |
| AdjacencyIndex.DropVertexWellFormed | src/model/pa/graph/GraphAdjacencyMatrix.java:227-235 | removing a vertex keeps the index well formed and leaves no entry keyed by it |
| AdjacencyIndex.DropVertexEdges | src/model/pa/graph/GraphAdjacencyMatrix.java:227-235 | removing a vertex removes exactly its incident edges |
| AdjacencyIndex.DropVertexKeepsInvariant | src/model/pa/graph/GraphAdjacencyMatrix.java:227-235 | well formed afterwards, no reference to the vertex, and the edge count drops by its number of incident edges |
| AdjacencyIndex.DropEntry | src/model/pa/graph/GraphAdjacencyMatrix.java:258-259 | the key is removed exactly when it still maps to the given edge, as `Map.remove(key, value)` does |
| AdjacencyIndex.DropEdgeAt | src/model/pa/graph/GraphAdjacencyMatrix.java:250-261 | removing an edge from where the scan found it keeps the vertex set |
| AdjacencyIndex.Without | src/model/pa/graph/GraphAdjacencyMatrix.java:250-261 | reference definition: the index without every entry holding the edge, over the same vertices |
| AdjacencyIndex.DropEdgeAtIsWithout | src/model/pa/graph/GraphAdjacencyMatrix.java:250-261 | wherever the scan finds the edge, removing it and its mirror removes exactly the entries holding it |
| AdjacencyIndex.WithoutWellFormed | src/model/pa/graph/GraphAdjacencyMatrix.java:250-261 | removing every entry of one edge keeps the index well formed |
| AdjacencyIndex.WithoutEdges | src/model/pa/graph/GraphAdjacencyMatrix.java:250-261 | removing every entry of an edge removes that edge and no other |
| AdjacencyIndex.DropEdgeKeepsInvariant | src/model/pa/graph/GraphAdjacencyMatrix.java:250-261 | removing an edge keeps the vertices and well-formedness, and the edge count drops by one |
| AdjacencyIndex.PlacementOfEdge | src/model/pa/graph/GraphAdjacencyMatrix.java:383-396 | in a well-formed index the entries holding an edge are exactly its two ends, in either orientation |
| AdjacencyIndex.OppositeIsOtherEnd | src/model/pa/graph/GraphAdjacencyMatrix.java:156-166 | whichever entry the scan finds for the edge, the answer is the neighbour of `v` across it |
| AdjacencyIndex.EdgesFromBounds | src/model/pa/graph/GraphAdjacencyMatrix.java:112-122 | scanning no neighbour map finds nothing; scanning all of them finds every edge |
| AdjacencyIndex.EdgesFromStep | src/model/pa/graph/GraphAdjacencyMatrix.java:114-119 | scanning one more neighbour map adds exactly its edges |
| AdjacencyIndex.ReachableSelf | src/model/pa/graph/GraphAdjacencyMatrix.java:324 | the start is reachable from itself |
| AdjacencyIndex.ReachableStep | src/model/pa/graph/GraphAdjacencyMatrix.java:330-336 | reachability extends along one neighbour entry |
| AdjacencyIndex.ClosedSetHoldsReachable | src/model/pa/graph/GraphAdjacencyMatrix.java:320-340 | a set holding the start and closed under neighbour entries holds every reachable vertex |
| Graphs.Vertex.constructor | src/model/pa/graph/GraphAdjacencyMatrix.java:348-350 | a vertex holds its element |
| Graphs.Edge.constructor | src/model/pa/graph/GraphAdjacencyMatrix.java:369-371 | an edge holds its element |
| Graphs.Neighbours.constructor | src/model/pa/graph/GraphAdjacencyMatrix.java:179 | a new neighbour map is empty |
| Graphs.Graph.constructor | src/model/pa/graph/GraphAdjacencyMatrix.java:19-21 | a new graph is valid and has no vertex |
| Graphs.Graph.Copy | src/model/pa/graph/GraphAdjacencyMatrix.java:27-29 | the copy has the same vertex map, so the same index, and is valid when the original is |
| Graphs.Graph.CheckVertex | src/model/pa/graph/GraphAdjacencyMatrix.java:405-420 | succeeds with `v` exactly when `v` is a vertex of this graph; InvalidVertex otherwise |
| Graphs.Graph.AreAdjacent | src/model/pa/graph/GraphAdjacencyMatrix.java:67-72 | fails exactly when an argument is not a vertex; otherwise true exactly when `v` is a key of `u`'s neighbour map |
| Graphs.Graph.AreAdjacentSymmetric | src/model/pa/graph/GraphAdjacencyMatrix.java:67-72 | in a well-formed index adjacency is symmetric |
| Graphs.Graph.AdjacentTo | src/model/pa/graph/GraphAdjacencyMatrix.java:80-82 | the keys of `v`'s neighbour map; a null dereference when `v` is not a vertex |
| Graphs.Graph.AdjacentToIsAdjacency | src/model/pa/graph/GraphAdjacencyMatrix.java:80-82 | `adjacentTo(v)` lists exactly the vertices `v` is adjacent to |
| Graphs.Graph.NumVertices | src/model/pa/graph/GraphAdjacencyMatrix.java:89 | the number of vertices |
| Graphs.Graph.Vertices | src/model/pa/graph/GraphAdjacencyMatrix.java:103-105 | the vertex set, whose size is `numVertices` |
| Graphs.Graph.IncidentEdges | src/model/pa/graph/GraphAdjacencyMatrix.java:132-135 | fails exactly when `v` is not a vertex; otherwise the edges of `v`'s neighbour map |
| Graphs.Graph.IncidentEdgesAreHeldAt | src/model/pa/graph/GraphAdjacencyMatrix.java:132-135 | an incident edge is an edge of the graph held at `v`, and in a well-formed index held from both ends |
| Graphs.Graph.IsIsolated | src/model/pa/graph/GraphAdjacencyMatrix.java:143-145 | fails exactly when `v` is not a vertex; otherwise true exactly when its neighbour map is empty |
| Graphs.Graph.IsolatedIffNoNeighbour | src/model/pa/graph/GraphAdjacencyMatrix.java:143-145 | a vertex is isolated exactly when it is adjacent to no vertex |
| Graphs.Graph.FindVertex | src/model/pa/graph/GraphAdjacencyMatrix.java:36-42 | null exactly when no vertex holds the element; otherwise a vertex holding it |
| Graphs.Graph.ExistsVertexWith | src/model/pa/graph/GraphAdjacencyMatrix.java:445-451 | true exactly when some vertex holds the element |
| Graphs.Graph.Edges | src/model/pa/graph/GraphAdjacencyMatrix.java:112-122 | every edge of the graph, each exactly once |
| Graphs.Graph.NumEdges | src/model/pa/graph/GraphAdjacencyMatrix.java:96 | the number of distinct edges |
| Graphs.Graph.CheckEdge | src/model/pa/graph/GraphAdjacencyMatrix.java:422-437 | succeeds exactly for an edge of this graph; InvalidEdge otherwise |
| Graphs.Graph.FindEdge | src/model/pa/graph/GraphAdjacencyMatrix.java:50-56 | null exactly when no edge holds an equal element; otherwise such an edge |
| Graphs.Graph.ExistsEdgeWith | src/model/pa/graph/GraphAdjacencyMatrix.java:458-466 | true exactly when some edge holds an equal element |
| Graphs.Graph.Endpoints | src/model/pa/graph/GraphAdjacencyMatrix.java:383-396 | none exactly when no neighbour map holds the edge; otherwise an entry u -> w that holds it |
| Graphs.Graph.Opposite | src/model/pa/graph/GraphAdjacencyMatrix.java:156-166 | fails exactly when `v` is not a vertex or `e` is not incident to it, with the source's exception; otherwise an end of `e`, and in a well-formed index the neighbour across it |
| Graphs.Graph.InsertVertex | src/model/pa/graph/GraphAdjacencyMatrix.java:176-181 | fails exactly when a vertex already holds the element; otherwise a fresh vertex and the index is `AddVertex` of the old one; other vertices keep their maps |
| Graphs.Graph.InsertEdge | src/model/pa/graph/GraphAdjacencyMatrix.java:193-202 | fails exactly for a non-vertex end or an element already on an edge, leaving the index; otherwise a fresh edge and the index is `AddEdge` of the old one |
| Graphs.Graph.InsertEdgeBetween | src/model/pa/graph/GraphAdjacencyMatrix.java:215-217 | a missing element gives InvalidVertex; otherwise as insertEdge between the vertices holding the two elements |
| Graphs.Graph.RemoveVertex | src/model/pa/graph/GraphAdjacencyMatrix.java:227-235 | fails exactly for a non-vertex; otherwise answers its element, the index is `DropVertex` of the old one, and every old neighbour map loses its entry for `v` |
| Graphs.Graph.Clear | src/model/pa/graph/GraphAdjacencyMatrix.java:240 | the graph has no vertex |
| Graphs.Graph.RemoveEdge | src/model/pa/graph/GraphAdjacencyMatrix.java:250-261 | InvalidEdge exactly for an edge not in the graph; no null dereference in a symmetric index; on success the index, if well formed, becomes `Without` of the edge |
| Graphs.Graph.DetachEdge | src/model/pa/graph/GraphAdjacencyMatrix.java:255-260 | removes the entry and its mirror; a null dereference exactly when the far end has no neighbour map |
| Graphs.Graph.ReplaceVertex | src/model/pa/graph/GraphAdjacencyMatrix.java:272-276 | fails exactly for a non-vertex; otherwise the vertex holds and answers the new element |
| Graphs.Graph.ReplaceEdge | src/model/pa/graph/GraphAdjacencyMatrix.java:287-291 | fails exactly for an edge not in the graph; otherwise the edge holds and answers the new element |
| Graphs.Graph.ListDegrees | src/model/pa/graph/GraphAdjacencyMatrix.java:300-302 | every vertex once, each with the size of its neighbour map |
| Graphs.Graph.RankByDegree | src/model/pa/graph/GraphAdjacencyMatrix.java:298-304 | a permutation of the vertices in descending order of neighbour-map size |
| Graphs.Graph.Top10CentralElements | src/model/pa/graph/GraphAdjacencyMatrix.java:297-313 | the elements of the first min(10, n) vertices of that ranking, in order |
| Graphs.Graph.VisitAcross | src/model/pa/graph/GraphAdjacencyMatrix.java:331 | the neighbour across the edge, which in a well-formed index is a vertex |
| Graphs.Graph.VisitNeighbours | src/model/pa/graph/GraphAdjacencyMatrix.java:330-337 | the new neighbours are appended once each and pushed; afterwards every neighbour has been visited |
| Graphs.Graph.Traverse | src/model/pa/graph/GraphAdjacencyMatrix.java:327-338 | the visit list starts at `start` without repetitions, records how each vertex was found, and leaves no unvisited neighbour |
| Graphs.Graph.DFS | src/model/pa/graph/GraphAdjacencyMatrix.java:320-340 | fails for a non-vertex start; in a well-formed index succeeds and lists, once each and start first, exactly the vertices reachable from `start` |
| Graphs.TraversalStep | src/model/pa/graph/GraphAdjacencyMatrix.java:328-337 | one pop-and-visit keeps the stack without repetitions, within the visit list, and every vertex off the stack closed under neighbours |
| Graphs.DiscoveredStep | src/model/pa/graph/GraphAdjacencyMatrix.java:333-336 | vertices met as neighbours of a visited vertex are recorded with that parent |
| Graphs.DiscoveredAreReachable | src/model/pa/graph/GraphAdjacencyMatrix.java:320-340 | every visited vertex is reachable from the start |
| Graphs.DiscoveredPrefixReachable | src/model/pa/graph/GraphAdjacencyMatrix.java:320-340 | every vertex of a prefix of the visit list is reachable from the start |
| Graphs.TraversalComplete | src/model/pa/graph/GraphAdjacencyMatrix.java:320-340 | with the stack empty, the visit list holds exactly the reachable vertices |
| ShortestPaths.WalkCostSplit | src/model/pa/dijkstra/DijkstraResult.java:48 | splitting a walk splits its cost |
| ShortestPaths.IsolatedUnreachable | src/model/pa/dijkstra/DijkstraResult.java:37 | in a symmetric index, nothing but itself is reachable from or reaches an isolated vertex |
| ShortestPaths.FirstExit | src/model/pa/dijkstra/DijkstraResult.java:40-57 | a walk leaving the settled set has a first step out of it |
| ShortestPaths.WalkFirstStep | src/model/pa/dijkstra/DijkstraResult.java:42-43 | the first step of a walk follows an entry of the first vertex's neighbour map |
| ShortestPaths.TreeEdgeExtends | src/model/pa/dijkstra/DijkstraResult.java:66-69 | stepping back along a predecessor edge extends a walk at the cost of the distance difference |
| ShortestPaths.RelaxStart | src/model/pa/dijkstra/DijkstraResult.java:42 | before any edge is relaxed, nothing has changed |
| ShortestPaths.RelaxKeep | src/model/pa/dijkstra/DijkstraResult.java:45-50 | an edge that gives no strict improvement leaves the tables as they were |
| ShortestPaths.RelaxImprove | src/model/pa/dijkstra/DijkstraResult.java:50-53 | a strict improvement sets the neighbour's distance and predecessor through the current vertex |
| ShortestPaths.FirstSelectedIsStart | src/model/pa/dijkstra/DijkstraResult.java:34-41 | in the first round the only finite distance is the start's |
| ShortestPaths.RemoveFirstDrops | src/model/pa/dijkstra/DijkstraResult.java:56 | removing the current vertex leaves exactly the other candidates |
| ShortestPaths.SettlePool | src/model/pa/dijkstra/DijkstraResult.java:56 | settling a candidate moves it from the candidates to the settled set |
| ShortestPaths.SettleLabels | src/model/pa/dijkstra/DijkstraResult.java:41-56 | settling keeps the distance and predecessor tables over the vertices |
| ShortestPaths.ExitBound | src/model/pa/dijkstra/DijkstraResult.java:40-57 | a walk from the start to an unsettled vertex costs at least the distance of the vertex where it leaves the settled set |
| ShortestPaths.PrefixStepCost | src/model/pa/dijkstra/DijkstraResult.java:48 | a walk costs at least its prefix plus the next step |
| ShortestPaths.SelectedIsShortest | src/model/pa/dijkstra/DijkstraResult.java:41 | no walk from the start to the selected candidate costs less than its distance |
| ShortestPaths.SettleTreeEdges | src/model/pa/dijkstra/DijkstraResult.java:50-53 | after settling, every predecessor entry is an edge from an earlier-settled vertex |
| ShortestPaths.SettleReachable | src/model/pa/dijkstra/DijkstraResult.java:50-53 | after settling, every vertex with a finite distance is reachable |
| ShortestPaths.SettleBounds | src/model/pa/dijkstra/DijkstraResult.java:50-53 | after settling, every finite distance is the cost of a walk |
| ShortestPaths.SettleRelaxed | src/model/pa/dijkstra/DijkstraResult.java:42-55 | after settling, every edge out of a settled vertex is relaxed |
| ShortestPaths.SettleOptimal | src/model/pa/dijkstra/DijkstraResult.java:40-57 | after settling, every settled distance is the least walk cost |
| ShortestPaths.SettleStep | src/model/pa/dijkstra/DijkstraResult.java:40-57 | one round of the outer loop keeps every loop invariant |
| ShortestPaths.DoneTree | src/model/pa/dijkstra/DijkstraResult.java:63-70 | with no candidate left, the predecessors form a tree rooted at the start |
| ShortestPaths.StuckWalksStaySettled | src/model/pa/dijkstra/DijkstraResult.java:41-42 | when every candidate is at infinity, walks from the start stay among the settled vertices |
| ShortestPaths.StuckMeansUnreachable | src/model/pa/dijkstra/DijkstraResult.java:41-42 | so a candidate at infinity is then unreachable from the start |
| ShortestPaths.DoneMeansAllReachable | src/model/pa/dijkstra/DijkstraResult.java:40-57 | when the candidates run out, every vertex with a route has been reached |
| Dijkstra.DijkstraResult.constructor | src/model/pa/dijkstra/DijkstraResult.java:17-21 | a result over the given graph with empty tables |
| Dijkstra.DijkstraResult.FindMinDistVertex | src/model/pa/dijkstra/DijkstraResult.java:75-87 | null exactly when every candidate is at infinity; otherwise the first candidate, in list order, of least distance |
| Dijkstra.DijkstraResult.ListVertices | src/model/pa/dijkstra/DijkstraResult.java:28-32 | every vertex listed once, each at infinity with a null predecessor |
| Dijkstra.DijkstraResult.Candidates | src/model/pa/dijkstra/DijkstraResult.java:37 | exactly the listed vertices with an incident edge, without repetitions |
| Dijkstra.DijkstraResult.InitialTables | src/model/pa/dijkstra/DijkstraResult.java:26-37 | the loop invariants hold before the first round: the start at 0, all others at infinity, the isolated vertices not candidates |
| Dijkstra.DijkstraResult.Across | src/model/pa/dijkstra/DijkstraResult.java:43-47 | the neighbour across the edge and the edge's non-negative distance |
| Dijkstra.DijkstraResult.RelaxEdge | src/model/pa/dijkstra/DijkstraResult.java:43-54 | one more incident edge of the current vertex is relaxed |
| Dijkstra.DijkstraResult.Relax | src/model/pa/dijkstra/DijkstraResult.java:42-55 | every incident edge towards a candidate is relaxed, on strict improvement only |
| Dijkstra.DijkstraResult.Visit | src/model/pa/dijkstra/DijkstraResult.java:41-56 | fails exactly when every candidate is at infinity, which in a well-formed index means some vertex with a route is unreachable; otherwise one candidate fewer and all invariants kept |
| Dijkstra.DijkstraResult.Scan | src/model/pa/dijkstra/DijkstraResult.java:40-57 | in a well-formed index fails exactly when some vertex with a route is unreachable; otherwise every distance is optimal |
| Dijkstra.DijkstraResult.BuildPath | src/model/pa/dijkstra/DijkstraResult.java:63-71 | a path from start to end, in a well-formed index a walk whose cost is the end's distance |
| Dijkstra.DijkstraResult.Conclude | src/model/pa/dijkstra/DijkstraResult.java:58-72 | a null dereference exactly when the end has no distance; otherwise a completed answer |
| Dijkstra.DijkstraResult.Dijkstra | src/model/pa/dijkstra/DijkstraResult.java:24-73 | errors exactly as the source raises them; otherwise infinity with no path exactly when the end is unreachable, else a cheapest walk from start to end and its cost |
| Dijkstra.FinalBound | src/model/pa/dijkstra/DijkstraResult.java:58-62 | the settled distance of the end is a lower bound on every walk to it |
| Network.OwnNameClashes | src/model/pa/model/AirportNetwork.java:155 | an airport's own name is taken once it is in the network |
| Network.AddEdgeJoins | src/model/pa/model/AirportNetwork.java:184-185 | an edge holding a route between its ends' airports keeps every route joined to its ends |
| Network.NotYetJoined | src/model/pa/model/AirportNetwork.java:180 | when no stored route equals the new one, its two airports are not adjacent |
| Network.AddRouteKeepsConsistent | src/model/pa/model/AirportNetwork.java:177-192 | adding a route that passed the checks keeps the network consistent and adds exactly one route |
| Network.DroppedJoins | src/model/pa/model/AirportNetwork.java:231-242 | removing an airport keeps the network consistent and removes exactly its routes |
| Network.DropVertexJoins | src/model/pa/model/AirportNetwork.java:235 | removing a vertex keeps every remaining route joined to its ends |
| Network.WithoutJoins | src/model/pa/model/AirportNetwork.java:269 | removing an edge keeps every remaining route joined to its ends |
| Network.JoinsAllNarrowed | src/model/pa/model/AirportNetwork.java:231-276 | consistency depends only on the current vertices and edges |
| Network.Between | src/model/pa/model/AirportNetwork.java:254-258 | the edge joining the two airports, if any, is an edge of the first |
| Network.ScanStep | src/model/pa/model/AirportNetwork.java:255-257 | an edge of the first airport leads to the second exactly when it is the edge between them, and dealing with it moves the scan on |
| Network.ScanKeepsWellFormed | src/model/pa/model/AirportNetwork.java:254-258 | every index the scan passes through is well formed |
| Network.ScannedRemovesBetween | src/model/pa/model/AirportNetwork.java:250-260 | the finished scan removes the edge between the two airports, if any, and nothing else |
| Network.ScanEntries | src/model/pa/model/AirportNetwork.java:254 | the edges still to scan are edges of the first airport in the current index |
| Network.CoversRaised | src/model/pa/model/AirportNetwork.java:320-322 | a costlier running answer still covers what a cheaper one did |
| Network.CoveredAdd | src/model/pa/model/AirportNetwork.java:313-324 | covering the pairs from some starts and from one more covers the pairs from all |
| Network.ReachedStep | src/model/pa/model/AirportNetwork.java:314-323 | one more target is dealt with under a possibly raised answer |
| Network.ReachedEverywhere | src/model/pa/model/AirportNetwork.java:314-323 | dealing with every target covers every pair from the start |
| Network.SearchFound | src/model/pa/model/AirportNetwork.java:318-322 | a successful search reaches the target along a walk of the answered cost, or the target is unreachable |
| Network.ConnectionsBounds | src/model/pa/model/AirportNetwork.java:407-414 | fewer connections than other airports; in an undirected index connection is mutual and the count is the neighbour-map size less a self-loop |
| Network.UnconnectedIffNoConnections | src/model/pa/model/AirportNetwork.java:444-445 | in an undirected index an airport has no route exactly when it has no connection and no route to itself |
| Network.AirportNetwork.constructor | src/model/pa/model/AirportNetwork.java:25 | a valid network over a fresh empty graph |
| Network.AirportNetwork.AirportCount | src/model/pa/model/AirportNetwork.java:103 | the number of vertices |
| Network.AirportNetwork.RouteCount | src/model/pa/model/AirportNetwork.java:109 | the number of distinct edges |
| Network.AirportNetwork.FindAirportNamed | src/model/pa/model/AirportNetwork.java:125-132 | null exactly when no airport has the name, case ignored; otherwise a vertex whose airport has it |
| Network.AirportNetwork.FindAirport | src/model/pa/model/AirportNetwork.java:116-118 | a null dereference exactly for a null vertex; otherwise the lookup by its airport's name |
| Network.AirportNetwork.FindRoute | src/model/pa/model/AirportNetwork.java:139-146 | none exactly when no stored route equals the given one; otherwise that route |
| Network.AirportNetwork.AddAirport | src/model/pa/model/AirportNetwork.java:154-167 | fails exactly for a null airport or a name already taken; otherwise one more isolated vertex holding it, and the network stays consistent |
| Network.AirportNetwork.DuplicateIgnoresOrientation | src/model/pa/model/AirportNetwork.java:180 | a stored route is a duplicate whichever way round and at whatever distance it is given |
| Network.AirportNetwork.CheckNewRoute | src/model/pa/model/AirportNetwork.java:178-180 | the checks answer exactly the first failing one of: unknown first airport, unknown second airport, route already present |
| Network.AirportNetwork.InsertRoute | src/model/pa/model/AirportNetwork.java:184-185 | fails exactly when an airport is held by no vertex; otherwise one fresh edge between the vertices holding them, keeping consistency |
| Network.AirportNetwork.AddRoute | src/model/pa/model/AirportNetwork.java:177-192 | a failing check is reported and changes nothing; otherwise one fresh edge holding the route between the two airports, one more route, consistency kept |
| Network.AirportNetwork.NamedRouteCheck | src/model/pa/model/AirportNetwork.java:201-204 | an unknown name leads to a null dereference; known names lead to the checks on the vertices found |
| Network.AirportNetwork.FindPairNamed | src/model/pa/model/AirportNetwork.java:202-203 | each name is looked up: null exactly when no airport has it (case ignored), otherwise a vertex of the network whose airport has that name |
| Network.AirportNetwork.AddRouteFound | src/model/pa/model/AirportNetwork.java:177-192 | on the vertices found under two names: a null vertex fails with a null dereference; otherwise RouteExists exactly when a stored route joins the two airports, and a reported duplicate joins the two names; else the route is added between the two airports, the network stays consistent and holds one more route |
| Network.AirportNetwork.AddRouteNamed | src/model/pa/model/AirportNetwork.java:201-205 | names the vertices found under the two names; an unknown name fails with a null dereference; with both found, RouteExists exactly when a stored route joins the two airports, otherwise the route is added between them, the network stays consistent and holds one more route |
| Network.AirportNetwork.GetEdgeBetween | src/model/pa/model/AirportNetwork.java:214-224 | fails exactly when the two are not adjacent vertices; otherwise an incident edge of the first, in a well-formed index the one stored between them |
| Network.AirportNetwork.DropAirport | src/model/pa/model/AirportNetwork.java:235 | the index loses the vertex, one airport fewer, consistency kept |
| Network.AirportNetwork.RemoveAirport | src/model/pa/model/AirportNetwork.java:231-242 | fails exactly when no airport has the name; otherwise that vertex and its routes are removed, one airport fewer, consistency kept |
| Network.AirportNetwork.RemoveRoute | src/model/pa/model/AirportNetwork.java:267-276 | InvalidEdge exactly for an edge not in the network; otherwise the edge is gone, one route fewer, consistency kept |
| Network.AirportNetwork.ScanEdge | src/model/pa/model/AirportNetwork.java:255-257 | removes the edge when it leads to the second airport, moving the scan on by one edge |
| Network.AirportNetwork.RemoveEdgesTo | src/model/pa/model/AirportNetwork.java:254-258 | in a well-formed index, exactly the edge between the two airports is removed; consistency kept |
| Network.AirportNetwork.RemoveRouteBetween | src/model/pa/model/AirportNetwork.java:250-260 | an unknown first name fails with InvalidVertex; otherwise the route between the two airports, if any, is removed and nothing else |
| Network.AirportNetwork.ShortestPath | src/model/pa/model/AirportNetwork.java:285-301 | an unknown name is reported as missing; "no path available" in a well-formed index exactly when some airport with routes is unreachable from the start; otherwise a completed shortest-path answer |
| Network.AirportNetwork.SearchPair | src/model/pa/model/AirportNetwork.java:318-322 | the running answer is raised only by a strictly costlier path, and covers the pair searched |
| Network.AirportNetwork.FarthestPair | src/model/pa/model/AirportNetwork.java:315-322 | skips (a, a) and pairs with an airport without routes; otherwise searches the pair and covers it |
| Network.AirportNetwork.FarthestFrom | src/model/pa/model/AirportNetwork.java:314-323 | after all targets from `a`, every pair from `a` is covered, or the search got stuck |
| Network.AirportNetwork.FarthestAirports | src/model/pa/model/AirportNetwork.java:308-332 | "Failed." exactly when a search gets stuck; otherwise a shortest path between its ends, and no pair considered is farther apart |
| Network.AirportNetwork.LongestRoute | src/model/pa/model/AirportNetwork.java:362-370 | no route is longer than the answer, which is a stored route longer than 0, or the placeholder route of distance 0 |
| Network.AirportNetwork.ShortestRoute | src/model/pa/model/AirportNetwork.java:376-384 | no route is shorter than the answer, which is a stored route shorter than `Integer.MAX_VALUE`, or the placeholder |
| Network.AirportNetwork.CountConnections | src/model/pa/model/AirportNetwork.java:408-412 | the number of other airports adjacent to `v` |
| Network.AirportNetwork.ListConnections | src/model/pa/model/AirportNetwork.java:407-415 | every airport once, with its number of connections |
| Network.AirportNetwork.RankByConnections | src/model/pa/model/AirportNetwork.java:416 | a permutation of the airports in descending order of connections |
| Network.AirportNetwork.CentralAirport | src/model/pa/model/AirportNetwork.java:402-418 | every airport once with its number of connections, most connected first |
| Network.AirportNetwork.Top10Central | src/model/pa/model/AirportNetwork.java:424-436 | the first min(10, n) entries of centralAirport, and no airport left out is more connected than one kept |
| Network.AirportNetwork.IsolatedAirports | src/model/pa/model/AirportNetwork.java:442-449 | exactly the airports without routes, sorted by abbreviation |
| Network.AirportNetwork.Reset | src/model/pa/model/AirportNetwork.java:463-465 | the graph has no airport and is consistent |
| Network.AirportNetwork.Restore | src/model/pa/model/AirportNetwork.java:470-473 | a null dereference exactly for a null graph; otherwise the network is a fresh graph over that graph's vertex map |
| Network.AirportNetwork.NarrowedKeepsConsistent | src/model/pa/model/AirportNetwork.java:231-276 | a well-formed index whose routes join their ends' airports is consistent |
| Network.AirportNetwork.DroppedKeepsConsistent | src/model/pa/model/AirportNetwork.java:231-242 | after a vertex removal the network is consistent, its routes gone |
| Network.AirportNetwork.DropVertexCount | src/model/pa/model/AirportNetwork.java:235 | removing a vertex leaves one airport fewer |
| Network.AirportNetwork.DetachedKeepsConsistent | src/model/pa/model/AirportNetwork.java:267-276 | after an edge removal the index is the old one without the edge, with one route fewer, consistent when it was |
| Network.AirportNetwork.InsertedKeepsConsistent | src/model/pa/model/AirportNetwork.java:184-185 | after adding a checked route the network is consistent with one more route |
| Commands.CopyCommand.constructor | src/command/CopyCommand.java:10-12 | a command over the network, with no backup yet |
| Commands.CopyCommand.Backup | src/command/Command.java:27-29 | the backup is a fresh graph over the network's vertex map, with the same index |
| Commands.CopyCommand.Execute | src/command/CopyCommand.java:18-22 | takes the backup and reports success |
| Commands.CopyCommand.Undo | src/command/Command.java:34-36 | a null dereference exactly without a backup; otherwise the network is a fresh graph reading as the backup does |
| Commands.CommandHistory.constructor | src/command/CommandHistory.java:10 | a new history is empty |
| Commands.CommandHistory.Push | src/command/CommandHistory.java:16-18 | the command becomes the most recent one |
| Commands.CommandHistory.Pop | src/command/CommandHistory.java:24-26 | fails exactly on an empty history; otherwise answers the most recent command and removes it |
| Commands.CommandHistory.IsEmpty | src/command/CommandHistory.java:32 | true exactly when no command is stored |
| Commands.PushThenPop | src/command/CommandHistory.java:16-26 | popping right after a push answers the pushed command and restores the history |
| Commands.LastInFirstOut | src/command/CommandHistory.java:16-26 | two pushed commands come back in reverse order, and the history is restored |
| Commands.InsertBesideBackup | src/model/pa/graph/GraphAdjacencyMatrix.java:176-181 | inserting a vertex leaves a graph sharing the old vertex map unchanged |
| Commands.AddAirportAfterBackup | src/command/Command.java:27-29 | an airport added after the backup is not in it, and the backup reads as the network did |
| Commands.RemoveBesideBackup | src/model/pa/graph/GraphAdjacencyMatrix.java:227-235 | removing a vertex leaves it in a graph sharing the old vertex map, but that graph's neighbour maps lose it |
| Commands.RemoveAirportAfterBackup | src/command/Command.java:27-29 | an airport removed after the backup stays a vertex of the backup, but the backup's neighbour maps lose their entries for it |
| Commands.AddRouteAfterBackup | src/command/Command.java:27-29 | a route added after the backup shows through the backup as well |

## Left out

- The user interface, the controller, file loading and export (`loadNetwork`, `exportNetwork`, the dataset loader) and the observers (`notifyObservers`): they are I/O and display, not part of the network's logic.
- `getAirports`, `getRoutes`, `getIncidentRoutes`, `getNetwork`, `getFolder`: plain accessors over the graph's `vertices()`, `edges()` and `incidentEdges`, which are modelled.
- `calculatePercentageOfAirportsWithConnectionsBetween` and `averageOfDistanceOfRoutes`: they compute `float`s, which are not modelled.
- `toString` of every class, `hashCode`, and the airport's `Weight` (latitude, longitude, altitude): display data with no effect on the network's logic.
- Hash iteration order is not modelled. Where the source iterates a `HashMap`, the model picks an arbitrary order, and contracts speak of sets and multisets. The first of several equal candidates is therefore not fixed in the same way.
- JavaText.CompareStrings: a Dafny `char` is a Unicode scalar value, while Java's `String.compareTo` compares UTF-16 code units. The two agree inside the Basic Multilingual Plane. Outside it they differ: Java sees a character above U+FFFF as two surrogate units starting at 0xD800, so it orders it before U+FFFF, and counts it as length 2. The model orders it after U+FFFF, as length 1. This reaches `Domain.Airport.CompareTo` and the alphabetical sort of `IsolatedAirports`.
- `JavaText.Folded`: case folding covers ASCII letters only; Java's `equalsIgnoreCase` also folds other Unicode letters.
- Dijkstra.DijkstraResult.Dijkstra: the search requires every route distance to be non-negative, since optimality rests on it. The Java code accepts negative distances: `Route`'s constructor and the loaders (`src/model/pa/dataLoader/DatasetLoader.java:83`, `src/controller/AirportNetworkController.java:112`) check no sign. With them the selection loop still ends, as it removes one vertex per round, but the answer need not be a shortest path. A predecessor always points to a vertex settled earlier, except through a self-loop, which `src/model/pa/dijkstra/DijkstraResult.java:45-53` relaxes while the vertex is still unvisited. So a negative self-loop on a vertex of the path other than the start makes that vertex its own predecessor, and the path-building loop (`src/model/pa/dijkstra/DijkstraResult.java:66-69`) never ends. The model covers none of these runs.
- Network.AirportNetwork.ShortestPath: inherits the non-negative-distance requirement of `Dijkstra.DijkstraResult.Dijkstra`, for the same reasons; the source accepts negative distances.
- Network.AirportNetwork.FarthestAirports: inherits the non-negative-distance requirement of `Dijkstra.DijkstraResult.Dijkstra` through its shortest-path searches; the source accepts negative distances.
- Dijkstra.DijkstraResult.Dijkstra: optimality, unreachability and the walk are stated only for a well-formed index. Shared neighbour maps after an undo can break that.
- Distances are unbounded integers. The source adds `double`s, and past 2^53 it loses precision.
- `minDist` and `predecessors` are fields that the search writes. In the source the search writes them on a fresh `DijkstraResult` it creates inside `dijkstra`. The model keeps both tables as locals and leaves the fields of the object it was called on untouched, which is what the source does too.
- `DijkstraConcreteResult`'s `getCost` and `getPath` are the datatype's fields.
- Network.AirportNetwork.FarthestAirports: the starting answer `(-Double.MAX_VALUE, null)` is modelled as "no answer yet". The Java method returns that placeholder when no pair is searched.
- Network.AirportNetwork.RemoveAirport: the handler that rethrows `InvalidVertexException` is unreachable, since the graph cannot reject a vertex it has just listed. The model omits it.
- Network.AirportNetwork.ShortestPath: an `InvalidEdgeException` cannot arise from the search, so its handler is omitted.
- Network.AirportNetwork.CentralAirport: the source builds a `HashMap` keyed by `Airport` and then a `LinkedHashMap` in sorted order. The model returns the sorted list of (airport, count) entries, one per vertex. Two vertices holding the same airport object would collapse into one entry in Java; `insertVertex` already rejects that case.
- Ranking.Sort: the contract states a sorted permutation. It does not state how ties are ordered, while Java's `List.sort` is stable.
- Network.AirportNetwork.LongestRoute: the ghost edge names the route kept, so among routes of equal distance the contract does not say which one is kept (the source keeps the first it meets).
- Network.AirportNetwork.ShortestRoute: same as LongestRoute for ties.
- `Command` is abstract in the source, with `CopyCommand` its only subclass. The model has the one class `CopyCommand`.
- `CommandHistory` holds `java.util.Stack`, modelled as a sequence with the top at its end. `pop` on an empty stack throws `EmptyStackException`, modelled as the error `EmptyStack`.
- Graph `sameEdge`: edge elements are compared with the `equals` of `E`, passed in as a function. The network uses `Route.Equals`.
