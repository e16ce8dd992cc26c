/**
 * AirportNetwork: the airport/route layer over a graph whose vertices hold
 * airports and whose edges hold routes.  Airports are looked up by name (case
 * ignored), a route is a duplicate of any route joining the same two airports,
 * and the queries run Dijkstra over the graph, fold over its routes or rank its
 * airports.
 */
module Network {
  import opened Wrappers
  import opened AdjacencyIndex
  import opened Lists
  import Ranking
  import opened JavaText
  import opened Domain
  import opened Graphs
  import opened ShortestPaths
  import opened Dijkstra

  /**
   * What the network operations throw: the AirportNetworkException messages,
   * the same exception without a message (an InvalidEdgeException caught and
   * rethrown), and the graph's own exceptions and null dereferences that no
   * handler catches.
   */
  datatype NetworkError =
    | AirportExists     // "This airport already exists."
    | AirportMissing    // "Airport: ... doesn't exist." / "This airport doesn't exist."
    | RouteExists       // "This route already exists."
    | NoPath            // "No path available."
    | Failed            // "Failed."
    | Rethrown          // `new AirportNetworkException()`
    | Uncaught(cause: GraphError)

  /** `Route.equals` as the graph's element equality. */
  predicate SameRoute(a: Route, b: Route) {
    a.Equals(b)
  }

  /** The airports of `idx` an airport named `name` (case ignored) would clash with. */
  ghost predicate NamedIn(vertices: set<Vertex<Airport>>, name: string)
    reads vertices
  {
    exists u :: u in vertices && EqualsIgnoreCase(u.element.name, name)
  }

  /** Case-insensitive equality is reflexive, so an airport clashes with its own name. */
  lemma OwnNameClashes(s: string)
    ensures EqualsIgnoreCase(s, s)
  {
  }

  /** Route `r` joins airports `a` and `b`, in either orientation. */
  predicate Joins(r: Route, a: Airport, b: Airport) {
    (r.origin == a && r.destination == b) || (r.origin == b && r.destination == a)
  }

  /**
   * Every entry u -> w between two vertices holds an edge whose route joins
   * the airports of `u` and `w` (`places` gives each vertex's airport and
   * `routes` each edge's route).
   */
  ghost predicate JoinsAll(idx: Adjacency<Vertex<Airport>, Edge<Route>>, places: map<Vertex<Airport>, Airport>,
                           routes: map<Edge<Route>, Route>) {
    forall u, w :: u in idx && w in idx[u] && w in idx ==>
      u in places && w in places && idx[u][w] in routes && Joins(routes[idx[u][w]], places[u], places[w])
  }

  /** The airport each of `vertices` holds. */
  ghost function PlacesOf(vertices: set<Vertex<Airport>>): (m: map<Vertex<Airport>, Airport>)
    reads vertices
    ensures m.Keys == vertices && forall u :: u in vertices ==> m[u] == u.element
  {
    map u | u in vertices :: u.element
  }

  /** The route each of `edges` holds. */
  ghost function RoutesOf(edges: set<Edge<Route>>): (m: map<Edge<Route>, Route>)
    reads edges
    ensures m.Keys == edges && forall e :: e in edges ==> m[e] == e.element
  {
    map e | e in edges :: e.element
  }

  /** The routes of a set of edges with one more edge `e`, which holds `x`. */
  lemma RoutesOfAdded(edges: set<Edge<Route>>, e: Edge<Route>, x: Route)
    requires e.element == x
    ensures RoutesOf(edges + {e}) == RoutesOf(edges)[e := x]
  {
  }

  /** A step that changes none of the vertices keeps their airports. */
  twostate lemma PlacesKept(vertices: set<Vertex<Airport>>)
    requires unchanged(vertices)
    ensures PlacesOf(vertices) == old(PlacesOf(vertices))
  {
  }

  /** A step that changes none of the edges keeps their routes. */
  twostate lemma RoutesKept(edges: set<Edge<Route>>)
    requires unchanged(edges)
    ensures RoutesOf(edges) == old(RoutesOf(edges))
  {
  }

  /** An edge holding a route that joins the airports of its two ends keeps JoinsAll. */
  lemma AddEdgeJoins(idx: Adjacency<Vertex<Airport>, Edge<Route>>, places: map<Vertex<Airport>, Airport>,
                     routes: map<Edge<Route>, Route>, u: Vertex<Airport>, v: Vertex<Airport>,
                     e: Edge<Route>, x: Route)
    requires JoinsAll(idx, places, routes) && routes.Keys == EdgeSet(idx) && e !in routes
    requires u in idx && v in idx && u in places && v in places && Joins(x, places[u], places[v])
    ensures JoinsAll(AddEdge(idx, u, v, e), places, routes[e := x])
  {
    var r := AddEdge(idx, u, v, e);
    var rs := routes[e := x];
    forall a, b | a in r && b in r[a] && b in r
      ensures a in places && b in places && r[a][b] in rs && Joins(rs[r[a][b]], places[a], places[b])
    {
      AddEdgeEntry(idx, u, v, e, a, b);
    }
  }

  /** Two vertices whose airports no stored route equal to `x` joins are not adjacent. */
  lemma NotYetJoined(idx: Adjacency<Vertex<Airport>, Edge<Route>>, places: map<Vertex<Airport>, Airport>,
                     routes: map<Edge<Route>, Route>, u: Vertex<Airport>, v: Vertex<Airport>, x: Route)
    requires Symmetric(idx) && JoinsAll(idx, places, routes)
    requires forall y :: y in routes ==> !routes[y].Equals(x)
    requires u in idx && u in places && v in places && places[u] == x.origin && places[v] == x.destination
    ensures v !in idx[u]
  {
    assert v in idx[u] ==> idx[u][v] in routes && routes[idx[u][v]].Equals(x);
  }

  /**
   * Adding route `x` between the vertices holding its airports, when no route
   * equal to it is stored: the two vertices were not adjacent, so exactly one
   * route is added, the index stays undirected and every route still joins
   * the airports of its ends.
   */
  lemma AddRouteKeepsConsistent(idx: Adjacency<Vertex<Airport>, Edge<Route>>, places: map<Vertex<Airport>, Airport>,
                                routes: map<Edge<Route>, Route>, u: Vertex<Airport>, v: Vertex<Airport>,
                                e: Edge<Route>, x: Route)
    requires WellFormed(idx) && JoinsAll(idx, places, routes) && routes.Keys == EdgeSet(idx)
    requires forall y :: y in routes ==> !routes[y].Equals(x)
    requires u in idx && v in idx && u in places && v in places && places[u] == x.origin && places[v] == x.destination
    requires e !in routes
    ensures v !in idx[u]
    ensures WellFormed(AddEdge(idx, u, v, e)) && JoinsAll(AddEdge(idx, u, v, e), places, routes[e := x])
    ensures EdgeSet(AddEdge(idx, u, v, e)) == EdgeSet(idx) + {e}
    ensures |EdgeSet(AddEdge(idx, u, v, e))| == |EdgeSet(idx)| + 1
  {
    NotYetJoined(idx, places, routes, u, v, x);
    AddEdgeKeepsInvariant<Vertex<Airport>, Edge<Route>>(idx, u, v, e);
    AddEdgeJoins(idx, places, routes, u, v, e, x);
  }

  /** Removing a vertex keeps a consistent index consistent and takes away exactly its routes. */
  lemma DroppedJoins(idx: Adjacency<Vertex<Airport>, Edge<Route>>, places: map<Vertex<Airport>, Airport>,
                     routes: map<Edge<Route>, Route>, v: Vertex<Airport>)
    requires WellFormed(idx) && JoinsAll(idx, places, routes) && routes.Keys == EdgeSet(idx) && v in idx
    ensures WellFormed(DropVertex(idx, v)) && JoinsAll(DropVertex(idx, v), places, routes)
    ensures EdgeSet(DropVertex(idx, v)) <= routes.Keys
    ensures |EdgeSet(DropVertex(idx, v))| == |EdgeSet(idx)| - |idx[v].Values|
  {
    DropVertexKeepsInvariant(idx, v);
    DropVertexJoins(idx, places, routes, v);
  }

  /** JoinsAll looks only at the index's own vertices and edges: other maps that agree on those keep it. */
  lemma JoinsAllNarrowed(idx: Adjacency<Vertex<Airport>, Edge<Route>>, places: map<Vertex<Airport>, Airport>,
                         routes: map<Edge<Route>, Route>, places': map<Vertex<Airport>, Airport>,
                         routes': map<Edge<Route>, Route>)
    requires JoinsAll(idx, places, routes)
    requires forall u :: u in idx && u in places ==> u in places' && places'[u] == places[u]
    requires forall x :: x in routes && x in EdgeSet(idx) ==> x in routes' && routes'[x] == routes[x]
    ensures JoinsAll(idx, places', routes')
  {
    forall u, w | u in idx && w in idx[u] && w in idx
      ensures u in places' && w in places' && idx[u][w] in routes' && Joins(routes'[idx[u][w]], places'[u], places'[w])
    {
      assert idx[u][w] in EdgeSet(idx);
    }
  }

  /** Removing a vertex keeps every remaining route joined to the airports of its ends. */
  lemma DropVertexJoins(idx: Adjacency<Vertex<Airport>, Edge<Route>>, places: map<Vertex<Airport>, Airport>,
                        routes: map<Edge<Route>, Route>, v: Vertex<Airport>)
    requires JoinsAll(idx, places, routes)
    ensures JoinsAll(DropVertex(idx, v), places, routes)
  {
    var r := DropVertex(idx, v);
    forall a, b | a in r && b in r[a] && b in r
      ensures a in places && b in places && r[a][b] in routes && Joins(routes[r[a][b]], places[a], places[b])
    {
      DropVertexEntry(idx, v, a, b);
    }
  }

  /** Removing every entry of one edge keeps every remaining route joined to the airports of its ends. */
  lemma WithoutJoins(idx: Adjacency<Vertex<Airport>, Edge<Route>>, places: map<Vertex<Airport>, Airport>,
                     routes: map<Edge<Route>, Route>, x: Edge<Route>)
    requires JoinsAll(idx, places, routes)
    ensures JoinsAll(Without(idx, x), places, routes)
  {
    var r := Without(idx, x);
    forall a, b | a in r && b in r[a] && b in r
      ensures a in places && b in places && r[a][b] in routes && Joins(routes[r[a][b]], places[a], places[b])
    {
      WithoutEntry(idx, x, a, b);
    }
  }

  /** Stored route `r` joins two airports named `n1` and `n2` (case ignored), in either orientation. */
  predicate JoinsNamed(r: Route, n1: string, n2: string) {
    && r.origin != null && r.destination != null
    && (|| (EqualsIgnoreCase(r.origin.name, n1) && EqualsIgnoreCase(r.destination.name, n2))
        || (EqualsIgnoreCase(r.destination.name, n1) && EqualsIgnoreCase(r.origin.name, n2)))
  }

  /**
   * The edge joining `a1` to `a2` in the index, if any: the one route the scan
   * in removeRoute(String, String) removes.
   */
  function Between(idx: Adjacency<Vertex<Airport>, Edge<Route>>, a1: Vertex<Airport>, a2: Vertex?<Airport>): (t: Option<Edge<Route>>)
    requires a1 in idx
    ensures t.Some? <==> a2 != null && a2 in idx[a1]
    ensures t.Some? ==> HoldsAt(idx, t.value, a1, a2)
  {
    if a2 != null && a2 in idx[a1] then Some(idx[a1][a2]) else None
  }

  /** The index once the scan has dealt with every edge outside `pending`. */
  ghost function AfterScan(idx: Adjacency<Vertex<Airport>, Edge<Route>>, target: Option<Edge<Route>>,
                           pending: set<Edge<Route>>): Adjacency<Vertex<Airport>, Edge<Route>>
  {
    if target.Some? && target.value !in pending then Without(idx, target.value) else idx
  }

  /**
   * One step of the scan: in a well-formed index the edge `x` of `a1` leads to
   * `a2` exactly when it is the edge between them, and dealing with it moves
   * the scan on: removing `x` in that case, leaving the index alone otherwise.
   */
  lemma ScanStep(idx: Adjacency<Vertex<Airport>, Edge<Route>>, a1: Vertex<Airport>, a2: Vertex?<Airport>,
                 pending: set<Edge<Route>>, x: Edge<Route>, o: Vertex<Airport>)
    requires WellFormed(idx) && a1 in idx && pending <= idx[a1].Values && x in pending
    requires HoldsAt(AfterScan(idx, Between(idx, a1, a2), pending), x, a1, o)
    ensures x in EdgeSet(AfterScan(idx, Between(idx, a1, a2), pending))
    ensures o == a2 <==> Between(idx, a1, a2) == Some(x)
    ensures o == a2 ==> AfterScan(idx, Between(idx, a1, a2), pending - {x}) == Without(idx, x)
    ensures o != a2 ==> AfterScan(idx, Between(idx, a1, a2), pending - {x}) == AfterScan(idx, Between(idx, a1, a2), pending)
  {
    var t := Between(idx, a1, a2);
    var cur := AfterScan(idx, t, pending);
    assert cur[a1][o] == x;
    if t.None? {
      assert AfterScan(idx, t, pending) == idx == AfterScan(idx, t, pending - {x});
    } else if t.value in pending {
      assert AfterScan(idx, t, pending) == idx;
      if x == t.value {
        PlacementOfEdge<Vertex<Airport>, Edge<Route>>(idx, x, a1, o, a1, a2);
      } else {
        assert AfterScan(idx, t, pending - {x}) == idx;
      }
    } else {
      WithoutEntry(idx, t.value, a1, o);
      assert AfterScan(idx, t, pending - {x}) == AfterScan(idx, t, pending);
    }
  }

  /** `after` is where the whole scan of the edges of `a1` leads from `before`. */
  ghost predicate Scanned(before: Adjacency<Vertex<Airport>, Edge<Route>>, after: Adjacency<Vertex<Airport>, Edge<Route>>,
                          a1: Vertex<Airport>, a2: Vertex?<Airport>) {
    a1 in before && after == AfterScan(before, Between(before, a1, a2), {})
  }

  /** Every index the scan passes through is well formed. */
  lemma ScanKeepsWellFormed(idx: Adjacency<Vertex<Airport>, Edge<Route>>, a1: Vertex<Airport>, a2: Vertex?<Airport>,
                            pending: set<Edge<Route>>)
    requires WellFormed(idx) && a1 in idx
    ensures WellFormed(AfterScan(idx, Between(idx, a1, a2), pending))
  {
    var t := Between(idx, a1, a2);
    if t.Some? {
      WithoutWellFormed(idx, t.value);
    }
  }

  /**
   * The finished scan has removed the edge between `a1` and `a2`, if there was
   * one, and nothing else: the index stays well formed and loses that one route.
   */
  lemma ScannedRemovesBetween(before: Adjacency<Vertex<Airport>, Edge<Route>>, after: Adjacency<Vertex<Airport>, Edge<Route>>,
                              a1: Vertex<Airport>, a2: Vertex?<Airport>)
    requires WellFormed(before) && Scanned(before, after, a1, a2)
    ensures var t := Between(before, a1, a2);
            && after == (if t.Some? then Without(before, t.value) else before)
            && WellFormed(after)
            && |EdgeSet(after)| == |EdgeSet(before)| - (if t.Some? then 1 else 0)
  {
    var t := Between(before, a1, a2);
    ScanKeepsWellFormed(before, a1, a2, {});
    if t.Some? {
      DropEdgeKeepsInvariant<Vertex<Airport>, Edge<Route>>(before, a1, a2, t.value);
      assert after == Without(before, t.value);
    } else {
      assert after == before;
    }
  }

  /** The edges of `a1` still to be scanned are edges of `a1` in the index the scan has reached. */
  lemma ScanEntries(idx: Adjacency<Vertex<Airport>, Edge<Route>>, a1: Vertex<Airport>, a2: Vertex?<Airport>,
                    pending: set<Edge<Route>>)
    requires a1 in idx && pending <= idx[a1].Values
    ensures pending <= AfterScan(idx, Between(idx, a1, a2), pending)[a1].Values
  {
    var t := Between(idx, a1, a2);
    if t.Some? && t.value !in pending {
      forall x | x in pending ensures x in Without(idx, t.value)[a1].Values {
        var b :| b in idx[a1] && idx[a1][b] == x;
        WithoutEntry(idx, t.value, a1, b);
      }
    }
  }

  /** Two distinct airports that both have routes: a pair farthestAirports considers. */
  ghost predicate Pair(m: Adjacency<Vertex?<Airport>, Edge<Route>>, a: Vertex?<Airport>, b: Vertex?<Airport>) {
    a != b && NonIsolated(m, a) && NonIsolated(m, b)
  }

  /** Some walk from `a` to `b` costs at most `bound`. */
  ghost predicate Within(m: Adjacency<Vertex?<Airport>, Edge<Route>>, len: map<Edge<Route>, int>,
                         a: Vertex?<Airport>, b: Vertex?<Airport>, bound: int) {
    exists p :: IsWalk(m, p) && p[0] == a && p[|p| - 1] == b && WalkCost(m, len, p) <= bound
  }

  /** The running answer of farthestAirports: none yet, or a completed search between a pair that found a path. */
  ghost predicate FarthestSoFar(m: Adjacency<Vertex?<Airport>, Edge<Route>>, len: map<Edge<Route>, int>,
                                best: Option<DijkstraConcreteResult<Airport>>, u: Vertex?<Airport>, w: Vertex?<Airport>) {
    best.Some? ==> Pair(m, u, w) && best.value.path.Some? && Completed(m, len, u, w, best.value)
  }

  /** The running answer has a finite cost, and some walk from `a` to `b` costs no more. */
  ghost predicate Covers(m: Adjacency<Vertex?<Airport>, Edge<Route>>, len: map<Edge<Route>, int>,
                         a: Vertex?<Airport>, b: Vertex?<Airport>, best: Option<DijkstraConcreteResult<Airport>>) {
    best.Some? && best.value.dist.Finite? && Within(m, len, a, b, best.value.dist.value)
  }

  /** The running answer `hi` costs no less than `lo`, and both are finite. */
  predicate NoCostlier(lo: Option<DijkstraConcreteResult<Airport>>, hi: Option<DijkstraConcreteResult<Airport>>) {
    lo.Some? ==>
      hi.Some? && lo.value.dist.Finite? && hi.value.dist.Finite? && lo.value.dist.value <= hi.value.dist.value
  }

  /** Every pair starting in `starts` is covered by the running answer. */
  ghost predicate CoveredFrom(m: Adjacency<Vertex?<Airport>, Edge<Route>>, len: map<Edge<Route>, int>,
                              starts: set<Vertex?<Airport>>, best: Option<DijkstraConcreteResult<Airport>>) {
    forall a, b :: a in starts && b in m && Pair(m, a, b) ==> Covers(m, len, a, b, best)
  }

  /** Every pair from `a` with its other end in `targets` is covered by the running answer. */
  ghost predicate ReachedWithin(m: Adjacency<Vertex?<Airport>, Edge<Route>>, len: map<Edge<Route>, int>,
                                a: Vertex?<Airport>, targets: set<Vertex?<Airport>>, best: Option<DijkstraConcreteResult<Airport>>) {
    forall b :: b in targets && b in m && Pair(m, a, b) ==> Covers(m, len, a, b, best)
  }

  /** A costlier running answer still covers what a cheaper one covered. */
  lemma CoversRaised(m: Adjacency<Vertex?<Airport>, Edge<Route>>, len: map<Edge<Route>, int>,
                     a: Vertex?<Airport>, b: Vertex?<Airport>,
                     lo: Option<DijkstraConcreteResult<Airport>>, hi: Option<DijkstraConcreteResult<Airport>>)
    requires Covers(m, len, a, b, lo) && NoCostlier(lo, hi)
    ensures Covers(m, len, a, b, hi)
  {
    var p :| IsWalk(m, p) && p[0] == a && p[|p| - 1] == b && WalkCost(m, len, p) <= lo.value.dist.value;
  }

  /** Covering the pairs from `starts` and those from `a` covers the pairs from both, under a raised answer. */
  lemma CoveredAdd(m: Adjacency<Vertex?<Airport>, Edge<Route>>, len: map<Edge<Route>, int>,
                   starts: set<Vertex?<Airport>>, a: Vertex?<Airport>,
                   lo: Option<DijkstraConcreteResult<Airport>>, hi: Option<DijkstraConcreteResult<Airport>>)
    requires CoveredFrom(m, len, starts, lo) && NoCostlier(lo, hi) && CoveredFrom(m, len, {a}, hi)
    ensures CoveredFrom(m, len, starts + {a}, hi)
  {
    forall x, y | x in starts && y in m && Pair(m, x, y) ensures Covers(m, len, x, y, hi) {
      CoversRaised(m, len, x, y, lo, hi);
    }
  }

  /** One more target dealt with, under a possibly raised answer. */
  lemma ReachedStep(m: Adjacency<Vertex?<Airport>, Edge<Route>>, len: map<Edge<Route>, int>,
                    a: Vertex?<Airport>, done: set<Vertex?<Airport>>, b: Vertex?<Airport>,
                    lo: Option<DijkstraConcreteResult<Airport>>, hi: Option<DijkstraConcreteResult<Airport>>)
    requires ReachedWithin(m, len, a, done, lo) && NoCostlier(lo, hi)
    requires b in m && Pair(m, a, b) ==> Covers(m, len, a, b, hi)
    ensures ReachedWithin(m, len, a, done + {b}, hi)
  {
    forall c | c in done && c in m && Pair(m, a, c) ensures Covers(m, len, a, c, hi) {
      CoversRaised(m, len, a, c, lo, hi);
    }
  }

  /** Having dealt with every airport as a target covers all pairs from `a`. */
  lemma ReachedEverywhere(m: Adjacency<Vertex?<Airport>, Edge<Route>>, len: map<Edge<Route>, int>,
                          a: Vertex?<Airport>, best: Option<DijkstraConcreteResult<Airport>>)
    requires ReachedWithin(m, len, a, m.Keys, best)
    ensures CoveredFrom(m, len, {a}, best)
  {
  }

  /** A map without values has no keys. */
  lemma NoValuesNoKeys<K, X>(x: map<K, X>)
    ensures x.Values == {} ==> x == map[]
  {
    if x != map[] {
      var k :| k in x;
      assert x[k] in x.Values;
    }
  }

  /**
   * What one successful search from `a` to `b` tells in a well-formed graph:
   * `b` is reached along a walk whose cost is the answer, unless `b` is out of
   * reach (and then `a` does not reach every airport with routes).
   */
  lemma SearchFound(m: Adjacency<Vertex?<Airport>, Edge<Route>>, len: map<Edge<Route>, int>,
                    a: Vertex?<Airport>, b: Vertex?<Airport>, c: DijkstraConcreteResult<Airport>)
    requires Pair(m, a, b) && Completed(m, len, a, b, c)
    ensures c.path.Some? && WellFormed(m) ==> Covers(m, len, a, b, Some(c))
    ensures c.path.None? && WellFormed(m) ==> !ReachesAll(m, a)
  {
    if c.path.Some? && WellFormed(m) {
      assert IsWalk(m, c.path.value);
    }
  }

  // ---------------------------------------------------------------------------
  // Centrality and airports without routes.
  // ---------------------------------------------------------------------------

  /** The vertices other than `v` that `areAdjacent(v, w)` accepts: what centralAirport counts for `v`. */
  ghost function Connections(idx: Adjacency<Vertex<Airport>, Edge<Route>>, v: Vertex<Airport>): set<Vertex<Airport>>
  {
    set w | w in idx && v in idx && w in idx[v] && w != v
  }

  /**
   * A vertex is connected to fewer vertices than there are others.  In an
   * undirected index being connected is mutual, and the count is the size of the
   * neighbour map (what top10CentralElements ranks by) less one for a self-loop.
   */
  lemma ConnectionsBounds(idx: Adjacency<Vertex<Airport>, Edge<Route>>, v: Vertex<Airport>)
    requires v in idx
    ensures |Connections(idx, v)| <= |idx| - 1
    ensures Symmetric(idx) ==> |Connections(idx, v)| == |idx[v]| - (if v in idx[v] then 1 else 0)
    ensures Symmetric(idx) ==> forall w :: w in Connections(idx, v) <==> w in idx && v in Connections(idx, w)
  {
    var c := Connections(idx, v);
    SubsetSize(c, idx.Keys - {v});
    if Symmetric(idx) {
      assert c == idx[v].Keys - {v};
      SubsetSize(c, idx[v].Keys);
      if v !in idx[v] {
        assert c == idx[v].Keys;
      }
    }
  }

  /** The size of a subset, and of the set less one of its members. */
  lemma SubsetSize<T>(a: set<T>, b: set<T>)
    requires a <= b
    ensures |a| <= |b|
    ensures forall x :: x in b && a == b - {x} ==> |a| == |b| - 1
  {
    assert b == a + (b - a);
  }

  /** Taking `w` off the pending set adds it to what has been counted of `c` exactly when it is in `c`. */
  lemma Uncounted<T>(c: set<T>, pending: set<T>, w: T)
    requires w in pending
    ensures |c - (pending - {w})| == |c - pending| + (if w in c then 1 else 0)
  {
    if w in c {
      assert c - (pending - {w}) == (c - pending) + {w};
    } else {
      assert c - (pending - {w}) == c - pending;
    }
  }

  /** Every vertex `count` has an entry for is a vertex with that many connections. */
  ghost predicate CountsConnections(idx: Adjacency<Vertex<Airport>, Edge<Route>>, count: map<Vertex<Airport>, nat>) {
    forall u :: u in count ==> u in idx && count[u] == |Connections(idx, u)|
  }

  /** The vertices with an empty neighbour map: those isIsolated accepts. */
  ghost function Unconnected(idx: Adjacency<Vertex<Airport>, Edge<Route>>): set<Vertex<Airport>>
  {
    set v | v in idx && idx[v] == map[]
  }

  /**
   * In an undirected index an airport has no route exactly when centralAirport
   * counts no connection for it and it has no route to itself.
   */
  lemma UnconnectedIffNoConnections(idx: Adjacency<Vertex<Airport>, Edge<Route>>, v: Vertex<Airport>)
    requires Symmetric(idx) && v in idx
    ensures v in Unconnected(idx) <==> Connections(idx, v) == {} && v !in idx[v]
  {
    if idx[v] != map[] {
      var w :| w in idx[v];
      if w != v {
        assert w in Connections(idx, v);
      }
    }
  }

  class AirportNetwork {
    var network: Graph<Airport, Route>

    /** The graph keeps its own neighbour maps apart and compares routes with `Route.equals`. */
    ghost predicate Valid()
      reads this, network
    {
      network.Valid() && network.sameEdge == SameRoute
    }

    /** The graph's index, seen with nullable vertices (as Dijkstra's contracts see it). */
    ghost function Index(): Adjacency<Vertex?<Airport>, Edge<Route>>
      reads this, network, network.adjacency.Values
    {
      network.Index()
    }

    /** The airport each vertex holds. */
    ghost function Places(): map<Vertex<Airport>, Airport>
      reads this, network, network.adjacency.Keys
    {
      PlacesOf(network.adjacency.Keys)
    }

    /** The route each edge holds. */
    ghost function Routes(): map<Edge<Route>, Route>
      reads this, network, network.adjacency.Values, EdgeSet(network.Index())
    {
      RoutesOf(EdgeSet(network.Index()))
    }

    /** Every edge holds the route between the airports of the two vertices it joins. */
    ghost predicate RoutesJoinEnds()
      reads this, network, network.adjacency.Values, network.adjacency.Keys, EdgeSet(network.Index())
    {
      JoinsAll(network.Index(), Places(), Routes())
    }

    /**
     * The state the network's own operations keep: an undirected index whose
     * routes join the airports they connect.  Restoring a backup whose
     * neighbour maps are shared with a later state can break it.
     */
    ghost predicate Consistent()
      reads this, network, network.adjacency.Values, network.adjacency.Keys, EdgeSet(network.Index())
    {
      WellFormed(network.Index()) && RoutesJoinEnds()
    }

    /** A new network over an empty graph. */
    constructor ()
      ensures Valid() && fresh(network) && network.Index() == map[]
    {
      network := new Graph(SameRoute);
    }

    /** airportCount: the number of vertices. */
    function AirportCount(): (n: nat)
      reads this, network, network.adjacency.Values
      ensures n == |network.Index().Keys|
    {
      network.NumVertices()
    }

    /** routeCount: the number of distinct edges. */
    method RouteCount() returns (n: nat)
      ensures n == |EdgeSet(network.Index())|
    {
      n := network.NumEdges();
    }

    /**
     * findAirport(String): a vertex whose airport's name equals `name` ignoring
     * case, or null when there is none.
     */
    method FindAirportNamed(name: string) returns (r: Vertex?<Airport>)
      ensures r == null <==> !NamedIn(network.adjacency.Keys, name)
      ensures r != null ==> r in network.adjacency && EqualsIgnoreCase(r.element.name, name)
    {
      var pending := network.Vertices();
      while pending != {}
        invariant pending <= network.adjacency.Keys
        invariant forall u :: u in network.adjacency && u !in pending ==> !EqualsIgnoreCase(u.element.name, name)
      {
        var h :| h in pending;
        if EqualsIgnoreCase(h.element.name, name) {
          return h;
        }
        pending := pending - {h};
      }
      return null;
    }

    /** findAirport(Vertex): the lookup by the name of `a`'s airport; a null `a` is dereferenced. */
    method FindAirport(a: Vertex?<Airport>) returns (r: Result<Vertex?<Airport>, NetworkError>)
      ensures r.Err? <==> a == null
      ensures r.Err? ==> r.error == Uncaught(NullPointer)
      ensures r.Ok? ==> (r.value == null <==> !NamedIn(network.adjacency.Keys, a.element.name))
      ensures r.Ok? && r.value != null ==> r.value in network.adjacency &&
                                           EqualsIgnoreCase(r.value.element.name, a.element.name)
    {
      if a == null {
        return Err(Uncaught(NullPointer));
      }
      var found := FindAirportNamed(a.element.name);
      return Ok(found);
    }

    /**
     * findRoute: `r` itself when some route of the graph equals it (same two
     * airports, either way round, any distance), or None (the source's null).
     */
    method FindRoute(r: Route) returns (found: Option<Route>)
      ensures found.None? <==> forall e :: e in EdgeSet(network.Index()) ==> !e.element.Equals(r)
      ensures found.Some? ==> found.value == r
    {
      var all := network.Edges();
      var i := 0;
      while i < |all|
        invariant 0 <= i <= |all|
        invariant forall k :: 0 <= k < i ==> !all[k].element.Equals(r)
      {
        if all[i].element.Equals(r) {
          return Some(r);
        }
        i := i + 1;
      }
      return None;
    }

    /**
     * addAirport: rejects an airport whose name is already taken (case
     * ignored); otherwise adds a fresh isolated vertex holding it.
     */
    method AddAirport(a: Airport?) returns (r: Result<Vertex<Airport>, NetworkError>)
      requires Valid()
      modifies network
      ensures Valid() && network == old(network)
      ensures r.Err? <==> a == null || old(NamedIn(network.adjacency.Keys, a.name))
      ensures r.Err? ==> r.error == (if a == null then Uncaught(NullPointer) else AirportExists)
      ensures r.Err? ==> network.adjacency == old(network.adjacency)
      ensures r.Ok? ==> fresh(r.value) && r.value.element == a
      ensures r.Ok? ==> network.Index() == AddVertex(old(network.Index()), r.value)
      ensures r.Ok? ==> AirportCount() == old(AirportCount()) + 1
      ensures r.Ok? && old(WellFormed(network.Index())) ==>
                WellFormed(network.Index()) && EdgeSet(network.Index()) == old(EdgeSet(network.Index()))
    {
      if a == null {
        return Err(Uncaught(NullPointer));
      }
      ghost var idx := network.Index();
      var found := FindAirportNamed(a.name);
      Graphs.IndexKept(network);
      if found != null {
        return Err(AirportExists);
      }
      OwnNameClashes(a.name);
      var inserted := network.InsertVertex(a);
      r := Ok(inserted.value);
      assert network.Index() == AddVertex(idx, inserted.value);
      if WellFormed(idx) {
        AddVertexKeepsInvariant<Vertex<Airport>, Edge<Route>>(idx, inserted.value);
      }
    }
  
    /**
     * What the three checks of addRoute(Vertex, Vertex, int) decide, in their
     * order: each airport must be found by the name of the airport it holds
     * (a null vertex is dereferenced), and no route may join the same two
     * airports already.
     */
    ghost function RouteCheck(a1: Vertex?<Airport>, a2: Vertex?<Airport>, distance: Int32): Option<NetworkError>
      reads this, network, network.adjacency.Values, network.adjacency.Keys, EdgeSet(network.Index()), a1, a2
    {
      if a1 == null then Some(Uncaught(NullPointer))
      else if !NamedIn(network.adjacency.Keys, a1.element.name) then Some(AirportMissing)
      else if a2 == null then Some(Uncaught(NullPointer))
      else if !NamedIn(network.adjacency.Keys, a2.element.name) then Some(AirportMissing)
      else if exists e :: e in EdgeSet(network.Index()) && e.element.Equals(Route(a1.element, a2.element, distance))
      then Some(RouteExists)
      else None
    }

    /** A route is a duplicate whichever way round and at whatever distance it is given. */
    lemma DuplicateIgnoresOrientation(a1: Vertex<Airport>, a2: Vertex<Airport>, d1: Int32, d2: Int32)
      requires RouteCheck(a1, a2, d1) == Some(RouteExists)
      ensures RouteCheck(a2, a1, d2) == Some(RouteExists)
      ensures RouteCheck(a1, a2, d2) == Some(RouteExists)
    {
      var e :| e in EdgeSet(network.Index()) && e.element.Equals(Route(a1.element, a2.element, d1));
      assert e.element.Equals(Route(a2.element, a1.element, d2));
      assert e.element.Equals(Route(a1.element, a2.element, d2));
    }

    /** The checks of addRoute(Vertex, Vertex, int), with the lookups they make. */
    method CheckNewRoute(a1: Vertex?<Airport>, a2: Vertex?<Airport>, distance: Int32) returns (r: Option<NetworkError>)
      ensures r == RouteCheck(a1, a2, distance)
    {
      var f1 := FindAirport(a1);
      if f1.Err? {
        return Some(f1.error);
      }
      if f1.value == null {
        return Some(AirportMissing);
      }
      var f2 := FindAirport(a2);
      if f2.Err? {
        return Some(f2.error);
      }
      if f2.value == null {
        return Some(AirportMissing);
      }
      var found := FindRoute(Route(a1.element, a2.element, distance));
      if found.Some? {
        return Some(RouteExists);
      }
      return None;
    }

    /**
     * addRoute(Vertex, Vertex, int): when the checks pass, the route is inserted
     * between the vertices holding its two airports.
     */
    method AddRoute(a1: Vertex?<Airport>, a2: Vertex?<Airport>, distance: Int32)
      returns (r: Result<Route, NetworkError>, ghost u: Vertex?<Airport>, ghost v: Vertex?<Airport>, ghost e: Edge?<Route>)
      requires Valid()
      modifies network.adjacency.Values
      ensures Valid()
      ensures old(RouteCheck(a1, a2, distance)).Some? ==> r == Err(old(RouteCheck(a1, a2, distance)).value)
      ensures old(RouteCheck(a1, a2, distance)).None? ==>
                (r.Err? <==> || (forall u :: u in network.adjacency ==> u.element != a1.element)
                             || (forall u :: u in network.adjacency ==> u.element != a2.element))
      ensures old(RouteCheck(a1, a2, distance)).None? && r.Err? ==> r.error == Uncaught(InvalidVertex)
      ensures r.Err? ==> network.Index() == old(network.Index())
      ensures r.Ok? ==> a1 != null && a2 != null && r.value == Route(a1.element, a2.element, distance)
      ensures r.Ok? ==> e != null && e.element == r.value && e !in old(EdgeSet(network.Index()))
      ensures r.Ok? ==> u in network.adjacency && v in network.adjacency
                        && u.element == a1.element && v.element == a2.element
                        && network.Index() == AddEdge(old(network.Index()), u, v, e)
      ensures r.Ok? && old(Consistent()) ==>
                Consistent() && |EdgeSet(network.Index())| == old(|EdgeSet(network.Index())|) + 1
    {
      var failure := CheckNewRoute(a1, a2, distance);
      StateKept();
      if failure.Some? {
        return Err(failure.value), null, null, null;
      }
      var route := Route(a1.element, a2.element, distance);
      r, u, v, e := InsertRoute(route);
    }

    /**
     * `network.insertEdge(a1.element(), a2.element(), r)` once no equal route
     * exists: fails (uncaught) when no vertex holds one of the airports,
     * otherwise joins the two vertices holding them.
     */
    method InsertRoute(route: Route) returns (r: Result<Route, NetworkError>, ghost u: Vertex?<Airport>,
                                              ghost v: Vertex?<Airport>, ghost e: Edge?<Route>)
      requires Valid() && route.origin != null && route.destination != null
      requires forall e :: e in EdgeSet(network.Index()) ==> !e.element.Equals(route)
      modifies network.adjacency.Values
      ensures Valid()
      ensures r.Err? <==> || (forall u :: u in network.adjacency ==> u.element != route.origin)
                          || (forall u :: u in network.adjacency ==> u.element != route.destination)
      ensures r.Err? ==> r.error == Uncaught(InvalidVertex) && network.Index() == old(network.Index())
      ensures r.Ok? ==> r.value == route && e != null && e.element == route && e !in old(EdgeSet(network.Index()))
      ensures r.Ok? ==> u in network.adjacency && v in network.adjacency
                        && u.element == route.origin && v.element == route.destination
                        && network.Index() == AddEdge(old(network.Index()), u, v, e)
      ensures r.Ok? && old(Consistent()) ==>
                Consistent() && |EdgeSet(network.Index())| == old(|EdgeSet(network.Index())|) + 1
    {
      ghost var idx := network.Index();
      ghost var keys, edges := network.adjacency.Keys, EdgeSet(idx);
      ghost var places, routes := PlacesOf(keys), RoutesOf(edges);
      ghost var consistent := Consistent();
      var inserted;
      inserted, u, v := network.InsertEdgeBetween(route.origin, route.destination, route);
      PlacesKept(keys);
      RoutesKept(edges);
      if inserted.Err? {
        return Err(if inserted.error == InvalidEdge then Rethrown else Uncaught(inserted.error)), u, v, null;
      }
      r, e := Ok(route), inserted.value;
      if consistent {
        InsertedKeepsConsistent(idx, places, routes, u, v, e, route);
      }
    }

    /**
     * addRoute(String, String, int): both airports are looked up by name; an
     * unknown name yields a null vertex, which addRoute(Vertex, Vertex, int)
     * dereferences.
     */
    method AddRouteNamed(name1: string, name2: string, distance: Int32)
      returns (r: Result<Route, NetworkError>, ghost a1: Vertex?<Airport>, ghost a2: Vertex?<Airport>,
               ghost u: Vertex?<Airport>, ghost v: Vertex?<Airport>, ghost e: Edge?<Route>)
      requires Valid()
      modifies network.adjacency.Values
      ensures Valid()
      ensures a1 == null <==> !old(NamedIn(network.adjacency.Keys, name1))
      ensures a2 == null <==> !old(NamedIn(network.adjacency.Keys, name2))
      ensures a1 != null ==> a1 in network.adjacency && EqualsIgnoreCase(a1.element.name, name1)
      ensures a2 != null ==> a2 in network.adjacency && EqualsIgnoreCase(a2.element.name, name2)
      ensures a1 != null && a2 != null ==>
                (r == Err(RouteExists) <==> exists x :: x in old(EdgeSet(network.Index()))
                                                        && x.element.Equals(Route(a1.element, a2.element, distance)))
      ensures !old(NamedIn(network.adjacency.Keys, name1)) || !old(NamedIn(network.adjacency.Keys, name2)) ==>
                r == Err(Uncaught(NullPointer))
      ensures old(NamedIn(network.adjacency.Keys, name1)) && old(NamedIn(network.adjacency.Keys, name2)) ==>
                r.Ok? || r == Err(RouteExists)
      ensures r == Err(RouteExists) ==>
                exists x :: x in old(EdgeSet(network.Index())) && JoinsNamed(x.element, name1, name2)
      ensures r.Err? ==> network.Index() == old(network.Index())
      ensures r.Ok? ==> u in network.adjacency && v in network.adjacency
                        && EqualsIgnoreCase(u.element.name, name1) && EqualsIgnoreCase(v.element.name, name2)
                        && r.value == Route(u.element, v.element, distance)
      ensures r.Ok? ==> e != null && e.element == r.value && e !in old(EdgeSet(network.Index()))
                        && network.Index() == AddEdge(old(network.Index()), u, v, e)
      ensures r.Ok? && old(Consistent()) ==>
                Consistent() && |EdgeSet(network.Index())| == old(|EdgeSet(network.Index())|) + 1
    {
      var found1, found2 := FindPairNamed(name1, name2);
      a1, a2 := found1, found2;
      StateKept();
      r, u, v, e := AddRouteFound(found1, found2, name1, name2, distance);
    }

    /** The two lookups of addRoute(String, String, int). */
    method FindPairNamed(name1: string, name2: string) returns (a1: Vertex?<Airport>, a2: Vertex?<Airport>)
      requires Valid()
      ensures a1 == null <==> !NamedIn(network.adjacency.Keys, name1)
      ensures a2 == null <==> !NamedIn(network.adjacency.Keys, name2)
      ensures a1 != null ==> a1 in network.adjacency && EqualsIgnoreCase(a1.element.name, name1)
      ensures a2 != null ==> a2 in network.adjacency && EqualsIgnoreCase(a2.element.name, name2)
    {
      a1 := FindAirportNamed(name1);
      a2 := FindAirportNamed(name2);
    }

    /**
     * addRoute(Vertex, Vertex, int) on the vertices found under two names: a
     * missing name is a null vertex, dereferenced; otherwise the route is
     * rejected exactly when a stored route joins the two airports.
     */
    method AddRouteFound(a1: Vertex?<Airport>, a2: Vertex?<Airport>, name1: string, name2: string, distance: Int32)
      returns (r: Result<Route, NetworkError>, ghost u: Vertex?<Airport>, ghost v: Vertex?<Airport>, ghost e: Edge?<Route>)
      requires Valid()
      requires a1 == null <==> !NamedIn(network.adjacency.Keys, name1)
      requires a2 == null <==> !NamedIn(network.adjacency.Keys, name2)
      requires a1 != null ==> a1 in network.adjacency && EqualsIgnoreCase(a1.element.name, name1)
      requires a2 != null ==> a2 in network.adjacency && EqualsIgnoreCase(a2.element.name, name2)
      modifies network.adjacency.Values
      ensures Valid()
      ensures a1 == null || a2 == null ==> r == Err(Uncaught(NullPointer))
      ensures a1 != null && a2 != null ==> r.Ok? || r == Err(RouteExists)
      ensures a1 != null && a2 != null ==>
                (r == Err(RouteExists) <==> exists x :: x in old(EdgeSet(network.Index()))
                                                        && x.element.Equals(Route(a1.element, a2.element, distance)))
      ensures r == Err(RouteExists) ==>
                exists x :: x in old(EdgeSet(network.Index())) && JoinsNamed(x.element, name1, name2)
      ensures r.Err? ==> network.Index() == old(network.Index())
      ensures r.Ok? ==> u in network.adjacency && v in network.adjacency
                        && EqualsIgnoreCase(u.element.name, name1) && EqualsIgnoreCase(v.element.name, name2)
                        && r.value == Route(u.element, v.element, distance)
      ensures r.Ok? ==> e != null && e.element == r.value && e !in old(EdgeSet(network.Index()))
                        && network.Index() == AddEdge(old(network.Index()), u, v, e)
      ensures r.Ok? && old(Consistent()) ==>
                Consistent() && |EdgeSet(network.Index())| == old(|EdgeSet(network.Index())|) + 1
    {
      NamedRouteCheck(a1, a2, name1, name2, distance);
      ghost var check := RouteCheck(a1, a2, distance);
      r, u, v, e := AddRoute(a1, a2, distance);
      if r.Ok? {
        assert a1 != null && a2 != null && u.element == a1.element && v.element == a2.element;
      } else {
        assert r == Err(RouteExists) ==> check == Some(RouteExists);
      }
    }

    /** What the checks of addRoute answer for the vertices found under two names. */
    lemma NamedRouteCheck(a1: Vertex?<Airport>, a2: Vertex?<Airport>, name1: string, name2: string, distance: Int32)
      requires a1 == null <==> !NamedIn(network.adjacency.Keys, name1)
      requires a2 == null <==> !NamedIn(network.adjacency.Keys, name2)
      requires a1 != null ==> a1 in network.adjacency && EqualsIgnoreCase(a1.element.name, name1)
      requires a2 != null ==> a2 in network.adjacency && EqualsIgnoreCase(a2.element.name, name2)
      ensures a1 == null || a2 == null ==> RouteCheck(a1, a2, distance) == Some(Uncaught(NullPointer))
      ensures a1 != null && a2 != null ==>
                RouteCheck(a1, a2, distance) == None || RouteCheck(a1, a2, distance) == Some(RouteExists)
      ensures RouteCheck(a1, a2, distance) == Some(RouteExists) ==>
                exists x :: x in EdgeSet(network.Index()) && JoinsNamed(x.element, name1, name2)
    {
      if a1 != null {
        OwnNameClashes(a1.element.name);
      }
      if a2 != null {
        OwnNameClashes(a2.element.name);
      }
    }

    /**
     * getEdgeBetweenTwoV: the two vertices must be vertices of the graph and
     * adjacent; then the incident edges of `a1` are scanned for the one whose
     * opposite end is `a2` (null when the scan finds none, which an undirected
     * index rules out).
     */
    method GetEdgeBetween(a1: Vertex?<Airport>, a2: Vertex?<Airport>) returns (r: Result<Edge?<Route>, NetworkError>)
      ensures r.Err? <==> network.AreAdjacent(a1, a2) != Ok(true)
      ensures r.Err? ==> r.error == Uncaught(InvalidVertex)
      ensures r.Ok? && r.value != null ==> r.value in network.Index()[a1].Values
      ensures r.Ok? && WellFormed(network.Index()) ==> r.value == network.Index()[a1][a2]
    {
      var adjacent := network.AreAdjacent(a1, a2);
      if adjacent != Ok(true) {
        return Err(Uncaught(InvalidVertex));
      }
      ghost var idx := network.Index();
      ghost var wf := WellFormed(idx);
      var pending := network.IncidentEdges(a1).value;
      while pending != {}
        invariant pending <= idx[a1].Values && network.Index() == idx
        invariant wf ==> idx[a1][a2] in pending
      {
        var x :| x in pending;
        var o := network.Opposite(a1, x);
        IndexKept(network);
        if wf && x == idx[a1][a2] {
          PlacementOfEdge(idx, x, a1, a2, a1, o.value);
        }
        if o == Ok(a2) {
          return Ok(x);
        }
        pending := pending - {x};
      }
      return Ok(null);
    }

    /**
     * removeAirport: the airport named `name` (case ignored) is looked up and
     * its vertex removed with every entry pointing to it.  The graph cannot
     * reject a vertex it has just listed, so the handler that rethrows its
     * InvalidVertexException is never reached.
     */
    method RemoveAirport(name: string) returns (r: Result<(), NetworkError>, ghost removed: Vertex?<Airport>)
      requires Valid()
      modifies network, network.adjacency.Values
      ensures Valid()
      ensures r.Err? <==> !old(NamedIn(network.adjacency.Keys, name))
      ensures r.Err? ==> r.error == AirportMissing && network.Index() == old(network.Index())
      ensures r.Ok? ==> removed in old(network.adjacency) && EqualsIgnoreCase(removed.element.name, name)
      ensures r.Ok? ==> network.Index() == DropVertex(old(network.Index()), removed)
      ensures r.Ok? ==> AirportCount() == old(AirportCount()) - 1
      ensures r.Ok? && old(Consistent()) ==>
                Consistent() &&
                |EdgeSet(network.Index())| == old(|EdgeSet(network.Index())| - |network.Index()[removed].Values|)
    {
      var airport := FindAirportNamed(name);
      StateKept();
      if airport == null {
        return Err(AirportMissing), null;
      }
      DropAirport(airport);
      r, removed := Ok(()), airport;
    }

    /** The removal step of removeAirport, for a vertex of the graph. */
    method DropAirport(airport: Vertex<Airport>)
      requires Valid() && airport in network.adjacency
      modifies network, network.adjacency.Values
      ensures Valid() && network == old(network)
      ensures network.Index() == DropVertex(old(network.Index()), airport)
      ensures AirportCount() == old(AirportCount()) - 1
      ensures old(Consistent()) ==>
                Consistent() &&
                |EdgeSet(network.Index())| == old(|EdgeSet(network.Index())| - |network.Index()[airport].Values|)
    {
      ghost var idx := network.Index();
      ghost var keys, edges := network.adjacency.Keys, EdgeSet(idx);
      ghost var places, routes := PlacesOf(keys), RoutesOf(edges);
      ghost var consistent := Consistent();
      var dropped := network.RemoveVertex(airport);
      PlacesKept(keys);
      RoutesKept(edges);
      assert dropped.Ok?;
      DropVertexCount(idx, airport);
      if consistent {
        DroppedKeepsConsistent(idx, places, routes, airport);
      }
    }

    /**
     * removeRoute(Edge): removes the edge from the graph.  The graph's
     * exceptions pass through: the handler only catches the network's own
     * exception, which removeEdge does not throw.
     */
    method RemoveRoute(route: Edge?<Route>) returns (r: Result<(), NetworkError>)
      requires Valid()
      modifies network.adjacency.Values
      ensures Valid()
      ensures r == Err(Uncaught(InvalidEdge)) <==> route == null || route !in old(EdgeSet(network.Index()))
      ensures r.Err? ==> r.error == Uncaught(InvalidEdge) || r.error == Uncaught(NullPointer)
      ensures old(Symmetric(network.Index())) ==> r != Err(Uncaught(NullPointer))
      ensures r == Err(Uncaught(InvalidEdge)) ==> network.Index() == old(network.Index())
      ensures r.Ok? && old(WellFormed(network.Index())) ==>
                network.Index() == Without<Vertex<Airport>, Edge<Route>>(old(network.Index()), route) &&
                WellFormed(network.Index()) &&
                |EdgeSet(network.Index())| == old(|EdgeSet(network.Index())|) - 1
      ensures r.Ok? && old(Consistent()) ==> Consistent()
    {
      ghost var idx := network.Index();
      ghost var keys, edges := network.adjacency.Keys, EdgeSet(idx);
      ghost var places, routes := PlacesOf(keys), RoutesOf(edges);
      ghost var consistent := Consistent();
      var dropped := network.RemoveEdge(route);
      PlacesKept(keys);
      RoutesKept(edges);
      if dropped.Err? {
        return Err(Uncaught(dropped.error));
      }
      r := Ok(());
      if WellFormed(idx) {
        assert keys == network.adjacency.Keys;
        DetachedKeepsConsistent(idx, places, routes, route, consistent);
      }
    }

    /**
     * removeRoute(String, String): both airports are looked up by name, then
     * every edge incident to the first whose opposite end is the second is
     * removed.  An unknown first name makes incidentEdges throw; an unknown
     * second name matches no edge.  The graph's exceptions pass through.
     */
    method RemoveRouteBetween(name1: string, name2: string)
      returns (r: Result<(), NetworkError>, ghost a1: Vertex?<Airport>, ghost a2: Vertex?<Airport>)
      requires Valid()
      modifies network.adjacency.Values
      ensures Valid()
      ensures a1 == null <==> !old(NamedIn(network.adjacency.Keys, name1))
      ensures a2 == null <==> !old(NamedIn(network.adjacency.Keys, name2))
      ensures a1 != null ==> a1 in old(network.Index()) && EqualsIgnoreCase(a1.element.name, name1)
      ensures a2 != null ==> a2 in old(network.Index()) && EqualsIgnoreCase(a2.element.name, name2)
      ensures a1 == null ==> r == Err(Uncaught(InvalidVertex)) && network.Index() == old(network.Index())
      ensures r.Err? ==> r.error.Uncaught?
      ensures a1 != null && old(WellFormed(network.Index())) ==>
                r.Ok? && Scanned(old(network.Index()), network.Index(), a1, a2)
      ensures old(Consistent()) ==> Consistent()
    {
      var v1 := FindAirportNamed(name1);
      var v2 := FindAirportNamed(name2);
      StateKept();
      a1, a2 := v1, v2;
      var incident := network.IncidentEdges(v1);
      if incident.Err? {
        return Err(Uncaught(incident.error)), a1, a2;
      }
      r := RemoveEdgesTo(v1, v2, incident.value);
    }

    /** The loop of removeRoute(String, String), over a copy of the edges of `a1`. */
    method RemoveEdgesTo(a1: Vertex<Airport>, a2: Vertex?<Airport>, edges: set<Edge<Route>>) returns (r: Result<(), NetworkError>)
      requires Valid() && a1 in network.adjacency && edges == network.Index()[a1].Values
      modifies network.adjacency.Values
      ensures Valid()
      ensures r.Err? ==> r.error.Uncaught?
      ensures old(WellFormed(network.Index())) ==> r.Ok? && Scanned(old(network.Index()), network.Index(), a1, a2)
      ensures old(Consistent()) ==> Consistent()
    {
      ghost var idx := network.Index();
      ghost var wf := WellFormed(idx);
      assert old(WellFormed(network.Index())) == wf;
      var pending := edges;
      r := Ok(());
      while pending != {} && r.Ok?
        invariant Valid()
        invariant pending <= idx[a1].Values
        invariant r.Err? ==> r.error.Uncaught?
        invariant wf ==> r.Ok? && network.Index() == AfterScan(idx, Between(idx, a1, a2), pending)
        invariant old(Consistent()) ==> Consistent()
      {
        var x :| x in pending;
        r := ScanEdge(a1, a2, x, idx, pending, wf);
        pending := pending - {x};
      }
      assert wf ==> pending == {};
      assert wf ==> Scanned(idx, network.Index(), a1, a2);
    }

    /**
     * One turn of the loop of removeRoute(String, String): the edge `x` of `a1`
     * is removed when its opposite end is `a2`.  In a well-formed index this
     * moves the scan from `pending` to `pending - {x}`.
     */
    method ScanEdge(a1: Vertex<Airport>, a2: Vertex?<Airport>, x: Edge<Route>,
                    ghost idx: Adjacency<Vertex<Airport>, Edge<Route>>, ghost pending: set<Edge<Route>>, ghost wf: bool)
      returns (r: Result<(), NetworkError>)
      requires Valid() && a1 in network.adjacency
      requires wf ==> && WellFormed(idx) && a1 in idx && pending <= idx[a1].Values && x in pending
                      && network.Index() == AfterScan(idx, Between(idx, a1, a2), pending)
      modifies network.adjacency.Values
      ensures Valid()
      ensures r.Err? ==> r.error.Uncaught?
      ensures wf ==> r.Ok? && network.Index() == AfterScan(idx, Between(idx, a1, a2), pending - {x})
      ensures old(Consistent()) ==> Consistent()
    {
      if wf {
        ScanEntries(idx, a1, a2, pending);
        ScanKeepsWellFormed(idx, a1, a2, pending);
      }
      var o := network.Opposite(a1, x);
      StateKept();
      if o.Err? {
        return Err(Uncaught(o.error));
      }
      if wf {
        ScanStep(idx, a1, a2, pending, x, o.value);
      }
      if o.value == a2 {
        r := RemoveRoute(x);
      } else {
        r := Ok(());
      }
    }

    /** The graph as the shortest-path search sees it, vertices possibly null. */
    ghost function Paths(): Adjacency<Vertex?<Airport>, Edge<Route>>
      reads this, network, network.adjacency.Values
    {
      network.Index()
    }

    /** The length of each route: its distance. */
    ghost function Lens(): map<Edge<Route>, int>
      reads this, network, network.adjacency.Values, EdgeSet(network.Index())
    {
      Lengths(EdgeSet<Vertex?<Airport>, Edge<Route>>(network.Index()))
    }

    /**
     * shortestPath: both airports are looked up by name and a fresh search runs
     * from the first to the second.  An unknown name is reported as a missing
     * airport; a search that gets stuck (some airport with routes is out of
     * reach of the start) as "no path available".
     */
    method ShortestPath(start: string, end: string)
      returns (r: Result<DijkstraConcreteResult<Airport>, NetworkError>, ghost h1: Vertex?<Airport>, ghost h2: Vertex?<Airport>)
      requires NonNegative(Lens())
      ensures h1 == null <==> !NamedIn(network.adjacency.Keys, start)
      ensures h2 == null <==> !NamedIn(network.adjacency.Keys, end)
      ensures h1 != null ==> h1 in network.adjacency && EqualsIgnoreCase(h1.element.name, start)
      ensures h2 != null ==> h2 in network.adjacency && EqualsIgnoreCase(h2.element.name, end)
      ensures h1 == null || h2 == null ==> r == Err(AirportMissing)
      ensures h1 != null && h2 != null && r.Err? ==> r.error == NoPath
      ensures h1 != null && h2 != null && WellFormed(Paths()) ==> (r.Err? <==> !ReachesAll(Paths(), h1))
      ensures r.Ok? ==> Completed(Paths(), Lens(), h1, h2, r.value)
    {
      var dijkstra := new DijkstraResult(network);
      var v1 := FindAirportNamed(start);
      var v2 := FindAirportNamed(end);
      h1, h2 := v1, v2;
      if v1 == null || v2 == null {
        return Err(AirportMissing), h1, h2;
      }
      var found := dijkstra.Dijkstra(v1, v2);
      if found.Err? {
        // `v2` is a vertex, so the search cannot fail on a null dereference:
        // only InvalidVertex reaches here, and it is reported as no path.
        r := Err(NoPath);
      } else {
        r := Ok(found.value);
      }
    }

    /**
     * farthestAirports: over every pair of distinct airports that both have
     * routes, the shortest path of greatest cost (strictly greater replaces,
     * so the first found among equals stays).  A search that gets stuck stops
     * everything with "Failed.".  In a well-formed graph the answer is a
     * shortest path between its ends, and every pair considered is joined by
     * a walk no costlier, so it is the greatest shortest distance.
     */
    method FarthestAirports()
      returns (r: Result<Option<DijkstraConcreteResult<Airport>>, NetworkError>, ghost u: Vertex?<Airport>, ghost w: Vertex?<Airport>)
      requires NonNegative(Lens())
      ensures r.Err? ==> r.error == Failed && NonIsolated(Paths(), u) && (WellFormed(Paths()) ==> !ReachesAll(Paths(), u))
      ensures r.Ok? ==> FarthestSoFar(Paths(), Lens(), r.value, u, w)
      ensures r.Ok? && WellFormed(Paths()) ==>
                forall a, b :: a in Paths() && b in Paths() && Pair(Paths(), a, b) ==> Covers(Paths(), Lens(), a, b, r.value)
    {
      ghost var m, len := Paths(), Lens();
      var dijkstra := new DijkstraResult(network);
      var best: Option<DijkstraConcreteResult<Airport>> := None;
      u, w := null, null;
      var pending := network.Vertices();
      while pending != {}
        invariant pending <= m.Keys
        invariant Paths() == m && Lens() == len
        invariant FarthestSoFar(m, len, best, u, w)
        invariant WellFormed(m) ==> CoveredFrom(m, len, m.Keys - pending, best)
      {
        var a :| a in pending;
        ghost var done := m.Keys - pending;
        pending := pending - {a};
        assert m.Keys - pending == done + {a};
        var failed;
        ghost var before := best;
        failed, best, u, w := FarthestFrom(dijkstra, a, best, u, w, m, len);
        Graphs.IndexKept(network);
        LengthsKept(EdgeSet(network.Index()));
        if failed {
          return Err(Failed), a, null;
        }
        if WellFormed(m) {
          CoveredAdd(m, len, done, a, before, best);
        }
      }
      r := Ok(best);
    }

    /** The inner loop of farthestAirports: the searches from airport `a`. */
    method FarthestFrom(dijkstra: DijkstraResult<Airport>, a: Vertex<Airport>,
                        best0: Option<DijkstraConcreteResult<Airport>>, ghost u0: Vertex?<Airport>, ghost w0: Vertex?<Airport>,
                        ghost m: Adjacency<Vertex?<Airport>, Edge<Route>>, ghost len: map<Edge<Route>, int>)
      returns (failed: bool, best: Option<DijkstraConcreteResult<Airport>>, ghost u: Vertex?<Airport>, ghost w: Vertex?<Airport>)
      requires dijkstra.network == network && m == Paths() && len == Lens() && NonNegative(len)
      requires a in m && FarthestSoFar(m, len, best0, u0, w0)
      ensures FarthestSoFar(m, len, best, u, w)
      ensures failed ==> NonIsolated(m, a) && (WellFormed(m) ==> !ReachesAll(m, a))
      ensures !failed ==> NoCostlier(best0, best)
      ensures !failed && WellFormed(m) ==> CoveredFrom(m, len, {a}, best)
    {
      failed, best, u, w := false, best0, u0, w0;
      var pending := network.Vertices();
      while pending != {}
        invariant pending <= m.Keys
        invariant FarthestSoFar(m, len, best, u, w)
        invariant NoCostlier(best0, best)
        invariant WellFormed(m) ==> ReachedWithin(m, len, a, m.Keys - pending, best)
      {
        var b :| b in pending;
        ghost var done := m.Keys - pending;
        pending := pending - {b};
        assert m.Keys - pending == done + {b};
        var stuck;
        stuck, best, u, w := FarthestPair(dijkstra, a, b, best, u, w, m, len, done);
        if stuck {
          return true, best, u, w;
        }
      }
      if WellFormed(m) {
        ReachedEverywhere(m, len, a, best);
      }
    }

    /**
     * One step of the inner loop of farthestAirports: the pair (a, a) and
     * pairs with an end without routes are skipped, any other pair is searched.
     */
    method FarthestPair(dijkstra: DijkstraResult<Airport>, a: Vertex<Airport>, b: Vertex<Airport>,
                        best0: Option<DijkstraConcreteResult<Airport>>, ghost u0: Vertex?<Airport>, ghost w0: Vertex?<Airport>,
                        ghost m: Adjacency<Vertex?<Airport>, Edge<Route>>, ghost len: map<Edge<Route>, int>,
                        ghost done: set<Vertex?<Airport>>)
      returns (failed: bool, best: Option<DijkstraConcreteResult<Airport>>, ghost u: Vertex?<Airport>, ghost w: Vertex?<Airport>)
      requires dijkstra.network == network && m == Paths() && len == Lens() && NonNegative(len)
      requires a in m && b in m && FarthestSoFar(m, len, best0, u0, w0)
      requires WellFormed(m) ==> ReachedWithin(m, len, a, done, best0)
      ensures FarthestSoFar(m, len, best, u, w)
      ensures failed ==> NonIsolated(m, a) && (WellFormed(m) ==> !ReachesAll(m, a))
      ensures !failed ==> NoCostlier(best0, best)
      ensures !failed && WellFormed(m) ==> ReachedWithin(m, len, a, done + {b}, best)
    {
      failed, best, u, w := false, best0, u0, w0;
      if b == a {
        if WellFormed(m) {
          ReachedStep(m, len, a, done, b, best, best);
        }
        return;
      }
      var edgesOfA, edgesOfB := network.IncidentEdges(a), network.IncidentEdges(b);
      if edgesOfA.value == {} || edgesOfB.value == {} {
        NoValuesNoKeys(m[a]);
        NoValuesNoKeys(m[b]);
        if WellFormed(m) {
          ReachedStep(m, len, a, done, b, best, best);
        }
        return;
      }
      failed, best, u, w := SearchPair(dijkstra, a, b, best, u, w, m, len);
      if !failed && WellFormed(m) {
        ReachedStep(m, len, a, done, b, best0, best);
      }
    }

    /**
     * The body of the inner loop of farthestAirports for a pair: search from
     * `a` to `b`, skip a null path, keep the answer when strictly costlier.
     */
    method SearchPair(dijkstra: DijkstraResult<Airport>, a: Vertex<Airport>, b: Vertex<Airport>,
                      best0: Option<DijkstraConcreteResult<Airport>>, ghost u0: Vertex?<Airport>, ghost w0: Vertex?<Airport>,
                      ghost m: Adjacency<Vertex?<Airport>, Edge<Route>>, ghost len: map<Edge<Route>, int>)
      returns (failed: bool, best: Option<DijkstraConcreteResult<Airport>>, ghost u: Vertex?<Airport>, ghost w: Vertex?<Airport>)
      requires dijkstra.network == network && m == Paths() && len == Lens() && NonNegative(len)
      requires a in m && b in m && Pair(m, a, b) && FarthestSoFar(m, len, best0, u0, w0)
      ensures FarthestSoFar(m, len, best, u, w)
      ensures failed ==> WellFormed(m) ==> !ReachesAll(m, a)
      ensures !failed ==> NoCostlier(best0, best)
      ensures !failed && WellFormed(m) ==> Covers(m, len, a, b, best)
    {
      failed, best, u, w := false, best0, u0, w0;
      var temp := dijkstra.Dijkstra(a, b);
      Graphs.IndexKept(network);
      LengthsKept(EdgeSet(network.Index()));
      if temp.Err? {
        return true, best, u, w;
      }
      var found := temp.value;
      SearchFound(m, len, a, b, found);
      if found.path.None? {
        return;
      }
      if best.None? || found.dist.value > best.value.dist.value {
        best, u, w := Some(found), a, b;
      } else if WellFormed(m) {
        CoversRaised(m, len, a, b, Some(found), best);
      }
    }

    /**
     * longestRouteOnGraph: starting from a route of distance 0 with no ends,
     * the first route of every greater distance met replaces the current one
     * (`r.compareTo(e) > 0`).  The answer is a longest route, or the starting
     * route when no route is longer than 0.
     */
    method LongestRoute() returns (r: Route, ghost e: Edge?<Route>)
      ensures forall x :: x in EdgeSet(network.Index()) ==> x.element.distance <= r.distance
      ensures e == null ==> r == Route(null, null, 0)
      ensures e != null ==> e in EdgeSet(network.Index()) && r == e.element && r.distance > 0
    {
      var edges := network.Edges();
      Graphs.IndexKept(network);
      r, e := Route(null, null, 0), null;
      for i := 0 to |edges|
        invariant forall j :: 0 <= j < i ==> edges[j].element.distance <= r.distance
        invariant e == null ==> r == Route(null, null, 0)
        invariant e != null ==> e in edges && r == e.element && r.distance > 0
      {
        if r.CompareTo(edges[i].element) > 0 {
          r, e := edges[i].element, edges[i];
        }
      }
      assert forall x :: x in EdgeSet(network.Index()) ==> x in Members(edges);
    }

    /**
     * shortestRouteOnGraph: starting from a route of distance `Integer.MAX_VALUE`
     * with no ends, the first route of every smaller distance met replaces the
     * current one (`r.compareTo(e) < 0`).  The answer is a shortest route, or the
     * starting route when no route is shorter than `Integer.MAX_VALUE`.
     */
    method ShortestRoute() returns (r: Route, ghost e: Edge?<Route>)
      ensures forall x :: x in EdgeSet(network.Index()) ==> r.distance <= x.element.distance
      ensures e == null ==> r == Route(null, null, MAX_INT)
      ensures e != null ==> e in EdgeSet(network.Index()) && r == e.element && r.distance < MAX_INT
    {
      var edges := network.Edges();
      Graphs.IndexKept(network);
      r, e := Route(null, null, MAX_INT), null;
      for i := 0 to |edges|
        invariant forall j :: 0 <= j < i ==> r.distance <= edges[j].element.distance
        invariant e == null ==> r == Route(null, null, MAX_INT)
        invariant e != null ==> e in edges && r == e.element && r.distance < MAX_INT
      {
        if r.CompareTo(edges[i].element) < 0 {
          r, e := edges[i].element, edges[i];
        }
      }
      assert forall x :: x in EdgeSet(network.Index()) ==> x in Members(edges);
    }

    /** The inner loop of centralAirport: how many other vertices `v` is adjacent to. */
    method CountConnections(v: Vertex<Airport>, ghost idx: Adjacency<Vertex<Airport>, Edge<Route>>) returns (count: nat)
      requires v in network.adjacency && idx == network.Index()
      ensures count == |Connections(idx, v)|
    {
      ghost var c := Connections(idx, v);
      var pending := network.Vertices();
      assert c - pending == {};
      count := 0;
      while pending != {}
        invariant pending <= network.adjacency.Keys
        invariant count == |c - pending|
      {
        var w :| w in pending;
        var adjacent := network.AreAdjacent(v, w);
        assert w in c <==> adjacent.value && v != w;
        Uncounted(c, pending, w);
        if adjacent.value && v != w {
          count := count + 1;
        }
        pending := pending - {w};
      }
    }

    /** The outer loop of centralAirport: each vertex, in key order, with its count of connections. */
    method ListConnections() returns (listing: seq<Vertex<Airport>>, count: map<Vertex<Airport>, nat>)
      ensures multiset(listing) == multiset(network.adjacency.Keys)
      ensures CountsConnections(network.Index(), count)
      ensures forall k :: 0 <= k < |listing| ==> listing[k] in count
    {
      ghost var idx := network.Index();
      listing := [];
      count := map[];
      var pending := network.Vertices();
      while pending != {}
        invariant pending <= idx.Keys
        invariant multiset(listing) + multiset(pending) == multiset(idx.Keys)
        invariant forall k :: 0 <= k < |listing| ==> listing[k] in count
        invariant CountsConnections(idx, count)
      {
        var u :| u in pending;
        var n := CountConnections(u, idx);
        listing := listing + [u];
        count := count[u := n];
        assert multiset(pending) == multiset(pending - {u}) + multiset{u};
        pending := pending - {u};
      }
    }

    /**
     * centralAirport: every airport with the number of other airports it has a
     * route to, most connected first.  `ranked` is the sorted list of vertices
     * behind the answer.
     */
    method CentralAirport() returns (r: seq<(Airport, nat)>, ghost ranked: seq<Vertex<Airport>>)
      ensures multiset(ranked) == multiset(network.adjacency.Keys)
      ensures |r| == |ranked|
      ensures forall i :: 0 <= i < |r| ==>
        ranked[i] in network.adjacency && r[i] == (ranked[i].element, |Connections(network.Index(), ranked[i])|)
      ensures forall i, j :: 0 <= i < j < |r| ==> r[i].1 >= r[j].1
    {
      var sorted, count := RankByConnections();
      ranked := sorted;
      r := [];
      for i := 0 to |sorted|
        invariant |r| == i
        invariant forall k :: 0 <= k < i ==> r[k] == (sorted[k].element, count[sorted[k]])
      {
        r := r + [(sorted[i].element, count[sorted[i]])];
      }
    }

    /** The sorting step of centralAirport: the vertices, most connections first, with their counts. */
    method RankByConnections() returns (ranked: seq<Vertex<Airport>>, count: map<Vertex<Airport>, nat>)
      ensures multiset(ranked) == multiset(network.adjacency.Keys)
      ensures CountsConnections(network.Index(), count)
      ensures forall i :: 0 <= i < |ranked| ==> ranked[i] in count
      ensures forall i, j :: 0 <= i < j < |ranked| ==> count[ranked[i]] >= count[ranked[j]]
    {
      var listing;
      listing, count := ListConnections();
      var key: Vertex<Airport> -> int := u => if u in count then count[u] else 0;
      ranked := Ranking.Sort(listing, key, Ranking.Descending);
      assert Ranking.Ordered(ranked, key, Ranking.Descending) by {
        Ranking.DescendingIsTotalPreorder();
        Ranking.SortOrdered(listing, key, Ranking.Descending);
      }
      forall i | 0 <= i < |ranked| ensures ranked[i] in count {
        assert ranked[i] in multiset(listing);
      }
      forall i, j | 0 <= i < j < |ranked| ensures count[ranked[i]] >= count[ranked[j]] {
        assert Ranking.Descending(key(ranked[i]), key(ranked[j]));
      }
    }

    /**
     * top10Central: the first ten entries of centralAirport (all of them when
     * there are fewer), so no airport left out is more connected than one kept.
     */
    method Top10Central() returns (r: seq<(Airport, nat)>, ghost all: seq<(Airport, nat)>, ghost ranked: seq<Vertex<Airport>>)
      ensures multiset(ranked) == multiset(network.adjacency.Keys) && |all| == |ranked|
      ensures forall i :: 0 <= i < |all| ==>
        ranked[i] in network.adjacency && all[i] == (ranked[i].element, |Connections(network.Index(), ranked[i])|)
      ensures |r| == if |all| < 10 then |all| else 10
      ensures r == all[..|r|]
      ensures forall i, j :: 0 <= i < j < |r| ==> r[i].1 >= r[j].1
      ensures forall i, j :: 0 <= i < |r| <= j < |all| ==> r[i].1 >= all[j].1
    {
      var central;
      central, ranked := CentralAirport();
      all := central;
      r := [];
      var i := 0;
      while i < 10
        invariant 0 <= i <= 10
        invariant |r| == if i < |central| then i else |central|
        invariant r == central[..|r|]
      {
        if i < |central| {
          r := r + [central[i]];
        }
        i := i + 1;
      }
    }

    /**
     * ListOfAirportsWithNoRoutesOrderedAlphabetically: the airports of the
     * vertices without routes, sorted by abbreviation.  `isolated` lists those
     * vertices in the order they were collected.
     */
    method IsolatedAirports() returns (r: seq<Airport>, ghost isolated: seq<Vertex<Airport>>)
      ensures multiset(isolated) == multiset(Unconnected(network.Index()))
      ensures multiset(r) == multiset(seq(|isolated|, k requires 0 <= k < |isolated| reads isolated => isolated[k].element))
      ensures forall i, j :: 0 <= i < j < |r| ==> r[i].CompareTo(r[j]) <= 0
    {
      var l: seq<Airport> := [];
      isolated := [];
      var pending := network.Vertices();
      ghost var unconnected := Unconnected(network.Index());
      while pending != {}
        invariant pending <= network.adjacency.Keys
        invariant multiset(isolated) + multiset(unconnected * pending) == multiset(unconnected)
        invariant |l| == |isolated| && forall k :: 0 <= k < |l| ==> l[k] == isolated[k].element
      {
        var v :| v in pending;
        var lone := network.IsIsolated(v);
        ghost var rest := unconnected * (pending - {v});
        if lone.value {
          assert unconnected * pending == rest + {v};
          assert multiset(unconnected * pending) == multiset(rest) + multiset{v};
          l := l + [v.element];
          isolated := isolated + [v];
        } else {
          assert unconnected * pending == rest;
        }
        pending := pending - {v};
      }
      assert l == seq(|isolated|, k requires 0 <= k < |isolated| reads isolated => isolated[k].element);
      var key := (a: Airport) => a.abbreviation;
      r := Ranking.Sort(l, key, NotAfter);
      assert Ranking.Ordered(r, key, NotAfter) by {
        NotAfterIsTotalPreorder();
        Ranking.SortOrdered(l, key, NotAfter);
      }
      forall i, j | 0 <= i < j < |r| ensures r[i].CompareTo(r[j]) <= 0 {
        assert NotAfter(key(r[i]), key(r[j]));
      }
    }

    /** reset: clears the graph. */
    method Reset()
      modifies network
      ensures network == old(network) && network.sameEdge == old(network.sameEdge)
      ensures network.Index() == map[] && AirportCount() == 0 && Consistent()
    {
      network.Clear();
    }

    /**
     * restore: the network becomes a new graph over the adjacency map of `g`
     * (a null `g` is dereferenced).  The new graph shares `g`'s neighbour maps.
     */
    method Restore(g: Graph?<Airport, Route>) returns (r: Result<(), NetworkError>)
      modifies this
      ensures r.Err? <==> g == null
      ensures r.Err? ==> r.error == Uncaught(NullPointer) && network == old(network)
      ensures r.Ok? ==> fresh(network) && network.adjacency == g.adjacency && network.Index() == g.Index()
      ensures r.Ok? && g.Valid() && g.sameEdge == SameRoute ==> Valid()
    {
      if g == null {
        return Err(Uncaught(NullPointer));
      }
      network := new Graph.Copy(g);
      r := Ok(());
    }

    /**
     * The current index is well formed and every route in it joins the
     * airports of its ends as given by `places` and `routes`, which agree with
     * the current vertices and edges: the network is consistent.
     */
    lemma NarrowedKeepsConsistent(places: map<Vertex<Airport>, Airport>, routes: map<Edge<Route>, Route>)
      requires WellFormed(network.Index()) && JoinsAll(network.Index(), places, routes)
      requires network.adjacency.Keys <= places.Keys && EdgeSet(network.Index()) <= routes.Keys
      requires forall u :: u in places ==> places[u] == u.element
      requires forall x :: x in routes ==> routes[x] == x.element
      ensures Consistent()
    {
      JoinsAllNarrowed(network.Index(), places, routes, Places(), Routes());
    }

    /** The current index is a consistent index without vertex `v`: it is consistent, with v's routes gone. */
    lemma DroppedKeepsConsistent(idx: Adjacency<Vertex<Airport>, Edge<Route>>, places: map<Vertex<Airport>, Airport>,
                                 routes: map<Edge<Route>, Route>, v: Vertex<Airport>)
      requires WellFormed(idx) && JoinsAll(idx, places, routes) && v in idx
      requires network.Index() == DropVertex(idx, v)
      requires places == PlacesOf(idx.Keys) && routes == RoutesOf(EdgeSet(idx))
      ensures Consistent() && |EdgeSet(network.Index())| == |EdgeSet(idx)| - |idx[v].Values|
    {
      DroppedJoins(idx, places, routes, v);
      assert network.adjacency.Keys == network.Index().Keys == DropVertex(idx, v).Keys;
      NarrowedKeepsConsistent(places, routes);
    }

    /** Removing a vertex of the index leaves one airport fewer. */
    lemma DropVertexCount(idx: Adjacency<Vertex<Airport>, Edge<Route>>, v: Vertex<Airport>)
      requires v in idx && network.Index() == DropVertex(idx, v)
      ensures AirportCount() == |idx.Keys| - 1
    {
      assert network.Index().Keys == idx.Keys - {v};
    }

    /**
     * The current index is a well-formed index with edge `x` removed from
     * wherever the scan found it: it is the index without `x`, well formed,
     * with one route fewer, and consistent when the old index was.
     */
    lemma DetachedKeepsConsistent(idx: Adjacency<Vertex<Airport>, Edge<Route>>, places: map<Vertex<Airport>, Airport>,
                                  routes: map<Edge<Route>, Route>, x: Edge<Route>, consistent: bool)
      requires WellFormed(idx) && x in EdgeSet(idx) && network.Index() == Without(idx, x)
      requires consistent ==> JoinsAll(idx, places, routes)
      requires places == PlacesOf(network.adjacency.Keys) && routes == RoutesOf(EdgeSet(idx))
      ensures network.Index() == Without(idx, x) && WellFormed(network.Index())
      ensures |EdgeSet(network.Index())| == |EdgeSet(idx)| - 1
      ensures consistent ==> Consistent()
    {
      WithoutWellFormed(idx, x);
      WithoutEdges(idx, x);
      if consistent {
        WithoutJoins(idx, places, routes, x);
        NarrowedKeepsConsistent(places, routes);
      }
    }

    /** A step that changes none of the network's objects keeps its index and its consistency. */
    twostate lemma StateKept()
      requires unchanged(this) && unchanged(network) && unchanged(network.adjacency.Values)
      requires unchanged(network.adjacency.Keys) && unchanged(old(EdgeSet(network.Index())))
      ensures network.Index() == old(network.Index()) && Consistent() == old(Consistent())
    {
      Graphs.IndexKept(network);
    }

    /**
     * The current state is a consistent index `idx` with route `x` added, on
     * a fresh edge `e`, between the vertices holding its airports; no stored
     * route equalled `x`.  Then the network is consistent and has one more route.
     */
    lemma InsertedKeepsConsistent(idx: Adjacency<Vertex<Airport>, Edge<Route>>, places: map<Vertex<Airport>, Airport>,
                                  routes: map<Edge<Route>, Route>, u: Vertex<Airport>, v: Vertex<Airport>,
                                  e: Edge<Route>, x: Route)
      requires WellFormed(idx) && JoinsAll(idx, places, routes) && routes.Keys == EdgeSet(idx)
      requires forall y :: y in routes ==> !routes[y].Equals(x)
      requires u in idx && v in idx && u in places && v in places && places[u] == x.origin && places[v] == x.destination
      requires e !in routes && e.element == x
      requires network.Index() == AddEdge(idx, u, v, e) && Places() == places
      requires RoutesOf(EdgeSet(idx)) == routes
      ensures Consistent() && |EdgeSet(network.Index())| == |EdgeSet(idx)| + 1
    {
      AddRouteKeepsConsistent(idx, places, routes, u, v, e, x);
      RoutesOfAdded(EdgeSet(idx), e, x);
    }
  }
}
