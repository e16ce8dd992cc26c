/**
 * DijkstraResult and DijkstraConcreteResult: single-source shortest paths over a
 * graph whose edges are routes, by label-setting with a linear scan for the
 * candidate of least tentative distance, then the path read back along the
 * predecessor table.  Route distances are Java `int`s held in `double`s, and
 * `Double.MAX_VALUE` stands for "not reached": here `Distance.Infinity`.
 */
module Dijkstra {
  import opened Wrappers
  import opened AdjacencyIndex
  import opened Lists
  import opened Domain
  import opened Graphs
  import opened ShortestPaths

  /** DijkstraConcreteResult: the cost and the path, which is null when there is none. */
  datatype DijkstraConcreteResult<V> = DijkstraConcreteResult(dist: Distance, path: Option<seq<Vertex?<V>>>)

  /** The length of each route of `g`: its distance. */
  ghost function Lengths(edges: set<Edge<Route>>): map<Edge<Route>, int>
    reads edges
  {
    map e | e in edges :: e.element.distance
  }

  /** Route lengths depend on nothing but the edges' own fields. */
  twostate lemma LengthsKept(edges: set<Edge<Route>>)
    requires unchanged(edges)
    ensures Lengths(edges) == old(Lengths(edges))
  {
  }

  /** Every non-isolated vertex of `m` is reachable from `s`. */
  ghost predicate ReachesAll<T, X>(m: Adjacency<T, X>, s: T) {
    forall u :: u in m && m[u] != map[] ==> Reachable(m, s, u)
  }

  /**
   * What `dijkstra(start, end)` answers over the index `m` with route lengths
   * `len`.  It fails with InvalidVertex or with a null dereference and nothing
   * else; in a well-formed index the first happens exactly when some vertex
   * with an edge is out of reach of `start`, and otherwise it fails exactly
   * when `end` is neither the start nor a vertex of the graph.
   */
  ghost predicate Answers<V>(m: Adjacency<Vertex?<V>, Edge<Route>>, len: map<Edge<Route>, int>,
                             start: Vertex?<V>, end: Vertex?<V>, r: Result<DijkstraConcreteResult<V>, GraphError>) {
    && (r.Err? ==> r.error == InvalidVertex || r.error == NullPointer)
    && (r == Err(NullPointer) ==> end != start && end !in m)
    && (WellFormed(m) ==> (r == Err(InvalidVertex) <==> !ReachesAll(m, start)))
    && (WellFormed(m) && ReachesAll(m, start) ==> (r.Err? <==> end != start && end !in m))
    && (r.Ok? ==> Completed(m, len, start, end, r.value))
  }

  /**
   * A completed answer: infinity goes with a null path and means `end` is a
   * vertex other than the start that (in a well-formed index) cannot be
   * reached; otherwise the path runs from `start` to `end`, is a walk of the
   * graph whose cost is the answer, and no walk between the two costs less.
   * From a vertex to itself the answer is 0 along the one-vertex path.
   */
  ghost predicate Completed<V>(m: Adjacency<Vertex?<V>, Edge<Route>>, len: map<Edge<Route>, int>,
                               start: Vertex?<V>, end: Vertex?<V>, c: DijkstraConcreteResult<V>) {
    && (c.dist.Infinity? <==> c.path.None?)
    && (end == start ==> c == DijkstraConcreteResult(Finite(0), Some([start])))
    && (c.path.Some? ==> |c.path.value| >= 1 && c.path.value[0] == start && c.path.value[|c.path.value| - 1] == end)
    && (c.dist.Infinity? ==> end != start && end in m && (WellFormed(m) ==> !Reachable(m, start, end)))
    && (WellFormed(m) && c.path.Some? && end != start ==>
          IsWalk(m, c.path.value) && WalkCost(m, len, c.path.value) == c.dist.value)
    && (WellFormed(m) && c.dist.Finite? ==> LowerBound(m, len, start, end, c.dist.value))
  }

  class DijkstraResult<V(==)> {
    const network: Graph<V, Route>
    var minDist: map<Vertex?<V>, Distance>
    var predecessors: map<Vertex?<V>, Vertex?<V>>

    constructor (network: Graph<V, Route>)
      ensures this.network == network && minDist == map[] && predecessors == map[]
    {
      this.network := network;
      minDist := map[];
      predecessors := map[];
    }

    /**
     * findMinDistVertex: the first candidate, in list order, of least finite
     * distance; null when every candidate is at infinity.
     */
    method FindMinDistVertex(distances: map<Vertex?<V>, Distance>, unvisited: seq<Vertex<V>>)
      returns (r: Vertex?<V>)
      requires forall v :: v in unvisited ==> v in distances
      ensures r == null <==> forall v :: v in unvisited ==> distances[v].Infinity?
      ensures r != null ==> Selected(unvisited, distances, r)
      ensures r != null ==> forall j :: 0 <= j < |unvisited| && distances[unvisited[j]] == distances[r] ==>
                                         r in unvisited[..j + 1]
    {
      var minDistVertex: Vertex?<V> := null;
      var minDistValue := Infinity;
      for i := 0 to |unvisited|
        invariant minDistVertex == null <==> minDistValue.Infinity?
        invariant minDistVertex == null ==> forall j :: 0 <= j < i ==> distances[unvisited[j]].Infinity?
        invariant minDistVertex != null ==> minDistVertex in unvisited[..i] && distances[minDistVertex] == minDistValue
        invariant forall j :: 0 <= j < i && distances[unvisited[j]].Finite? ==>
                               minDistValue.Finite? && minDistValue.value <= distances[unvisited[j]].value
        invariant forall j :: 0 <= j < i && distances[unvisited[j]] == minDistValue && minDistVertex != null ==>
                               minDistVertex in unvisited[..j + 1]
      {
        var distV := distances[unvisited[i]];
        if Less(distV, minDistValue) {
          minDistValue := distV;
          minDistVertex := unvisited[i];
        }
      }
      r := minDistVertex;
    }

    /**
     * The tables before the main loop: every vertex is a candidate at infinity
     * with a null predecessor, the start is put at 0, and the isolated vertices
     * are dropped from the candidates (`removeIf`).
     */
    method InitialTables(ghost idx: Adjacency<Vertex?<V>, Edge<Route>>, start: Vertex?<V>)
      returns (unvisited: seq<Vertex<V>>, dist: map<Vertex?<V>, Distance>, pred: map<Vertex?<V>, Vertex?<V>>)
      requires idx == network.Index()
      ensures Pool(idx, unvisited, map[], 0)
      ensures Labels(idx, start, unvisited, map[], dist, pred)
    {
      var listed;
      listed, dist, pred := ListVertices(idx);
      dist := dist[start := Finite(0)];
      unvisited := Candidates(idx, listed);
    }

    /** The first loop: every vertex of the graph, listed once, at infinity and with a null predecessor. */
    method ListVertices(ghost idx: Adjacency<Vertex?<V>, Edge<Route>>)
      returns (listed: seq<Vertex<V>>, dist: map<Vertex?<V>, Distance>, pred: map<Vertex?<V>, Vertex?<V>>)
      requires idx == network.Index()
      ensures Distinct(listed)
      ensures forall x :: x in listed <==> x in idx
      ensures dist.Keys == idx.Keys && pred.Keys == idx.Keys
      ensures forall x :: x in dist ==> dist[x] == Infinity
      ensures forall x :: x in pred ==> pred[x] == null
    {
      var pending := network.Vertices();
      listed, dist, pred := [], map[], map[];
      while pending != {}
        invariant pending <= idx.Keys
        invariant Distinct(listed)
        invariant forall x :: x in listed ==> x in idx && x !in pending
        invariant forall x :: x in idx ==> x in pending || x in listed
        invariant dist.Keys == Members(listed) && pred.Keys == Members(listed)
        invariant forall x :: x in dist ==> dist[x] == Infinity
        invariant forall x :: x in pred ==> pred[x] == null
        decreases pending
      {
        var h :| h in pending;
        DistinctAppend(listed, h);
        listed := listed + [h];
        pred := pred[h := null];
        dist := dist[h := Infinity];
        pending := pending - {h};
      }
    }

    /** `unvisited.removeIf(isolated)`: the listed vertices that have an incident edge, in list order. */
    method Candidates(ghost idx: Adjacency<Vertex?<V>, Edge<Route>>, listed: seq<Vertex<V>>)
      returns (unvisited: seq<Vertex<V>>)
      requires idx == network.Index()
      requires Distinct(listed) && forall x :: x in listed ==> x in idx
      ensures Distinct(unvisited)
      ensures forall x :: x in unvisited <==> x in listed && NonIsolated(idx, x)
    {
      unvisited := [];
      for i := 0 to |listed|
        invariant Distinct(unvisited)
        invariant forall x :: x in unvisited ==> x in listed[..i] && NonIsolated(idx, x)
        invariant forall k :: 0 <= k < i && NonIsolated(idx, listed[k]) ==> listed[k] in unvisited
      {
        var v := listed[i];
        var edges := network.IncidentEdges(v);
        if idx[v] != map[] {
          var w :| w in idx[v];
          assert idx[v][w] in edges.value;
        }
        if edges.value != {} {
          assert v !in unvisited by {
            assert forall k :: 0 <= k < i ==> listed[k] != v;
          }
          DistinctAppend(unvisited, v);
          unvisited := unvisited + [v];
        }
      }
      assert listed[..|listed|] == listed;
    }

    /**
     * The inner loop: relax every edge of `current` towards a neighbour that is
     * still a candidate, improving its distance and predecessor only on a strict
     * improvement.
     */
    method Relax(ghost idx: Adjacency<Vertex?<V>, Edge<Route>>, ghost len: map<Edge<Route>, int>, ghost wf: bool,
                 current: Vertex<V>, edges: set<Edge<Route>>, unvisited: seq<Vertex<V>>,
                 dist0: map<Vertex?<V>, Distance>, pred0: map<Vertex?<V>, Vertex?<V>>)
      returns (dist: map<Vertex?<V>, Distance>, pred: map<Vertex?<V>, Vertex?<V>>)
      requires idx == network.Index() && len == Lengths(EdgeSet(idx)) && NonNegative(len)
      requires wf ==> WellFormed(idx)
      requires current in idx && edges == idx[current].Values
      requires Selected(unvisited, dist0, current)
      requires forall x :: x in unvisited ==> x in dist0 && x in pred0
      ensures RelaxedAll(idx, len, current, unvisited, dist0, pred0, dist, pred, wf)
    {
      var pending := edges;
      dist, pred := dist0, pred0;
      RelaxStart(idx, len, current, unvisited, dist0, pred0, wf);
      while pending != {}
        invariant pending <= edges
        invariant RelaxedBut(idx, len, current, unvisited, dist0, pred0, dist, pred, pending, wf)
        decreases pending
      {
        var e :| e in pending;
        IndexKept(network);
        LengthsKept(EdgeSet(idx));
        dist, pred := RelaxEdge(idx, len, wf, current, e, unvisited, dist0, pred0, dist, pred, pending);
        pending := pending - {e};
      }
    }

    /** The body of the inner loop for one incident edge `e` of `current`. */
    method RelaxEdge(ghost idx: Adjacency<Vertex?<V>, Edge<Route>>, ghost len: map<Edge<Route>, int>, ghost wf: bool,
                     current: Vertex<V>, e: Edge<Route>, unvisited: seq<Vertex<V>>,
                     ghost dist0: map<Vertex?<V>, Distance>, ghost pred0: map<Vertex?<V>, Vertex?<V>>,
                     dist: map<Vertex?<V>, Distance>, pred: map<Vertex?<V>, Vertex?<V>>, ghost pending: set<Edge<Route>>)
      returns (dist': map<Vertex?<V>, Distance>, pred': map<Vertex?<V>, Vertex?<V>>)
      requires idx == network.Index() && len == Lengths(EdgeSet(idx)) && NonNegative(len)
      requires wf ==> WellFormed(idx)
      requires current in idx && e in idx[current].Values
      requires Selected(unvisited, dist0, current)
      requires forall x :: x in unvisited ==> x in dist0 && x in pred0
      requires RelaxedBut(idx, len, current, unvisited, dist0, pred0, dist, pred, pending, wf)
      ensures RelaxedBut(idx, len, current, unvisited, dist0, pred0, dist', pred', pending - {e}, wf)
    {
      var o, edgeDist := Across(idx, len, wf, current, e);
      assert RelaxContext(idx, len, current, unvisited, dist0, pred0, e, o, edgeDist, wf);
      dist', pred' := dist, pred;
      if o in unvisited {
        assert Updated(idx, len, current, unvisited, dist0, pred0, dist, pred, o, wf);
        assert Updated(idx, len, current, unvisited, dist0, pred0, dist, pred, current, wf);
        var currentDist := dist[current].value;
        var totalDist := currentDist + edgeDist;
        if Less(Finite(totalDist), dist[o]) {
          RelaxImprove(idx, len, current, unvisited, dist0, pred0, dist, pred, pending, wf, e, o, edgeDist);
          dist' := dist[o := Finite(totalDist)];
          pred' := pred[o := current];
          return;
        }
      }
      RelaxKeep(idx, len, current, unvisited, dist0, pred0, dist, pred, pending, wf, e, o, edgeDist);
    }

    /**
     * One edge of the inner loop: `opposite(currentH, e)` and the route's
     * distance.
     */
    method Across(ghost idx: Adjacency<Vertex?<V>, Edge<Route>>, ghost len: map<Edge<Route>, int>, ghost wf: bool,
                  v: Vertex<V>, e: Edge<Route>)
      returns (o: Vertex<V>, d: int)
      requires idx == network.Index() && len == Lengths(EdgeSet(idx)) && NonNegative(len)
      requires wf ==> WellFormed(idx)
      requires v in idx && e in idx[v].Values
      ensures d == Len(len, e) && d >= 0
      ensures wf ==> HoldsAt(idx, e, v, o)
    {
      network.IncidentEdgesAreHeldAt(v, e);
      if wf {
        assert Symmetric<Vertex<V>, Edge<Route>>(network.Index());
        assert UniquePlacement<Vertex<V>, Edge<Route>>(network.Index());
      }
      var opposite := network.Opposite(v, e);
      IndexKept(network);
      o := opposite.value;
      d := e.element.distance;
    }

    /**
     * The second loop: follow the predecessors back from `end` to `start`, then
     * reverse.  A settled vertex's predecessor was settled before it, so the
     * walk back ends.
     */
    method BuildPath(ghost idx: Adjacency<Vertex?<V>, Edge<Route>>, ghost len: map<Edge<Route>, int>, ghost wf: bool,
                     ghost settled: map<Vertex?<V>, nat>,
                     start: Vertex?<V>, end: Vertex?<V>,
                     dist: map<Vertex?<V>, Distance>, pred: map<Vertex?<V>, Vertex?<V>>)
      returns (path: seq<Vertex?<V>>)
      requires PredecessorTree(idx, start, settled, dist, pred)
      requires wf ==> forall x :: x in dist && x != start && dist[x].Finite? ==> TreeEdge(idx, len, dist, pred, x)
      requires end in dist && dist[end].Finite?
      ensures |path| >= 1 && path[0] == start && path[|path| - 1] == end
      ensures end == start ==> path == [start]
      ensures wf && end != start ==> IsWalk(idx, path) && WalkCost(idx, len, path) == dist[end].value
    {
      var trail: seq<Vertex?<V>> := [];
      var current := end;
      ghost var forward: seq<Vertex?<V>> := [end];
      assert current != start ==> Parented([], settled, pred, current);
      assert end != start ==> end in idx;
      while current != start
        invariant current in dist && dist[current].Finite?
        invariant current in settled || current == start
        invariant end == start ==> trail == []
        invariant forward == [current] + Reverse(trail)
        invariant forward[|forward| - 1] == end
        invariant wf && end != start ==> IsWalk(idx, forward)
        invariant wf && end != start ==> WalkCost(idx, len, forward) == dist[end].value - dist[current].value
        decreases if current in settled then settled[current] + 1 else 0
      {
        assert Parented([], settled, pred, current);
        if wf {
          TreeEdgeExtends(idx, len, dist, pred, current, forward);
        }
        ReverseAppend(trail, current);
        trail := trail + [current];
        current := pred[current];
        forward := [current] + forward;
      }
      ReverseAppend(trail, start);
      path := Reverse(trail + [start]);
    }

    /**
     * dijkstra(start, end).  Fails with InvalidVertex when the scan finds every
     * remaining candidate at infinity (`incidentEdges(null)`), which in a
     * well-formed index happens exactly when some non-isolated vertex is
     * unreachable from `start`; fails with a null dereference when `end` has no
     * distance at all.  Otherwise the cost is infinity with a null path, or the
     * least cost of a walk from `start` to `end` with such a walk.
     */
    method Dijkstra(start: Vertex?<V>, end: Vertex?<V>) returns (r: Result<DijkstraConcreteResult<V>, GraphError>)
      requires NonNegative(Lengths(EdgeSet<Vertex?<V>, Edge<Route>>(network.Index())))
      ensures Answers(network.Index(), Lengths(EdgeSet<Vertex?<V>, Edge<Route>>(network.Index())), start, end, r)
      ensures r == Err(NullPointer) ==> network.CheckVertex(end).Err?
    {
      ghost var idx: Adjacency<Vertex?<V>, Edge<Route>> := network.Index();
      ghost var len := Lengths(EdgeSet(idx));
      ghost var wf := WellFormed(idx);
      var unvisited, minDist, predecessors := InitialTables(idx, start);
      LengthsKept(EdgeSet(idx));
      var failure;
      ghost var settled, step;
      failure, minDist, predecessors, settled, step := Scan(idx, len, wf, start, unvisited, minDist, predecessors);
      if failure.Some? {
        r := Err(failure.value);
      } else {
        r := Conclude(idx, len, wf, settled, step, start, end, minDist, predecessors);
      }
      IndexKept(network);
      LengthsKept(EdgeSet(idx));
    }

    /**
     * The outer loop: settle the candidate of least finite distance and relax
     * its edges until no candidate is left.  When every remaining candidate is
     * at infinity the scan yields null and `incidentEdges(null)` fails; in a
     * well-formed index that happens exactly when some vertex with an edge is
     * out of reach.
     */
    method Scan(ghost idx: Adjacency<Vertex?<V>, Edge<Route>>, ghost len: map<Edge<Route>, int>, ghost wf: bool,
                start: Vertex?<V>, unvisited0: seq<Vertex<V>>,
                dist0: map<Vertex?<V>, Distance>, pred0: map<Vertex?<V>, Vertex?<V>>)
      returns (failure: Option<GraphError>,
               minDist: map<Vertex?<V>, Distance>, predecessors: map<Vertex?<V>, Vertex?<V>>,
               ghost settled: map<Vertex?<V>, nat>, ghost step: nat)
      requires idx == network.Index() && len == Lengths(EdgeSet(idx)) && NonNegative(len)
      requires wf <==> WellFormed(idx)
      requires Pool(idx, unvisited0, map[], 0) && Labels(idx, start, unvisited0, map[], dist0, pred0)
      ensures failure.Some? ==> failure.value == InvalidVertex
      ensures wf ==> (failure.Some? <==> !ReachesAll(idx, start))
      ensures failure.None? ==> Pool(idx, [], settled, step) && Labels(idx, start, [], settled, minDist, predecessors)
      ensures failure.None? && wf ==> Optimal(idx, len, start, [], settled, minDist, predecessors)
    {
      var unvisited: seq<Vertex<V>> := unvisited0;
      minDist, predecessors := dist0, pred0;
      settled, step := map[], 0;
      while unvisited != []
        invariant Pool(idx, unvisited, settled, step) && Labels(idx, start, unvisited, settled, minDist, predecessors)
        invariant wf ==> Optimal(idx, len, start, unvisited, settled, minDist, predecessors)
        decreases |unvisited|
      {
        IndexKept(network);
        LengthsKept(EdgeSet(idx));
        var current, stuck, next, dist, pred := Visit(idx, len, wf, start, unvisited, settled, step, minDist, predecessors);
        if stuck.Some? {
          return stuck, minDist, predecessors, settled, step;
        }
        minDist, predecessors := dist, pred;
        unvisited := next;
        settled := settled[current := step];
        step := step + 1;
      }
      if wf {
        DoneMeansAllReachable(idx, len, start, settled, step, minDist, predecessors);
      }
      failure := None;
    }

    /**
     * One round of the outer loop: pick the candidate of least finite distance
     * and relax its edges.  The round fails, as `incidentEdges(null)` does,
     * exactly when every candidate is at infinity.
     */
    method Visit(ghost idx: Adjacency<Vertex?<V>, Edge<Route>>, ghost len: map<Edge<Route>, int>, ghost wf: bool,
                 start: Vertex?<V>, unvisited: seq<Vertex<V>>, ghost settled: map<Vertex?<V>, nat>, ghost step: nat,
                 minDist: map<Vertex?<V>, Distance>, predecessors: map<Vertex?<V>, Vertex?<V>>)
      returns (current: Vertex?<V>, stuck: Option<GraphError>, next: seq<Vertex<V>>,
               dist: map<Vertex?<V>, Distance>, pred: map<Vertex?<V>, Vertex?<V>>)
      requires idx == network.Index() && len == Lengths(EdgeSet(idx)) && NonNegative(len)
      requires wf <==> WellFormed(idx)
      requires unvisited != []
      requires Pool(idx, unvisited, settled, step) && Labels(idx, start, unvisited, settled, minDist, predecessors)
      requires wf ==> Optimal(idx, len, start, unvisited, settled, minDist, predecessors)
      ensures stuck.Some? ==> stuck.value == InvalidVertex && (wf ==> !ReachesAll(idx, start))
      ensures stuck.None? ==> |next| < |unvisited|
      ensures stuck.None? ==> Pool(idx, next, settled[current := step], step + 1)
      ensures stuck.None? ==> Labels(idx, start, next, settled[current := step], dist, pred)
      ensures stuck.None? && wf ==> Optimal(idx, len, start, next, settled[current := step], dist, pred)
    {
      current := FindMinDistVertex(minDist, unvisited);
      IndexKept(network);
      LengthsKept(EdgeSet(idx));
      var edges := network.IncidentEdges(current);
      if edges.Err? {
        if wf {
          StuckMeansUnreachable(idx, len, start, unvisited, settled, step, minDist, predecessors);
        }
        return current, Some(edges.error), unvisited, minDist, predecessors;
      }
      dist, pred := Relax(idx, len, wf, current, edges.value, unvisited, minDist, predecessors);
      next := RemoveFirst<Vertex<V>>(unvisited, current);
      RemoveFirstDrops(unvisited, current);
      SettleStep(idx, len, start, unvisited, next, settled, step, minDist, predecessors, current, dist, pred, wf);
      stuck := None;
    }

    /**
     * After the outer loop: read the end's distance (a null dereference when
     * the end never received one), answer infinity with a null path, or walk
     * the predecessors back from the end.
     */
    method Conclude(ghost idx: Adjacency<Vertex?<V>, Edge<Route>>, ghost len: map<Edge<Route>, int>, ghost wf: bool,
                    ghost settled: map<Vertex?<V>, nat>, ghost step: nat,
                    start: Vertex?<V>, end: Vertex?<V>,
                    minDist: map<Vertex?<V>, Distance>, predecessors: map<Vertex?<V>, Vertex?<V>>)
      returns (r: Result<DijkstraConcreteResult<V>, GraphError>)
      requires NonNegative(len) && (wf <==> WellFormed(idx))
      requires Pool(idx, [], settled, step) && Labels(idx, start, [], settled, minDist, predecessors)
      requires wf ==> Optimal(idx, len, start, [], settled, minDist, predecessors)
      ensures r.Err? <==> end != start && end !in idx
      ensures r.Err? ==> r.error == NullPointer
      ensures r.Ok? ==> Completed(idx, len, start, end, r.value)
    {
      if end !in minDist {
        return Err(NullPointer);
      }
      var dist := minDist[end];
      if dist.Infinity? {
        if wf {
          IsolatedUnreachable(idx, start, end);
        }
        return Ok(DijkstraConcreteResult(dist, None));
      }
      DoneTree(idx, start, settled, step, minDist, predecessors);
      var path := BuildPath(idx, len, wf, settled, start, end, minDist, predecessors);
      if wf {
        FinalBound(idx, len, start, end, settled, step, minDist, predecessors);
      }
      r := Ok(DijkstraConcreteResult(dist, Some(path)));
    }
  }

  /** The settled distance of the end vertex bounds every walk to it. */
  lemma FinalBound<T, X>(m: Adjacency<T, X>, len: map<X, int>, s: T, t: T, settled: map<T, nat>, step: nat,
                         dist: map<T, Distance>, pred: map<T, T>)
    requires NonNegative(len)
    requires Pool(m, [], settled, step) && Labels(m, s, [], settled, dist, pred)
    requires Optimal(m, len, s, [], settled, dist, pred)
    requires t in dist && dist[t].Finite?
    ensures LowerBound(m, len, s, t, dist[t].value)
  {
    if t == s {
      forall p | IsWalk(m, p) && p[0] == s && p[|p| - 1] == t ensures WalkCost(m, len, p) >= 0 {
        WalkCostNonNegative(m, len, p);
      }
    } else {
      assert Parented([], settled, pred, t);
    }
  }
}
