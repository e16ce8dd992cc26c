/**
 * GraphAdjacencyMatrix: an undirected graph stored as one map from each vertex to
 * its neighbour map (neighbour -> the edge joining them).  Vertices and edges are
 * identity tokens holding a replaceable element.  Neighbour maps are objects of
 * their own, because the copy constructor copies only the outer map and the copy
 * then shares every neighbour map with the original.
 */
module Graphs {
  import opened Wrappers
  import opened AdjacencyIndex
  import opened Lists
  import Ranking

  /** The exceptions the graph operations throw, and the null dereferences they run into. */
  datatype GraphError = InvalidVertex | InvalidEdge | NullPointer

  /** MyVertex: a token carrying an element; no `equals` override, so compared by reference. */
  class Vertex<V> {
    var element: V

    constructor (element: V)
      ensures this.element == element
    {
      this.element := element;
    }
  }

  /** MyEdge: a token carrying an element; its endpoints are not stored (see `Endpoints`). */
  class Edge<E> {
    var element: E

    constructor (element: E)
      ensures this.element == element
    {
      this.element := element;
    }
  }

  /** The per-vertex neighbour map (a LinkedHashMap). */
  class Neighbours<V, E> {
    var entries: map<Vertex<V>, Edge<E>>

    constructor ()
      ensures entries == map[]
    {
      entries := map[];
    }
  }

  class Graph<V(==), E> {
    /** The adjacency map: each vertex to its own neighbour map. */
    var adjacency: map<Vertex<V>, Neighbours<V, E>>
    /** `equals` on edge elements, used by the duplicate-edge lookups. */
    const sameEdge: (E, E) -> bool

    /** Within one graph every vertex has a neighbour map of its own. */
    ghost predicate Valid()
      reads this
    {
      forall u, w :: u in adjacency && w in adjacency && u != w ==> adjacency[u] != adjacency[w]
    }

    /** The current contents of the adjacency map, as a value. */
    ghost function Index(): Adjacency<Vertex<V>, Edge<E>>
      reads this, adjacency.Values
    {
      map u | u in adjacency :: adjacency[u].entries
    }

    /** An empty graph. */
    constructor (sameEdge: (E, E) -> bool)
      ensures adjacency == map[] && this.sameEdge == sameEdge
      ensures Valid() && Index() == map[]
    {
      adjacency := map[];
      this.sameEdge := sameEdge;
    }

    /** The copy constructor: a new outer map over the same neighbour-map objects. */
    constructor Copy(g: Graph<V, E>)
      ensures adjacency == g.adjacency && sameEdge == g.sameEdge
      ensures g.Valid() ==> Valid()
      ensures Index() == g.Index()
    {
      adjacency := g.adjacency;
      sameEdge := g.sameEdge;
    }

    /** checkVertex: a vertex of this graph, or InvalidVertex (null or foreign vertex). */
    function CheckVertex(v: Vertex?<V>): (r: Result<Vertex<V>, GraphError>)
      reads this
      ensures r.Ok? <==> v != null && v in Index().Keys
      ensures r.Ok? ==> r.value == v
      ensures r.Err? ==> r.error == InvalidVertex
    {
      if v == null || v !in adjacency then Err(InvalidVertex) else Ok(v)
    }

    /** areAdjacent: whether `v` is a key of `u`'s neighbour map. */
    function AreAdjacent(u: Vertex?<V>, v: Vertex?<V>): (r: Result<bool, GraphError>)
      reads this, adjacency.Values
      ensures r.Err? <==> CheckVertex(u).Err? || CheckVertex(v).Err?
      ensures r.Err? ==> r.error == InvalidVertex
      ensures r.Ok? ==> (r.value <==> v in Index()[u])
    {
      if CheckVertex(u).Err? || CheckVertex(v).Err? then Err(InvalidVertex)
      else Ok(v in adjacency[u].entries)
    }

    /** adjacentTo: the keys of `v`'s neighbour map; a vertex without a map is dereferenced as null. */
    function AdjacentTo(v: Vertex?<V>): (r: Result<set<Vertex<V>>, GraphError>)
      reads this, adjacency.Values
      ensures r.Err? <==> CheckVertex(v).Err?
      ensures r.Err? ==> r.error == NullPointer
      ensures r.Ok? ==> r.value == Index()[v].Keys
    {
      if v == null || v !in adjacency then Err(NullPointer) else Ok(adjacency[v].entries.Keys)
    }

    /** numVertices. */
    function NumVertices(): (n: nat)
      reads this, adjacency.Values
      ensures n == |Index().Keys|
    {
      assert Index().Keys == adjacency.Keys;
      |adjacency|
    }

    /** vertices: the key set of the adjacency map. */
    function Vertices(): (r: set<Vertex<V>>)
      reads this, adjacency.Values
      ensures |r| == NumVertices()
      ensures r == Index().Keys
    {
      adjacency.Keys
    }

    /** incidentEdges: the values of `v`'s neighbour map. */
    function IncidentEdges(v: Vertex?<V>): (r: Result<set<Edge<E>>, GraphError>)
      reads this, adjacency.Values
      ensures r.Err? <==> CheckVertex(v).Err?
      ensures r.Err? ==> r.error == InvalidVertex
      ensures r.Ok? ==> r.value == Index()[v].Values
    {
      if v == null || v !in adjacency then Err(InvalidVertex) else Ok(adjacency[v].entries.Values)
    }

    /** isIsolated: no incident edge. */
    function IsIsolated(v: Vertex?<V>): (r: Result<bool, GraphError>)
      reads this, adjacency.Values
      ensures r.Err? <==> CheckVertex(v).Err?
      ensures r.Err? ==> r.error == InvalidVertex
      ensures r.Ok? ==> (r.value <==> Index()[v] == map[])
    {
      match IncidentEdges(v)
      case Err(err) => Err(err)
      case Ok(edges) =>
        assert edges == {} <==> adjacency[v].entries == map[] by {
          if adjacency[v].entries != map[] {
            var w :| w in adjacency[v].entries;
            assert adjacency[v].entries[w] in edges;
          }
        }
        Ok(edges == {})
    }

    // -------------------------------------------------------------------------
    // What the queries mean.
    // -------------------------------------------------------------------------

    /** Adjacency is symmetric in an undirected index. */
    lemma AreAdjacentSymmetric(u: Vertex?<V>, v: Vertex?<V>)
      requires WellFormed(Index())
      ensures AreAdjacent(u, v) == AreAdjacent(v, u)
    {
    }

    /** `adjacentTo(v)` lists exactly the vertices `v` is adjacent to. */
    lemma AdjacentToIsAdjacency(v: Vertex?<V>, w: Vertex?<V>)
      requires WellFormed(Index()) && AdjacentTo(v).Ok?
      ensures w in AdjacentTo(v).value <==> AreAdjacent(v, w) == Ok(true)
    {
      if w in AdjacentTo(v).value {
        assert w in Index()[v] && w != null;
      }
    }

    /** An incident edge is an edge of the graph held at `v`; in an undirected index it is held from both ends. */
    lemma IncidentEdgesAreHeldAt(v: Vertex?<V>, e: Edge<E>)
      requires IncidentEdges(v).Ok? && e in IncidentEdges(v).value
      ensures e in EdgeSet(Index())
      ensures exists w :: HoldsAt(Index(), e, v, w)
      ensures WellFormed(Index()) ==> exists w :: HoldsAt(Index(), e, w, v)
    {
      var w :| w in Index()[v] && Index()[v][w] == e;
      assert HoldsAt(Index(), e, v, w);
      if WellFormed(Index()) {
        assert HoldsAt(Index(), e, w, v);
      }
    }

    /** A vertex is isolated exactly when it is adjacent to no vertex. */
    lemma IsolatedIffNoNeighbour(v: Vertex?<V>)
      requires WellFormed(Index()) && CheckVertex(v).Ok?
      ensures IsIsolated(v) == Ok(true) <==> forall w :: AreAdjacent(v, w) != Ok(true)
    {
      if IsIsolated(v) != Ok(true) {
        var w :| w in Index()[v];
        assert AreAdjacent(v, w) == Ok(true);
      }
    }

    // -------------------------------------------------------------------------
    // Scans over the adjacency map.  Hash-map iteration order is not specified,
    // so each scan picks the next key arbitrarily.
    // -------------------------------------------------------------------------

    /** findVertex: a vertex whose element equals `x`, or null when there is none. */
    method FindVertex(x: V) returns (r: Vertex?<V>)
      ensures r == null <==> forall u :: u in adjacency ==> u.element != x
      ensures r != null ==> r in adjacency && r.element == x
    {
      var pending := adjacency.Keys;
      while pending != {}
        invariant pending <= adjacency.Keys
        invariant forall u :: u in adjacency && u !in pending ==> u.element != x
      {
        var u :| u in pending;
        if u.element == x {
          return u;
        }
        pending := pending - {u};
      }
      return null;
    }

    /** existsVertexWith: whether some vertex holds an element equal to `x`. */
    method ExistsVertexWith(x: V) returns (b: bool)
      ensures b <==> exists u :: u in adjacency && u.element == x
    {
      var pending := adjacency.Keys;
      while pending != {}
        invariant pending <= adjacency.Keys
        invariant forall u :: u in adjacency && u !in pending ==> u.element != x
      {
        var u :| u in pending;
        if u.element == x {
          return true;
        }
        pending := pending - {u};
      }
      return false;
    }

    /** edges: every edge once, although each non-loop edge is stored under both its ends. */
    method Edges() returns (r: seq<Edge<E>>)
      ensures Distinct(r)
      ensures Members(r) == EdgeSet(Index())
    {
      ghost var idx := Index();
      r := [];
      var pending := adjacency.Keys;
      while pending != {}
        invariant pending <= adjacency.Keys
        invariant Distinct(r)
        invariant Members(r) == EdgesFrom(idx, adjacency.Keys - pending)
      {
        var u :| u in pending;
        var m := adjacency[u].entries;
        var rest := m.Keys;
        while rest != {}
          invariant rest <= m.Keys
          invariant Distinct(r)
          invariant EdgesFrom(idx, adjacency.Keys - pending) <= Members(r)
          invariant Members(r) <= EdgesFrom(idx, adjacency.Keys - pending) + m.Values
          invariant forall w :: w in m.Keys - rest ==> m[w] in r
        {
          var w :| w in rest;
          if m[w] !in r {
            r := r + [m[w]];
          }
          rest := rest - {w};
        }
        EdgesFromStep(idx, adjacency.Keys - pending, u);
        assert idx[u] == m;
        assert adjacency.Keys - (pending - {u}) == (adjacency.Keys - pending) + {u};
        pending := pending - {u};
      }
      EdgesFromBounds(idx);
    }

    /** numEdges: the size of `edges()`, i.e. the number of distinct edges. */
    method NumEdges() returns (n: nat)
      ensures n == |EdgeSet(Index())|
    {
      var all := Edges();
      DistinctMembers(all);
      n := |all|;
    }

    /** checkEdge: an edge listed by `edges()`, or InvalidEdge (null or not in this graph). */
    method CheckEdge(e: Edge?<E>) returns (r: Result<Edge<E>, GraphError>)
      ensures r.Ok? <==> e != null && e in EdgeSet(Index())
      ensures r.Ok? ==> r.value == e
      ensures r.Err? ==> r.error == InvalidEdge
    {
      if e == null {
        return Err(InvalidEdge);
      }
      var all := Edges();
      if e !in all {
        return Err(InvalidEdge);
      }
      return Ok(e);
    }

    /** findEdge: the first listed edge whose element equals `x`, or null. */
    method FindEdge(x: E) returns (r: Edge?<E>)
      ensures r == null <==> forall e :: e in EdgeSet(Index()) ==> !sameEdge(e.element, x)
      ensures r != null ==> r in EdgeSet(Index()) && sameEdge(r.element, x)
    {
      var all := Edges();
      var i := 0;
      while i < |all|
        invariant 0 <= i <= |all|
        invariant forall k :: 0 <= k < i ==> !sameEdge(all[k].element, x)
      {
        if sameEdge(all[i].element, x) {
          return all[i];
        }
        i := i + 1;
      }
      return null;
    }

    /** existsEdgeWith: whether some edge holds an element equal to `x`. */
    method ExistsEdgeWith(x: E) returns (b: bool)
      ensures b <==> exists e :: e in EdgeSet(Index()) && sameEdge(e.element, x)
    {
      var all := Edges();
      var i := 0;
      while i < |all|
        invariant 0 <= i <= |all|
        invariant forall k :: 0 <= k < i ==> !sameEdge(all[k].element, x)
      {
        if sameEdge(all[i].element, x) {
          return true;
        }
        i := i + 1;
      }
      return false;
    }

    /**
     * MyEdge.vertices: the first entry (u -> w) found holding `e`, or None (the
     * source's `[null, null]`) when no neighbour map holds it any more.
     */
    method Endpoints(e: Edge<E>) returns (r: Option<(Vertex<V>, Vertex<V>)>)
      ensures r.None? <==> e !in EdgeSet(Index())
      ensures r.Some? ==> HoldsAt(Index(), e, r.value.0, r.value.1)
    {
      ghost var idx := Index();
      var pending := adjacency.Keys;
      while pending != {}
        invariant pending <= adjacency.Keys
        invariant e !in EdgesFrom(idx, adjacency.Keys - pending)
      {
        var u :| u in pending;
        var m := adjacency[u].entries;
        var rest := m.Keys;
        while rest != {}
          invariant rest <= m.Keys
          invariant forall w :: w in m.Keys - rest ==> m[w] != e
        {
          var w :| w in rest;
          if m[w] == e {
            assert idx[u] == m;
            return Some((u, w));
          }
          rest := rest - {w};
        }
        EdgesFromStep(idx, adjacency.Keys - pending, u);
        assert adjacency.Keys - (pending - {u}) == (adjacency.Keys - pending) + {u};
        pending := pending - {u};
      }
      EdgesFromBounds(idx);
      return None;
    }

    /**
     * opposite: the other end of `e` seen from `v` (`v` itself for a self-loop).
     * Fails unless `v` is a vertex and `e` an edge incident to it.
     */
    method Opposite(v: Vertex?<V>, e: Edge?<E>) returns (r: Result<Vertex<V>, GraphError>)
      ensures r.Err? <==> CheckVertex(v).Err? || e == null || e !in Index()[v].Values
      ensures r.Err? ==> r.error == (if CheckVertex(v).Err? then InvalidVertex else InvalidEdge)
      ensures r.Ok? ==> exists x :: HoldsAt(Index(), e, x, r.value) || HoldsAt(Index(), e, r.value, x)
      ensures r.Ok? && WellFormed(Index()) ==> HoldsAt(Index(), e, v, r.value)
    {
      if v == null || v !in adjacency {
        return Err(InvalidVertex);
      }
      ghost var idx := Index();
      var checked := CheckEdge(e);
      if checked.Err? {
        return Err(InvalidEdge);
      }
      assert Index() == idx;
      if e !in adjacency[v].entries.Values {
        return Err(InvalidEdge);
      }
      var ends := Endpoints(e);
      assert Index() == idx;
      var (x, y) := ends.value;
      r := Ok(if x == v then y else x);
      assert HoldsAt(idx, e, x, y);
      if WellFormed(idx) {
        OppositeIsOtherEnd(idx, v, e, x, y);
      }
    }

    // -------------------------------------------------------------------------
    // Mutators.  Each states its new adjacency map as a function of the old one
    // (module AdjacencyIndex proves what those functions preserve).  Neighbour
    // maps are updated in place, so a copy sharing them sees the same updates.
    // -------------------------------------------------------------------------

    /** Replaces the contents of one vertex's neighbour map; no other map of this graph is touched. */
    method SetEntries(u: Vertex<V>, m: map<Vertex<V>, Edge<E>>)
      requires Valid() && u in adjacency
      modifies adjacency[u]
      ensures Index() == old(Index())[u := m]
    {
      adjacency[u].entries := m;
    }

    /** insertVertex: rejects an element already held by a vertex; otherwise adds a fresh isolated vertex. */
    method InsertVertex(x: V) returns (r: Result<Vertex<V>, GraphError>)
      requires Valid()
      modifies this
      ensures Valid()
      ensures r.Err? <==> exists u :: u in old(adjacency) && u.element == x
      ensures r.Err? ==> r.error == InvalidVertex && adjacency == old(adjacency)
      ensures r.Ok? ==> fresh(r.value) && r.value.element == x
      ensures r.Ok? ==> r.value !in old(Index()) && Index() == AddVertex(old(Index()), r.value)
      ensures r.Ok? ==> forall u :: u in old(adjacency) ==> u in adjacency && adjacency[u] == old(adjacency[u])
    {
      var found := FindVertex(x);
      if found != null {
        return Err(InvalidVertex);
      }
      var v := new Vertex(x);
      var nb := new Neighbours();
      adjacency := adjacency[v := nb];
      r := Ok(v);
    }

    /**
     * insertEdge: both ends must be vertices of this graph and no edge may hold an
     * element equal to `x`; the new edge is registered under u -> v and v -> u,
     * replacing any edge already stored between them.
     */
    method InsertEdge(u: Vertex?<V>, v: Vertex?<V>, x: E) returns (r: Result<Edge<E>, GraphError>)
      requires Valid()
      modifies adjacency.Values
      ensures Valid()
      ensures r.Err? <==> (CheckVertex(u).Err? || CheckVertex(v).Err? ||
                           exists e :: e in old(EdgeSet(Index())) && sameEdge(e.element, x))
      ensures r.Err? ==> r.error == (if CheckVertex(u).Err? || CheckVertex(v).Err? then InvalidVertex else InvalidEdge)
      ensures r.Err? ==> Index() == old(Index())
      ensures r.Ok? ==> fresh(r.value) && r.value.element == x
      ensures r.Ok? ==> r.value !in old(EdgeSet(Index())) && Index() == AddEdge(old(Index()), u, v, r.value)
    {
      if u == null || u !in adjacency || v == null || v !in adjacency {
        return Err(InvalidVertex);
      }
      ghost var idx := Index();
      var found := FindEdge(x);
      IndexKept(this);
      if found != null {
        return Err(InvalidEdge);
      }
      var edge := new Edge(x);
      SetEntries(u, adjacency[u].entries[v := edge]);
      ghost var half := idx[u := idx[u][v := edge]];
      assert Index() == half;
      if u == v {
        return Ok(edge);
      }
      SetEntries(v, adjacency[v].entries[u := edge]);
      assert Index() == half[v := idx[v][u := edge]] == AddEdge(idx, u, v, edge);
      return Ok(edge);
    }

    /** insertEdge by elements: looks both vertices up with `findVertex`; a missing one is a null vertex. */
    method InsertEdgeBetween(x1: V, x2: V, x: E) returns (r: Result<Edge<E>, GraphError>, ghost u: Vertex?<V>, ghost v: Vertex?<V>)
      requires Valid()
      modifies adjacency.Values
      ensures Valid() && unchanged(adjacency.Keys) && unchanged(old(EdgeSet(Index())))
      ensures r.Err? <==> (|| (forall u :: u in adjacency ==> u.element != x1)
                           || (forall u :: u in adjacency ==> u.element != x2)
                           || exists e :: e in old(EdgeSet(Index())) && sameEdge(e.element, x))
      ensures (forall u :: u in adjacency ==> u.element != x1) ==> r == Err(InvalidVertex)
      ensures (forall u :: u in adjacency ==> u.element != x2) ==> r == Err(InvalidVertex)
      ensures r.Err? && r.error != InvalidVertex ==> r.error == InvalidEdge
      ensures r.Err? ==> Index() == old(Index())
      ensures r.Ok? ==> fresh(r.value) && r.value.element == x && r.value !in old(EdgeSet(Index()))
      ensures r.Ok? ==> u in adjacency && v in adjacency && u.element == x1 && v.element == x2
      ensures r.Ok? ==> Index() == AddEdge(old(Index()), u, v, r.value)
    {
      var a := FindVertex(x1);
      var b := FindVertex(x2);
      u, v := a, b;
      r := InsertEdge(a, b, x);
    }

    /** removeVertex: drops `v` and every neighbour-map entry keyed by `v`; answers its element. */
    method RemoveVertex(v: Vertex?<V>) returns (r: Result<V, GraphError>)
      requires Valid()
      modifies this, adjacency.Values
      ensures Valid()
      ensures r.Err? <==> old(CheckVertex(v)).Err?
      ensures r.Err? ==> r == Err(InvalidVertex) && adjacency == old(adjacency) && Index() == old(Index())
      ensures r.Ok? ==> r.value == v.element && Index() == DropVertex(old(Index()), v)
      ensures r.Ok? ==> forall n :: n in old(adjacency.Values) ==> n.entries == old(n.entries) - {v}
    {
      if v == null || v !in adjacency {
        return Err(InvalidVertex);
      }
      var pending := adjacency.Values;
      while pending != {}
        invariant pending <= adjacency.Values
        invariant adjacency == old(adjacency)
        invariant forall n :: n in adjacency.Values && n !in pending ==> n.entries == old(n.entries) - {v}
        invariant forall n :: n in pending ==> n.entries == old(n.entries)
      {
        var n :| n in pending;
        n.entries := n.entries - {v};
        pending := pending - {n};
      }
      adjacency := adjacency - {v};
      r := Ok(v.element);
    }

    /** clear: empties the adjacency map (the neighbour maps themselves are left as they were). */
    method Clear()
      modifies this
      ensures adjacency == map[]
      ensures Valid() && Index() == map[]
    {
      adjacency := map[];
    }

    /**
     * removeEdge: `e` must be listed by `edges()`; the entry found by `Endpoints`
     * and its mirror are removed (each only while it still holds `e`).  When the
     * mirror's vertex has no neighbour map the lookup dereferences null, after the
     * first removal.
     */
    method RemoveEdge(e: Edge?<E>) returns (r: Result<E, GraphError>)
      requires Valid()
      modifies adjacency.Values
      ensures Valid()
      ensures r.Err? ==> r.error == InvalidEdge || r.error == NullPointer
      ensures r.Err? && r.error != NullPointer ==> Index() == old(Index())
      ensures r == Err(InvalidEdge) <==> e == null || e !in old(EdgeSet(Index()))
      ensures old(Symmetric(Index())) ==> r != Err(NullPointer)
      ensures r.Ok? ==> r.value == e.element
      ensures r.Ok? ==> exists o, d :: (HoldsAt(old(Index()), e, o, d) && d in old(Index()) &&
                                        Index() == DropEdgeAt(old(Index()), o, d, e))
      ensures r.Ok? && old(WellFormed(Index())) ==> Index() == Without<Vertex<V>, Edge<E>>(old(Index()), e)
    {
      ghost var idx := Index();
      var checked := CheckEdge(e);
      if checked.Err? {
        return Err(InvalidEdge);
      }
      var ends := Endpoints(e);
      var (o, d) := ends.value;
      assert HoldsAt(idx, e, o, d) && Index() == idx;
      r := DetachEdge(e, o, d);
      if Symmetric(idx) {
        assert d in idx by { assert d in idx[o]; }
      }
      if r.Ok? {
        assert idx == old(Index());
        assert HoldsAt(old(Index()), e, o, d);
      }
    }

    /** The second half of removeEdge: drops the entry o -> d holding `e`, then its mirror. */
    method DetachEdge(e: Edge<E>, o: Vertex<V>, d: Vertex<V>) returns (r: Result<E, GraphError>)
      requires Valid() && o in adjacency
      modifies adjacency.Values
      ensures Valid()
      ensures r.Ok? <==> o == d || d in old(Index())
      ensures r.Ok? ==> r.value == e.element && d in old(Index()) && Index() == DropEdgeAt(old(Index()), o, d, e)
      ensures r.Err? ==> r.error == NullPointer && d !in old(Index())
      ensures r.Ok? && old(WellFormed(Index()) && HoldsAt(Index(), e, o, d)) ==> Index() == Without(old(Index()), e)
    {
      ghost var idx := Index();
      SetEntries(o, DropEntry(adjacency[o].entries, d, e));
      if o != d && d !in adjacency {
        return Err(NullPointer);
      }
      if o != d {
        SetEntries(d, DropEntry(adjacency[d].entries, o, e));
      }
      r := Ok(e.element);
      if WellFormed(idx) && HoldsAt(idx, e, o, d) {
        DropEdgeKeepsInvariant(idx, o, d, e);
      }
    }

    /** replace (vertex): stores a new element in a vertex of this graph and answers it. */
    method ReplaceVertex(v: Vertex?<V>, x: V) returns (r: Result<V, GraphError>)
      modifies v
      ensures r.Err? <==> CheckVertex(v).Err?
      ensures r.Err? ==> r.error == InvalidVertex && (v != null ==> unchanged(v))
      ensures r.Ok? ==> r.value == x && v.element == x
    {
      if v == null || v !in adjacency {
        return Err(InvalidVertex);
      }
      v.element := x;
      return Ok(x);
    }

    /** replace (edge): stores a new element in an edge of this graph and answers it. */
    method ReplaceEdge(e: Edge?<E>, x: E) returns (r: Result<E, GraphError>)
      modifies e
      ensures r.Err? <==> e == null || e !in EdgeSet(Index())
      ensures r.Err? ==> r.error == InvalidEdge && (e != null ==> unchanged(e))
      ensures r.Ok? ==> r.value == x && e.element == x
    {
      var checked := CheckEdge(e);
      if checked.Err? {
        return Err(InvalidEdge);
      }
      e.element := x;
      return Ok(x);
    }
  

    // -------------------------------------------------------------------------
    // Ranking and traversal.
    // -------------------------------------------------------------------------

    /** The first loop of top10CentralElements: each vertex, in key order, with the size of its neighbour map. */
    method ListDegrees() returns (listing: seq<Vertex<V>>, degree: map<Vertex<V>, int>)
      ensures multiset(listing) == multiset(adjacency.Keys)
      ensures forall u :: u in degree ==> u in adjacency && degree[u] == |adjacency[u].entries|
      ensures forall k :: 0 <= k < |listing| ==> listing[k] in degree
    {
      listing := [];
      degree := map[];
      var pending := adjacency.Keys;
      while pending != {}
        invariant pending <= adjacency.Keys
        invariant multiset(listing) + multiset(pending) == multiset(adjacency.Keys)
        invariant forall k :: 0 <= k < |listing| ==> listing[k] in degree
        invariant forall u :: u in degree ==> u in adjacency && degree[u] == |adjacency[u].entries|
      {
        var u :| u in pending;
        listing := listing + [u];
        degree := degree[u := |adjacency[u].entries|];
        assert multiset(pending) == multiset(pending - {u}) + multiset{u};
        pending := pending - {u};
      }
    }

    /**
     * The first half of top10CentralElements: every vertex with the size of its
     * neighbour map, sorted by that size in descending order.
     */
    method RankByDegree() returns (ranked: seq<Vertex<V>>)
      ensures multiset(ranked) == multiset(adjacency.Keys)
      ensures forall i :: 0 <= i < |ranked| ==> ranked[i] in adjacency
      ensures forall i, j :: 0 <= i < j < |ranked| ==> |adjacency[ranked[i]].entries| >= |adjacency[ranked[j]].entries|
    {
      var listing, degree := ListDegrees();
      var key := (u: Vertex<V>) => if u in degree then degree[u] else 0;
      ranked := Ranking.Sort(listing, key, Ranking.Descending);
      assert Ranking.Ordered(ranked, key, Ranking.Descending) by {
        Ranking.DescendingIsTotalPreorder();
        Ranking.SortOrdered(listing, key, Ranking.Descending);
      }
      forall i | 0 <= i < |ranked| ensures ranked[i] in adjacency && key(ranked[i]) == |adjacency[ranked[i]].entries| {
        assert ranked[i] in multiset(listing);
        assert ranked[i] in degree;
      }
      forall i, j | 0 <= i < j < |ranked| ensures |adjacency[ranked[i]].entries| >= |adjacency[ranked[j]].entries| {
        assert Ranking.Descending(key(ranked[i]), key(ranked[j]));
      }
    }

    /**
     * top10CentralElements: the elements of the first ten vertices (fewer when the
     * graph is smaller) in descending order of their number of neighbours.
     * `ranked` is the sorted list of vertices behind the answer.
     */
    method Top10CentralElements() returns (r: seq<V>, ghost ranked: seq<Vertex<V>>)
      ensures multiset(ranked) == multiset(adjacency.Keys)
      ensures forall i :: 0 <= i < |ranked| ==> ranked[i] in adjacency
      ensures forall i, j :: 0 <= i < j < |ranked| ==> |adjacency[ranked[i]].entries| >= |adjacency[ranked[j]].entries|
      ensures |r| == if |ranked| < 10 then |ranked| else 10
      ensures forall i :: 0 <= i < |r| ==> r[i] == ranked[i].element
    {
      var sorted := RankByDegree();
      ranked := sorted;
      r := [];
      var i := 0;
      while i < 10 && i < |sorted|
        invariant 0 <= i <= |sorted| && i <= 10 && |r| == i
        invariant forall k :: 0 <= k < i ==> r[k] == sorted[k].element
      {
        r := r + [sorted[i].element];
        i := i + 1;
      }
    }

    /**
     * The body of DFS's inner loop up to the `contains` test: the neighbour of `v`
     * across `e`, which must be a vertex of this graph (see DFS).
     */
    method VisitAcross(ghost idx: Adjacency<Vertex<V>, Edge<E>>, ghost wf: bool, v: Vertex<V>, e: Edge<E>)
      returns (ok: bool, w: Vertex<V>)
      requires idx == Index() && v in idx && e in idx[v].Values && (wf ==> WellFormed(idx))
      ensures Index() == idx
      ensures !ok ==> !wf
      ensures ok ==> w in idx
      ensures ok && wf ==> HoldsAt(idx, e, v, w)
    {
      var o := Opposite(v, e);
      assert Index() == idx;
      w := o.value;
      assert wf ==> HoldsAt(idx, e, v, w) && w in idx;
      ok := w in adjacency;
    }

    /**
     * One step of DFS: for each edge incident to `v`, the neighbour across it is
     * appended to `visited` and pushed when not visited yet.  `ok` is false when a
     * neighbour is not a vertex of this graph, which needs an index that is not
     * well formed.
     */
    method VisitNeighbours(ghost idx: Adjacency<Vertex<V>, Edge<E>>, ghost wf: bool, v: Vertex<V>,
                           visited0: seq<Vertex<V>>, stack0: seq<Vertex<V>>)
      returns (ok: bool, visited: seq<Vertex<V>>, stack: seq<Vertex<V>>)
      requires idx == Index() && v in idx && (wf ==> WellFormed(idx))
      requires Distinct(visited0) && forall k :: 0 <= k < |visited0| ==> visited0[k] in idx
      ensures Index() == idx
      ensures !ok ==> !wf
      ensures ok ==> |visited| >= |visited0| && visited[..|visited0|] == visited0
      ensures ok ==> Distinct(visited) && forall k :: 0 <= k < |visited| ==> visited[k] in idx
      ensures ok ==> stack == stack0 + visited[|visited0|..]
      ensures ok && wf ==> forall k :: |visited0| <= k < |visited| ==> visited[k] in idx[v]
      ensures ok && wf ==> forall w :: w in idx[v] ==> w in visited
    {
      visited, stack := visited0, stack0;
      assert idx.Keys == adjacency.Keys;
      var pending := IncidentEdges(v).value;
      while pending != {}
        invariant Index() == idx
        invariant pending <= idx[v].Values
        invariant |visited| >= |visited0| && visited[..|visited0|] == visited0
        invariant Distinct(visited) && forall k :: 0 <= k < |visited| ==> visited[k] in idx
        invariant stack == stack0 + visited[|visited0|..]
        invariant wf ==> forall k :: |visited0| <= k < |visited| ==> visited[k] in idx[v]
        invariant wf ==> forall w :: w in idx[v] && idx[v][w] !in pending ==> w in visited
      {
        var e :| e in pending;
        var w;
        ok, w := VisitAcross(idx, wf, v, e);
        if !ok {
          return false, visited, stack;
        }
        if w !in visited {
          assert (visited + [w])[..|visited0|] == visited[..|visited0|];
          assert (visited + [w])[|visited0|..] == visited[|visited0|..] + [w];
          visited := visited + [w];
          stack := stack + [w];
        }
        if wf {
          forall u | u in idx[v] && idx[v][u] == e ensures u == w {
            PlacementOfEdge(idx, e, v, w, v, u);
          }
        }
        pending := pending - {e};
      }
      ok := true;
    }

    /**
     * DFS: the vertices reachable from `start`, in the order a stack-driven
     * depth-first traversal first meets them.  `start` must be a vertex (the
     * first `incidentEdges` call checks it).  A neighbour that is not a vertex of
     * this graph can only come from an index that is not well formed; the source
     * fails with InvalidVertex when it later pops it, and nothing is changed in
     * between, so the model fails when it meets it.
     */
    method DFS(start: Vertex?<V>) returns (r: Result<seq<Vertex<V>>, GraphError>)
      ensures r.Err? ==> r.error == InvalidVertex
      ensures CheckVertex(start).Err? ==> r.Err?
      ensures WellFormed(Index()) && CheckVertex(start).Ok? ==> r.Ok?
      ensures r.Ok? ==> |r.value| >= 1 && r.value[0] == start && Distinct(r.value)
      ensures r.Ok? ==> forall k :: 0 <= k < |r.value| ==> r.value[k] in Index()
      ensures r.Ok? && WellFormed(Index()) ==>
        forall w :: w in Index() ==> (w in r.value <==> Reachable(Index(), start, w))
    {
      if start == null || start !in adjacency {
        return Err(InvalidVertex);
      }
      ghost var idx := Index();
      ghost var wf := WellFormed(idx);
      var ok, visited, parent := Traverse(idx, wf, start);
      if !ok {
        return Err(InvalidVertex);
      }
      if wf {
        TraversalComplete(idx, visited, parent);
      }
      return Ok(visited);
    }

    /** The loop of DFS: pop a vertex, visit its neighbours, until the stack is empty. */
    method Traverse(ghost idx: Adjacency<Vertex<V>, Edge<E>>, ghost wf: bool, start: Vertex<V>)
      returns (ok: bool, visited: seq<Vertex<V>>, ghost parent: seq<nat>)
      requires idx == Index() && start in idx && (wf ==> WellFormed(idx))
      ensures Index() == idx
      ensures !ok ==> !wf
      ensures ok ==> |visited| >= 1 && visited[0] == start && Distinct(visited)
      ensures ok ==> DiscoveredFrom(idx, visited, parent, wf)
      ensures ok && wf ==> ClosedOutsideStack(idx, visited, [])
    {
      visited := [start];
      var stack: seq<Vertex<V>> := [start];
      parent := [0];
      while stack != []
        invariant Index() == idx
        invariant |visited| >= 1 && visited[0] == start && Distinct(visited)
        invariant Distinct(stack) && Members(stack) <= Members(visited)
        invariant DiscoveredFrom(idx, visited, parent, wf)
        invariant wf ==> ClosedOutsideStack(idx, visited, stack)
        invariant |visited| <= |idx.Keys|
        decreases |idx.Keys| - |visited|, |stack|
      {
        var v := stack[|stack| - 1];
        assert v in Members(stack);
        ghost var vi :| 0 <= vi < |visited| && visited[vi] == v;
        assert stack == stack[..|stack| - 1] + [v];
        stack := stack[..|stack| - 1];
        ghost var visitedBefore := visited;
        ghost var stackBefore := stack;
        ok, visited, stack := VisitNeighbours(idx, wf, v, visited, stack);
        if !ok {
          return;
        }
        ghost var added := visited[|visitedBefore|..];
        assert visited == visitedBefore + added;
        DiscoveredStep(idx, visitedBefore, added, parent, vi, wf);
        parent := parent + seq(|added|, _ => vi);
        TraversalStep(idx, visitedBefore, added, stackBefore, v, wf);
        DistinctWithin(visited, idx.Keys);
      }
      ok := true;
    }
  }

  /** A graph's index depends only on the graph's own map and its neighbour maps. */
  twostate lemma IndexKept<V, E>(g: Graph<V, E>)
    requires unchanged(g) && unchanged(g.adjacency.Values)
    ensures g.Index() == old(g.Index())
  {
  }

  /** Every visited vertex that is no longer on the stack has all its neighbours visited. */
  ghost predicate ClosedOutsideStack<T, X>(idx: Adjacency<T, X>, visited: seq<T>, stack: seq<T>) {
    forall x, w :: x in visited && x !in stack && x in idx && w in idx[x] ==> w in visited
  }

  /**
   * Popping `v`, visiting its neighbours and pushing the new ones (`added`) keeps the
   * stack free of repetitions and within `visited`, and keeps every vertex off the
   * stack closed under neighbours.
   */
  lemma TraversalStep<T, X>(idx: Adjacency<T, X>, visited: seq<T>, added: seq<T>, stack: seq<T>, v: T, wf: bool)
    requires Distinct(visited + added) && Distinct(stack + [v]) && Members(stack + [v]) <= Members(visited)
    requires wf ==> ClosedOutsideStack(idx, visited, stack + [v])
    requires wf ==> v in idx && forall w :: w in idx[v] ==> w in visited + added
    requires forall k :: 0 <= k < |added| ==> added[k] in idx
    ensures Distinct(stack + added) && Members(stack + added) <= Members(visited + added)
    ensures wf ==> ClosedOutsideStack(idx, visited + added, stack + added)
  {
    forall i, j | 0 <= i < |added| && 0 <= j < |visited| ensures visited[j] != added[i] {
      assert (visited + added)[j] == visited[j] && (visited + added)[|visited| + i] == added[i];
    }

    var s := stack + added;
    forall x | x in Members(s) ensures x in Members(visited + added) {
      if x in stack {
        assert x in Members(stack + [v]);
      }
    }
    forall i, j | 0 <= i < j < |s| ensures s[i] != s[j] {
      if j >= |stack| && i < |stack| {
        assert s[i] in Members(stack + [v]) by { assert (stack + [v])[i] == s[i]; }
      } else if j < |stack| {
        assert (stack + [v])[i] == s[i] && (stack + [v])[j] == s[j];
      } else {
        assert (visited + added)[|visited| + i - |stack|] == s[i];
        assert (visited + added)[|visited| + j - |stack|] == s[j];
      }
    }
  }

  /**
   * Every vertex of `visited` after the first was met as a neighbour of an earlier
   * one, `parent` giving its position (checked only when the index is well formed).
   */
  ghost predicate DiscoveredFrom<V, E>(idx: Adjacency<Vertex<V>, Edge<E>>, visited: seq<Vertex<V>>,
                                       parent: seq<nat>, wf: bool)
  {
    && |parent| == |visited|
    && (forall k :: 0 <= k < |visited| ==> visited[k] in idx)
    && (forall k :: 1 <= k < |visited| ==> parent[k] < k)
    && (wf ==> forall k :: 1 <= k < |visited| ==> visited[k] in idx[visited[parent[k]]])
  }

  /** Vertices met as neighbours of `visited[vi]` extend the record with that parent. */
  lemma DiscoveredStep<V, E>(idx: Adjacency<Vertex<V>, Edge<E>>, visited: seq<Vertex<V>>, added: seq<Vertex<V>>,
                             parent: seq<nat>, vi: nat, wf: bool)
    requires DiscoveredFrom(idx, visited, parent, wf) && vi < |visited|
    requires forall k :: 0 <= k < |added| ==> added[k] in idx
    requires wf ==> forall k :: 0 <= k < |added| ==> added[k] in idx[visited[vi]]
    ensures DiscoveredFrom(idx, visited + added, parent + seq(|added|, _ => vi), wf)
  {
    var vs := visited + added;
    var ps := parent + seq(|added|, _ => vi);
    forall k | 1 <= k < |vs| ensures ps[k] < k && (wf ==> vs[k] in idx[vs[ps[k]]]) {
      if k >= |visited| {
        assert vs[k] == added[k - |visited|] && ps[k] == vi && vs[vi] == visited[vi];
      } else {
        assert vs[k] == visited[k] && ps[k] == parent[k] && vs[parent[k]] == visited[parent[k]];
      }
    }
  }

  /**
   * When the stack is empty, the traversal has met exactly the vertices reachable
   * from the first one.
   */
  lemma TraversalComplete<V, E>(idx: Adjacency<Vertex<V>, Edge<E>>, visited: seq<Vertex<V>>, parent: seq<nat>)
    requires |visited| >= 1 && DiscoveredFrom(idx, visited, parent, true) && ClosedOutsideStack(idx, visited, [])
    ensures forall w :: w in idx ==> (w in visited <==> Reachable(idx, visited[0], w))
  {
    forall w | w in idx ensures w in visited <==> Reachable(idx, visited[0], w) {
      if w in visited {
        DiscoveredAreReachable(idx, visited, parent, w);
      } else if Reachable(idx, visited[0], w) {
        ClosedSetHoldsReachable(idx, Members(visited), visited[0], w);
      }
    }
  }

  /** A vertex met by the traversal is reachable from the first one. */
  lemma {:induction false} DiscoveredAreReachable<V, E>(idx: Adjacency<Vertex<V>, Edge<E>>, visited: seq<Vertex<V>>,
                                                        parent: seq<nat>, w: Vertex<V>)
    requires |visited| >= 1 && DiscoveredFrom(idx, visited, parent, true) && w in visited
    ensures Reachable(idx, visited[0], w)
  {
    var k :| 0 <= k < |visited| && visited[k] == w;
    DiscoveredPrefixReachable(idx, visited, parent, k);
  }

  lemma {:induction false} DiscoveredPrefixReachable<V, E>(idx: Adjacency<Vertex<V>, Edge<E>>, visited: seq<Vertex<V>>,
                                                           parent: seq<nat>, k: nat)
    requires DiscoveredFrom(idx, visited, parent, true) && k < |visited|
    ensures Reachable(idx, visited[0], visited[k])
    decreases k
  {
    if k == 0 {
      ReachableSelf(idx, visited[0]);
    } else {
      DiscoveredPrefixReachable(idx, visited, parent, parent[k]);
      ReachableStep(idx, visited[0], visited[parent[k]], visited[k]);
    }
  }
}
