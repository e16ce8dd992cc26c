/**
 * The value behind GraphAdjacencyMatrix's `adjacencyMap`: every vertex maps to its
 * neighbour map (neighbour vertex -> the edge joining them).  The graph class in
 * module Graphs keeps this index in mutable objects; this module states what each
 * mutation does to it as a function on values, the invariant an undirected graph
 * keeps, and what the mutations preserve.
 */
module AdjacencyIndex {

  type Adjacency<T, X> = map<T, map<T, X>>

  /** Edge `e` is stored in `u`'s neighbour map under key `w`. */
  predicate HoldsAt<T(==), X(==)>(idx: Adjacency<T, X>, e: X, u: T, w: T) {
    u in idx && w in idx[u] && idx[u][w] == e
  }

  /** Every entry u -> w has its mirror w -> u holding the same edge (so `w` is a vertex too). */
  ghost predicate Symmetric<T, X>(idx: Adjacency<T, X>) {
    forall u, w :: u in idx && w in idx[u] ==> w in idx && u in idx[w] && idx[w][u] == idx[u][w]
  }

  /** An edge object is stored only under one unordered pair of vertices. */
  ghost predicate UniquePlacement<T, X>(idx: Adjacency<T, X>) {
    forall u, w, x, y ::
      u in idx && w in idx[u] && x in idx && y in idx[x] && idx[u][w] == idx[x][y] ==>
        (x == u && y == w) || (x == w && y == u)
  }

  /** The invariant of an undirected adjacency index. */
  ghost predicate WellFormed<T, X>(idx: Adjacency<T, X>) {
    Symmetric(idx) && UniquePlacement(idx)
  }

  /** All edges stored anywhere in the index: what `edges()` collects. */
  ghost function EdgeSet<T, X>(idx: Adjacency<T, X>): set<X> {
    set u, w | u in idx && w in idx[u] :: idx[u][w]
  }

  /** The edges stored in the neighbour maps of the vertices in `keys`. */
  ghost function EdgesFrom<T, X>(idx: Adjacency<T, X>, keys: set<T>): set<X> {
    set u, w | u in keys && u in idx && w in idx[u] :: idx[u][w]
  }

  /** Scanning one more neighbour map adds exactly its values. */
  lemma EdgesFromStep<T, X>(idx: Adjacency<T, X>, keys: set<T>, u: T)
    requires u in idx
    ensures EdgesFrom(idx, keys + {u}) == EdgesFrom(idx, keys) + idx[u].Values
  {
    forall x | x in idx[u].Values ensures x in EdgesFrom(idx, keys + {u}) {
      var w :| w in idx[u] && idx[u][w] == x;
    }
  }

  /** Scanning no neighbour map finds nothing; scanning all of them finds every edge. */
  lemma EdgesFromBounds<T, X>(idx: Adjacency<T, X>)
    ensures EdgesFrom(idx, {}) == {}
    ensures EdgesFrom(idx, idx.Keys) == EdgeSet(idx)
  {
  }

  /** The edge, if any, that a new edge between `u` and `v` overwrites. */
  ghost function Displaced<T, X>(idx: Adjacency<T, X>, u: T, v: T): set<X>
    requires u in idx
  {
    if v in idx[u] then {idx[u][v]} else {}
  }

  /** `insertVertex`: a fresh vertex with an empty neighbour map. */
  function AddVertex<T(==), X(==)>(idx: Adjacency<T, X>, v: T): (r: Adjacency<T, X>)
    requires v !in idx
    ensures r.Keys == idx.Keys + {v} && r[v] == map[]
    ensures forall u :: u in idx ==> r[u] == idx[u]
  {
    idx[v := map[]]
  }

  /** `insertEdge(u, v, e)`: register `e` under u -> v and v -> u (once for a self-loop). */
  function AddEdge<T(==), X(==)>(idx: Adjacency<T, X>, u: T, v: T, e: X): (r: Adjacency<T, X>)
    requires u in idx && v in idx
    ensures r.Keys == idx.Keys
    ensures HoldsAt(r, e, u, v) && HoldsAt(r, e, v, u)
  {
    if u == v then idx[u := idx[u][v := e]]
    else idx[u := idx[u][v := e]][v := idx[v][u := e]]
  }

  /** `removeVertex(v)`: drop `v`'s own map and the key `v` from every other map. */
  function DropVertex<T(==), X(==)>(idx: Adjacency<T, X>, v: T): (r: Adjacency<T, X>)
    ensures r.Keys == idx.Keys - {v}
  {
    map u | u in idx && u != v :: idx[u] - {v}
  }

  /** Java's `Map.remove(key, value)`: remove the key only while it still maps to `e`. */
  function DropEntry<T(==), X(==)>(m: map<T, X>, k: T, e: X): (r: map<T, X>)
    ensures k in m && m[k] == e ==> r == m - {k}
    ensures !(k in m && m[k] == e) ==> r == m
  {
    if k in m && m[k] == e then m - {k} else m
  }

  /** `removeEdge(e)` once the scan found `e` under `o -> d`. */
  function DropEdgeAt<T(==), X(==)>(idx: Adjacency<T, X>, o: T, d: T, e: X): (r: Adjacency<T, X>)
    requires o in idx && d in idx
    ensures r.Keys == idx.Keys
  {
    var first := idx[o := DropEntry(idx[o], d, e)];
    if o == d then first else first[d := DropEntry(first[d], o, e)]
  }

  /** Reference definition: the index with every entry holding `e` removed. */
  ghost function Without<T, X>(idx: Adjacency<T, X>, e: X): (r: Adjacency<T, X>)
    ensures r.Keys == idx.Keys
  {
    map u | u in idx :: map w | w in idx[u] && idx[u][w] != e :: idx[u][w]
  }

  // ---------------------------------------------------------------------------
  // What the mutations do to the invariant and to `edges()`.
  // ---------------------------------------------------------------------------

  /** Every entry after AddVertex is an entry of the old index. */
  lemma AddVertexEntry<T, X>(idx: Adjacency<T, X>, v: T, a: T, b: T)
    requires v !in idx && a in AddVertex(idx, v) && b in AddVertex(idx, v)[a]
    ensures a in idx && b in idx[a] && AddVertex(idx, v)[a][b] == idx[a][b]
  {
  }

  /** A fresh vertex keeps the index well formed, has no incident edge and adds no edge. */
  lemma AddVertexKeepsInvariant<T, X>(idx: Adjacency<T, X>, v: T)
    requires WellFormed(idx) && v !in idx
    ensures WellFormed(AddVertex(idx, v))
    ensures |AddVertex(idx, v).Keys| == |idx.Keys| + 1
    ensures AddVertex(idx, v)[v].Values == {}
    ensures EdgeSet(AddVertex(idx, v)) == EdgeSet(idx)
  {
    var r := AddVertex(idx, v);
    forall a, b | a in r && b in r[a] ensures b in r && a in r[b] && r[b][a] == r[a][b] {
      AddVertexEntry(idx, v, a, b);
    }
    forall a, b, c, d | a in r && b in r[a] && c in r && d in r[c] && r[a][b] == r[c][d]
      ensures (c == a && d == b) || (c == b && d == a)
    {
      AddVertexEntry(idx, v, a, b);
      AddVertexEntry(idx, v, c, d);
    }
    forall x | x in EdgeSet(r) ensures x in EdgeSet(idx) {
      var a, b :| a in r && b in r[a] && r[a][b] == x;
      AddVertexEntry(idx, v, a, b);
    }
    forall x | x in EdgeSet(idx) ensures x in EdgeSet(r) {
      var a, b :| a in idx && b in idx[a] && idx[a][b] == x;
      assert r[a][b] == x;
    }
  }

  /**
   * An entry of AddEdge holds the fresh edge `e` exactly when it is u -> v or v -> u;
   * every other entry is that of the old index.
   */
  lemma AddEdgeEntry<T, X>(idx: Adjacency<T, X>, u: T, v: T, e: X, a: T, b: T)
    requires u in idx && v in idx && e !in EdgeSet(idx)
    requires a in AddEdge(idx, u, v, e) && b in AddEdge(idx, u, v, e)[a]
    ensures (AddEdge(idx, u, v, e)[a][b] == e) == ((a == u && b == v) || (a == v && b == u))
    ensures !((a == u && b == v) || (a == v && b == u)) ==>
      a in idx && b in idx[a] && idx[a][b] == AddEdge(idx, u, v, e)[a][b]
  {
    if !((a == u && b == v) || (a == v && b == u)) {
      assert idx[a][b] in EdgeSet(idx);
    }
  }

  /** A fresh edge between two vertices keeps the index well formed. */
  lemma AddEdgeWellFormed<T, X>(idx: Adjacency<T, X>, u: T, v: T, e: X)
    requires WellFormed(idx) && u in idx && v in idx && e !in EdgeSet(idx)
    ensures WellFormed(AddEdge(idx, u, v, e))
  {
    var r := AddEdge(idx, u, v, e);
    forall a, b | a in r && b in r[a] ensures b in r && a in r[b] && r[b][a] == r[a][b] {
      AddEdgeEntry(idx, u, v, e, a, b);
    }
    forall a, b, c, d | a in r && b in r[a] && c in r && d in r[c] && r[a][b] == r[c][d]
      ensures (c == a && d == b) || (c == b && d == a)
    {
      AddEdgeEntry(idx, u, v, e, a, b);
      AddEdgeEntry(idx, u, v, e, c, d);
    }
  }

  /** The edges after AddEdge: the new one, in place of the one stored between the same pair. */
  lemma AddEdgeEdges<T, X>(idx: Adjacency<T, X>, u: T, v: T, e: X)
    requires WellFormed(idx) && u in idx && v in idx
    ensures EdgeSet(AddEdge(idx, u, v, e)) == EdgeSet(idx) - Displaced(idx, u, v) + {e}
  {
    var r := AddEdge(idx, u, v, e);
    var D := Displaced(idx, u, v);
    forall x | x in EdgeSet(r) ensures x == e || (x in EdgeSet(idx) && x !in D) {
      var a, b :| a in r && b in r[a] && r[a][b] == x;
      if !((a == u && b == v) || (a == v && b == u)) {
        assert x == idx[a][b];
      }
    }
    forall x | x in EdgeSet(idx) ensures x in D || x in EdgeSet(r) {
      var a, b :| a in idx && b in idx[a] && idx[a][b] == x;
      if (a == u && b == v) || (a == v && b == u) {
        assert x == idx[u][v];
      } else {
        assert r[a][b] == x;
      }
    }
    assert r[u][v] == e;
  }

  /**
   * A fresh edge between two vertices keeps the index well formed and replaces the
   * edge previously stored between the same pair (if any): so `numEdges` grows by one
   * exactly when the pair was not yet adjacent.
   */
  lemma AddEdgeKeepsInvariant<T, X>(idx: Adjacency<T, X>, u: T, v: T, e: X)
    requires WellFormed(idx) && u in idx && v in idx && e !in EdgeSet(idx)
    ensures WellFormed(AddEdge(idx, u, v, e))
    ensures EdgeSet(AddEdge(idx, u, v, e)) == EdgeSet(idx) - Displaced(idx, u, v) + {e}
    ensures |EdgeSet(AddEdge(idx, u, v, e))| == |EdgeSet(idx)| + (if v in idx[u] then 0 else 1)
    ensures v !in idx[u] ==> EdgeSet(AddEdge(idx, u, v, e)) == EdgeSet(idx) + {e}
  {
    AddEdgeWellFormed(idx, u, v, e);
    AddEdgeEdges(idx, u, v, e);
    var D := Displaced(idx, u, v);
    assert D <= EdgeSet(idx);
    assert e !in EdgeSet(idx) - D;
    if v !in idx[u] {
      assert D == {};
      assert EdgeSet(idx) - D == EdgeSet(idx);
    }
  }

  /** An entry left by DropVertex is an entry of the old index between two other vertices. */
  lemma DropVertexEntry<T, X>(idx: Adjacency<T, X>, v: T, a: T, b: T)
    requires a in DropVertex(idx, v) && b in DropVertex(idx, v)[a]
    ensures a in idx && b in idx[a] && a != v && b != v
    ensures DropVertex(idx, v)[a][b] == idx[a][b]
  {
  }

  lemma DropVertexSymmetric<T, X>(idx: Adjacency<T, X>, v: T)
    requires Symmetric(idx)
    ensures Symmetric(DropVertex(idx, v))
  {
    var r := DropVertex(idx, v);
    forall a, b | a in r && b in r[a] ensures b in r && a in r[b] && r[b][a] == r[a][b] {
      DropVertexEntry(idx, v, a, b);
    }
  }

  lemma DropVertexUnique<T, X>(idx: Adjacency<T, X>, v: T)
    requires UniquePlacement(idx)
    ensures UniquePlacement(DropVertex(idx, v))
  {
    var r := DropVertex(idx, v);
    forall a, b, c, d | a in r && b in r[a] && c in r && d in r[c] && r[a][b] == r[c][d]
      ensures (c == a && d == b) || (c == b && d == a)
    {
      DropVertexEntry(idx, v, a, b);
      DropVertexEntry(idx, v, c, d);
    }
  }

  /** Removing a vertex keeps the index well formed and leaves no reference to it. */
  lemma DropVertexWellFormed<T, X>(idx: Adjacency<T, X>, v: T)
    requires WellFormed(idx) && v in idx
    ensures WellFormed(DropVertex(idx, v))
    ensures forall u :: u in DropVertex(idx, v) ==> v !in DropVertex(idx, v)[u]
  {
    DropVertexSymmetric(idx, v);
    DropVertexUnique(idx, v);
  }

  /** Removing a vertex removes exactly its incident edges. */
  lemma DropVertexEdges<T, X>(idx: Adjacency<T, X>, v: T)
    requires WellFormed(idx) && v in idx
    ensures EdgeSet(DropVertex(idx, v)) == EdgeSet(idx) - idx[v].Values
    ensures idx[v].Values <= EdgeSet(idx)
  {
    var r := DropVertex(idx, v);
    forall x | x in EdgeSet(r) ensures x in EdgeSet(idx) && x !in idx[v].Values {
      var a, b :| a in r && b in r[a] && r[a][b] == x;
      assert idx[a][b] == x;
      forall c | c in idx[v] ensures idx[v][c] != x {
      }
    }
    forall x | x in EdgeSet(idx) ensures x in idx[v].Values || x in EdgeSet(r) {
      var a, b :| a in idx && b in idx[a] && idx[a][b] == x;
      if a == v {
        assert x == idx[v][b];
      } else if b == v {
        assert x == idx[v][a];
      } else {
        assert r[a][b] == x;
      }
    }
    forall x | x in idx[v].Values ensures x in EdgeSet(idx) {
      var c :| c in idx[v] && idx[v][c] == x;
    }
  }

  /**
   * Removing a vertex keeps the index well formed, leaves no reference to it, and
   * removes exactly its incident edges: `numEdges` drops by its number of incident edges.
   */
  lemma DropVertexKeepsInvariant<T, X>(idx: Adjacency<T, X>, v: T)
    requires WellFormed(idx) && v in idx
    ensures WellFormed(DropVertex(idx, v))
    ensures forall u :: u in DropVertex(idx, v) ==> v !in DropVertex(idx, v)[u]
    ensures EdgeSet(DropVertex(idx, v)) == EdgeSet(idx) - idx[v].Values
    ensures |EdgeSet(DropVertex(idx, v))| == |EdgeSet(idx)| - |idx[v].Values|
  {
    DropVertexWellFormed(idx, v);
    DropVertexEdges(idx, v);
  }

  /** In a well-formed index the keys of a neighbour map that hold `e` are exactly its ends. */
  lemma PlacementOfEdge<T, X>(idx: Adjacency<T, X>, e: X, o: T, d: T, a: T, b: T)
    requires WellFormed(idx) && HoldsAt(idx, e, o, d) && HoldsAt(idx, e, a, b)
    ensures (a == o && b == d) || (a == d && b == o)
  {
  }

  /** An entry of Without is an entry of the old index that does not hold `e`, and conversely. */
  lemma WithoutEntry<T, X>(idx: Adjacency<T, X>, e: X, a: T, b: T)
    requires a in idx
    ensures b in Without(idx, e)[a] <==> b in idx[a] && idx[a][b] != e
    ensures b in Without(idx, e)[a] ==> Without(idx, e)[a][b] == idx[a][b]
  {
  }

  /** DropEdgeAt removes the entries o -> d and d -> o when they hold `e`, and nothing else. */
  lemma DropEdgeAtEntry<T, X>(idx: Adjacency<T, X>, o: T, d: T, e: X, u: T, w: T)
    requires o in idx && d in idx && u in idx
    ensures w in DropEdgeAt(idx, o, d, e)[u] <==>
      w in idx[u] && !(((u == o && w == d) || (u == d && w == o)) && idx[u][w] == e)
    ensures w in DropEdgeAt(idx, o, d, e)[u] ==> DropEdgeAt(idx, o, d, e)[u][w] == idx[u][w]
  {
  }

  /** Wherever the scan found `e`, DropEdgeAt removes exactly the entries holding `e`. */
  lemma DropEdgeAtIsWithout<T, X>(idx: Adjacency<T, X>, o: T, d: T, e: X)
    requires WellFormed(idx) && HoldsAt(idx, e, o, d)
    ensures DropEdgeAt(idx, o, d, e) == Without(idx, e)
  {
    var r := DropEdgeAt(idx, o, d, e);
    var s := Without(idx, e);
    forall u | u in idx ensures r[u] == s[u] {
      forall w ensures w in r[u] <==> w in s[u] {
        DropEdgeAtEntry(idx, o, d, e, u, w);
        WithoutEntry(idx, e, u, w);
        if w in idx[u] && idx[u][w] == e {
          PlacementOfEdge(idx, e, o, d, u, w);
        }
      }
      forall w | w in r[u] ensures r[u][w] == s[u][w] {
        DropEdgeAtEntry(idx, o, d, e, u, w);
        WithoutEntry(idx, e, u, w);
      }
    }
  }

  lemma WithoutSymmetric<T, X>(idx: Adjacency<T, X>, e: X)
    requires Symmetric(idx)
    ensures Symmetric(Without(idx, e))
  {
    var s := Without(idx, e);
    forall a, b | a in s && b in s[a] ensures b in s && a in s[b] && s[b][a] == s[a][b] {
      WithoutEntry(idx, e, a, b);
      WithoutEntry(idx, e, b, a);
    }
  }

  lemma WithoutUnique<T, X>(idx: Adjacency<T, X>, e: X)
    requires UniquePlacement(idx)
    ensures UniquePlacement(Without(idx, e))
  {
    var s := Without(idx, e);
    forall a, b, c, f | a in s && b in s[a] && c in s && f in s[c] && s[a][b] == s[c][f]
      ensures (c == a && f == b) || (c == b && f == a)
    {
      WithoutEntry(idx, e, a, b);
      WithoutEntry(idx, e, c, f);
    }
  }

  /** Dropping every entry that holds one edge keeps the index well formed. */
  lemma WithoutWellFormed<T, X>(idx: Adjacency<T, X>, e: X)
    requires WellFormed(idx)
    ensures WellFormed(Without(idx, e))
  {
    WithoutSymmetric(idx, e);
    WithoutUnique(idx, e);
  }

  /** Dropping every entry that holds `e` removes `e` and no other edge. */
  lemma WithoutEdges<T, X>(idx: Adjacency<T, X>, e: X)
    ensures EdgeSet(Without(idx, e)) == EdgeSet(idx) - {e}
  {
    var s := Without(idx, e);
    forall x | x in EdgeSet(s) ensures x in EdgeSet(idx) - {e} {
      var a, b :| a in s && b in s[a] && s[a][b] == x;
      WithoutEntry(idx, e, a, b);
    }
    forall x | x in EdgeSet(idx) - {e} ensures x in EdgeSet(s) {
      var a, b :| a in idx && b in idx[a] && idx[a][b] == x;
      WithoutEntry(idx, e, a, b);
    }
  }

  /**
   * `removeEdge(e)`, wherever the scan found `e`, removes exactly the entries holding
   * `e`: the vertex set is unchanged, the index stays well formed, and `numEdges`
   * drops by one.
   */
  lemma DropEdgeKeepsInvariant<T, X>(idx: Adjacency<T, X>, o: T, d: T, e: X)
    requires WellFormed(idx) && HoldsAt(idx, e, o, d)
    ensures DropEdgeAt(idx, o, d, e) == Without(idx, e)
    ensures WellFormed(Without(idx, e))
    ensures EdgeSet(Without(idx, e)) == EdgeSet(idx) - {e}
    ensures |EdgeSet(Without(idx, e))| == |EdgeSet(idx)| - 1
  {
    DropEdgeAtIsWithout(idx, o, d, e);
    WithoutWellFormed(idx, e);
    WithoutEdges(idx, e);
    assert e in EdgeSet(idx);
  }

  /**
   * `opposite(v, e)`: whichever entry (x -> y) the scan finds for `e`, answering `y`
   * when x is `v` and `x` otherwise yields the neighbour of `v` across `e`
   * (`v` itself for a self-loop).
   */
  lemma OppositeIsOtherEnd<T, X>(idx: Adjacency<T, X>, v: T, e: X, x: T, y: T)
    requires WellFormed(idx) && v in idx && e in idx[v].Values && HoldsAt(idx, e, x, y)
    ensures HoldsAt(idx, e, v, if x == v then y else x)
  {
    var w :| w in idx[v] && idx[v][w] == e;
    PlacementOfEdge(idx, e, v, w, x, y);
  }

  // ---------------------------------------------------------------------------
  // Walks and reachability over an adjacency map with any kind of entry.
  // ---------------------------------------------------------------------------

  /** `p` visits vertices of `m`, each step following a neighbour entry. */
  ghost predicate IsWalk<T, Y>(m: map<T, map<T, Y>>, older p: seq<T>) {
    && |p| >= 1
    && (forall i :: 0 <= i < |p| ==> p[i] in m)
    && (forall i :: 0 <= i < |p| - 1 ==> p[i + 1] in m[p[i]])
  }

  ghost predicate Reachable<T, Y>(m: map<T, map<T, Y>>, s: T, t: T) {
    exists p :: IsWalk(m, p) && p[0] == s && p[|p| - 1] == t
  }

  lemma ReachableSelf<T, Y>(m: map<T, map<T, Y>>, s: T)
    requires s in m
    ensures Reachable(m, s, s)
  {
    assert IsWalk(m, [s]);
  }

  /** Reachability extends along one more neighbour entry. */
  lemma ReachableStep<T, Y>(m: map<T, map<T, Y>>, s: T, v: T, w: T)
    requires Reachable(m, s, v) && v in m && w in m[v] && w in m
    ensures Reachable(m, s, w)
  {
    var p :| IsWalk(m, p) && p[0] == s && p[|p| - 1] == v;
    var q := p + [w];
    assert IsWalk(m, q);
  }

  /** A set that contains `s` and is closed under neighbour entries holds every vertex reachable from `s`. */
  lemma {:induction false} ClosedSetHoldsReachable<T, Y>(m: map<T, map<T, Y>>, S: set<T>, s: T, t: T)
    requires s in S
    requires forall x, w :: x in S && x in m && w in m[x] ==> w in S
    requires Reachable(m, s, t)
    ensures t in S
  {
    var p :| IsWalk(m, p) && p[0] == s && p[|p| - 1] == t;
    var i := 0;
    while i < |p| - 1
      invariant 0 <= i <= |p| - 1
      invariant p[i] in S
    {
      assert p[i + 1] in m[p[i]];
      i := i + 1;
    }
  }
}
