/**
 * The theory behind DijkstraResult: walk costs over an adjacency index whose
 * edges have lengths, the tables the label-setting loop keeps (candidate pool,
 * tentative distances, predecessors) and the invariant that makes a settled
 * distance the least cost of any walk.  Everything here is about values; the
 * loop itself is in module Dijkstra.
 */
module ShortestPaths {
  import opened AdjacencyIndex
  import opened Lists

  /** A tentative distance: finite, or the "infinity" the source writes as `Double.MAX_VALUE`. */
  datatype Distance = Finite(value: int) | Infinity

  /** `a < b` on doubles, where nothing is below infinity and infinity is below nothing. */
  predicate Less(a: Distance, b: Distance) {
    a.Finite? && (b.Infinity? || a.value < b.value)
  }

  /** The length of edge `e` (a route's distance). */
  function Len<X>(len: map<X, int>, e: X): int {
    if e in len then len[e] else 0
  }

  ghost predicate NonNegative<X>(len: map<X, int>) {
    forall e :: e in len ==> len[e] >= 0
  }

  /** The length of the edge stored under `a -> b`. */
  ghost function Step<T, X>(m: Adjacency<T, X>, len: map<X, int>, a: T, b: T): int {
    if a in m && b in m[a] then Len(len, m[a][b]) else 0
  }

  /** The cost of a walk: the sum of the lengths of its edges. */
  ghost function WalkCost<T, X>(m: Adjacency<T, X>, len: map<X, int>, p: seq<T>): int
    decreases |p|
  {
    if |p| <= 1 then 0 else Step(m, len, p[0], p[1]) + WalkCost(m, len, p[1..])
  }

  /** No walk from `s` to `t` costs less than `c`. */
  ghost predicate LowerBound<T, X>(m: Adjacency<T, X>, len: map<X, int>, s: T, t: T, c: int) {
    forall p :: IsWalk(m, p) && p[0] == s && p[|p| - 1] == t ==> WalkCost(m, len, p) >= c
  }

  ghost predicate NonIsolated<T, X>(m: Adjacency<T, X>, x: T) {
    x in m && m[x] != map[]
  }

  lemma {:induction false} WalkCostNonNegative<T, X>(m: Adjacency<T, X>, len: map<X, int>, p: seq<T>)
    requires NonNegative(len)
    ensures WalkCost(m, len, p) >= 0
    decreases |p|
  {
    if |p| > 1 {
      WalkCostNonNegative(m, len, p[1..]);
    }
  }

  /** Splitting a walk at position `k` splits its cost. */
  lemma {:induction false} WalkCostSplit<T, X>(m: Adjacency<T, X>, len: map<X, int>, p: seq<T>, k: nat)
    requires k < |p|
    ensures WalkCost(m, len, p) == WalkCost(m, len, p[..k + 1]) + WalkCost(m, len, p[k..])
    decreases k
  {
    if k == 0 {
      assert p[0..] == p;
    } else {
      WalkCostSplit(m, len, p[1..], k - 1);
      assert p[1..][..k] == p[..k + 1][1..];
      assert p[1..][k - 1..] == p[k..];
    }
  }

  /** The first step of a walk that leaves the set `S` it starts in. */
  lemma FirstExit<T, U>(p: seq<T>, S: map<T, U>) returns (j: nat)
    requires |p| >= 1 && p[0] in S && p[|p| - 1] !in S
    ensures 1 <= j < |p| && p[j - 1] in S && p[j] !in S
  {
    j := 1;
    while p[j] in S
      invariant 1 <= j < |p| && p[j - 1] in S
      decreases |p| - j
    {
      j := j + 1;
    }
  }

  /** In a symmetric index, an isolated vertex is reachable only from itself. */
  lemma IsolatedUnreachable<T, X>(m: Adjacency<T, X>, s: T, t: T)
    requires Symmetric(m) && t != s && t in m && m[t] == map[]
    ensures !Reachable(m, s, t)
  {
    forall p | IsWalk(m, p) && p[0] == s
      ensures p[|p| - 1] != t
    {
      if |p| >= 2 {
        assert p[|p| - 1] in m[p[|p| - 2]];
      }
    }
  }

  /** The first step of a walk follows an entry of its first vertex's neighbour map. */
  lemma WalkFirstStep<T, X>(m: Adjacency<T, X>, p: seq<T>)
    requires IsWalk(m, p)
    ensures |p| > 1 ==> p[1] in m[p[0]]
  {
  }

  // ---------------------------------------------------------------------------
  // The tables of the main loop.  `unv` is the `unvisited` list, `settled` maps
  // each vertex already taken out of it to the iteration that took it out,
  // `dist` is `minDist` and `pred` is `predecessors`.
  // ---------------------------------------------------------------------------

  /** The candidate pool and the settled vertices partition the non-isolated vertices. */
  ghost predicate Pool<T, X>(m: Adjacency<T, X>, unv: seq<T>, settled: map<T, nat>, step: nat) {
    && Distinct(unv)
    && (forall x :: x in unv ==> NonIsolated(m, x) && x !in settled)
    && (forall x :: x in settled ==> NonIsolated(m, x) && settled[x] < step)
    && (forall x :: x in m && m[x] != map[] ==> x in settled || x in unv)
  }

  /**
   * A finite label other than the start's was set while settling its
   * predecessor, which was settled earlier.
   */
  ghost predicate Parented<T>(unv: seq<T>, settled: map<T, nat>, pred: map<T, T>, x: T) {
    && x in pred && pred[x] in settled
    && (x in settled || x in unv)
    && (x in settled ==> settled[pred[x]] < settled[x])
  }

  /** The shape of the distance and predecessor tables. */
  ghost predicate Labels<T, X>(m: Adjacency<T, X>, s: T, unv: seq<T>, settled: map<T, nat>,
                               dist: map<T, Distance>, pred: map<T, T>) {
    && (forall x :: x in dist ==> x in m || x == s)
    && (forall x :: x in m ==> x in dist && x in pred)
    && s in dist && dist[s] == Finite(0)
    && (s in unv ==> settled == map[])
    && (settled != map[] ==> s in settled)
    && (settled == map[] ==> forall x :: x in dist && x != s ==> dist[x] == Infinity)
    && (forall x :: x in settled ==> x in dist && dist[x].Finite?)
    && (forall x :: x in dist && x != s && dist[x].Finite? ==> Parented(unv, settled, pred, x))
  }

  /** Edge `pred[x] -> x` carries `x`'s label: the predecessor's label plus its length. */
  ghost predicate TreeEdge<T, X>(m: Adjacency<T, X>, len: map<X, int>, dist: map<T, Distance>,
                                 pred: map<T, T>, x: T) {
    && x in pred && pred[x] in m && x in m[pred[x]]
    && x in dist && pred[x] in dist && dist[x].Finite? && dist[pred[x]].Finite?
    && dist[x].value == dist[pred[x]].value + Len(len, m[pred[x]][x])
  }

  /** Stepping back along the tree edge into `x` extends a walk that starts at `x`, at the cost of the label difference. */
  lemma TreeEdgeExtends<T, X>(m: Adjacency<T, X>, len: map<X, int>, dist: map<T, Distance>,
                              pred: map<T, T>, x: T, w: seq<T>)
    requires TreeEdge(m, len, dist, pred, x) && IsWalk(m, w) && w[0] == x
    ensures IsWalk(m, [pred[x]] + w)
    ensures WalkCost(m, len, [pred[x]] + w) == dist[x].value - dist[pred[x]].value + WalkCost(m, len, w)
  {
    var p := [pred[x]] + w;
    assert p[1..] == w;
  }

  /** The label of `y` is no worse than going through `x` and the edge `x -> y`. */
  ghost predicate Relaxed<T, X>(m: Adjacency<T, X>, len: map<X, int>, dist: map<T, Distance>, x: T, y: T) {
    && x in m && y in m[x] && x in dist && y in dist
    && dist[x].Finite? && dist[y].Finite?
    && dist[y].value <= dist[x].value + Len(len, m[x][y])
  }

  /** What makes the labels shortest-walk costs (in a well-formed index). */
  ghost predicate Optimal<T, X>(m: Adjacency<T, X>, len: map<X, int>, s: T, unv: seq<T>,
                                settled: map<T, nat>, dist: map<T, Distance>, pred: map<T, T>) {
    && (forall x :: x in dist && x != s && dist[x].Finite? ==> TreeEdge(m, len, dist, pred, x))
    && (forall x :: x in settled ==> Reachable(m, s, x))
    && (forall x :: x in settled && x in dist && dist[x].Finite? ==> LowerBound(m, len, s, x, dist[x].value))
    && (forall x, y :: x in settled && x in m && y in m[x] && y in unv ==> Relaxed(m, len, dist, x, y))
  }

  /** `c` is a candidate of least finite label (what `findMinDistVertex` returns). */
  ghost predicate Selected<T>(unv: seq<T>, dist: map<T, Distance>, c: T) {
    && c in unv && c in dist && dist[c].Finite?
    && (forall y :: y in unv && y in dist && dist[y].Finite? ==> dist[c].value <= dist[y].value)
  }

  /**
   * One vertex after relaxing the edges of `c`: either its label and predecessor
   * are as before, or it is a candidate whose label strictly improved to the
   * path through `c`.
   */
  ghost predicate Updated<T, X>(m: Adjacency<T, X>, len: map<X, int>, c: T, unv: seq<T>,
                                dist0: map<T, Distance>, pred0: map<T, T>,
                                dist: map<T, Distance>, pred: map<T, T>, x: T, wf: bool) {
    && x in dist0 && x in dist
    && (|| (dist[x] == dist0[x] && (x in pred0 ==> x in pred && pred[x] == pred0[x]))
        || (&& x in unv && x != c && x in pred && pred[x] == c && Less(dist[x], dist0[x])
            && (wf ==> c in m && x in m[c] && c in dist0 && dist0[c].Finite? &&
                       dist[x] == Finite(dist0[c].value + Len(len, m[c][x])))))
  }

  /**
   * Relaxing the edges of `c` that are no longer `pending`: every vertex is
   * `Updated`, and (in a well-formed index) every candidate neighbour reached
   * through a handled edge is `Relaxed` from `c`.
   */
  ghost predicate RelaxedBut<T, X>(m: Adjacency<T, X>, len: map<X, int>, c: T, unv: seq<T>,
                                   dist0: map<T, Distance>, pred0: map<T, T>,
                                   dist: map<T, Distance>, pred: map<T, T>, pending: set<X>, wf: bool) {
    && dist.Keys == dist0.Keys && pred.Keys == pred0.Keys
    && (forall x :: x in dist0 ==> Updated(m, len, c, unv, dist0, pred0, dist, pred, x, wf))
    && (wf ==> forall y :: c in m && y in m[c] && m[c][y] !in pending && y in unv ==> Relaxed(m, len, dist, c, y))
  }

  /** What relaxing every edge of `c` achieves. */
  ghost predicate RelaxedAll<T, X>(m: Adjacency<T, X>, len: map<X, int>, c: T, unv: seq<T>,
                                   dist0: map<T, Distance>, pred0: map<T, T>,
                                   dist: map<T, Distance>, pred: map<T, T>, wf: bool) {
    RelaxedBut(m, len, c, unv, dist0, pred0, dist, pred, {}, wf)
  }

  /** Before any edge is handled, nothing has changed. */
  lemma RelaxStart<T, X>(m: Adjacency<T, X>, len: map<X, int>, c: T, unv: seq<T>,
                         dist0: map<T, Distance>, pred0: map<T, T>, wf: bool)
    requires c in m && Selected(unv, dist0, c)
    ensures RelaxedBut(m, len, c, unv, dist0, pred0, dist0, pred0, m[c].Values, wf)
  {
    forall x | x in dist0 ensures Updated(m, len, c, unv, dist0, pred0, dist0, pred0, x, wf) {
    }
  }

  /** The facts every relaxation step relies on. */
  ghost predicate RelaxContext<T, X>(m: Adjacency<T, X>, len: map<X, int>, c: T, unv: seq<T>,
                                     dist0: map<T, Distance>, pred0: map<T, T>, e: X, o: T, d: int, wf: bool) {
    && c in m && e in m[c].Values && Selected(unv, dist0, c)
    && (forall x :: x in unv ==> x in dist0 && x in pred0)
    && NonNegative(len) && d == Len(len, e) && d >= 0
    && (wf ==> WellFormed(m) && HoldsAt(m, e, c, o))
  }

  /** Handling edge `e` when the label of `o` does not improve (or `o` is no candidate). */
  lemma RelaxKeep<T, X>(m: Adjacency<T, X>, len: map<X, int>, c: T, unv: seq<T>,
                        dist0: map<T, Distance>, pred0: map<T, T>,
                        dist: map<T, Distance>, pred: map<T, T>, pending: set<X>, wf: bool,
                        e: X, o: T, d: int)
    requires RelaxContext(m, len, c, unv, dist0, pred0, e, o, d, wf)
    requires RelaxedBut(m, len, c, unv, dist0, pred0, dist, pred, pending, wf)
    requires o in unv ==> o in dist && !Less(Finite(dist[c].value + d), dist[o])
    ensures RelaxedBut(m, len, c, unv, dist0, pred0, dist, pred, pending - {e}, wf)
  {
    assert Updated(m, len, c, unv, dist0, pred0, dist, pred, c, wf);
    if wf {
      forall y | y in m[c] && m[c][y] !in pending - {e} && y in unv ensures Relaxed(m, len, dist, c, y) {
        if m[c][y] == e {
          assert y == o;
          assert Updated(m, len, c, unv, dist0, pred0, dist, pred, y, wf);
        }
      }
    }
  }

  /** Handling edge `e` when the label of candidate `o` strictly improves through `c`. */
  lemma RelaxImprove<T, X>(m: Adjacency<T, X>, len: map<X, int>, c: T, unv: seq<T>,
                           dist0: map<T, Distance>, pred0: map<T, T>,
                           dist: map<T, Distance>, pred: map<T, T>, pending: set<X>, wf: bool,
                           e: X, o: T, d: int)
    requires RelaxContext(m, len, c, unv, dist0, pred0, e, o, d, wf)
    requires RelaxedBut(m, len, c, unv, dist0, pred0, dist, pred, pending, wf)
    requires o in unv && o in dist && Less(Finite(dist[c].value + d), dist[o])
    ensures RelaxedBut(m, len, c, unv, dist0, pred0, dist[o := Finite(dist[c].value + d)], pred[o := c],
                       pending - {e}, wf)
  {
    var dist', pred' := dist[o := Finite(dist[c].value + d)], pred[o := c];
    assert Updated(m, len, c, unv, dist0, pred0, dist, pred, c, wf);
    assert o != c;
    assert Updated(m, len, c, unv, dist0, pred0, dist, pred, o, wf);
    forall x | x in dist0 ensures Updated(m, len, c, unv, dist0, pred0, dist', pred', x, wf) {
      assert Updated(m, len, c, unv, dist0, pred0, dist, pred, x, wf);
    }
    if wf {
      forall y | y in m[c] && m[c][y] !in pending - {e} && y in unv ensures Relaxed(m, len, dist', c, y) {
        if m[c][y] != e {
          assert Relaxed(m, len, dist, c, y);
          assert Updated(m, len, c, unv, dist0, pred0, dist, pred, y, wf);
        }
      }
    }
  }

  // ---------------------------------------------------------------------------
  // One iteration: settling the selected candidate keeps the tables.
  // ---------------------------------------------------------------------------

  /** In the first iteration the only finite label is the start's. */
  lemma FirstSelectedIsStart<T, X>(m: Adjacency<T, X>, s: T, unv: seq<T>, settled: map<T, nat>,
                                   dist: map<T, Distance>, pred: map<T, T>, c: T)
    requires Labels(m, s, unv, settled, dist, pred) && Selected(unv, dist, c)
    ensures settled == map[] ==> c == s
  {
  }

  /** `next` lists the candidates of `unv` other than `c`, each once. */
  ghost predicate Dropped<T>(unv: seq<T>, c: T, next: seq<T>) {
    && Distinct(next)
    && (forall x :: x in next ==> x in unv && x != c)
    && (forall x :: x in unv && x != c ==> x in next)
  }

  /** `unvisited.remove(c)` yields the candidates other than `c`. */
  lemma RemoveFirstDrops<T>(unv: seq<T>, c: T)
    requires Distinct(unv)
    ensures Dropped(unv, c, RemoveFirst(unv, c))
  {
  }

  lemma SettlePool<T, X>(m: Adjacency<T, X>, unv: seq<T>, next: seq<T>, settled: map<T, nat>, step: nat, c: T)
    requires Pool(m, unv, settled, step) && c in unv && Dropped(unv, c, next)
    ensures Pool(m, next, settled[c := step], step + 1)
  {
  }

  lemma SettleLabels<T, X>(m: Adjacency<T, X>, len: map<X, int>, s: T, unv: seq<T>, unv': seq<T>,
                           settled: map<T, nat>, step: nat, dist0: map<T, Distance>, pred0: map<T, T>,
                           c: T, dist: map<T, Distance>, pred: map<T, T>, wf: bool)
    requires Pool(m, unv, settled, step) && Labels(m, s, unv, settled, dist0, pred0)
    requires Selected(unv, dist0, c) && RelaxedAll(m, len, c, unv, dist0, pred0, dist, pred, wf)
    requires Dropped(unv, c, unv')
    ensures Labels(m, s, unv', settled[c := step], dist, pred)
  {
    var settled' := settled[c := step];
    FirstSelectedIsStart(m, s, unv, settled, dist0, pred0, c);
    assert Updated(m, len, c, unv, dist0, pred0, dist, pred, s, wf);
    assert s !in unv';
    forall x | x in settled' ensures x in dist && dist[x].Finite? {
      assert Updated(m, len, c, unv, dist0, pred0, dist, pred, x, wf);
    }
    forall x | x in dist && x != s && dist[x].Finite? ensures Parented(unv', settled', pred, x) {
      assert Updated(m, len, c, unv, dist0, pred0, dist, pred, x, wf);
    }
  }

  /**
   * A walk from a settled start to a vertex outside the settled set leaves it
   * through some edge x -> y; its cost is at least the label of x plus that edge,
   * so at least the label of y.
   */
  lemma ExitBound<T, X>(m: Adjacency<T, X>, len: map<X, int>, s: T, unv: seq<T>,
                        settled: map<T, nat>, dist: map<T, Distance>, c: T, p: seq<T>)
    requires Symmetric(m) && NonNegative(len)
    requires forall x :: x in m && m[x] != map[] ==> x in settled || x in unv
    requires forall x :: x in settled && x in dist && dist[x].Finite? ==> LowerBound(m, len, s, x, dist[x].value)
    requires forall x, y :: x in settled && x in m && y in m[x] && y in unv ==> Relaxed(m, len, dist, x, y)
    requires forall x :: x in settled ==> x in dist && dist[x].Finite?
    requires Selected(unv, dist, c) && c !in settled
    requires IsWalk(m, p) && p[0] == s && p[|p| - 1] == c && s in settled
    ensures WalkCost(m, len, p) >= dist[c].value
  {
    var j := FirstExit(p, settled);
    var x, y := p[j - 1], p[j];
    assert y in m[x];
    assert NonIsolated(m, y) by {
      assert x in m[y];
    }
    assert Relaxed(m, len, dist, x, y);
    var q := p[..j];
    assert IsWalk(m, q) && q[0] == s && q[|q| - 1] == x;
    assert WalkCost(m, len, q) >= dist[x].value;
    PrefixStepCost(m, len, p, j);
  }

  /** A walk costs at least its part before position `j` plus the step into position `j`. */
  lemma PrefixStepCost<T, X>(m: Adjacency<T, X>, len: map<X, int>, p: seq<T>, j: nat)
    requires NonNegative(len) && 1 <= j < |p|
    ensures WalkCost(m, len, p) >= WalkCost(m, len, p[..j]) + Step(m, len, p[j - 1], p[j])
  {
    WalkCostSplit(m, len, p, j);
    var head := p[..j + 1];
    WalkCostSplit(m, len, head, j - 1);
    assert head[..j] == p[..j];
    assert head[j - 1..] == [p[j - 1], p[j]];
    WalkCostNonNegative(m, len, p[j..]);
  }

  /** Every walk from the start to the selected candidate costs at least its label. */
  lemma SelectedIsShortest<T, X>(m: Adjacency<T, X>, len: map<X, int>, s: T, unv: seq<T>,
                                 settled: map<T, nat>, step: nat, dist: map<T, Distance>,
                                 pred: map<T, T>, c: T)
    requires Symmetric(m) && NonNegative(len)
    requires Pool(m, unv, settled, step) && Labels(m, s, unv, settled, dist, pred)
    requires Optimal(m, len, s, unv, settled, dist, pred) && Selected(unv, dist, c)
    ensures LowerBound(m, len, s, c, dist[c].value)
  {
    FirstSelectedIsStart(m, s, unv, settled, dist, pred, c);
    forall p | IsWalk(m, p) && p[0] == s && p[|p| - 1] == c
      ensures WalkCost(m, len, p) >= dist[c].value
    {
      if settled == map[] {
        WalkCostNonNegative(m, len, p);
      } else {
        ExitBound(m, len, s, unv, settled, dist, c, p);
      }
    }
  }

  lemma SettleTreeEdges<T, X>(m: Adjacency<T, X>, len: map<X, int>, s: T, unv: seq<T>,
                              settled: map<T, nat>, step: nat, dist0: map<T, Distance>, pred0: map<T, T>,
                              c: T, dist: map<T, Distance>, pred: map<T, T>)
    requires Pool(m, unv, settled, step) && Labels(m, s, unv, settled, dist0, pred0)
    requires Optimal(m, len, s, unv, settled, dist0, pred0)
    requires Selected(unv, dist0, c) && RelaxedAll(m, len, c, unv, dist0, pred0, dist, pred, true)
    ensures forall x :: x in dist && x != s && dist[x].Finite? ==> TreeEdge(m, len, dist, pred, x)
  {
    assert Updated(m, len, c, unv, dist0, pred0, dist, pred, c, true);
    forall x | x in dist && x != s && dist[x].Finite? ensures TreeEdge(m, len, dist, pred, x) {
      assert Updated(m, len, c, unv, dist0, pred0, dist, pred, x, true);
      if dist[x] == dist0[x] {
        assert Parented(unv, settled, pred0, x);
        assert Updated(m, len, c, unv, dist0, pred0, dist, pred, pred0[x], true);
      }
    }
  }

  lemma SettleReachable<T, X>(m: Adjacency<T, X>, len: map<X, int>, s: T, unv: seq<T>,
                              settled: map<T, nat>, step: nat, dist0: map<T, Distance>, pred0: map<T, T>,
                              c: T)
    requires Pool(m, unv, settled, step) && Labels(m, s, unv, settled, dist0, pred0)
    requires Optimal(m, len, s, unv, settled, dist0, pred0) && Selected(unv, dist0, c)
    ensures forall x :: x in settled[c := step] ==> Reachable(m, s, x)
  {
    if c == s {
      ReachableSelf(m, s);
    } else {
      assert Parented(unv, settled, pred0, c);
      assert TreeEdge(m, len, dist0, pred0, c);
      ReachableStep(m, s, pred0[c], c);
    }
  }

  lemma SettleBounds<T, X>(m: Adjacency<T, X>, len: map<X, int>, s: T, unv: seq<T>,
                           settled: map<T, nat>, step: nat, dist0: map<T, Distance>, pred0: map<T, T>,
                           c: T, dist: map<T, Distance>, pred: map<T, T>)
    requires Symmetric(m) && NonNegative(len)
    requires Pool(m, unv, settled, step) && Labels(m, s, unv, settled, dist0, pred0)
    requires Optimal(m, len, s, unv, settled, dist0, pred0)
    requires Selected(unv, dist0, c) && RelaxedAll(m, len, c, unv, dist0, pred0, dist, pred, true)
    ensures forall x :: x in settled[c := step] && x in dist && dist[x].Finite? ==>
                          LowerBound(m, len, s, x, dist[x].value)
  {
    SelectedIsShortest(m, len, s, unv, settled, step, dist0, pred0, c);
    forall x | x in settled[c := step] && x in dist && dist[x].Finite?
      ensures LowerBound(m, len, s, x, dist[x].value)
    {
      assert Updated(m, len, c, unv, dist0, pred0, dist, pred, x, true);
    }
  }

  lemma SettleRelaxed<T, X>(m: Adjacency<T, X>, len: map<X, int>, s: T, unv: seq<T>, unv': seq<T>,
                            settled: map<T, nat>, step: nat, dist0: map<T, Distance>, pred0: map<T, T>,
                            c: T, dist: map<T, Distance>, pred: map<T, T>)
    requires Pool(m, unv, settled, step) && Labels(m, s, unv, settled, dist0, pred0)
    requires Optimal(m, len, s, unv, settled, dist0, pred0)
    requires Selected(unv, dist0, c) && RelaxedAll(m, len, c, unv, dist0, pred0, dist, pred, true)
    requires Dropped(unv, c, unv')
    ensures forall x, y :: x in settled[c := step] && x in m && y in m[x] && y in unv' ==>
                             Relaxed(m, len, dist, x, y)
  {
    var settled' := settled[c := step];
    assert Updated(m, len, c, unv, dist0, pred0, dist, pred, c, true);
    forall x, y | x in settled' && x in m && y in m[x] && y in unv' ensures Relaxed(m, len, dist, x, y) {
      if x != c {
        assert Relaxed(m, len, dist0, x, y);
        assert Updated(m, len, c, unv, dist0, pred0, dist, pred, x, true);
        assert Updated(m, len, c, unv, dist0, pred0, dist, pred, y, true);
      }
    }
  }

  lemma SettleOptimal<T, X>(m: Adjacency<T, X>, len: map<X, int>, s: T, unv: seq<T>, unv': seq<T>,
                            settled: map<T, nat>, step: nat, dist0: map<T, Distance>, pred0: map<T, T>,
                            c: T, dist: map<T, Distance>, pred: map<T, T>)
    requires Symmetric(m) && NonNegative(len)
    requires Pool(m, unv, settled, step) && Labels(m, s, unv, settled, dist0, pred0)
    requires Optimal(m, len, s, unv, settled, dist0, pred0)
    requires Selected(unv, dist0, c) && RelaxedAll(m, len, c, unv, dist0, pred0, dist, pred, true)
    requires Dropped(unv, c, unv')
    ensures Optimal(m, len, s, unv', settled[c := step], dist, pred)
  {
    SettleTreeEdges(m, len, s, unv, settled, step, dist0, pred0, c, dist, pred);
    SettleReachable(m, len, s, unv, settled, step, dist0, pred0, c);
    SettleBounds(m, len, s, unv, settled, step, dist0, pred0, c, dist, pred);
    SettleRelaxed(m, len, s, unv, unv', settled, step, dist0, pred0, c, dist, pred);
  }

  /** Settling the selected candidate `c` keeps every loop invariant. */
  lemma SettleStep<T, X>(m: Adjacency<T, X>, len: map<X, int>, s: T, unv: seq<T>, unv': seq<T>,
                         settled: map<T, nat>, step: nat, dist0: map<T, Distance>, pred0: map<T, T>,
                         c: T, dist: map<T, Distance>, pred: map<T, T>, wf: bool)
    requires NonNegative(len) && (wf ==> WellFormed(m))
    requires Pool(m, unv, settled, step) && Labels(m, s, unv, settled, dist0, pred0)
    requires wf ==> Optimal(m, len, s, unv, settled, dist0, pred0)
    requires Selected(unv, dist0, c) && RelaxedAll(m, len, c, unv, dist0, pred0, dist, pred, wf)
    requires Dropped(unv, c, unv')
    ensures Pool(m, unv', settled[c := step], step + 1) && Labels(m, s, unv', settled[c := step], dist, pred)
    ensures wf ==> Optimal(m, len, s, unv', settled[c := step], dist, pred)
  {
    SettlePool(m, unv, unv', settled, step, c);
    SettleLabels(m, len, s, unv, unv', settled, step, dist0, pred0, c, dist, pred, wf);
    if wf {
      SettleOptimal(m, len, s, unv, unv', settled, step, dist0, pred0, c, dist, pred);
    }
  }

  // ---------------------------------------------------------------------------
  // Leaving the loop.
  // ---------------------------------------------------------------------------

  /**
   * The predecessor links out of every reached vertex other than `s` lead to
   * a vertex settled strictly earlier, so following them ends at `s`.
   */
  ghost predicate PredecessorTree<T, X>(m: Adjacency<T, X>, s: T, settled: map<T, nat>,
                                        dist: map<T, Distance>, pred: map<T, T>) {
    && s in dist && dist[s] == Finite(0)
    && (forall x :: x in settled ==> x in m && x in dist && dist[x].Finite?)
    && (forall x :: x in dist && x != s && dist[x].Finite? ==> Parented([], settled, pred, x))
  }

  /** With no candidate left, the tables form a predecessor tree. */
  lemma DoneTree<T, X>(m: Adjacency<T, X>, s: T, settled: map<T, nat>, step: nat,
                       dist: map<T, Distance>, pred: map<T, T>)
    requires Pool(m, [], settled, step) && Labels(m, s, [], settled, dist, pred)
    ensures PredecessorTree(m, s, settled, dist, pred)
  {
  }

  /**
   * When every candidate left is at infinity, walks from the start never reach a
   * candidate: they stay among the settled vertices (or at an isolated start).
   */
  lemma StuckWalksStaySettled<T, X>(m: Adjacency<T, X>, len: map<X, int>, s: T, unv: seq<T>,
                                    settled: map<T, nat>, step: nat, dist: map<T, Distance>,
                                    pred: map<T, T>, p: seq<T>)
    requires Symmetric(m)
    requires Pool(m, unv, settled, step) && Labels(m, s, unv, settled, dist, pred)
    requires Optimal(m, len, s, unv, settled, dist, pred)
    requires forall y :: y in unv ==> y in dist && dist[y].Infinity?
    requires IsWalk(m, p) && p[0] == s
    ensures p[|p| - 1] in settled || p[|p| - 1] == s
  {
    if s in settled {
      var i := 0;
      while i < |p| - 1
        invariant 0 <= i < |p| && p[i] in settled
      {
        var x, y := p[i], p[i + 1];
        assert y in m[x];
        assert NonIsolated(m, y) by {
          assert x in m[y];
        }
        assert y !in unv by {
          assert y in unv ==> Relaxed(m, len, dist, x, y);
        }
        i := i + 1;
      }
    } else {
      assert !NonIsolated(m, s);
      WalkFirstStep(m, p);
    }
  }

  /** So a candidate at infinity when the loop gets stuck is unreachable from the start. */
  lemma StuckMeansUnreachable<T, X>(m: Adjacency<T, X>, len: map<X, int>, s: T, unv: seq<T>,
                                    settled: map<T, nat>, step: nat, dist: map<T, Distance>,
                                    pred: map<T, T>)
    requires Symmetric(m) && unv != []
    requires Pool(m, unv, settled, step) && Labels(m, s, unv, settled, dist, pred)
    requires Optimal(m, len, s, unv, settled, dist, pred)
    requires forall y :: y in unv ==> y in dist && dist[y].Infinity?
    ensures NonIsolated(m, unv[0]) && !Reachable(m, s, unv[0])
  {
    var y := unv[0];
    assert y in unv && s !in unv;
    forall p | IsWalk(m, p) && p[0] == s ensures p[|p| - 1] != y {
      StuckWalksStaySettled(m, len, s, unv, settled, step, dist, pred, p);
    }
  }

  /** When the pool is empty, every non-isolated vertex is settled, hence reachable. */
  lemma DoneMeansAllReachable<T, X>(m: Adjacency<T, X>, len: map<X, int>, s: T,
                                    settled: map<T, nat>, step: nat, dist: map<T, Distance>,
                                    pred: map<T, T>)
    requires Pool(m, [], settled, step) && Optimal(m, len, s, [], settled, dist, pred)
    ensures forall u :: NonIsolated(m, u) ==> Reachable(m, s, u)
  {
    forall u | NonIsolated(m, u) ensures Reachable(m, s, u) {
      assert u in settled;
    }
  }
}
