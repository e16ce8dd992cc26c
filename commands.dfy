/**
 * The undo machinery: a command takes a backup of the network's graph when it
 * is executed and puts a copy of that backup back when it is undone; the
 * history is a stack of executed commands.
 *
 * The backup is made with the graph's copy constructor, which copies the outer
 * vertex map only.  The backup therefore keeps its own set of vertices, but its
 * neighbour maps are the live graph's own objects: a later change to a route is
 * seen through the backup too.  The scenarios at the end of the module state
 * both halves.
 */
module Commands {
  import opened Wrappers
  import opened AdjacencyIndex
  import opened Domain
  import opened Graphs
  import opened Network

  /** `Stack.pop` on an empty stack throws `EmptyStackException`. */
  datatype HistoryError = EmptyStack

  /**
   * CopyCommand, the one kind of Command: it remembers the network it acts on
   * and, once executed, the backup it took.
   */
  class CopyCommand {
    const model: AirportNetwork
    var backup: Graph?<Airport, Route>

    /** A command over `model` with no backup yet. */
    constructor (model: AirportNetwork)
      ensures this.model == model && backup == null
    {
      this.model := model;
      backup := null;
    }

    /**
     * backup: a new graph over the network's current vertex map; it holds the
     * same vertices, with the same neighbour maps, as the live graph.
     */
    method Backup()
      modifies this
      ensures fresh(backup)
      ensures backup.adjacency == model.network.adjacency && backup.sameEdge == model.network.sameEdge
      ensures backup.Vertices() == model.network.Vertices() && backup.Index() == model.network.Index()
      ensures model.Valid() ==> backup.Valid()
    {
      backup := new Graph.Copy(model.network);
    }

    /** execute: takes the backup and reports success. */
    method Execute() returns (done: bool)
      modifies this
      ensures done
      ensures fresh(backup)
      ensures backup.adjacency == model.network.adjacency && backup.sameEdge == model.network.sameEdge
      ensures backup.Vertices() == model.network.Vertices() && backup.Index() == model.network.Index()
      ensures model.Valid() ==> backup.Valid()
    {
      Backup();
      done := true;
    }

    /**
     * undo: the network becomes a fresh graph over the backup's vertex map, as
     * the backup reads now.  Without a backup the copy constructor dereferences
     * null.
     */
    method Undo() returns (r: Result<(), NetworkError>)
      modifies model
      ensures r.Err? <==> backup == null
      ensures r.Err? ==> r.error == Uncaught(NullPointer) && model.network == old(model.network)
      ensures r.Ok? ==> fresh(model.network) && model.network != backup
      ensures r.Ok? ==> model.network.adjacency == backup.adjacency && model.network.Index() == backup.Index()
      ensures r.Ok? && backup.Valid() && backup.sameEdge == SameRoute ==> model.Valid()
    {
      r := model.Restore(backup);
    }
  }

  /** CommandHistory: the executed commands, most recent last. */
  class CommandHistory {
    var history: seq<CopyCommand>

    /** A new history is empty. */
    constructor ()
      ensures history == [] && IsEmpty()
    {
      history := [];
    }

    /** push: `c` becomes the most recent command. */
    method Push(c: CopyCommand)
      modifies this
      ensures history == old(history) + [c]
      ensures !IsEmpty() && history[|history| - 1] == c
    {
      history := history + [c];
    }

    /** pop: takes off and answers the most recent command; an empty history fails. */
    method Pop() returns (r: Result<CopyCommand, HistoryError>)
      modifies this
      ensures old(IsEmpty()) <==> r.Err?
      ensures r.Err? ==> r.error == EmptyStack && history == old(history)
      ensures r.Ok? ==> old(history) == history + [r.value]
    {
      if history == [] {
        return Err(EmptyStack);
      }
      r := Ok(history[|history| - 1]);
      history := history[..|history| - 1];
    }

    /** isEmpty. */
    predicate IsEmpty()
      reads this
      ensures IsEmpty() <==> |history| == 0
    {
      history == []
    }
  }

  // ---------------------------------------------------------------------------
  // What the history and the backups guarantee over several calls.
  // ---------------------------------------------------------------------------

  /** Pushing a command and popping answers that command and leaves the history as it was. */
  method PushThenPop(h: CommandHistory, c: CopyCommand) returns (r: Result<CopyCommand, HistoryError>)
    modifies h
    ensures r == Ok(c) && h.history == old(h.history)
  {
    h.Push(c);
    r := h.Pop();
    LastOff(old(h.history), c, h.history, r.value);
  }

  /** Two pushes are popped in reverse order, and the history is left as it was. */
  method LastInFirstOut(h: CommandHistory, c: CopyCommand, d: CopyCommand)
    returns (first: Result<CopyCommand, HistoryError>, second: Result<CopyCommand, HistoryError>)
    modifies h
    ensures first == Ok(d) && second == Ok(c) && h.history == old(h.history)
  {
    h.Push(c);
    h.Push(d);
    first := h.Pop();
    LastOff(old(h.history) + [c], d, h.history, first.value);
    second := h.Pop();
    LastOff(old(h.history), c, h.history, second.value);
  }

  /** A list with one element added at the end determines both the list and the element. */
  lemma LastOff<T>(s: seq<T>, x: T, t: seq<T>, y: T)
    requires s + [x] == t + [y]
    ensures s == t && x == y
  {
    assert |s| == |t|;
    assert x == (s + [x])[|s|] == (t + [y])[|t|] == y;
    assert s == (s + [x])[..|s|] == (t + [y])[..|t|] == t;
  }

  /**
   * An airport added to the live graph after a backup is not in the backup, and
   * the backup reads exactly as the network did when it was taken.
   */
  method AddAirportAfterBackup(c: CopyCommand, x: Airport) returns (r: Result<Vertex<Airport>, GraphError>)
    requires c.model.Valid()
    modifies c, c.model.network
    ensures c.backup != null && c.backup.Vertices() == old(c.model.network.Vertices())
    ensures c.backup.Index() == old(c.model.network.Index())
    ensures r.Ok? ==> r.value in c.model.network.Vertices() && r.value !in c.backup.Vertices()
  {
    var g := c.model.network;
    var done := c.Execute();
    IndexKept(g);
    r := InsertBesideBackup(g, c.backup, x);
  }

  /** insertVertex on the live graph leaves another graph over the same neighbour maps as it was. */
  method InsertBesideBackup(g: Graph<Airport, Route>, b: Graph<Airport, Route>, x: Airport)
    returns (r: Result<Vertex<Airport>, GraphError>)
    requires g.Valid() && b != g && b.adjacency == g.adjacency
    modifies g
    ensures b.adjacency == old(g.adjacency) && b.Index() == old(g.Index())
    ensures r.Ok? ==> r.value in g.Vertices() && r.value !in b.Vertices()
  {
    r := g.InsertVertex(x);
    IndexKept(b);
  }

  /**
   * Removing an airport from the live graph after a backup leaves it a vertex
   * of the backup, but the neighbour maps the two graphs share lose their
   * entries for it in the backup as well.
   */
  method RemoveAirportAfterBackup(c: CopyCommand, v: Vertex<Airport>) returns (r: Result<Airport, GraphError>)
    requires c.model.Valid()
    modifies c, c.model.network, c.model.network.adjacency.Values
    ensures c.backup != null && c.backup.Vertices() == old(c.model.network.Vertices())
    ensures r.Ok? ==> v in c.backup.Vertices() && v !in c.model.network.Vertices()
    ensures r.Ok? ==> forall u :: u in c.backup.adjacency ==> c.backup.Index()[u] == old(c.model.network.Index()[u]) - {v}
  {
    var g := c.model.network;
    var done := c.Execute();
    IndexKept(g);
    r := RemoveBesideBackup(g, c.backup, v);
  }

  /**
   * removeVertex on the live graph, seen from another graph over the same
   * vertex map: it keeps its vertices, and each of its neighbour maps loses `v`.
   */
  method RemoveBesideBackup(g: Graph<Airport, Route>, b: Graph<Airport, Route>, v: Vertex<Airport>)
    returns (r: Result<Airport, GraphError>)
    requires g.Valid() && b != g && b.adjacency == g.adjacency
    modifies g, g.adjacency.Values
    ensures b.adjacency == old(g.adjacency)
    ensures r.Ok? ==> v in b.Vertices() && v !in g.Vertices()
    ensures r.Ok? ==> forall u :: u in b.adjacency ==> b.Index()[u] == old(g.Index()[u]) - {v}
  {
    ghost var before := g.Index();
    r := g.RemoveVertex(v);
    if r.Ok? {
      forall u | u in b.adjacency ensures b.Index()[u] == before[u] - {v} {
        assert b.adjacency[u] in old(g.adjacency.Values);
      }
    }
  }

  /**
   * A route added to the live graph after a backup is seen through the
   * backup too: both graphs hold the same vertices over the same neighbour maps.
   */
  method AddRouteAfterBackup(c: CopyCommand, u: Vertex<Airport>, v: Vertex<Airport>, x: Route)
    returns (r: Result<Edge<Route>, GraphError>)
    requires c.model.Valid()
    modifies c, c.model.network.adjacency.Values
    ensures c.backup != null && c.backup.Vertices() == old(c.model.network.Vertices())
    ensures c.backup.Index() == c.model.network.Index()
    ensures r.Ok? ==> HoldsAt(c.backup.Index(), r.value, u, v) && r.value !in old(EdgeSet(c.model.network.Index()))
  {
    var g := c.model.network;
    var done := c.Execute();
    var b := c.backup;
    r := g.InsertEdge(u, v, x);
    assert b.adjacency == g.adjacency;
  }
}
