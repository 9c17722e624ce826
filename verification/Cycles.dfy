/** Three-colour depth-first search for a dependency cycle. */
module Cycles {
  import opened Text
  import opened Ordering

  /** Adjacency lists; a neighbour need not be a key. */
  type Graph = map<Bytes, seq<Bytes>>

  datatype Color = White | Gray | Black

  ghost predicate Edge(g: Graph, u: Bytes, v: Bytes) {
    u in g && v in g[u]
  }

  ghost predicate Walk(g: Graph, p: seq<Bytes>) {
    forall i :: 0 <= i < |p| - 1 ==> Edge(g, p[i], p[i + 1])
  }

  ghost predicate Cycle(g: Graph, c: seq<Bytes>) {
    |c| >= 2 && c[0] == c[|c| - 1] && Walk(g, c)
  }

  /** A cycle that repeats no node but its first, at the end. */
  ghost predicate SimpleCycle(g: Graph, c: seq<Bytes>) {
    Cycle(g, c) && Distinct(c[..|c| - 1])
  }

  ghost predicate Acyclic(g: Graph) {
    forall c :: !Cycle(g, c)
  }

  /** Every key-neighbour of a node stands before it. */
  ghost predicate FinishOrder(g: Graph, finished: seq<Bytes>) {
    forall i, v :: 0 <= i < |finished| && Edge(g, finished[i], v) && v in g ==> v in finished[..i]
  }

  /** The index of the first entry equal to `x`. */
  function Position(s: seq<Bytes>, x: Bytes): (at: Option<nat>)
    ensures at.Some? <==> x in s
    ensures at.Some? ==> at.value < |s| && s[at.value] == x
  {
    if s == [] then None
    else if s[0] == x then Some(0)
    else
      match Position(s[1..], x)
      case Some(i) => Some(i + 1)
      case None => None
  }

  /** One run of the search over a fixed graph. */
  class Search {
    const graph: Graph
    var state: map<Bytes, Color>
    var path: seq<Bytes>
    /** The black nodes, in the order they were blackened. */
    ghost var finished: seq<Bytes>

    constructor (graph: Graph)
      ensures this.graph == graph && Valid()
      ensures path == [] && finished == []
      ensures forall u :: u in graph ==> state[u] == White
    {
      this.graph := graph;
      state := map u | u in graph :: White;
      path := [];
      finished := [];
    }

    ghost predicate Valid()
      reads this
    {
      Consistent(graph, state, path, finished)
    }

    /** Explore from a white node hanging off the end of the path. */
    method Visit(node: Bytes) returns (r: Option<seq<Bytes>>)
      requires Valid() && node in graph && node in state && state[node] == White
      requires path != [] ==> Edge(graph, path[|path| - 1], node)
      modifies this
      decreases Whites(graph, state)
      ensures r.Some? ==> SimpleCycle(graph, r.value)
      ensures r == None ==> Valid() && path == old(path) && Whites(graph, state) < old(Whites(graph, state))
      ensures r == None ==> old(finished) <= finished && node in finished
    {
      hide Consistent, Whites, SimpleCycle, Walk, Distinct;
      Enter(graph, state, path, finished, node);
      state := state[node := Gray];
      path := path + [node];
      ghost var before := path;

      var neighbours := graph[node];
      for i := 0 to |neighbours|
        invariant Valid() && path == before
        invariant Whites(graph, state) < old(Whites(graph, state))
        invariant old(finished) <= finished
        invariant forall j :: 0 <= j < i && neighbours[j] in graph ==> neighbours[j] in finished
      {
        var next := neighbours[i];
        assert Edge(graph, node, next);
        ColorsMean(graph, state, path, finished, next);
        if next in state {
          if state[next] == Gray {
            var at := Position(path, next);
            var start := if at.Some? then at.value else 0;
            r := Some(path[start..] + [next]);
            SliceIsCycle(graph, path, start, next);
            return;
          } else if state[next] == White {
            r := Visit(next);
            if r.Some? {
              return;
            }
          }
        }
      }

      path := path[..|path| - 1];
      assert path == old(path);
      Leave(graph, state, path, finished, node);
      state := state[node := Black];
      finished := finished + [node];
      r := None;
    }
  }

  /** Gray is the path, black is what has finished, and what has finished is closed. */
  ghost predicate Consistent(g: Graph, state: map<Bytes, Color>, path: seq<Bytes>, finished: seq<Bytes>) {
    && state.Keys == g.Keys
    && (forall u :: u in path ==> u in g)
    && (forall u :: u in finished ==> u in g)
    && (forall u :: u in g ==> (state[u] == Gray <==> u in path))
    && (forall u :: u in g ==> (state[u] == Black <==> u in finished))
    && Distinct(path)
    && Walk(g, path)
    && FinishOrder(g, finished)
  }

  ghost function Whites(g: Graph, state: map<Bytes, Color>): set<Bytes> {
    set u | u in g && u in state && state[u] == White
  }

  lemma ColorsMean(g: Graph, state: map<Bytes, Color>, path: seq<Bytes>, finished: seq<Bytes>, u: Bytes)
    requires Consistent(g, state, path, finished)
    ensures u in state <==> u in g
    ensures u in state ==> (state[u] == Gray <==> u in path) && (state[u] == Black <==> u in finished)
    ensures Distinct(path) && Walk(g, path)
  {
  }

  lemma Enter(g: Graph, state: map<Bytes, Color>, path: seq<Bytes>, finished: seq<Bytes>, node: Bytes)
    requires Consistent(g, state, path, finished)
    requires node in g && state[node] == White
    requires path != [] ==> Edge(g, path[|path| - 1], node)
    ensures Consistent(g, state[node := Gray], path + [node], finished)
    ensures Whites(g, state[node := Gray]) < Whites(g, state)
  {
    var state', path' := state[node := Gray], path + [node];
    assert node !in path;
    assert node in Whites(g, state) && node !in Whites(g, state');
    forall i | 0 <= i < |path'| - 1
      ensures Edge(g, path'[i], path'[i + 1])
    {
      if i + 1 < |path| {
        assert Edge(g, path[i], path[i + 1]);
      }
    }
  }

  lemma {:induction false} Leave(g: Graph, state: map<Bytes, Color>, path: seq<Bytes>, finished: seq<Bytes>, node: Bytes)
    requires Consistent(g, state, path + [node], finished)
    requires node in g
    requires forall j :: 0 <= j < |g[node]| && g[node][j] in g ==> g[node][j] in finished
    ensures Consistent(g, state[node := Black], path, finished + [node])
    ensures Whites(g, state[node := Black]) == Whites(g, state)
  {
    var longer := path + [node];
    assert longer[|path|] == node;
    assert forall i :: 0 <= i < |path| ==> longer[i] == path[i];
    assert state[node] == Gray;
    forall i | 0 <= i < |path| - 1
      ensures Edge(g, path[i], path[i + 1])
    {
      assert Edge(g, longer[i], longer[i + 1]);
    }
    FinishNext(g, finished, node);
  }

  /** Cutting the path at a node it came back to leaves a simple cycle. */
  lemma SliceIsCycle(g: Graph, path: seq<Bytes>, start: nat, next: Bytes)
    requires Walk(g, path) && Distinct(path)
    requires start < |path| && path[start] == next && Edge(g, path[|path| - 1], next)
    ensures SimpleCycle(g, path[start..] + [next])
  {
    var c := path[start..] + [next];
    forall i | 0 <= i < |c| - 1
      ensures Edge(g, c[i], c[i + 1])
    {
      assert c[i] == path[start + i];
      if i < |c| - 2 {
        assert c[i + 1] == path[start + i + 1];
      }
    }
    assert c[..|c| - 1] == path[start..];
  }

  lemma {:induction false} FinishNext(g: Graph, finished: seq<Bytes>, node: Bytes)
    requires FinishOrder(g, finished) && node in g
    requires forall j :: 0 <= j < |g[node]| && g[node][j] in g ==> g[node][j] in finished
    ensures FinishOrder(g, finished + [node])
  {
    var longer := finished + [node];
    forall i, v | 0 <= i < |longer| && Edge(g, longer[i], v) && v in g
      ensures v in longer[..i]
    {
      if i < |finished| {
        assert longer[..i] == finished[..i];
      } else {
        assert longer[..i] == finished;
      }
    }
  }

  /** Walking along edges goes strictly down the finishing order. */
  lemma {:induction false} Descends(g: Graph, finished: seq<Bytes>, c: seq<Bytes>, k: nat, i: nat) returns (j: nat)
    requires FinishOrder(g, finished) && Walk(g, c) && k < |c| && c[k] in g
    requires forall m :: 0 <= m <= k ==> c[m] in g
    requires i < |finished| && finished[i] == c[0]
    ensures j + k <= i && finished[j] == c[k]
  {
    if k == 0 {
      j := i;
    } else {
      var previous := Descends(g, finished, c, k - 1, i);
      assert Edge(g, c[k - 1], c[k - 1 + 1]);
      assert c[k] in finished[..previous];
      j :| 0 <= j < previous && finished[..previous][j] == c[k];
    }
  }

  lemma {:induction false} NoCycleThrough(g: Graph, finished: seq<Bytes>, c: seq<Bytes>, i: nat)
    requires FinishOrder(g, finished) && Cycle(g, c)
    requires i < |finished| && finished[i] == c[0]
    ensures false
  {
    forall m | 0 <= m < |c|
      ensures c[m] in g
    {
      if m < |c| - 1 {
        assert Edge(g, c[m], c[m + 1]);
      } else {
        assert Edge(g, c[0], c[0 + 1]);
      }
    }
    var j := Descends(g, finished, c, |c| - 1, i);
    NoCycleThrough(g, finished, c, j);
  }

  /** A graph whose every key has finished has no cycle. */
  lemma FinishedIsAcyclic(g: Graph, finished: seq<Bytes>)
    requires FinishOrder(g, finished) && forall u :: u in g ==> u in finished
    ensures Acyclic(g)
  {
    forall c | Cycle(g, c)
      ensures false
    {
      assert Edge(g, c[0], c[0 + 1]);
      var i :| 0 <= i < |finished| && finished[i] == c[0];
      NoCycleThrough(g, finished, c, i);
    }
  }

  /** `None` says the graph is acyclic and `Some` carries a simple cycle of it. */
  method FindCycle(graph: Graph) returns (r: Option<seq<Bytes>>)
    ensures r == None <==> Acyclic(graph)
    ensures r.Some? ==> SimpleCycle(graph, r.value)
  {
    var search := new Search(graph);
    var names := graph.Keys;
    while names != {}
      invariant names <= graph.Keys
      invariant search.graph == graph && search.Valid() && search.path == []
      invariant forall u :: u in graph && u !in names ==> u in search.finished
    {
      hide LexLe, Consistent, SimpleCycle, Acyclic;
      LexIsTotalOrder();
      ghost var least := LeastExists(LexLe, names);
      var name :| name in names && forall y :: y in names ==> LexLe(name, y);
      if search.state[name] == White {
        r := search.Visit(name);
        if r.Some? {
          return;
        }
      }
      names := names - {name};
    }
    FinishedIsAcyclic(graph, search.finished);
    return None;
  }
}
