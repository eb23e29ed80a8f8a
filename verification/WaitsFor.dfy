/** The waits-for graph and the depth-first search for a cycle in it. */
module WaitsFor {
  import opened Common
  import opened LockHistory

  type Graph = map<TxnId, set<TxnId>>

  const INVALID_TXN_ID: TxnId := -1

  predicate Edge(g: Graph, a: TxnId, b: TxnId) { a in g && b in g[a] }

  ghost predicate IsPath(g: Graph, p: seq<TxnId>) {
    forall i {:trigger p[i]} :: 0 <= i < |p| - 1 ==> Edge(g, p[i], p[i + 1])
  }

  ghost predicate IsCycle(g: Graph, c: seq<TxnId>) {
    |c| > 0 && IsPath(g, c) && Edge(g, c[|c| - 1], c[0])
  }

  ghost predicate Acyclic(g: Graph) { forall c :: !IsCycle(g, c) }

  // ---------------------------------------------------------------- depth-first search

  /** An unordered_map of ints: 0 for nodes not seen, 1 for nodes on the path, 2 for nodes done. */
  function Color(color: map<TxnId, int>, x: TxnId): int { if x in color then color[x] else 0 }

  /** Every edge out of a finished node leads to a node that finished earlier. */
  ghost predicate Finished(g: Graph, order: seq<TxnId>) {
    forall i, b {:trigger Edge(g, order[i], b)} :: 0 <= i < |order| && Edge(g, order[i], b) ==> b in order[..i]
  }

  ghost predicate Searching(g: Graph, nodes: set<TxnId>, color: map<TxnId, int>, path: seq<TxnId>, order: seq<TxnId>) {
    && (forall a, b :: Edge(g, a, b) ==> a in nodes && b in nodes)
    && (forall x :: 0 <= Color(color, x) <= 2 && (Color(color, x) != 0 ==> x in nodes))
    && (forall x :: Color(color, x) == 1 <==> x in path)
    && (forall x :: Color(color, x) == 2 <==> x in order)
    && IsPath(g, path)
    && Finished(g, order)
  }

  ghost function Unseen(nodes: set<TxnId>, color: map<TxnId, int>): set<TxnId> {
    set x | x in nodes && Color(color, x) == 0
  }

  /** The largest transaction id on the cycle. */
  ghost predicate NewestOn(g: Graph, c: seq<TxnId>, newest: TxnId) {
    IsCycle(g, c) && newest in c && forall x :: x in c ==> x <= newest
  }

  /** The loop from the revisited node to the end of the path. */
  method NewestFrom(path: seq<TxnId>, next: TxnId) returns (newest: TxnId, ghost pos: nat)
    requires next in path
    ensures pos < |path| && path[pos] == next
    ensures newest in path[pos..] && forall x :: x in path[pos..] ==> x <= newest
  {
    var i := 0;
    while path[i] != next
      invariant 0 <= i < |path| && next !in path[..i]
      decreases |path| - i
    {
      i := i + 1;
    }
    pos := i;
    newest := next;
    while i < |path|
      invariant pos <= i <= |path|
      invariant newest in path[pos..] && newest >= next
      invariant forall j :: pos <= j < i ==> path[j] <= newest
    {
      newest := if newest < path[i] then path[i] else newest;
      i := i + 1;
    }
  }

  lemma PathClosesCycle(g: Graph, path: seq<TxnId>, pos: nat, next: TxnId)
    requires IsPath(g, path) && pos < |path| && path[pos] == next && Edge(g, path[|path| - 1], next)
    ensures IsCycle(g, path[pos..])
  {
    var c := path[pos..];
    forall i | 0 <= i < |c| - 1 ensures Edge(g, c[i], c[i + 1]) {
      assert c[i] == path[pos + i] && c[i + 1] == path[pos + i + 1];
    }
  }

  lemma Enter(g: Graph, nodes: set<TxnId>, color: map<TxnId, int>, path: seq<TxnId>, order: seq<TxnId>, node: TxnId)
    requires Searching(g, nodes, color, path, order) && node in nodes && Color(color, node) == 0
    requires path != [] ==> Edge(g, path[|path| - 1], node)
    ensures Searching(g, nodes, color[node := 1], path + [node], order) && node !in path
    ensures Unseen(nodes, color[node := 1]) == Unseen(nodes, color) - {node} && node in Unseen(nodes, color)
  {
    var color', path' := color[node := 1], path + [node];
    EnterPath(g, path, node);
    assert Color(color, node) == 0 ==> node !in path;
    forall x ensures 0 <= Color(color', x) <= 2 && (Color(color', x) != 0 ==> x in nodes)
             ensures Color(color', x) == 1 <==> x in path'
             ensures Color(color', x) == 2 <==> x in order
    {
      assert 0 <= Color(color, x) <= 2 && (Color(color, x) == 1 <==> x in path) &&
             (Color(color, x) == 2 <==> x in order);
    }
  }

  lemma EnterPath(g: Graph, path: seq<TxnId>, node: TxnId)
    requires IsPath(g, path) && (path != [] ==> Edge(g, path[|path| - 1], node))
    ensures IsPath(g, path + [node])
    ensures forall x :: x in path + [node] <==> x in path || x == node
  {
    var path' := path + [node];
    forall i | 0 <= i < |path'| - 1 ensures Edge(g, path'[i], path'[i + 1]) {
      assert path'[i] == path[i] && (i + 1 < |path| ==> path'[i + 1] == path[i + 1]);
    }
  }

  lemma Leave(g: Graph, nodes: set<TxnId>, color: map<TxnId, int>, path: seq<TxnId>, order: seq<TxnId>, node: TxnId)
    requires Searching(g, nodes, color, path + [node], order) && node !in path
    requires forall b :: Edge(g, node, b) ==> b in order
    ensures Searching(g, nodes, color[node := 2], path, order + [node])
    ensures Unseen(nodes, color[node := 2]) == Unseen(nodes, color)
  {
    var color' := color[node := 2];
    assert (path + [node])[|path|] == node;
    forall x ensures 0 <= Color(color', x) <= 2 && (Color(color', x) != 0 ==> x in nodes)
             ensures Color(color', x) == 1 <==> x in path
             ensures Color(color', x) == 2 <==> x in order + [node]
    {
      assert 0 <= Color(color, x) <= 2 && (Color(color, x) == 1 <==> x in path + [node]) &&
             (Color(color, x) == 2 <==> x in order);
    }
    FinishedMore(g, order, node);
    LeavePath(g, path, node);
  }

  lemma FinishedMore(g: Graph, order: seq<TxnId>, node: TxnId)
    requires Finished(g, order) && forall b :: Edge(g, node, b) ==> b in order
    ensures Finished(g, order + [node])
  {
    var order' := order + [node];
    forall i, b | 0 <= i < |order'| && Edge(g, order'[i], b) ensures b in order'[..i] {
      assert order'[..i] == order[..i];
      assert i < |order| ==> order'[i] == order[i];
    }
  }

  lemma LeavePath(g: Graph, path: seq<TxnId>, node: TxnId)
    requires IsPath(g, path + [node])
    ensures IsPath(g, path)
  {
    forall i | 0 <= i < |path| - 1 ensures Edge(g, path[i], path[i + 1]) {
      assert (path + [node])[i] == path[i] && (path + [node])[i + 1] == path[i + 1];
    }
  }

  /** The recursive search from one node. It either reports a cycle, or finishes the node and all it leads to. */
  method Dfs(g: Graph, node: TxnId, color0: map<TxnId, int>, path0: seq<TxnId>,
             ghost nodes: set<TxnId>, ghost order0: seq<TxnId>)
    returns (found: bool, newest: TxnId, color: map<TxnId, int>, path: seq<TxnId>,
             ghost order: seq<TxnId>, ghost cycle: seq<TxnId>)
    requires Searching(g, nodes, color0, path0, order0) && node in nodes && Color(color0, node) == 0
    requires path0 != [] ==> Edge(g, path0[|path0| - 1], node)
    ensures found ==> NewestOn(g, cycle, newest)
    ensures !found ==> Searching(g, nodes, color, path, order) && path == path0 && order0 <= order && node in order
    ensures !found ==> Unseen(nodes, color) <= Unseen(nodes, color0)
    decreases Unseen(nodes, color0)
  {
    newest, order, cycle := INVALID_TXN_ID, order0, [];
    Enter(g, nodes, color0, path0, order0, node);
    color := color0[node := 1];
    path := path0 + [node];
    if node in g {
      var todo := g[node];
      while todo != {}
        invariant todo <= g[node]
        invariant Searching(g, nodes, color, path, order) && path == path0 + [node] && order0 <= order
        invariant forall b :: b in g[node] && b !in todo ==> b in order
        invariant Unseen(nodes, color) <= Unseen(nodes, color0) - {node} && node in Unseen(nodes, color0)
        decreases todo
      {
        Inhabited(todo);
        var next :| next in todo;
        todo := todo - {next};
        assert Edge(g, node, next);
        if Color(color, next) == 0 {
          found, newest, color, path, order, cycle := Dfs(g, next, color, path, nodes, order);
          if found {
            return;
          }
        } else if Color(color, next) == 1 {
          ghost var pos;
          newest, pos := NewestFrom(path, next);
          PathClosesCycle(g, path, pos, next);
          cycle := path[pos..];
          found := true;
          return;
        }
      }
    }
    Leave(g, nodes, color, path0, order, node);
    path := path0;
    color := color[node := 2];
    order := order + [node];
    found := false;
  }

  /** Along a path, positions in the finishing order go down. */
  lemma {:induction false} Descend(g: Graph, order: seq<TxnId>, p: seq<TxnId>, i: nat) returns (j: nat)
    requires Finished(g, order) && IsPath(g, p) && |p| >= 2 && i < |order| && order[i] == p[0]
    ensures j < i && order[j] == p[|p| - 1]
    decreases |p|
  {
    assert Edge(g, p[0], p[1]);
    j :| 0 <= j < i && order[j] == p[1];
    if |p| > 2 {
      var rest := p[1..];
      forall k | 0 <= k < |rest| - 1 ensures Edge(g, rest[k], rest[k + 1]) { assert rest[k] == p[k + 1]; }
      j := Descend(g, order, rest, j);
    }
  }

  lemma {:induction false} NoCycleFrom(g: Graph, order: seq<TxnId>, c: seq<TxnId>, i: nat)
    requires Finished(g, order) && |c| > 0 && i < |order| && order[i] == c[0]
    ensures !IsCycle(g, c)
    decreases i
  {
    if IsCycle(g, c) {
      var p := c + [c[0]];
      forall k | 0 <= k < |p| - 1 ensures Edge(g, p[k], p[k + 1]) {
        assert p[k] == c[k];
      }
      var j := Descend(g, order, p, i);
      NoCycleFrom(g, order, c, j);
    }
  }

  /** A search that finished every node has shown that there is no cycle. */
  lemma AllFinishedAcyclic(g: Graph, order: seq<TxnId>)
    requires Finished(g, order) && forall a :: a in g ==> a in order
    ensures Acyclic(g)
  {
    forall c ensures !IsCycle(g, c) {
      if IsCycle(g, c) {
        OnCycleWaits(g, c, c[0]);
        var i :| 0 <= i < |order| && order[i] == c[0];
        NoCycleFrom(g, order, c, i);
      }
    }
  }

  /** HasCycle answers whether the graph has a cycle, and with the youngest transaction of one it found. */
  method HasCycle(g: Graph) returns (found: bool, newest: TxnId, ghost cycle: seq<TxnId>)
    ensures found ==> NewestOn(g, cycle, newest)
    ensures !found ==> Acyclic(g) && newest == INVALID_TXN_ID
  {
    var nodes := g.Keys + set a, b | a in g && b in g[a] :: b;
    var color: map<TxnId, int>, path: seq<TxnId> := map[], [];
    ghost var order: seq<TxnId> := [];
    found, newest, cycle := false, INVALID_TXN_ID, [];
    var todo := nodes;
    while todo != {}
      invariant todo <= nodes && newest == INVALID_TXN_ID && path == []
      invariant Searching(g, nodes, color, path, order)
      invariant forall a :: a in nodes && a !in todo ==> a in order
      decreases todo
    {
      Inhabited(todo);
      var node :| node in todo;
      todo := todo - {node};
      if Color(color, node) == 0 {
        var n;
        found, n, color, path, order, cycle := Dfs(g, node, color, path, nodes, order);
        if found {
          newest := n;
          return;
        }
      }
    }
    AllFinishedAcyclic(g, order);
  }

  // ---------------------------------------------------------------- victims

  method RemoveEdge(g0: Graph, a: TxnId, b: TxnId) returns (g: Graph)
    ensures g.Keys <= g0.Keys
    ensures forall x, y :: Edge(g, x, y) <==> Edge(g0, x, y) && !(x == a && y == b)
  {
    g := g0;
    if a in g {
      g := g[a := g[a] - {b}];
      if g[a] == {} {
        assert forall y :: y in g0[a] ==> y == b || y in g[a];
        g := g - {a};
      }
    }
  }

  /** DeleteNode on the graph: the victim waits for nobody any more, and the waiters listed no longer wait for it. */
  method DeleteNode(g0: Graph, victim: TxnId, waiters: set<TxnId>) returns (g: Graph)
    ensures g.Keys <= g0.Keys - {victim}
    ensures forall x, y :: Edge(g, x, y) <==> Edge(g0, x, y) && x != victim && !(y == victim && x in waiters)
  {
    g := g0 - {victim};
    var todo := waiters;
    while todo != {}
      invariant todo <= waiters && g.Keys <= g0.Keys - {victim}
      invariant forall x, y :: Edge(g, x, y) <==>
                  Edge(g0, x, y) && x != victim && !(y == victim && x in waiters && x !in todo)
      decreases todo
    {
      Inhabited(todo);
      var waiter :| waiter in todo;
      todo := todo - {waiter};
      g := RemoveEdge(g, waiter, victim);
    }
  }

  /** A cycle of a part of the graph is a cycle of the graph. */
  lemma CycleInWhole(part: Graph, g: Graph, c: seq<TxnId>)
    requires IsCycle(part, c) && forall x, y :: Edge(part, x, y) ==> Edge(g, x, y)
    ensures IsCycle(g, c)
  {
    forall i | 0 <= i < |c| - 1 ensures Edge(g, c[i], c[i + 1]) {
      assert Edge(part, c[i], c[i + 1]);
    }
  }

  /** A node on a cycle waits for somebody. */
  lemma OnCycleWaits(g: Graph, c: seq<TxnId>, x: TxnId)
    requires IsCycle(g, c) && x in c
    ensures x in g
  {
    var i :| 0 <= i < |c| && c[i] == x;
    assert i < |c| - 1 ==> Edge(g, c[i], c[i + 1]);
  }

  /** What the victim loop keeps: edges only go away, and only at a victim; every victim is the youngest transaction
      of a cycle of the whole graph. */
  ghost predicate Picking(graph: Graph, remaining: Graph, victims: seq<TxnId>) {
    && (forall a, b :: Edge(remaining, a, b) ==> Edge(graph, a, b))
    && (forall a, b :: Edge(graph, a, b) && a !in victims && b !in victims ==> Edge(remaining, a, b))
    && (forall v :: v in victims ==> exists c :: NewestOn(graph, c, v))
  }

  lemma PickingStep(graph: Graph, g: Graph, g': Graph, victims: seq<TxnId>, v: TxnId, cycle: seq<TxnId>)
    requires Picking(graph, g, victims) && NewestOn(g, cycle, v)
    requires forall a, b :: Edge(g', a, b) ==> Edge(g, a, b)
    requires forall a, b :: Edge(g, a, b) && a != v && b != v ==> Edge(g', a, b)
    ensures Picking(graph, g', victims + [v]) && v in g
  {
    CycleInWhole(g, graph, cycle);
    OnCycleWaits(g, cycle, v);
    assert NewestOn(graph, cycle, v);
    forall a, b | Edge(graph, a, b) && a !in victims + [v] && b !in victims + [v] ensures Edge(g', a, b) {
      assert (victims + [v])[|victims|] == v;
      assert a !in victims && b !in victims;
    }
  }

  /** Once no cycle remains, every deadlock of the whole graph has lost one of its transactions. */
  lemma EveryCycleBroken(graph: Graph, remaining: Graph, victims: seq<TxnId>, c: seq<TxnId>)
    requires Picking(graph, remaining, victims) && Acyclic(remaining) && IsCycle(graph, c)
    ensures exists v :: v in victims && v in c
  {
    assert (forall v :: v in c ==> v !in victims) ==> IsCycle(remaining, c) by {
      if forall v :: v in c ==> v !in victims {
        forall i | 0 <= i < |c| - 1 ensures Edge(remaining, c[i], c[i + 1]) {
          assert Edge(graph, c[i], c[i + 1]) && c[i] in c && c[i + 1] in c;
        }
        assert c[|c| - 1] in c && c[0] in c;
      }
    }
  }
}
