/**
 The topological sorter: a graph of nodes with their predecessors, put in an order in
 which every node follows its predecessors, or refused because it has a cycle.
 */
module TopologicalSort {
  import opened Sequences
  import opened Wrappers

  type Node = string

  /** Each node with its predecessors; every predecessor is a node. */
  type Graph = map<Node, seq<Node>>

  ghost predicate Closed(g: Graph) {
    forall n, p :: n in g && p in g[n] ==> p in g
  }

  /** Each node is followed by one that has it as a predecessor. */
  ghost predicate IsPath(g: Graph, path: seq<Node>) {
    && (forall i :: 0 <= i < |path| ==> path[i] in g)
    && (forall i {:trigger g[path[i]]} :: 0 < i < |path| ==> path[i - 1] in g[path[i]])
  }

  ghost predicate IsCycle(g: Graph, path: seq<Node>) {
    |path| > 1 && IsPath(g, path) && path[0] == path[|path| - 1]
  }

  ghost predicate Acyclic(g: Graph) {
    forall path :: !IsCycle(g, path)
  }

  ghost predicate IsOrder(g: Graph, order: seq<Node>) {
    && NoDuplicates(order)
    && (forall n :: n in g <==> n in order)
    && RespectsPredecessors(g, order)
  }

  ghost predicate RespectsPredecessors(g: Graph, order: seq<Node>) {
    forall j, p :: 0 <= j < |order| && order[j] in g && p in g[order[j]] ==> p in order[..j]
  }

  // ---------------------------------------------------------------------------
  // An order exists exactly when there is no cycle

  function Index(order: seq<Node>, n: Node): (i: nat)
    requires n in order
    ensures i < |order| && order[i] == n
    ensures n !in order[..i]
  {
    if order[0] == n then 0
    else
      assert order == [order[0]] + order[1..];
      1 + Index(order[1..], n)
  }

  lemma {:induction false} IndexGrows(g: Graph, order: seq<Node>, path: seq<Node>, k: nat)
    requires IsOrder(g, order) && IsPath(g, path) && 0 < k < |path|
    ensures path[0] in order && path[k] in order && Index(order, path[0]) < Index(order, path[k])
  {
    var j := Index(order, path[k]);
    assert order[j] == path[k] && path[k - 1] in g[order[j]];
    assert path[k - 1] in order[..j];
    var i :| 0 <= i < j && order[i] == path[k - 1];
    if k > 1 {
      IndexGrows(g, order, path, k - 1);
      assert order[Index(order, path[k - 1])] == order[i];
    } else {
      assert order[Index(order, path[0])] == order[i];
    }
  }

  lemma OrderedIsAcyclic(g: Graph, order: seq<Node>)
    requires IsOrder(g, order)
    ensures Acyclic(g)
  {
    forall path | IsCycle(g, path)
      ensures false
    {
      IndexGrows(g, order, path, |path| - 1);
    }
  }

  ghost predicate Waits(g: Graph, stuck: set<Node>, n: Node) {
    n in g && exists p :: p in g[n] && p in stuck
  }

  ghost predicate AllWait(g: Graph, stuck: set<Node>) {
    forall n {:trigger Waits(g, stuck, n)} :: n in stuck ==> Waits(g, stuck, n)
  }

  lemma {:induction false} PathWithin(g: Graph, stuck: set<Node>, length: nat) returns (path: seq<Node>)
    requires stuck != {} && AllWait(g, stuck)
    requires length > 0
    ensures |path| == length && IsPath(g, path) && forall i :: 0 <= i < length ==> path[i] in stuck
  {
    if length == 1 {
      var n :| n in stuck;
      assert Waits(g, stuck, n);
      path := [n];
    } else {
      var rest := PathWithin(g, stuck, length - 1);
      assert rest[0] in stuck && Waits(g, stuck, rest[0]);
      var p :| p in g[rest[0]] && p in stuck;
      assert Waits(g, stuck, p);
      path := [p] + rest;
      forall i | 0 < i < length
        ensures path[i - 1] in g[path[i]]
      {
        assert path[i] == rest[i - 1] && (i > 1 ==> path[i - 1] == rest[i - 2] && rest[i - 2] in g[rest[i - 1]]);
      }
    }
  }

  lemma {:induction false} Pigeonhole(xs: seq<Node>, s: set<Node>) returns (i: nat, j: nat)
    requires |xs| > |s| && forall k :: 0 <= k < |xs| ==> xs[k] in s
    ensures i < j < |xs| && xs[i] == xs[j]
  {
    var n := |xs| - 1;
    if k :| 0 <= k < n && xs[k] == xs[n] {
      return k, n;
    }
    assert |s - {xs[n]}| == |s| - 1;
    i, j := Pigeonhole(xs[..n], s - {xs[n]});
  }

  /** Nodes that all wait for one another hide a cycle. */
  lemma StuckHasCycle(g: Graph, stuck: set<Node>)
    requires stuck != {} && AllWait(g, stuck)
    ensures !Acyclic(g)
  {
    var path := PathWithin(g, stuck, |stuck| + 1);
    var i, j := Pigeonhole(path, stuck);
    var cycle := path[i..j + 1];
    forall k | 0 < k < |cycle|
      ensures cycle[k - 1] in g[cycle[k]]
    {
      assert path[i + k - 1] in g[path[i + k]];
    }
    assert IsCycle(g, cycle);
  }

  // ---------------------------------------------------------------------------
  // Kahn's algorithm

  predicate Ready(g: Graph, waiting: set<Node>, n: Node)
    requires n in g
  {
    forall p :: p in g[n] ==> p !in waiting
  }

  /** Some nodes are in order, the others wait. */
  ghost predicate Partial(g: Graph, waiting: set<Node>, order: seq<Node>) {
    && waiting <= g.Keys && NoDuplicates(order)
    && (forall n {:trigger n in order} :: n in order <==> n in g && n !in waiting)
    && RespectsPredecessors(g, order)
  }

  lemma PlacingKeepsPartial(g: Graph, waiting: set<Node>, order: seq<Node>, n: Node)
    requires Closed(g) && Partial(g, waiting, order) && n in waiting && Ready(g, waiting, n)
    ensures Partial(g, waiting - {n}, order + [n])
  {
    var order' := order + [n];
    assert n !in order;
    forall j, p | 0 <= j < |order'| && order'[j] in g && p in g[order'[j]]
      ensures p in order'[..j]
    {
      if j < |order| {
        assert p in order[..j] && order'[..j] == order[..j];
      } else {
        assert order'[..j] == order;
        assert p in order;
      }
    }
    forall m
      ensures m in order' <==> m in g && m !in waiting - {n}
    {
      assert m in order' <==> m in order || m == n;
    }
  }

  lemma NobodyReady(g: Graph, waiting: set<Node>)
    requires waiting <= g.Keys && waiting != {}
    requires forall n {:trigger Ready(g, waiting, n)} :: n in waiting ==> !Ready(g, waiting, n)
    ensures !Acyclic(g)
  {
    forall n | n in waiting
      ensures Waits(g, waiting, n)
    {
      assert !Ready(g, waiting, n);
    }
    StuckHasCycle(g, waiting);
  }

  /** None is the sorter's CycleError. */
  method StaticOrder(g: Graph) returns (r: Option<seq<Node>>)
    requires Closed(g)
    ensures r.Some? <==> Acyclic(g)
    ensures r.Some? ==> IsOrder(g, r.value)
  {
    var waiting, order := g.Keys, [];
    while waiting != {}
      invariant Partial(g, waiting, order)
      decreases waiting
    {
      if n :| n in waiting && Ready(g, waiting, n) {
        PlacingKeepsPartial(g, waiting, order, n);
        order, waiting := order + [n], waiting - {n};
      } else {
        NobodyReady(g, waiting);
        return None;
      }
    }
    OrderedIsAcyclic(g, order);
    return Some(order);
  }
}
