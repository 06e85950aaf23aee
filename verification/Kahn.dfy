/** Kahn's algorithm on a multigraph, as both task-dependency checks run it: every node of
    an acyclic graph gets visited, and only of an acyclic one. */
module Kahn {
  import opened Basics

  /** An edge from an upstream node to a node that depends on it. */
  datatype Edge<T> = Edge(up: T, down: T)

  predicate Unique<T(==)>(s: seq<T>) {
    forall i, j :: 0 <= i < j < |s| ==> s[i] != s[j]
  }

  predicate Over<T(==)>(edges: seq<Edge<T>>, nodes: seq<T>) {
    forall e :: e in edges ==> e.up in nodes && e.down in nodes
  }

  predicate Linked<T(==)>(edges: seq<Edge<T>>, path: seq<T>, i: nat)
    requires i + 1 < |path|
  {
    Edge(path[i], path[i + 1]) in edges
  }

  predicate IsWalk<T(==)>(edges: seq<Edge<T>>, path: seq<T>) {
    forall i :: 0 <= i < |path| - 1 ==> Linked(edges, path, i)
  }

  /** A walk along at least one edge. */
  predicate IsPath<T(==)>(edges: seq<Edge<T>>, path: seq<T>) {
    |path| >= 2 && IsWalk(edges, path)
  }

  ghost predicate Acyclic<T(!new)>(edges: seq<Edge<T>>) {
    forall path: seq<T> :: IsPath(edges, path) ==> path[0] != path[|path| - 1]
  }

  /** The nodes that depend on `up`, once per edge. */
  function Downs<T(==)>(edges: seq<Edge<T>>, up: T): seq<T> {
    if edges == [] then []
    else
      var rest := Downs(edges[..|edges| - 1], up);
      var last := edges[|edges| - 1];
      if last.up == up then rest + [last.down] else rest
  }

  /** How many edges into `node` come from outside `done`. */
  function InDegree<T(==)>(edges: seq<Edge<T>>, node: T, done: set<T>): nat {
    if edges == [] then 0
    else
      var last := edges[|edges| - 1];
      InDegree(edges[..|edges| - 1], node, done) + if last.down == node && last.up !in done then 1 else 0
  }

  function Occurrences<T(==)>(s: seq<T>, x: T): nat {
    if s == [] then 0 else Occurrences(s[..|s| - 1], x) + if s[|s| - 1] == x then 1 else 0
  }

  function Elements<T>(s: seq<T>): set<T> {
    set x | x in s
  }

  /** Nodes come after everything they depend on. */
  ghost predicate Ordered<T>(edges: seq<Edge<T>>, order: seq<T>) {
    forall i, e :: 0 <= i < |order| && e in edges && e.down == order[i] ==> e.up in order[..i]
  }

  // ---- counting edges ------------------------------------------------------------

  lemma {:induction false} VisitingLowersInDegree<T>(edges: seq<Edge<T>>, up: T, node: T, done: set<T>)
    requires up !in done
    ensures InDegree(edges, node, done) == InDegree(edges, node, done + {up}) + Occurrences(Downs(edges, up), node)
  {
    if edges != [] {
      var init, last := edges[..|edges| - 1], edges[|edges| - 1];
      VisitingLowersInDegree(init, up, node, done);
      if last.up == up {
        assert Downs(edges, up)[..|Downs(edges, up)| - 1] == Downs(init, up);
      }
    }
  }

  lemma {:induction false} PrefixOccursLess<T>(s: seq<T>, k: nat, x: T)
    requires k <= |s|
    ensures Occurrences(s[..k], x) <= Occurrences(s, x)
  {
    if k < |s| {
      PrefixOccursLess(s[..|s| - 1], k, x);
      assert s[..|s| - 1][..k] == s[..k];
    } else {
      assert s[..k] == s;
    }
  }

  lemma OccurrencesOfNext<T>(s: seq<T>, k: nat, x: T)
    requires k < |s|
    ensures Occurrences(s[..k + 1], x) == Occurrences(s[..k], x) + if s[k] == x then 1 else 0
  {
    assert s[..k + 1][..k] == s[..k];
  }

  lemma {:induction false} ZeroMeansAllVisited<T>(edges: seq<Edge<T>>, node: T, done: set<T>)
    ensures InDegree(edges, node, done) == 0 <==> forall e :: e in edges && e.down == node ==> e.up in done
  {
    if edges != [] {
      var init, last := edges[..|edges| - 1], edges[|edges| - 1];
      ZeroMeansAllVisited(init, node, done);
      assert edges == init + [last];
    }
  }

  lemma {:induction false} DownsAreNodes<T>(edges: seq<Edge<T>>, up: T, x: T)
    ensures x in Downs(edges, up) <==> Edge(up, x) in edges
  {
    if edges != [] {
      var init, last := edges[..|edges| - 1], edges[|edges| - 1];
      DownsAreNodes(init, up, x);
      assert edges == init + [last];
    }
  }

  // ---- the algorithm --------------------------------------------------------------

  /** The bookkeeping between two rounds: in-degrees count unvisited upstreams, and exactly
      the nodes without any are visited or ready. */
  ghost predicate Round<T(!new)>(nodes: seq<T>, edges: seq<Edge<T>>, order: seq<T>, ready: seq<T>, indegree: map<T, nat>) {
    && Unique(order + ready)
    && (forall n :: n in order + ready ==> n in nodes)
    && (forall n :: n in nodes ==> n in indegree)
    && (forall n :: n in nodes ==> indegree[n] == InDegree(edges, n, Elements(order)))
    && (forall n :: n in nodes ==> (n in order + ready <==> indegree[n] == 0))
    && Ordered(edges, order)
  }

  /** Lowers the in-degree of everything that depends on `up`, and queues what reaches zero. */
  method Visit<T(==, !new)>(
    nodes: seq<T>, ghost edges: seq<Edge<T>>, ghost order: seq<T>, up: T, rest: seq<T>,
    dependents: seq<T>, indegree0: map<T, nat>)
    returns (ready: seq<T>, indegree: map<T, nat>)
    requires Unique(nodes) && Over(edges, nodes) && dependents == Downs(edges, up)
    requires Round(nodes, edges, order, [up] + rest, indegree0)
    ensures Round(nodes, edges, order + [up], ready, indegree)
  {
    ready, indegree := rest, indegree0;
    ghost var done := Elements(order);
    assert order + ([up] + rest) == (order + [up]) + rest;
    UpIsNotVisited(order, up, rest);
    for k := 0 to |dependents|
      invariant Unique((order + [up]) + ready)
      invariant forall n :: n in (order + [up]) + ready ==> n in nodes
      invariant forall n :: n in nodes ==> n in indegree
      invariant forall n :: n in nodes ==>
                  indegree[n] + Occurrences(dependents[..k], n) == InDegree(edges, n, done)
      invariant forall n :: n in nodes ==> (n in (order + [up]) + ready <==> indegree[n] == 0)
    {
      var d := dependents[k];
      DownsAreNodes(edges, up, d);
      VisitingLowersInDegree(edges, up, d, done);
      PrefixOccursLess(dependents, k + 1, d);
      forall n | n in nodes
        ensures Occurrences(dependents[..k + 1], n) == Occurrences(dependents[..k], n) + if d == n then 1 else 0
      {
        OccurrencesOfNext(dependents, k, n);
      }
      indegree := indegree[d := indegree[d] - 1];
      if indegree[d] == 0 {
        UniqueAppend((order + [up]) + ready, d);
        assert ((order + [up]) + ready) + [d] == (order + [up]) + (ready + [d]);
        ready := ready + [d];
      }
    }
    assert dependents[..|dependents|] == dependents;
    VisitEnds(nodes, edges, order, up, rest, indegree0, ready, indegree);
  }

  lemma UniqueAppend<T>(s: seq<T>, x: T)
    requires Unique(s) && x !in s
    ensures Unique(s + [x])
  {
  }

  lemma UpIsNotVisited<T>(order: seq<T>, up: T, rest: seq<T>)
    requires Unique(order + ([up] + rest))
    ensures up !in order
  {
    assert (order + ([up] + rest))[|order|] == up;
    forall i | 0 <= i < |order| ensures order[i] != up {
      assert (order + ([up] + rest))[i] == order[i];
    }
  }

  lemma VisitEnds<T(!new)>(
    nodes: seq<T>, edges: seq<Edge<T>>, order: seq<T>, up: T, rest: seq<T>, indegree0: map<T, nat>,
    ready: seq<T>, indegree: map<T, nat>)
    requires Round(nodes, edges, order, [up] + rest, indegree0) && up !in order && up in nodes
    requires Unique((order + [up]) + ready)
    requires forall n :: n in (order + [up]) + ready ==> n in nodes
    requires forall n :: n in nodes ==> n in indegree
    requires forall n :: n in nodes ==>
               indegree[n] + Occurrences(Downs(edges, up), n) == InDegree(edges, n, Elements(order))
    requires forall n :: n in nodes ==> (n in (order + [up]) + ready <==> indegree[n] == 0)
    ensures Round(nodes, edges, order + [up], ready, indegree)
  {
    assert Elements(order + [up]) == Elements(order) + {up};
    forall n | n in nodes ensures indegree[n] == InDegree(edges, n, Elements(order + [up])) {
      VisitingLowersInDegree(edges, up, n, Elements(order));
    }
    assert up in order + ([up] + rest);
    ZeroMeansAllVisited(edges, up, Elements(order));
    var order' := order + [up];
    forall i, e | 0 <= i < |order'| && e in edges && e.down == order'[i] ensures e.up in order'[..i] {
      if i < |order| {
        assert e.up in order[..i];
        assert order'[..i] == order[..i];
      } else {
        assert order'[..i] == order;
      }
    }
  }

  /** The whole algorithm, from the in-degrees: how many nodes it visits. */
  method CountVisited<T(==, !new)>(
    nodes: seq<T>, ghost edges: seq<Edge<T>>, dependents: map<T, seq<T>>, indegree0: map<T, nat>)
    returns (visited: nat)
    requires Unique(nodes) && Over(edges, nodes)
    requires forall n :: n in nodes ==> n in indegree0 && indegree0[n] == InDegree(edges, n, {})
    requires forall n :: n in nodes ==> n in dependents && dependents[n] == Downs(edges, n)
    ensures visited == |nodes| <==> Acyclic(edges)
  {
    var indegree := indegree0;
    var ready := InitiallyReady(nodes, edges, indegree);
    ghost var order := [];
    visited := 0;
    while ready != []
      invariant visited == |order| <= |nodes|
      invariant Round(nodes, edges, order, ready, indegree)
      decreases |nodes| - visited
    {
      var up := ready[0];
      assert ready == [up] + ready[1..];
      ready, indegree := Visit(nodes, edges, order, up, ready[1..], dependents[up], indegree);
      order := order + [up];
      visited := visited + 1;
      RoundIsBounded(nodes, edges, order, ready, indegree);
    }
    assert order + [] == order;
    if visited == |nodes| {
      FullOrderIsAcyclic(nodes, edges, order);
    } else {
      StuckMeansCycle(nodes, edges, order, indegree);
    }
  }

  method InitiallyReady<T(==, !new)>(nodes: seq<T>, ghost edges: seq<Edge<T>>, indegree: map<T, nat>)
    returns (ready: seq<T>)
    requires Unique(nodes)
    requires forall n :: n in nodes ==> n in indegree && indegree[n] == InDegree(edges, n, {})
    ensures Round(nodes, edges, [], ready, indegree)
  {
    ready := [];
    for i := 0 to |nodes|
      invariant Unique(ready)
      invariant forall n :: n in ready <==> n in nodes[..i] && indegree[n] == 0
    {
      assert nodes[..i + 1] == nodes[..i] + [nodes[i]];
      if indegree[nodes[i]] == 0 {
        UniqueAppend(ready, nodes[i]);
        ready := ready + [nodes[i]];
      }
    }
    assert nodes[..|nodes|] == nodes;
    assert [] + ready == ready;
    assert Elements<T>([]) == {};
  }

  // ---- why it is right ---------------------------------------------------------------

  lemma {:induction false} ElementsOfUnique<T>(s: seq<T>)
    requires Unique(s)
    ensures |Elements(s)| == |s|
  {
    if s != [] {
      var init, last := s[..|s| - 1], s[|s| - 1];
      ElementsOfUnique(init);
      assert s == init + [last];
      assert Elements(s) == Elements(init) + {last};
    }
  }

  lemma RoundIsBounded<T(!new)>(nodes: seq<T>, edges: seq<Edge<T>>, order: seq<T>, ready: seq<T>, indegree: map<T, nat>)
    requires Unique(nodes) && Round(nodes, edges, order, ready, indegree)
    ensures |order| + |ready| <= |nodes|
  {
    ElementsOfUnique(order + ready);
    ElementsOfUnique(nodes);
    assert Elements(order + ready) <= Elements(nodes);
    SubsetSize(Elements(order + ready), Elements(nodes));
  }

  /** In an order that covers every node, each path goes forward. */
  lemma {:induction false} PathsGoForward<T>(edges: seq<Edge<T>>, order: seq<T>, path: seq<T>, i: nat, j: nat)
    requires Ordered(edges, order) && Unique(order) && IsPath(edges, path)
    requires i < |order| && path[0] == order[i] && j < |order| && path[|path| - 1] == order[j]
    requires Over(edges, order)
    ensures i < j
    decreases |path|
  {
    var e := Edge(path[|path| - 2], path[|path| - 1]);
    assert Linked(edges, path, |path| - 2);
    assert e in edges && e.up in order[..j];
    var k :| 0 <= k < j && order[k] == e.up;
    if |path| > 2 {
      var init := path[..|path| - 1];
      forall m | 0 <= m < |init| - 1 ensures Linked(edges, init, m) {
        assert Linked(edges, path, m);
      }
      PathsGoForward(edges, order, init, i, k);
    }
  }

  lemma FullOrderIsAcyclic<T(!new)>(nodes: seq<T>, edges: seq<Edge<T>>, order: seq<T>)
    requires Unique(nodes) && Unique(order) && Over(edges, nodes) && Ordered(edges, order)
    requires |order| == |nodes| && forall n :: n in order ==> n in nodes
    ensures Acyclic(edges)
  {
    ElementsOfUnique(order);
    ElementsOfUnique(nodes);
    assert Elements(order) <= Elements(nodes);
    SubsetSize(Elements(order), Elements(nodes));
    forall n | n in nodes ensures n in order {
      assert n in Elements(nodes);
    }
    forall path: seq<T> | IsPath(edges, path) ensures path[0] != path[|path| - 1] {
      assert Linked(edges, path, 0);
      var i :| 0 <= i < |order| && order[i] == path[0];
      if path[0] == path[|path| - 1] {
        PathsGoForward(edges, order, path, i, i);
      }
    }
  }

  ghost predicate HasUpstream<T(!new)>(edges: seq<Edge<T>>, left: set<T>, n: T) {
    exists u :: u in left && Edge(u, n) in edges
  }

  /** Every node left over depends on a node left over. */
  ghost predicate Stuck<T(!new)>(edges: seq<Edge<T>>, left: set<T>) {
    forall n {:trigger HasUpstream(edges, left, n)} :: n in left ==> HasUpstream(edges, left, n)
  }

  /** So one can walk back from it for ever. */
  lemma {:induction false} WalkBack<T(!new)>(edges: seq<Edge<T>>, left: set<T>, start: T, steps: nat) returns (path: seq<T>)
    requires Stuck(edges, left) && start in left
    ensures |path| == steps + 1 && path[steps] == start
    ensures forall i :: 0 <= i < |path| ==> path[i] in left
    ensures IsWalk(edges, path)
  {
    if steps == 0 {
      path := [start];
    } else {
      assert HasUpstream(edges, left, start);
      var u :| u in left && Edge(u, start) in edges;
      var before := WalkBack(edges, left, u, steps - 1);
      path := before + [start];
      forall i | 0 <= i < |path| - 1 ensures Linked(edges, path, i) {
        if i < |before| - 1 {
          assert Linked(edges, before, i);
        }
      }
    }
  }

  /** A walk longer than the set it stays in meets a node twice. */
  lemma Pigeonhole<T>(path: seq<T>, left: set<T>) returns (i: nat, j: nat)
    requires |path| > |left| && forall k :: 0 <= k < |path| ==> path[k] in left
    ensures i < j < |path| && path[i] == path[j]
  {
    if Unique(path) {
      ElementsOfUnique(path);
      assert Elements(path) <= left;
      SubsetSize(Elements(path), left);
      assert false;
    }
    i, j :| 0 <= i < j < |path| && path[i] == path[j];
  }

  lemma StuckIsCyclic<T(!new)>(edges: seq<Edge<T>>, left: set<T>, start: T)
    requires Stuck(edges, left) && start in left
    ensures !Acyclic(edges)
  {
    var path := WalkBack(edges, left, start, |left|);
    var i, j := Pigeonhole(path, left);
    var cycle := path[i..j + 1];
    forall k | 0 <= k < |cycle| - 1 ensures Linked(edges, cycle, k) {
      assert Linked(edges, path, i + k);
    }
    assert IsPath(edges, cycle) && cycle[0] == cycle[|cycle| - 1];
  }

  lemma StuckMeansCycle<T(!new)>(nodes: seq<T>, edges: seq<Edge<T>>, order: seq<T>, indegree: map<T, nat>)
    requires Unique(nodes) && Over(edges, nodes) && Round(nodes, edges, order, [], indegree) && |order| < |nodes|
    ensures !Acyclic(edges)
  {
    assert order + [] == order;
    var left := Elements(nodes) - Elements(order);
    ElementsOfUnique(nodes);
    ElementsOfUnique(order);
    if left == {} {
      forall n | n in Elements(nodes) ensures n in Elements(order) {
        assert n !in left;
      }
      SubsetSize(Elements(nodes), Elements(order));
      assert false;
    }
    forall n | n in left ensures HasUpstream(edges, left, n) {
      ZeroMeansAllVisited(edges, n, Elements(order));
      var e :| e in edges && e.down == n && e.up !in Elements(order);
      assert e == Edge(e.up, n);
    }
    var start :| start in left;
    StuckIsCyclic(edges, left, start);
  }

  /** An acyclic graph has an order of all its nodes. */
  lemma {:induction false} TopologicalOrder<T(!new)>(nodes: seq<T>, edges: seq<Edge<T>>, sofar: seq<T>) returns (order: seq<T>)
    requires Unique(nodes) && Over(edges, nodes) && Acyclic(edges)
    requires Unique(sofar) && Ordered(edges, sofar) && forall n :: n in sofar ==> n in nodes
    ensures Unique(order) && Ordered(edges, order) && Elements(order) == Elements(nodes)
    decreases |Elements(nodes) - Elements(sofar)|
  {
    var left := Elements(nodes) - Elements(sofar);
    if left == {} {
      forall n | n in Elements(nodes) ensures n in Elements(sofar) {
        assert n !in left;
      }
      return sofar;
    }
    var start :| start in left;
    if Stuck(edges, left) {
      StuckIsCyclic(edges, left, start);
      assert false;
    }
    var n :| n in left && !HasUpstream(edges, left, n);
    var next := sofar + [n];
    UniqueAppend(sofar, n);
    forall i, e | 0 <= i < |next| && e in edges && e.down == next[i] ensures e.up in next[..i] {
      if i < |sofar| {
        assert e.up in sofar[..i] && next[..i] == sofar[..i];
      } else {
        assert e == Edge(e.up, n) && e.up !in left;
        assert next[..i] == sofar;
      }
    }
    assert Elements(nodes) - Elements(next) == left - {n};
    order := TopologicalOrder(nodes, edges, next);
  }
}
