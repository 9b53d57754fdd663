/**
  The bookkeeping of one tour under construction (js/trip.js): the
  append-only path and the list of nodes not yet on it. The list is
  shrunk with JavaScript's `splice(indexOf(x), 1)`, which is modelled
  exactly, including its behaviour when x is not in the list.
 */
module Trips {
  import opened Graph

  /** The node indices 0, 1, ..., n - 1 in ascending order. */
  function Iota(n: nat): seq<nat>
  {
    seq(n, i requires 0 <= i => i as nat)
  }

  /** Iota(n) holds every node index below n exactly once. */
  lemma {:induction false} IotaCounts(n: nat, x: nat)
    ensures multiset(Iota(n))[x] == if x < n then 1 else 0
  {
    if n > 0 {
      assert Iota(n) == Iota(n - 1) + [n - 1];
      IotaCounts(n - 1, x);
    }
  }

  /** JavaScript's `Array.prototype.indexOf`: the first position of x, or -1. */
  function IndexOf(s: seq<nat>, x: int): (k: int)
    ensures -1 <= k < |s|
    ensures k == -1 <==> x !in s
    ensures 0 <= k ==> s[k] == x && x !in s[..k]
  {
    if s == [] then -1
    else if s[0] == x then 0
    else
      var k := IndexOf(s[1..], x);
      assert s[1..][..if k < 0 then 0 else k] == s[1..if k < 0 then 1 else k + 1];
      if k == -1 then -1 else k + 1
  }

  /**
    JavaScript's `splice(start, 1)`: a negative start counts from the end
    (and is clamped at 0), a start past the end is clamped to the end;
    then at most one element is deleted at that position.
   */
  function SpliceOne(s: seq<nat>, start: int): (r: seq<nat>)
    ensures -|s| <= start < |s| ==> |r| == |s| - 1
    ensures 0 <= start < |s| ==> r == s[..start] + s[start + 1..]
    ensures -|s| <= start < 0 ==> r == s[..|s| + start] + s[|s| + start + 1..]
    ensures start < -|s| && s != [] ==> r == s[1..]
    ensures start >= |s| ==> r == s
    ensures s == [] ==> r == []
  {
    var at := if start < 0 then (if |s| + start < 0 then 0 else |s| + start)
              else if start < |s| then start else |s|;
    if at < |s| then s[..at] + s[at + 1..] else s
  }

  /**
    What `availableNodes.splice(availableNodes.indexOf(node), 1)` leaves:
    the first occurrence of an available node is removed and the order of
    the rest is kept; for an absent node indexOf gives -1, so an empty list
    stays empty and a non-empty one loses its LAST element.
   */
  function Withdraw(avail: seq<nat>, node: nat): seq<nat>
  {
    SpliceOne(avail, IndexOf(avail, node))
  }

  /**
    Withdrawing an available node removes exactly its first occurrence;
    withdrawing an absent one drops the last entry, if there is one.
   */
  lemma WithdrawFacts(avail: seq<nat>, node: nat)
    ensures node in avail ==>
              |Withdraw(avail, node)| == |avail| - 1 &&
              Withdraw(avail, node) == avail[..IndexOf(avail, node)] + avail[IndexOf(avail, node) + 1..] &&
              multiset(Withdraw(avail, node)) == multiset(avail) - multiset{node}
    ensures node !in avail && avail == [] ==> Withdraw(avail, node) == []
    ensures node !in avail && avail != [] ==> Withdraw(avail, node) == avail[..|avail| - 1]
  {
    var k := IndexOf(avail, node);
    if node in avail {
      assert avail == avail[..k] + [node] + avail[k + 1..];
    }
  }

  /**
    path ++ available holds each of the nodes 0..n-1 exactly once: the two
    lists are disjoint, each is free of repeats, and together they cover
    every node.
   */
  ghost predicate Partition(path: seq<nat>, avail: seq<nat>, n: nat)
  {
    multiset(path + avail) == multiset(Iota(n))
  }

  /** What a partition says about membership and sizes. */
  lemma PartitionFacts(path: seq<nat>, avail: seq<nat>, n: nat)
    requires Partition(path, avail, n)
    ensures |path| + |avail| == n
    ensures forall x :: x in path ==> x < n && x !in avail
    ensures forall x :: x in avail ==> x < n
    ensures forall x: nat :: x < n ==> x in path || x in avail
    ensures forall i, j :: 0 <= i < j < |path| ==> path[i] != path[j]
  {
    var m := multiset(path + avail);
    assert |m| == |multiset(Iota(n))| == n;
    forall x | x in path
      ensures x < n && x !in avail
    {
      IotaCounts(n, x);
      assert m[x] == multiset(path)[x] + multiset(avail)[x];
    }
    forall x | x in avail
      ensures x < n
    {
      IotaCounts(n, x);
      assert x in m;
    }
    forall x: nat | x < n
      ensures x in path || x in avail
    {
      IotaCounts(n, x);
      assert x in m;
    }
    forall i, j | 0 <= i < j < |path|
      ensures path[i] != path[j]
    {
      if path[i] == path[j] {
        var x := path[i];
        assert path == path[..i] + [x] + path[i + 1..j] + [x] + path[j + 1..];
        IotaCounts(n, x);
        assert false;
      }
    }
  }

  /** Moving an available node from the list to the path keeps the partition. */
  lemma WithdrawKeepsPartition(path: seq<nat>, avail: seq<nat>, n: nat, node: nat)
    requires Partition(path, avail, n)
    requires node in avail
    ensures Partition(path + [node], Withdraw(avail, node), n)
  {
    var r := Withdraw(avail, node);
    WithdrawFacts(avail, node);
    calc {
      multiset(path + [node] + r);
      multiset(path) + multiset{node} + multiset(r);
      multiset(path) + multiset{node} + (multiset(avail) - multiset{node});
      multiset(path + avail);
    }
  }

  /** Every entry of p names a node of g. */
  ghost predicate OnGraph(g: UGraph, p: seq<nat>)
  {
    forall k :: 0 <= k < |p| ==> p[k] < g.numNodes
  }

  /** The sum of the weights of the consecutive edges of p. */
  ghost function PathLength(g: UGraph, p: seq<nat>): real
    requires OnGraph(g, p)
    decreases |p|
  {
    if |p| <= 1 then 0.0
    else PathLength(g, p[..|p| - 1]) + g.Weight(p[|p| - 2], p[|p| - 1])
  }

  /** A path is never shorter than the edges it adds. */
  lemma {:induction false} PathLengthNonNegative(g: UGraph, p: seq<nat>)
    requires OnGraph(g, p) && g.NonNegative()
    ensures PathLength(g, p) >= 0.0
  {
    if |p| > 1 {
      PathLengthNonNegative(g, p[..|p| - 1]);
      g.WeightNonNegative(p[|p| - 2], p[|p| - 1]);
    }
  }

  /** A closed tour of one node, [s, s], has length zero. */
  lemma SingleLoopLength(g: UGraph, s: nat)
    requires s < g.numNodes
    ensures PathLength(g, [s, s]) == 0.0
  {
    assert [s, s][..1] == [s];
  }

  class Trip {
    /** the graph whose nodes the trip visits */
    const graph: UGraph
    /** the nodes in visiting order; append-only */
    var path: seq<nat>
    /** the nodes not yet on the path */
    var availableNodes: seq<nat>

    /**
      An empty path; every node 0..n-1 available, in ascending order
      (the source's initializeNodes loop).
     */
    constructor (graph: UGraph)
      ensures this.graph == graph
      ensures path == [] && availableNodes == Iota(graph.numNodes)
    {
      this.graph := graph;
      path := [];
      availableNodes := [];
      new;
      var i := 0;
      while i < graph.numNodes
        invariant 0 <= i <= graph.numNodes
        invariant path == [] && availableNodes == Iota(i)
      {
        availableNodes := availableNodes + [i];
        i := i + 1;
      }
    }

    /** Whether `pos` occurs in the available list (`indexOf(pos) != -1`). */
    function IsNodeAvailable(pos: int): (available: bool)
      reads this
      ensures available <==> pos in availableNodes
    {
      IndexOf(availableNodes, pos) != -1
    }

    /**
      Appends `node` to the path and splices it out of the available list.
      No check is made that `node` was available.
     */
    method AddToPath(node: nat)
      modifies this
      ensures path == old(path) + [node]
      ensures availableNodes == Withdraw(old(availableNodes), node)
    {
      path := path + [node];
      availableNodes := SpliceOne(availableNodes, IndexOf(availableNodes, node));
    }

    /** The sum of the table's distances along the path, edge by edge. */
    method CalculateTotalDistance() returns (totalDistance: real)
      requires graph.Valid()
      requires OnGraph(graph, path)
      ensures totalDistance == PathLength(graph, path)
    {
      totalDistance := 0.0;
      var i := 0;
      while i < |path| - 1
        invariant 0 <= i <= if |path| == 0 then 0 else |path| - 1
        invariant 0 < |path| ==> totalDistance == PathLength(graph, path[..i + 1])
        invariant |path| == 0 ==> totalDistance == 0.0
      {
        totalDistance := totalDistance + graph.FindDistance(path[i], path[i + 1]);
        assert path[..i + 2][..i + 1] == path[..i + 1];
        i := i + 1;
      }
      assert 0 < |path| ==> path[..|path|] == path;
    }
  }
}
