/**
  The Nearest Neighbour tour construction (js/algos/nearestNeighbor.js).

  Starting from a given node, the trip is extended again and again by the
  closest available node (a running minimum over the row of the table of
  the node placed last, strict `<`, ascending index, so the lowest index
  wins a tie),
  until every node is on the path; the start node is then appended once
  more to close the cycle.

  The methods of NearestNeighbor are proved against the pure reference
  functions Nearest, Grow and Run below; the properties of the finished
  tour are lemmas about Run.
 */
module Algos {
  import opened Graph
  import opened Trips

  datatype Option<T> = None | Some(value: T)

  /** JavaScript's Number.MAX_VALUE, (2^53 - 1) * 2^971, the scan's initial best. */
  const MaxValue: real := 179_769_313_486_231_570_814_527_423_731_704_356_798_070_567_525_844_996_598_917_476_803_157_260_780_028_538_760_589_558_632_766_878_171_540_458_953_514_382_464_234_321_326_889_464_182_768_467_546_703_537_516_986_049_910_576_551_282_076_245_490_090_389_328_944_075_868_508_455_133_942_304_583_236_903_222_948_165_808_559_332_123_348_274_797_826_204_144_723_168_738_177_180_919_299_881_250_404_026_184_124_858_368.0

  /**
    Node k may be chosen after node c: its table entry is not zero (the
    source's "not pointing to itself" test), is below Number.MAX_VALUE, and
    k is still available.
   */
  predicate Eligible(g: UGraph, avail: seq<nat>, c: nat, k: nat)
    requires c < g.numNodes && k < g.numNodes
  {
    g.Weight(c, k) != 0.0 && g.Weight(c, k) < MaxValue && k in avail
  }

  /** No node below `bound` is eligible after c. */
  ghost predicate NoneEligibleBelow(g: UGraph, avail: seq<nat>, c: nat, bound: nat)
    requires c < g.numNodes && bound <= g.numNodes
  {
    forall k :: 0 <= k < bound ==> !Eligible(g, avail, c, k)
  }

  /**
    Among the nodes below `bound`, b is an eligible node nearest to c, and
    every eligible node of lower index is strictly farther (lowest index
    wins a tie).
   */
  ghost predicate NearestBelow(g: UGraph, avail: seq<nat>, c: nat, bound: nat, b: nat)
    requires c < g.numNodes && bound <= g.numNodes
  {
    && b < bound
    && Eligible(g, avail, c, b)
    && (forall k :: 0 <= k < bound && Eligible(g, avail, c, k) ==> g.Weight(c, b) <= g.Weight(c, k))
    && (forall k :: 0 <= k < b && Eligible(g, avail, c, k) ==> g.Weight(c, b) < g.Weight(c, k))
  }

  /** The nearest node, with its tie-break, is unique. */
  lemma NearestUnique(g: UGraph, avail: seq<nat>, c: nat, bound: nat, a: nat, b: nat)
    requires c < g.numNodes && bound <= g.numNodes
    requires NearestBelow(g, avail, c, bound, a) && NearestBelow(g, avail, c, bound, b)
    ensures a == b
  {
  }

  /** Which nodes are eligible depends only on which nodes are available. */
  lemma NearestSameMembership(g: UGraph, a1: seq<nat>, a2: seq<nat>, c: nat, b: nat)
    requires c < g.numNodes
    requires forall x :: x < g.numNodes ==> (x in a1 <==> x in a2)
    requires NearestBelow(g, a1, c, g.numNodes, b)
    ensures NearestBelow(g, a2, c, g.numNodes, b)
  {
    forall k | 0 <= k < g.numNodes
      ensures Eligible(g, a1, c, k) == Eligible(g, a2, c, k)
    {
    }
  }

  /** The reference scan over nodes 0..bound-1: the nearest eligible node, if any. */
  function BestBelow(g: UGraph, avail: seq<nat>, c: nat, bound: nat): (r: Option<nat>)
    requires c < g.numNodes && bound <= g.numNodes
    ensures r.Some? ==> r.value < bound
    decreases bound
  {
    if bound == 0 then None
    else
      var k := bound - 1;
      match BestBelow(g, avail, c, k)
      case None => if Eligible(g, avail, c, k) then Some(k) else None
      case Some(b) =>
        if Eligible(g, avail, c, k) && g.Weight(c, k) < g.Weight(c, b) then Some(k) else Some(b)
  }

  /** The scan finds nothing exactly when nothing is eligible, and else the nearest node. */
  lemma {:induction false} BestBelowIsNearest(g: UGraph, avail: seq<nat>, c: nat, bound: nat)
    requires c < g.numNodes && bound <= g.numNodes
    ensures BestBelow(g, avail, c, bound).None? <==> NoneEligibleBelow(g, avail, c, bound)
    ensures BestBelow(g, avail, c, bound).Some? ==>
              NearestBelow(g, avail, c, bound, BestBelow(g, avail, c, bound).value)
    decreases bound
  {
    if bound > 0 {
      BestBelowIsNearest(g, avail, c, bound - 1);
    }
  }

  /**
    The node findNearestNode answers for c: the nearest eligible node, or
    the default 1 when no node is eligible.
   */
  function Nearest(g: UGraph, avail: seq<nat>, c: nat): (k: nat)
    requires c < g.numNodes
    ensures k == 1 || k < g.numNodes
  {
    match BestBelow(g, avail, c, g.numNodes)
    case None => 1
    case Some(b) => b
  }

  /** Nearest answers the nearest eligible node, and 1 when there is none. */
  lemma NearestIsNearest(g: UGraph, avail: seq<nat>, c: nat)
    requires c < g.numNodes
    ensures NoneEligibleBelow(g, avail, c, g.numNodes) ==> Nearest(g, avail, c) == 1
    ensures !NoneEligibleBelow(g, avail, c, g.numNodes) ==>
              NearestBelow(g, avail, c, g.numNodes, Nearest(g, avail, c))
  {
    BestBelowIsNearest(g, avail, c, g.numNodes);
  }

  /**
    The main loop of findPath as a function of the trip's state: while the
    path is shorter than the node count, append the node nearest to its
    last node.
   */
  function Grow(g: UGraph, path: seq<nat>, avail: seq<nat>): (r: (seq<nat>, seq<nat>))
    requires |path| > 0 && path[|path| - 1] < g.numNodes
    ensures |r.0| == if |path| < g.numNodes then g.numNodes else |path|
    ensures r.0[..|path|] == path
    ensures OnGraph(g, path) ==> OnGraph(g, r.0)
    decreases g.numNodes - |path|
  {
    if |path| >= g.numNodes then (path, avail)
    else
      var k := Nearest(g, avail, path[|path| - 1]);
      var r := Grow(g, path + [k], Withdraw(avail, k));
      assert r.0[..|path|] == (r.0[..|path| + 1])[..|path|];
      r
  }

  /** One turn of the main loop: Grow continues from the extended state. */
  lemma GrowStep(g: UGraph, path: seq<nat>, avail: seq<nat>, k: nat, path': seq<nat>, avail': seq<nat>)
    requires 0 < |path| < g.numNodes && path[|path| - 1] < g.numNodes
    requires k == Nearest(g, avail, path[|path| - 1])
    requires path' == path + [k] && avail' == Withdraw(avail, k)
    ensures 0 < |path'| && path'[|path'| - 1] == k && k < g.numNodes
    ensures Grow(g, path, avail) == Grow(g, path', avail')
  {
  }

  /** A result with findNearestNode's contract is the reference Nearest. */
  lemma ScanAgrees(g: UGraph, avail: seq<nat>, c: nat, x: nat)
    requires c < g.numNodes
    requires !NoneEligibleBelow(g, avail, c, g.numNodes) ==> NearestBelow(g, avail, c, g.numNodes, x)
    requires NoneEligibleBelow(g, avail, c, g.numNodes) ==> x == 1
    ensures x == Nearest(g, avail, c)
  {
    NearestIsNearest(g, avail, c);
    if !NoneEligibleBelow(g, avail, c, g.numNodes) {
      NearestUnique(g, avail, c, g.numNodes, x, Nearest(g, avail, c));
    }
  }

  /** Once the path has n entries, the main loop stops. */
  lemma GrowDone(g: UGraph, path: seq<nat>, avail: seq<nat>)
    requires |path| > 0 && path[|path| - 1] < g.numNodes && |path| >= g.numNodes
    ensures Grow(g, path, avail) == (path, avail)
  {
  }

  /**
    The final (path, availableNodes) of the whole of findPath from `start`:
    the start node, the main loop, and the closing append of path[0].
   */
  function Run(g: UGraph, start: nat): (r: (seq<nat>, seq<nat>))
    requires start < g.numNodes
  {
    var grown := Grow(g, [start], Withdraw(Iota(g.numNodes), start));
    (grown.0 + [grown.0[0]], Withdraw(grown.1, grown.0[0]))
  }

  /** The closing append applied to the main loop's final state gives Run. */
  lemma RunCloses(g: UGraph, start: nat, path: seq<nat>, avail: seq<nat>, path': seq<nat>, avail': seq<nat>)
    requires start < g.numNodes
    requires (path, avail) == Grow(g, [start], Withdraw(Iota(g.numNodes), start))
    requires |path| > 0 && path' == path + [path[0]] && avail' == Withdraw(avail, path[0])
    ensures Run(g, start) == (path', avail')
  {
  }

  /** The closed tour from `start`: n + 1 entries, beginning and ending at start. */
  function Tour(g: UGraph, start: nat): (t: seq<nat>)
    requires start < g.numNodes
    ensures |t| == g.numNodes + 1
    ensures t[0] == start && t[g.numNodes] == start
    ensures OnGraph(g, t)
  {
    var grown := Grow(g, [start], Withdraw(Iota(g.numNodes), start));
    assert grown.0[..1] == [start] && OnGraph(g, [start]);
    Run(g, start).0
  }

  /**
    The condition the tour lemmas assume of the graph: the table entry of
    two distinct nodes is non-zero (the overlap test of node placement keeps
    nodes more than four radii apart) and below Number.MAX_VALUE (node
    coordinates are integers on the canvas, so distances are small).
   */
  ghost predicate Separated(g: UGraph)
  {
    forall i, j :: 0 <= i < g.numNodes && 0 <= j < g.numNodes && i != j ==>
      g.Weight(i, j) != 0.0 && g.Weight(i, j) < MaxValue
  }

  /** In a partitioned trip of a separated graph, every available node is eligible after the last one. */
  lemma AvailableIsEligible(g: UGraph, path: seq<nat>, avail: seq<nat>, x: nat)
    requires Separated(g) && |path| > 0 && Partition(path, avail, g.numNodes)
    requires x in avail
    ensures x < g.numNodes && path[|path| - 1] < g.numNodes
    ensures Eligible(g, avail, path[|path| - 1], x)
  {
    PartitionFacts(path, avail, g.numNodes);
    assert path[|path| - 1] in path;
  }

  /** The nodes below n that are not in `visited`, in ascending order. */
  function Unvisited(n: nat, visited: seq<nat>): (r: seq<nat>)
    ensures forall x: nat :: x in r <==> x < n && x !in visited
  {
    if n == 0 then []
    else Unvisited(n - 1, visited) + (if n - 1 in visited then [] else [n - 1])
  }

  /**
    Each step of p from index `from` on goes to a nearest node (lowest
    index on ties) among those not yet visited.
   */
  ghost predicate GreedyFrom(g: UGraph, p: seq<nat>, from: nat)
  {
    OnGraph(g, p) &&
    forall k :: from <= k < |p| - 1 ==>
      NearestBelow(g, Unvisited(g.numNodes, p[..k + 1]), p[k], g.numNodes, p[k + 1])
  }

  /**
    From a partitioned state with nodes left, the node the main loop picks
    is available and is the nearest node not yet on the path.
   */
  lemma NextIsNearestUnvisited(g: UGraph, path: seq<nat>, avail: seq<nat>)
    requires Separated(g)
    requires 0 < |path| < g.numNodes && path[|path| - 1] < g.numNodes
    requires Partition(path, avail, g.numNodes)
    ensures var k := Nearest(g, avail, path[|path| - 1]);
      k in avail && k < g.numNodes &&
      NearestBelow(g, Unvisited(g.numNodes, path), path[|path| - 1], g.numNodes, k)
  {
    var n, c := g.numNodes, path[|path| - 1];
    PartitionFacts(path, avail, n);
    AvailableIsEligible(g, path, avail, avail[0]);
    NearestIsNearest(g, avail, c);
    var k := Nearest(g, avail, c);
    forall x | x < n
      ensures x in avail <==> x in Unvisited(n, path)
    {
    }
    NearestSameMembership(g, avail, Unvisited(n, path), c, k);
  }

  /**
    From a partitioned state, the main loop places every remaining node
    once, and each node it appends is the nearest (lowest index on ties)
    of those not yet on the path.
   */
  lemma {:induction false} GrowPlacesAll(g: UGraph, path: seq<nat>, avail: seq<nat>)
    requires Separated(g)
    requires 0 < |path| <= g.numNodes && path[|path| - 1] < g.numNodes
    requires Partition(path, avail, g.numNodes)
    ensures var r := Grow(g, path, avail);
      Partition(r.0, r.1, g.numNodes) && r.1 == [] && GreedyFrom(g, r.0, |path| - 1)
    decreases g.numNodes - |path|
  {
    var n := g.numNodes;
    if |path| < n {
      NextIsNearestUnvisited(g, path, avail);
      var k := Nearest(g, avail, path[|path| - 1]);
      WithdrawKeepsPartition(path, avail, n, k);
      var path', avail' := path + [k], Withdraw(avail, k);
      GrowStep(g, path, avail, k, path', avail');
      GrowPlacesAll(g, path', avail');
      var p := Grow(g, path', avail').0;
      assert p[..|path|] == p[..|path| + 1][..|path|] == path;
      GreedyExtend(g, p, |path| - 1);
    } else {
      GrowDone(g, path, avail);
      PlacedAll(g, path, avail);
    }
  }

  /** A partition whose path has every node leaves nothing available. */
  lemma PlacedAll(g: UGraph, path: seq<nat>, avail: seq<nat>)
    requires |path| >= g.numNodes && Partition(path, avail, g.numNodes)
    ensures avail == [] && OnGraph(g, path)
  {
    PartitionFacts(path, avail, g.numNodes);
    forall i | 0 <= i < |path|
      ensures path[i] < g.numNodes
    {
      assert path[i] in path;
    }
  }

  /** A greedy step in front of a greedy suffix. */
  lemma GreedyExtend(g: UGraph, p: seq<nat>, from: nat)
    requires from + 1 < |p| && GreedyFrom(g, p, from + 1)
    requires NearestBelow(g, Unvisited(g.numNodes, p[..from + 1]), p[from], g.numNodes, p[from + 1])
    ensures GreedyFrom(g, p, from)
  {
  }

  /** The nodes the main loop places from `start`, before the closing append. */
  function Placed(g: UGraph, start: nat): (p: seq<nat>)
    requires start < g.numNodes
    ensures |p| == g.numNodes && p[0] == start && OnGraph(g, p)
    ensures Tour(g, start) == p + [start]
  {
    var p := Grow(g, [start], Withdraw(Iota(g.numNodes), start)).0;
    assert p[..1] == [start];
    p
  }

  /** The main loop from `start` ends with a partition that leaves nothing available. */
  lemma PlacedFromStart(g: UGraph, start: nat)
    requires start < g.numNodes && Separated(g)
    ensures var grown := Grow(g, [start], Withdraw(Iota(g.numNodes), start));
      Partition(grown.0, grown.1, g.numNodes) && grown.1 == [] && GreedyFrom(g, grown.0, 0)
  {
    var n := g.numNodes;
    assert Iota(n)[start] == start;
    WithdrawKeepsPartition([], Iota(n), n, start);
    GrowPlacesAll(g, [start], Withdraw(Iota(n), start));
  }

  /**
    The finished tour visits every node exactly once before returning to
    the start: its first n entries are a permutation of 0..n-1.
   */
  lemma TourIsPermutation(g: UGraph, start: nat)
    requires start < g.numNodes && Separated(g)
    ensures multiset(Tour(g, start)[..g.numNodes]) == multiset(Iota(g.numNodes))
    ensures forall i, j :: 0 <= i < j < g.numNodes ==> Tour(g, start)[i] != Tour(g, start)[j]
  {
    PlacedFromStart(g, start);
    var p := Placed(g, start);
    assert p + [] == p;
    PartitionFacts(p, [], g.numNodes);
    assert Tour(g, start)[..g.numNodes] == p;
  }

  /**
    Every step of the tour goes from its node to a nearest node among those
    not yet visited, the lowest index winning a tie.
   */
  lemma TourIsGreedy(g: UGraph, start: nat)
    requires start < g.numNodes && Separated(g)
    ensures forall k :: 0 <= k < g.numNodes - 1 ==>
              NearestBelow(g, Unvisited(g.numNodes, Tour(g, start)[..k + 1]),
                           Tour(g, start)[k], g.numNodes, Tour(g, start)[k + 1])
  {
    PlacedFromStart(g, start);
    var p, t := Placed(g, start), Tour(g, start);
    forall k | 0 <= k < g.numNodes - 1
      ensures NearestBelow(g, Unvisited(g.numNodes, t[..k + 1]), t[k], g.numNodes, t[k + 1])
    {
      assert t[..k + 1] == p[..k + 1];
    }
  }

  /**
    On any graph, the main loop empties the available list when path and
    list together have n entries: each turn adds one entry to the path and
    splices one out of the non-empty list, whichever node was chosen.
   */
  lemma {:induction false} GrowEmpties(g: UGraph, path: seq<nat>, avail: seq<nat>)
    requires |path| > 0 && path[|path| - 1] < g.numNodes
    requires |path| + |avail| == g.numNodes
    ensures Grow(g, path, avail).1 == []
    decreases g.numNodes - |path|
  {
    if |path| < g.numNodes {
      var k := Nearest(g, avail, path[|path| - 1]);
      WithdrawFacts(avail, k);
      GrowStep(g, path, avail, k, path + [k], Withdraw(avail, k));
      GrowEmpties(g, path + [k], Withdraw(avail, k));
    } else {
      GrowDone(g, path, avail);
    }
  }

  /**
    The closing append finds the available list empty and leaves it so,
    on every graph (coincident nodes included).
   */
  lemma TourLeavesNothingAvailable(g: UGraph, start: nat)
    requires start < g.numNodes
    ensures Run(g, start).1 == []
  {
    var n := g.numNodes;
    assert Iota(n)[start] == start;
    WithdrawFacts(Iota(n), start);
    GrowEmpties(g, [start], Withdraw(Iota(n), start));
  }

  /** A graph of one node gives the tour [start, start] of length 0. */
  lemma SingleNodeTour(g: UGraph, start: nat)
    requires g.numNodes == 1 && start < 1
    ensures Tour(g, start) == [start, start]
    ensures PathLength(g, Tour(g, start)) == 0.0
  {
    SingleLoopLength(g, start);
  }

  /** With a non-negative distance the tour's length is non-negative. */
  lemma TourLengthNonNegative(g: UGraph, start: nat)
    requires start < g.numNodes && g.NonNegative()
    ensures PathLength(g, Tour(g, start)) >= 0.0
  {
    PathLengthNonNegative(g, Tour(g, start));
  }

  class NearestNeighbor {
    /** the graph the tour is built over */
    const uGraph: UGraph
    /** the trip being built (the source names this field `path`) */
    const trip: Trip

    ghost predicate Valid()
      reads uGraph.adjList
    {
      trip.graph == uGraph && uGraph.Valid()
    }

    /** Builds the tour from `start` (the source draws it at random). */
    constructor (ugraph: UGraph, start: nat)
      requires ugraph.Valid() && start < ugraph.numNodes
      ensures Valid() && uGraph == ugraph && fresh(trip)
      ensures (trip.path, trip.availableNodes) == Run(ugraph, start)
    {
      uGraph := ugraph;
      trip := new Trip(ugraph);
      new;
      FindPath(start);
    }

    /**
      Places `start`, then repeatedly the nearest node to the last one
      placed, until the path has one entry per node, and closes the cycle.
     */
    method FindPath(start: nat)
      requires Valid() && start < uGraph.numNodes
      requires trip.path == [] && trip.availableNodes == Iota(uGraph.numNodes)
      modifies trip
      ensures (trip.path, trip.availableNodes) == Run(uGraph, start)
    {
      var currCity := start;
      trip.AddToPath(currCity);
      ghost var whole := Grow(uGraph, [start], Withdraw(Iota(uGraph.numNodes), start));
      assert trip.path == [start];
      while |trip.path| < uGraph.numNodes
        invariant 0 < |trip.path| && currCity == trip.path[|trip.path| - 1] && currCity < uGraph.numNodes
        invariant Grow(uGraph, trip.path, trip.availableNodes) == whole
        decreases uGraph.numNodes - |trip.path|
      {
        ghost var p, a := trip.path, trip.availableNodes;
        var nextCity := FindNearestNode(currCity);
        trip.AddToPath(nextCity);
        GrowStep(uGraph, p, a, nextCity, trip.path, trip.availableNodes);
        currCity := nextCity;
      }
      GrowDone(uGraph, trip.path, trip.availableNodes);
      ghost var p, a := trip.path, trip.availableNodes;
      trip.AddToPath(trip.path[0]);
      RunCloses(uGraph, start, p, a, trip.path, trip.availableNodes);
    }

    /**
      The closest available node to `currNode` with a non-zero entry,
      scanning the row in ascending order with a running minimum; 1 when
      no node qualifies.
     */
    method FindNearestNode(currNode: nat) returns (closestCity: nat)
      requires Valid() && currNode < uGraph.numNodes
      ensures closestCity == Nearest(uGraph, trip.availableNodes, currNode)
    {
      var neighbors := uGraph.adjList;
      var shortestPath := MaxValue;
      closestCity := 1;
      ghost var found := false;
      for i := 0 to neighbors.Length1
        invariant found ==> NearestBelow(uGraph, trip.availableNodes, currNode, i, closestCity)
        invariant found ==> shortestPath == uGraph.Weight(currNode, closestCity)
        invariant !found ==> NoneEligibleBelow(uGraph, trip.availableNodes, currNode, i)
        invariant !found ==> closestCity == 1 && shortestPath == MaxValue
      {
        var currDist := neighbors[currNode, i];
        if currDist != 0.0 && currDist < shortestPath && trip.IsNodeAvailable(i) {
          closestCity := i;
          shortestPath := currDist;
          found := true;
        }
      }
      ScanAgrees(uGraph, trip.availableNodes, currNode, closestCity);
    }

    /** The tour's total length, as the trip computes it. */
    method CalculateDistance() returns (totalDistance: real)
      requires Valid() && OnGraph(uGraph, trip.path)
      ensures totalDistance == PathLength(uGraph, trip.path)
    {
      totalDistance := trip.CalculateTotalDistance();
    }
  }
}
