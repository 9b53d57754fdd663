/**
  The undirected complete graph of the Nearest Neighbour demo (js/uGraph.js).

  Each node has integer canvas coordinates and a row of the distance table
  (its adjacency list). The table is filled once, in place, by
  InitializeGraphEdges and is only read afterwards.

  The Euclidean distance of the source (a square root over floating point)
  is not modelled: the graph is given a distance function on points, and
  every property below is stated for an arbitrary such function.
 */
module Graph {

  /** A node's position on the canvas; the source draws integer coordinates. */
  datatype Point = Point(x: int, y: int)

  /** true iff q lies on the canvas [0, width] x [0, height] */
  predicate OnCanvas(q: Point, width: int, height: int)
  {
    0 <= q.x <= width && 0 <= q.y <= height
  }

  /** The larger of the two coordinate differences (the Chebyshev distance). */
  function SpanBetween(p: Point, q: Point): (d: nat)
    ensures d == 0 <==> p == q
  {
    var dx := if p.x <= q.x then q.x - p.x else p.x - q.x;
    var dy := if p.y <= q.y then q.y - p.y else p.y - q.y;
    if dx <= dy then dy else dx
  }

  class UGraph {
    /** the nodes in insertion order (the source's `graph` array) */
    const nodes: seq<Point>
    const numNodes: nat := |nodes|
    /** the canvas' circle radius, read once at construction */
    const radius: nat
    /** the distance between two nodes (the source's calculateDistance) */
    const distance: (Point, Point) -> real
    /** adjList[i, j] is entry j of node i's adjacency list */
    const adjList: array2<real>

    /** The table has one row and one column per node. */
    ghost predicate Shaped()
    {
      adjList.Length0 == numNodes && adjList.Length1 == numNodes
    }

    /**
      The value InitializeGraphEdges stores for the pair (i, j): zero on the
      diagonal and, off it, the distance computed once for the pair with the
      lower index first.
     */
    function Weight(i: nat, j: nat): real
      requires i < numNodes && j < numNodes
    {
      if i == j then 0.0
      else if i < j then distance(nodes[i], nodes[j])
      else distance(nodes[j], nodes[i])
    }

    /** Every cell of the table holds the value the edge fill writes there. */
    ghost predicate Populated()
      reads adjList
      requires Shaped()
    {
      forall i, j :: 0 <= i < numNodes && 0 <= j < numNodes ==> adjList[i, j] == Weight(i, j)
    }

    /** The state every client sees: a square, fully populated table. */
    ghost predicate Valid()
      reads adjList
    {
      Shaped() && Populated()
    }

    /** The calculated distance is never negative (a square root is not). */
    ghost predicate NonNegative()
    {
      forall p, q :: distance(p, q) >= 0.0
    }

    /**
      Builds the graph over the given nodes and fills its table; the random
      placement of the nodes is replaced by the `nodes` argument.
     */
    constructor (nodes: seq<Point>, radius: nat, distance: (Point, Point) -> real)
      ensures this.nodes == nodes && this.radius == radius && this.distance == distance
      ensures Valid() && fresh(adjList)
    {
      this.nodes := nodes;
      this.radius := radius;
      this.distance := distance;
      adjList := new real[|nodes|, |nodes|];
      new;
      InitializeGraphEdges();
    }

    /**
      Fills the table in place: for every pair fromNode <= toNode, one value
      is computed and written to both [fromNode, toNode] and [toNode, fromNode].
      Nodes, their count and the radius are constants: only the table changes.
     */
    method InitializeGraphEdges()
      requires Shaped()
      modifies adjList
      ensures Populated()
      ensures forall i :: 0 <= i < numNodes ==> adjList[i, i] == 0.0
      ensures forall i, j :: 0 <= i < numNodes && 0 <= j < numNodes ==> adjList[i, j] == adjList[j, i]
      ensures forall i, j :: 0 <= i < j < numNodes ==> adjList[i, j] == distance(nodes[i], nodes[j])
    {
      for fromNode := 0 to numNodes
        invariant forall i, j :: 0 <= i < numNodes && 0 <= j < numNodes && (i < fromNode || j < fromNode) ==>
                    adjList[i, j] == Weight(i, j)
      {
        for toNode := fromNode to numNodes
          invariant forall i, j :: 0 <= i < numNodes && 0 <= j < numNodes && (i < fromNode || j < fromNode) ==>
                      adjList[i, j] == Weight(i, j)
          invariant forall j :: fromNode <= j < toNode ==>
                      adjList[fromNode, j] == Weight(fromNode, j) && adjList[j, fromNode] == Weight(j, fromNode)
        {
          if fromNode == toNode {
            adjList[fromNode, toNode] := 0.0;
            adjList[toNode, fromNode] := 0.0;
          } else {
            var d := distance(nodes[fromNode], nodes[toNode]);
            adjList[fromNode, toNode] := d;
            adjList[toNode, fromNode] := d;
          }
        }
      }
    }

    /**
      The stored distance between two nodes; reading the table twice in
      either order gives the same value.
     */
    function FindDistance(fromNode: nat, toNode: nat): (d: real)
      reads adjList
      requires Valid()
      requires fromNode < numNodes && toNode < numNodes
      ensures d == Weight(fromNode, toNode)
      ensures d == adjList[toNode, fromNode]
      ensures fromNode == toNode ==> d == 0.0
    {
      adjList[fromNode, toNode]
    }

    /**
      false iff the node keeps a margin of three radii to every edge of a
      canvas of the given size (the size is read at each call, since the
      canvas may be resized).
     */
    function CheckIfNodeTouchBoundaries(p: Point, width: int, height: int): (touches: bool)
    {
      var margin := radius * 3;
      !(p.x >= margin && p.x <= width - margin && p.y >= margin && p.y <= height - margin)
    }

    /**
      A node does not touch the boundaries exactly when every point within
      three radii of it (coordinate-wise) is still on the canvas.
     */
    lemma InsideMeansMarginOnCanvas(p: Point, width: int, height: int)
      ensures !CheckIfNodeTouchBoundaries(p, width, height) <==>
              (forall q :: SpanBetween(p, q) <= 3 * radius ==> OnCanvas(q, width, height))
    {
      var r := 3 * radius;
      if forall q :: SpanBetween(p, q) <= r ==> OnCanvas(q, width, height) {
        var lo, hi := Point(p.x - r, p.y - r), Point(p.x + r, p.y + r);
        assert SpanBetween(p, lo) <= r && SpanBetween(p, hi) <= r;
        assert OnCanvas(lo, width, height) && OnCanvas(hi, width, height);
      }
    }

    /** With a non-negative distance, no cell of the table is negative. */
    lemma WeightNonNegative(i: nat, j: nat)
      requires NonNegative()
      requires i < numNodes && j < numNodes
      ensures Weight(i, j) >= 0.0
    {
    }
  }
}
