// Routes back to the source, and the walk that prints one.  After the main
// loop the user picks a node and the program follows pathVia from it,
// printing each node it steps to, until it reaches node 0.  The lemmas show
// that the distances the main loop leaves are exactly the lengths of the
// shortest routes, and that the walk prints a route of that length.

module Paths {
  import opened QueueItems
  import opened Dijkstra

  /** r is a route walked backwards towards the source: r[0] is where it
      starts, and every step goes from r[k] back to r[k + 1] along an edge
      from r[k + 1] to r[k]. */
  ghost predicate IsRoute(graph: seq<seq<int>>, r: seq<int>)
    requires IsGraph(graph)
  {
    |r| > 0 &&
    (forall k :: 0 <= k < |r| ==> 0 <= r[k] < |graph|) &&
    (forall k :: 0 <= k < |r| - 1 ==> graph[r[k + 1]][r[k]] != 0)
  }

  /** The sum of the weights of the edges a route uses. */
  ghost function RouteLength(graph: seq<seq<int>>, r: seq<int>): int
    requires IsGraph(graph) && IsRoute(graph, r)
    decreases |r|
  {
    if |r| == 1 then 0 else graph[r[1]][r[0]] + RouteLength(graph, r[1..])
  }

  /** When no edge offers a shorter distance than d gives, the distance d
      gives the start of any route is at most the distance of its end plus
      the route's length. */
  lemma {:induction false} RelaxedBoundsRoutes(graph: seq<seq<int>>, d: seq<int>, r: seq<int>)
    requires IsGraph(graph) && |d| == |graph| && Relaxed(graph, d) && IsRoute(graph, r)
    ensures d[r[0]] <= d[r[|r| - 1]] + RouteLength(graph, r)
    decreases |r|
  {
    if |r| > 1 {
      assert IsRoute(graph, r[1..]);
      RelaxedBoundsRoutes(graph, d, r[1..]);
    }
  }

  /** pathVia always leads to a node in range, and from every node other
      than the source to a node strictly nearer according to d, which is
      never negative. */
  ghost predicate Descends(pathVia: seq<int>, d: seq<int>) {
    |d| == |pathVia| &&
    forall v :: 0 <= v < |pathVia| ==>
      0 <= pathVia[v] < |pathVia| && 0 <= d[v] &&
      (v != 0 ==> d[pathVia[v]] < d[v])
  }

  /** The table the main loop leaves descends along its distances, since
      every edge weighs at least 1. */
  lemma PredecessorsDescend(graph: seq<seq<int>>, d: seq<int>, pathVia: seq<int>)
    requires IsGraph(graph) && |d| == |graph| && |pathVia| == |graph|
    requires Bounded(d) && PredecessorTable(graph, d, pathVia)
    ensures Descends(pathVia, d)
  {
  }

  /** The nodes the walk from index prints: each step replaces the index by
      its pathVia entry and prints it, until the index is 0. */
  ghost function BackPath(pathVia: seq<int>, d: seq<int>, index: int): seq<int>
    requires Descends(pathVia, d) && 0 <= index < |pathVia|
    decreases d[index]
  {
    if index == 0 then []
    else [pathVia[index]] + BackPath(pathVia, d, pathVia[index])
  }

  /** The walk prints nothing from the source; from any other node it
      prints that node's pathVia entry first, each later node is the pathVia
      entry of the one before, every node is in range, and the last one
      printed, and only the last, is the source. */
  lemma {:induction false} BackPathShape(pathVia: seq<int>, d: seq<int>, index: int)
    requires Descends(pathVia, d) && 0 <= index < |pathVia|
    ensures var p := BackPath(pathVia, d, index);
      (|p| == 0 <==> index == 0) &&
      (|p| > 0 ==> p[0] == pathVia[index] && p[|p| - 1] == 0) &&
      (forall k :: 0 <= k < |p| ==> 0 <= p[k] < |pathVia|) &&
      (forall k :: 0 <= k < |p| - 1 ==> p[k] != 0 && p[k + 1] == pathVia[p[k]])
    decreases d[index]
  {
    if index != 0 {
      BackPathShape(pathVia, d, pathVia[index]);
    }
  }

  /** The walk: read a node and follow pathVia from it to the source,
      printing every node stepped to.  The result is the sequence of
      printed nodes. */
  method WalkBack(pathVia: seq<int>, ghost d: seq<int>, target: int) returns (printed: seq<int>)
    requires Descends(pathVia, d) && 0 <= target < |pathVia|
    ensures printed == BackPath(pathVia, d, target)
  {
    var index := target;
    printed := [];
    while index != 0
      invariant 0 <= index < |pathVia|
      invariant printed + BackPath(pathVia, d, index) == BackPath(pathVia, d, target)
      decreases d[index]
    {
      index := pathVia[index];
      printed := printed + [index];
    }
  }

  /** From a node with a distance below Infinity, the node followed by what
      the walk prints is a route to the source whose length is exactly that
      distance. */
  lemma {:induction false} WalkRealizesDistance(graph: seq<seq<int>>, d: seq<int>, pathVia: seq<int>,
                                                t: int)
    requires IsGraph(graph) && |d| == |graph| && |pathVia| == |graph|
    requires Bounded(d) && PredecessorTable(graph, d, pathVia)
    requires 0 <= t < |graph| && d[t] < Infinity
    ensures Descends(pathVia, d)
    ensures var r := [t] + BackPath(pathVia, d, t);
      IsRoute(graph, r) && r[|r| - 1] == 0 && RouteLength(graph, r) == d[t]
    decreases d[t]
  {
    PredecessorsDescend(graph, d, pathVia);
    if t != 0 {
      var u := pathVia[t];
      WalkRealizesDistance(graph, d, pathVia, u);
      var rest := [u] + BackPath(pathVia, d, u);
      var r := [t] + BackPath(pathVia, d, t);
      assert r == [t] + rest;
      assert r[1..] == rest;
    }
  }

  /** What the program computes, for every node t: no route from t back to
      the source is shorter than t's distance; when that distance is below
      Infinity, t followed by what the walk prints is a route of exactly
      that length; otherwise the walk prints the source alone. */
  lemma ShortestPathsAreShortest(graph: seq<seq<int>>, distance: seq<int>, pathVia: seq<int>, t: int)
    requires IsGraph(graph) && |distance| == |graph| && |pathVia| == |graph|
    requires Bounded(distance) && Relaxed(graph, distance) && PredecessorTable(graph, distance, pathVia)
    requires 0 <= t < |graph|
    ensures Descends(pathVia, distance)
    ensures forall r :: IsRoute(graph, r) && r[0] == t && r[|r| - 1] == 0 ==>
      distance[t] <= RouteLength(graph, r)
    ensures distance[t] < Infinity ==>
      var r := [t] + BackPath(pathVia, distance, t);
      IsRoute(graph, r) && r[|r| - 1] == 0 && RouteLength(graph, r) == distance[t]
    ensures distance[t] == Infinity ==> BackPath(pathVia, distance, t) == [0]
  {
    PredecessorsDescend(graph, distance, pathVia);
    forall r | IsRoute(graph, r) && r[0] == t && r[|r| - 1] == 0
      ensures distance[t] <= RouteLength(graph, r)
    {
      RelaxedBoundsRoutes(graph, distance, r);
    }
    if distance[t] < Infinity {
      WalkRealizesDistance(graph, distance, pathVia, t);
    } else {
      assert pathVia[t] == 0;
      assert BackPath(pathVia, distance, 0) == [];
    }
  }

  /** The first record printed is the source at distance 0: every other
      node ends at a positive distance. */
  lemma SourcePrintedFirst(graph: seq<seq<int>>, log: seq<QueueItem>, distance: seq<int>)
    requires IsGraph(graph) && |distance| == |graph| && Bounded(distance) && |log| == |graph|
    requires forall i :: 0 <= i < |log| ==>
      log[i].node < |graph| && log[i].distance == distance[log[i].node]
    requires forall i, j :: 0 <= i < j < |log| ==> log[i].distance <= log[j].distance
    requires forall v :: 0 <= v < |graph| ==> v in Nodes(log)
    ensures log[0] == QueueItem(0, 0)
  {
    assert 0 in Nodes(log);
    var i :| 0 <= i < |log| && Nodes(log)[i] == 0;
    assert log[0].distance <= log[i].distance;
  }
}
