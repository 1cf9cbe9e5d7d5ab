// The program's own graph: five cities, Liverpool (0), Manchester (1),
// Leeds (2), Sheffield (3) and York (4), with the road lengths between
// them; 0 means no direct road.

module Example {
  import opened QueueItems
  import opened Dijkstra
  import opened Paths

  /** The weight matrix the program runs on. */
  function ExampleGraph(): seq<seq<int>> {
    [[ 0, 34, 75, 74,  0],
     [34,  0, 45, 39, 69],
     [75, 45,  0, 36, 23],
     [74, 39, 36,  0, 61],
     [ 0, 69, 23, 61,  0]]
  }

  /** The shortest distances from Liverpool. */
  function ExampleDistances(): seq<int> {
    [0, 34, 75, 73, 98]
  }

  lemma ExampleIsGraph()
    ensures IsGraph(ExampleGraph())
  {
  }

  /** Following the roads Liverpool-Manchester-Sheffield and
      Liverpool-Leeds-York, no relaxed distances exceed these. */
  lemma ExampleUpperBounds(distance: seq<int>)
    requires IsGraph(ExampleGraph()) && |distance| == 5
    requires Bounded(distance) && Relaxed(ExampleGraph(), distance)
    ensures forall t :: 0 <= t < 5 ==> distance[t] <= ExampleDistances()[t]
  {
    var g := ExampleGraph();
    assert distance[1] <= distance[0] + g[0][1];
    assert distance[2] <= distance[0] + g[0][2];
    assert distance[3] <= distance[1] + g[1][3];
    assert distance[4] <= distance[2] + g[2][4];
  }

  /** The distances here are themselves relaxed, so no distance realised by
      a route can be smaller. */
  lemma ExampleLowerBound(distance: seq<int>, pathVia: seq<int>, t: int)
    requires IsGraph(ExampleGraph()) && |distance| == 5 && |pathVia| == 5
    requires Bounded(distance) && Relaxed(ExampleGraph(), distance)
    requires PredecessorTable(ExampleGraph(), distance, pathVia)
    requires 0 <= t < 5 && distance[t] < Infinity
    ensures ExampleDistances()[t] <= distance[t]
  {
    var g := ExampleGraph();
    var e := ExampleDistances();
    assert Relaxed(g, e);
    WalkRealizesDistance(g, distance, pathVia, t);
    RelaxedBoundsRoutes(g, e, [t] + BackPath(pathVia, distance, t));
  }

  /** Any distances and pathVia table with the properties the main loop
      guarantees are, on this graph, exactly these: Sheffield is reached
      through Manchester and York through Leeds. */
  lemma ExampleSolution(distance: seq<int>, pathVia: seq<int>)
    requires IsGraph(ExampleGraph()) && |distance| == 5 && |pathVia| == 5
    requires Bounded(distance) && Relaxed(ExampleGraph(), distance)
    requires PredecessorTable(ExampleGraph(), distance, pathVia)
    ensures distance == ExampleDistances()
    ensures pathVia == [0, 0, 0, 1, 2]
  {
    ExampleUpperBounds(distance);
    forall t | 0 <= t < 5
      ensures ExampleDistances()[t] <= distance[t]
    {
      ExampleLowerBound(distance, pathVia, t);
    }
    assert distance == ExampleDistances();
  }

  /** The program's run: the cities are printed in the order Liverpool 0,
      Manchester 34, Sheffield 73, Leeds 75, York 98, and asking for York
      prints Leeds and then Liverpool. */
  method ExampleRun() returns (log: seq<QueueItem>, pathVia: seq<int>, route: seq<int>)
    ensures log == [QueueItem(0, 0), QueueItem(34, 1), QueueItem(73, 3), QueueItem(75, 2), QueueItem(98, 4)]
    ensures pathVia == [0, 0, 0, 1, 2]
    ensures route == [2, 0]
  {
    ExampleIsGraph();
    ghost var distance;
    log, pathVia, distance := ShortestPaths(ExampleGraph());
    ExampleSolution(distance, pathVia);
    ExampleLog(log, distance);
    PredecessorsDescend(ExampleGraph(), distance, pathVia);
    route := WalkBack(pathVia, distance, 4);
    assert BackPath(pathVia, distance, 0) == [];
    assert BackPath(pathVia, distance, 2) == [0];
  }

  /** One record per city, each with its distance, in non-decreasing order:
      with these distances only one order is possible. */
  lemma ExampleLog(log: seq<QueueItem>, distance: seq<int>)
    requires distance == ExampleDistances() && |log| == 5
    requires forall i :: 0 <= i < |log| ==> log[i].node < 5 && log[i].distance == distance[log[i].node]
    requires forall i, j :: 0 <= i < j < |log| ==>
      log[i].node != log[j].node && log[i].distance <= log[j].distance
    ensures log == [QueueItem(0, 0), QueueItem(34, 1), QueueItem(73, 3), QueueItem(75, 2), QueueItem(98, 4)]
  {
    forall i | 0 <= i < 5
      ensures log[i].distance in {0, 34, 73, 75, 98}
    {
      assert log[i].node in {0, 1, 2, 3, 4};
    }
    forall i, j | 0 <= i < j < 5
      ensures log[i].distance < log[j].distance
    {
      assert log[i].node != log[j].node;
    }
    assert log[0].distance < log[1].distance < log[2].distance < log[3].distance < log[4].distance;
    assert log[0].distance == 0 && log[1].distance == 34 && log[2].distance == 73;
    assert log[3].distance == 75 && log[4].distance == 98;
  }

  /** Four nodes where node 3 can be reached at distance 3 both through
      node 1 (1 + 2) and through node 2 (2 + 1). */
  function TieGraph(): seq<seq<int>> {
    [[0, 1, 2, 0],
     [1, 0, 0, 2],
     [2, 0, 0, 1],
     [0, 2, 1, 0]]
  }

  /** On the tie graph the distances are forced, and pathVia keeps node 1,
      the nearer and so the first settled of the two predecessors of node 3:
      node 2 offers no strict improvement when it is settled. */
  lemma TieKeepsFirstSettled(distance: seq<int>, pathVia: seq<int>)
    requires IsGraph(TieGraph()) && |distance| == 4 && |pathVia| == 4
    requires Bounded(distance) && Relaxed(TieGraph(), distance)
    requires PredecessorTable(TieGraph(), distance, pathVia)
    requires NearestPredecessors(TieGraph(), distance, pathVia)
    ensures distance == [0, 1, 2, 3]
    ensures pathVia == [0, 0, 0, 1]
  {
    var g := TieGraph();
    assert distance[1] <= distance[0] + g[0][1];
    assert distance[2] <= distance[0] + g[0][2];
    assert distance[3] <= distance[1] + g[1][3];
    forall t | 0 <= t < 4
      ensures [0, 1, 2, 3][t] <= distance[t]
    {
      TieLowerBound(distance, pathVia, t);
    }
    assert distance == [0, 1, 2, 3];
    assert g[1][3] != 0 && distance[1] + g[1][3] == distance[3];
  }

  /** No distance realised by a route of the tie graph is below these. */
  lemma TieLowerBound(distance: seq<int>, pathVia: seq<int>, t: int)
    requires IsGraph(TieGraph()) && |distance| == 4 && |pathVia| == 4
    requires Bounded(distance) && Relaxed(TieGraph(), distance)
    requires PredecessorTable(TieGraph(), distance, pathVia)
    requires 0 <= t < 4 && distance[t] < Infinity
    ensures [0, 1, 2, 3][t] <= distance[t]
  {
    var g := TieGraph();
    var e := [0, 1, 2, 3];
    assert Relaxed(g, e);
    WalkRealizesDistance(g, distance, pathVia, t);
    RelaxedBoundsRoutes(g, e, [t] + BackPath(pathVia, distance, t));
  }

  /** The program run on the tie graph records node 1 as node 3's
      predecessor. */
  method TieRun() returns (pathVia: seq<int>)
    ensures pathVia == [0, 0, 0, 1]
  {
    assert IsGraph(TieGraph());
    var log;
    ghost var distance;
    log, pathVia, distance := ShortestPaths(TieGraph());
    TieKeepsFirstSettled(distance, pathVia);
  }
}
