// Dijkstra's single-source shortest paths from node 0 over a weight matrix
// in which 0 means "no edge", driven by the binary-heap priority queue.
// The heap has no decrease-key, so a node's distance is lowered by
// dequeuing records onto a stack until the node turns up and then
// re-enqueuing all of them.

module Dijkstra {
  import opened QueueItems
  import opened PriorityQueues
  import opened UpdateDistances

  /** The distance every node but the source starts with: int.MaxValue. */
  const Infinity: int := 0x7FFF_FFFF

  /** The distance node v is enqueued with: 0 for the source, node 0,
      Infinity for every other node. */
  function Initial(v: int): int {
    if v == 0 then 0 else Infinity
  }

  /** The tentative distances before the first round: Initial for every node. */
  function InitialDistances(n: nat): (r: seq<int>)
    ensures |r| == n && forall v :: 0 <= v < n ==> r[v] == Initial(v)
  {
    seq(n, Initial)
  }

  /** A table of n entries all equal to x, as a freshly allocated array is. */
  function Filled<T>(n: nat, x: T): (r: seq<T>)
    ensures |r| == n && forall v :: 0 <= v < n ==> r[v] == x
  {
    seq(n, _ => x)
  }

  /** A square matrix of non-negative weights with at least one node;
      graph[u][v] == 0 means there is no edge from u to v. */
  ghost predicate IsGraph(graph: seq<seq<int>>) {
    |graph| > 0 &&
    forall u :: 0 <= u < |graph| ==>
      |graph[u]| == |graph| && forall v :: 0 <= v < |graph| ==> graph[u][v] >= 0
  }

  // ---------------------------------------------------------------------
  // The queue's contents during a run: one record per unvisited node.

  /** The records of the nodes below m that are not yet visited, each
      carrying its tentative distance cur[v]. */
  ghost function Pending(cur: seq<int>, visited: seq<bool>, m: nat): multiset<QueueItem>
    requires m <= |cur| && m <= |visited|
  {
    if m == 0 then multiset{}
    else
      var last := if visited[m - 1] then multiset{} else multiset{QueueItem(cur[m - 1], m - 1)};
      Pending(cur, visited, m - 1) + last
  }

  /** A record is pending exactly when it is the record of an unvisited
      node carrying that node's tentative distance. */
  lemma {:induction false} PendingHas(cur: seq<int>, visited: seq<bool>, m: nat, x: QueueItem)
    requires m <= |cur| && m <= |visited|
    ensures x in Pending(cur, visited, m) <==>
      x.node < m && !visited[x.node] && x.distance == cur[x.node]
  {
    if m > 0 {
      PendingHas(cur, visited, m - 1, x);
    }
  }

  /** Pending reads only the entries below m. */
  lemma {:induction false} PendingFrame(cur: seq<int>, visited: seq<bool>, cur': seq<int>, visited': seq<bool>, m: nat)
    requires m <= |cur| && m <= |visited| && m <= |cur'| && m <= |visited'|
    requires cur[..m] == cur'[..m] && visited[..m] == visited'[..m]
    ensures Pending(cur, visited, m) == Pending(cur', visited', m)
  {
    if m > 0 {
      assert cur[m - 1] == cur[..m][m - 1] && cur'[m - 1] == cur'[..m][m - 1];
      assert visited[m - 1] == visited[..m][m - 1] && visited'[m - 1] == visited'[..m][m - 1];
      assert cur[..m - 1] == cur[..m][..m - 1] && cur'[..m - 1] == cur'[..m][..m - 1];
      assert visited[..m - 1] == visited[..m][..m - 1] && visited'[..m - 1] == visited'[..m][..m - 1];
      PendingFrame(cur, visited, cur', visited', m - 1);
    }
  }

  /** Marking an unvisited node visited removes exactly its record. */
  lemma {:induction false} PendingSettle(cur: seq<int>, visited: seq<bool>, m: nat, v: nat)
    requires m <= |cur| && m <= |visited| && v < m && !visited[v]
    ensures Pending(cur, visited[v := true], m) == Pending(cur, visited, m) - multiset{QueueItem(cur[v], v)}
  {
    if v == m - 1 {
      PendingFrame(cur, visited[v := true], cur, visited, m - 1);
    } else {
      PendingSettle(cur, visited, m - 1, v);
      PendingHas(cur, visited, m - 1, QueueItem(cur[v], v));
    }
  }

  /** Replacing a member of a multiset commutes with adding more members. */
  lemma ReplaceCommutes(a: multiset<QueueItem>, b: multiset<QueueItem>, x: QueueItem, y: QueueItem)
    requires x in a
    ensures a - multiset{x} + multiset{y} + b == (a + b) - multiset{x} + multiset{y}
  {
  }

  /** Changing an unvisited node's tentative distance replaces its record. */
  lemma {:induction false} PendingUpdate(cur: seq<int>, visited: seq<bool>, m: nat, v: nat, d: int)
    requires m <= |cur| && m <= |visited| && v < m && !visited[v]
    ensures Pending(cur[v := d], visited, m) ==
      Pending(cur, visited, m) - multiset{QueueItem(cur[v], v)} + multiset{QueueItem(d, v)}
    decreases m, 1
  {
    if v == m - 1 {
      PendingUpdateTop(cur, visited, m, d);
    } else {
      PendingUpdateBelow(cur, visited, m, v, d);
    }
  }

  /** PendingUpdate for the last node below m. */
  lemma PendingUpdateTop(cur: seq<int>, visited: seq<bool>, m: nat, d: int)
    requires 0 < m <= |cur| && m <= |visited| && !visited[m - 1]
    ensures Pending(cur[m - 1 := d], visited, m) ==
      Pending(cur, visited, m) - multiset{QueueItem(cur[m - 1], m - 1)} + multiset{QueueItem(d, m - 1)}
  {
    var cur' := cur[m - 1 := d];
    PendingFrame(cur', visited, cur, visited, m - 1);
    assert Pending(cur', visited, m) == Pending(cur, visited, m - 1) + multiset{QueueItem(d, m - 1)};
    assert Pending(cur, visited, m) == Pending(cur, visited, m - 1) + multiset{QueueItem(cur[m - 1], m - 1)};
  }

  /** PendingUpdate for a node below the last one, by induction on m. */
  lemma {:induction false} PendingUpdateBelow(cur: seq<int>, visited: seq<bool>, m: nat, v: nat, d: int)
    requires m <= |cur| && m <= |visited| && v < m - 1 && !visited[v]
    ensures Pending(cur[v := d], visited, m) ==
      Pending(cur, visited, m) - multiset{QueueItem(cur[v], v)} + multiset{QueueItem(d, v)}
    decreases m, 0
  {
    var cur' := cur[v := d];
    var was := QueueItem(cur[v], v);
    var now := QueueItem(d, v);
    var last := if visited[m - 1] then multiset{} else multiset{QueueItem(cur[m - 1], m - 1)};
    var below := Pending(cur, visited, m - 1);
    calc {
      Pending(cur', visited, m);
    == { assert cur'[m - 1] == cur[m - 1]; }
      Pending(cur', visited, m - 1) + last;
    == { PendingUpdate(cur, visited, m - 1, v, d); }
      below - multiset{was} + multiset{now} + last;
    == { PendingHas(cur, visited, m - 1, was); ReplaceCommutes(below, last, was, now); }
      (below + last) - multiset{was} + multiset{now};
    }
  }

  /** Offering an unvisited node the distance d replaces its pending
      record t by Lowered(t, d), which is what lowering its tentative
      distance to d does when d is strictly smaller, and nothing otherwise. */
  lemma OfferKeepsPending(cur: seq<int>, visited: seq<bool>, m: nat, v: nat, d: int, t: QueueItem)
    requires m <= |cur| && m <= |visited| && v < m
    requires t in Pending(cur, visited, m) && t.node == v
    ensures Pending(if t.distance > d then cur[v := d] else cur, visited, m) ==
      Pending(cur, visited, m) - multiset{t} + multiset{Lowered(t, d)}
  {
    PendingHas(cur, visited, m, t);
    if t.distance > d {
      PendingUpdate(cur, visited, m, v, d);
    }
  }

  // ---------------------------------------------------------------------
  // Relaxing the edges out of a settled node.

  /** One step of the inner loop, for a column that has an edge of weight w
      from rowNo and is not yet visited: the column is offered uDistance + w,
      and pathVia records rowNo when its distance goes down.  vis is the
      visited table and the ghost sequences cur and cur' hold every node's
      tentative distance before and after. */
  method RelaxEdge(w: int, pq: PriorityQueue, ghost vis: seq<bool>, pathVia: array<int>,
                   rowNo: nat, column: nat, uDistance: int, ghost cur: seq<int>)
    returns (ghost cur': seq<int>)
    requires |vis| == |cur| == pathVia.Length && column < |cur| && !vis[column]
    requires pq.Valid() && multiset(pq.data) == Pending(cur, vis, |cur|)
    modifies pq, pathVia
    ensures pq.Valid() && |pq.data| == old(|pq.data|)
    ensures |cur'| == |cur| && multiset(pq.data) == Pending(cur', vis, |cur|)
    ensures if uDistance + w < cur[column]
      then cur' == cur[column := uDistance + w] && pathVia[..] == old(pathVia[..])[column := rowNo]
      else cur' == cur && pathVia[..] == old(pathVia[..])
  {
    var n := |cur|;
    PendingHas(cur, vis, n, QueueItem(cur[column], column));
    var distanceUpdated, t := UpDateDistances(column, pq, w, uDistance);
    OfferKeepsPending(cur, vis, n, column, w + uDistance, t);
    PendingHas(cur, vis, n, t);
    cur' := cur;
    if distanceUpdated {
      cur' := cur'[column := w + uDistance];
      pathVia[column] := rowNo;
    }
  }

  /** The inner loop of the main loop: node rowNo has just been settled with
      distance uDistance, and every column with an edge from rowNo that is
      not yet visited is offered uDistance plus the edge weight.  Afterwards
      every node either keeps its distance and pathVia entry, or is such a
      column whose distance went strictly down to that offer and whose
      pathVia entry is rowNo; and no such column is farther than its offer. */
  method RelaxNeighbours(graph: seq<seq<int>>, pq: PriorityQueue, visited: array<bool>,
                         pathVia: array<int>, rowNo: nat, uDistance: int, ghost cur: seq<int>)
    returns (ghost cur': seq<int>)
    requires IsGraph(graph)
    requires visited.Length == |graph| && pathVia.Length == |graph| && |cur| == |graph|
    requires rowNo < |graph| && visited[rowNo] && uDistance == cur[rowNo]
    requires pq.Valid() && multiset(pq.data) == Pending(cur, visited[..], |graph|)
    modifies pq, pathVia
    ensures pq.Valid() && |pq.data| == old(|pq.data|) && |cur'| == |graph|
    ensures multiset(pq.data) == Pending(cur', visited[..], |graph|)
    ensures RelaxStep(graph, cur, cur', visited[..], old(pathVia[..]), pathVia[..], rowNo, uDistance)
  {
    var n := visited.Length;
    ghost var vis := visited[..];
    var row := graph[rowNo];
    cur' := cur;
    for column := 0 to n
      invariant pq.Valid() && |pq.data| == old(|pq.data|) && |cur'| == n
      invariant multiset(pq.data) == Pending(cur', vis, n)
      invariant forall v :: 0 <= v < n ==>
        (cur'[v] == cur[v] && pathVia[v] == old(pathVia[v])) ||
        (!vis[v] && row[v] != 0 && cur'[v] == uDistance + row[v] < cur[v] && pathVia[v] == rowNo)
      invariant forall v :: 0 <= v < column && !vis[v] && row[v] != 0 ==> cur'[v] <= uDistance + row[v]
    {
      if row[column] != 0 && !visited[column] {
        cur' := RelaxEdge(row[column], pq, vis, pathVia, rowNo, column, uDistance, cur');
      }
    }
    assert RelaxStep(graph, cur, cur', vis, old(pathVia[..]), pathVia[..], rowNo, uDistance);
  }

  // ---------------------------------------------------------------------
  // What the main loop keeps true.  cur holds every node's tentative
  // distance, vis the visited table, log the records printed so far.

  /** Distances never rise above the initial ones, never go negative, and
      only the source can be at distance 0. */
  ghost predicate Bounded(cur: seq<int>) {
    forall v :: 0 <= v < |cur| ==> 0 <= cur[v] <= Initial(v) && (v != 0 ==> 0 < cur[v])
  }

  /** Every visited node is at least as near as every unvisited one. */
  ghost predicate SettledFirst(cur: seq<int>, vis: seq<bool>)
    requires |vis| == |cur|
  {
    forall u, v :: 0 <= u < |cur| && 0 <= v < |cur| && vis[u] && !vis[v] ==> cur[u] <= cur[v]
  }

  /** No edge out of a node of S offers a shorter distance. */
  ghost predicate RelaxedFrom(graph: seq<seq<int>>, cur: seq<int>, vis: seq<bool>)
    requires IsGraph(graph) && |vis| == |cur| == |graph|
  {
    forall u, v :: 0 <= u < |cur| && 0 <= v < |cur| && vis[u] && graph[u][v] != 0 ==>
      cur[v] <= cur[u] + graph[u][v]
  }

  /** No edge offers a shorter distance than d gives. */
  ghost predicate Relaxed(graph: seq<seq<int>>, d: seq<int>)
    requires IsGraph(graph) && |d| == |graph|
  {
    forall u, v :: 0 <= u < |d| && 0 <= v < |d| && graph[u][v] != 0 ==> d[v] <= d[u] + graph[u][v]
  }

  /** pathVia names, for every node other than the source that has a
      distance below Infinity, a node with an edge to it whose distance plus
      the edge weight is exactly its distance; every other entry is 0. */
  ghost predicate PredecessorTable(graph: seq<seq<int>>, d: seq<int>, pathVia: seq<int>)
    requires IsGraph(graph) && |d| == |graph| && |pathVia| == |graph|
  {
    forall v :: 0 <= v < |d| ==>
      if v == 0 || d[v] == Infinity then pathVia[v] == 0
      else (0 <= pathVia[v] < |d| && graph[pathVia[v]][v] != 0 &&
            d[v] == d[pathVia[v]] + graph[pathVia[v]][v])
  }

  /** Every recorded predecessor is visited, so its distance is final. */
  ghost predicate PredecessorsSettled(cur: seq<int>, pathVia: seq<int>, vis: seq<bool>)
    requires |vis| == |cur| == |pathVia|
  {
    forall v :: 0 <= v < |cur| && v != 0 && cur[v] < Infinity ==>
      0 <= pathVia[v] < |cur| && vis[pathVia[v]]
  }

  /** A node's recorded predecessor is the earliest settled of the visited
      nodes it could have: no visited node w whose distance plus the edge
      weight gives v's distance is nearer than pathVia[v].  A later node
      offering the same distance is no strict improvement, so it never
      replaces the recorded one. */
  ghost predicate FirstPredecessors(graph: seq<seq<int>>, cur: seq<int>, vis: seq<bool>, pathVia: seq<int>)
    requires IsGraph(graph) && |cur| == |graph| && |vis| == |graph| && |pathVia| == |graph|
    requires PredecessorTable(graph, cur, pathVia)
  {
    forall v, w ::
      (0 <= v < |cur| && 0 <= w < |cur| && v != 0 && cur[v] < Infinity && vis[w] &&
       graph[w][v] != 0 && cur[w] + graph[w][v] == cur[v]) ==> cur[pathVia[v]] <= cur[w]
  }

  /** When every node is settled: of all the nodes whose distance plus the
      edge weight gives v's distance, pathVia[v] is a nearest one. */
  ghost predicate NearestPredecessors(graph: seq<seq<int>>, d: seq<int>, pathVia: seq<int>)
    requires IsGraph(graph) && |d| == |graph| && |pathVia| == |graph|
    requires PredecessorTable(graph, d, pathVia)
  {
    forall v, w ::
      (0 <= v < |d| && 0 <= w < |d| && v != 0 && d[v] < Infinity &&
       graph[w][v] != 0 && d[w] + graph[w][v] == d[v]) ==> d[pathVia[v]] <= d[w]
  }

  /** The nodes of a sequence of records, in order. */
  function Nodes(log: seq<QueueItem>): (r: seq<nat>)
    ensures |r| == |log| && forall i :: 0 <= i < |log| ==> r[i] == log[i].node
  {
    seq(|log|, i requires 0 <= i < |log| => log[i].node)
  }

  /** The printed records are exactly one per visited node, each with that
      node's distance, in non-decreasing order of distance. */
  ghost predicate LogOf(log: seq<QueueItem>, cur: seq<int>, vis: seq<bool>)
    requires |vis| == |cur|
  {
    (forall i :: 0 <= i < |log| ==>
       log[i].node < |cur| && vis[log[i].node] && log[i].distance == cur[log[i].node]) &&
    (forall i, j :: 0 <= i < j < |log| ==>
       log[i].node != log[j].node && log[i].distance <= log[j].distance) &&
    (forall v :: 0 <= v < |cur| && vis[v] ==> v in Nodes(log))
  }

  /** All of the main loop's invariant that does not mention the queue. */
  ghost predicate Progress(graph: seq<seq<int>>, cur: seq<int>, vis: seq<bool>, pathVia: seq<int>,
                           log: seq<QueueItem>)
  {
    IsGraph(graph) && |cur| == |graph| && |vis| == |graph| && |pathVia| == |graph| &&
    Bounded(cur) && SettledFirst(cur, vis) && RelaxedFrom(graph, cur, vis) &&
    PredecessorTable(graph, cur, pathVia) && PredecessorsSettled(cur, pathVia, vis) &&
    FirstPredecessors(graph, cur, vis, pathVia) && LogOf(log, cur, vis)
  }

  /** What RelaxNeighbours promises about the distances and the pathVia
      table, once node u has been settled with distance du and vis' is the
      visited table that includes u. */
  ghost predicate RelaxStep(graph: seq<seq<int>>, cur: seq<int>, cur': seq<int>, vis': seq<bool>,
                            pathVia: seq<int>, pathVia': seq<int>, u: nat, du: int)
    requires IsGraph(graph) && u < |graph|
    requires |cur| == |cur'| == |vis'| == |pathVia| == |pathVia'| == |graph|
  {
    (forall v :: 0 <= v < |graph| ==>
      (cur'[v] == cur[v] && pathVia'[v] == pathVia[v]) ||
      (!vis'[v] && graph[u][v] != 0 && cur'[v] == du + graph[u][v] < cur[v] && pathVia'[v] == u)) &&
    (forall v :: 0 <= v < |graph| && !vis'[v] && graph[u][v] != 0 ==> cur'[v] <= du + graph[u][v])
  }

  /** Facts about the record the main loop settles: the nearest pending
      record belongs to an unvisited node, carries its distance, and is no
      farther than any unvisited node. */
  lemma NearestPending(cur: seq<int>, vis: seq<bool>, x: QueueItem)
    requires |vis| == |cur|
    requires x in Pending(cur, vis, |cur|)
    requires forall y :: y in Pending(cur, vis, |cur|) ==> x.distance <= y.distance
    ensures x.node < |cur| && !vis[x.node] && x.distance == cur[x.node]
    ensures forall v :: 0 <= v < |cur| && !vis[v] ==> x.distance <= cur[v]
  {
    PendingHas(cur, vis, |cur|, x);
    forall v | 0 <= v < |cur| && !vis[v]
      ensures x.distance <= cur[v]
    {
      PendingHas(cur, vis, |cur|, QueueItem(cur[v], v));
    }
  }

  /** Settling the nearest unvisited node u, whose distance is du, and
      relaxing its edges keeps every part of Progress, with the record of
      u appended to the log. */
  lemma SettleKeepsProgress(graph: seq<seq<int>>, cur: seq<int>, vis: seq<bool>, pathVia: seq<int>,
                            log: seq<QueueItem>, u: nat, du: int,
                            cur': seq<int>, vis': seq<bool>, pathVia': seq<int>)
    requires Progress(graph, cur, vis, pathVia, log)
    requires u < |graph| && !vis[u] && du == cur[u]
    requires forall v :: 0 <= v < |graph| && !vis[v] ==> du <= cur[v]
    requires vis' == vis[u := true] && |cur'| == |graph| && |pathVia'| == |graph|
    requires RelaxStep(graph, cur, cur', vis', pathVia, pathVia', u, du)
    ensures Progress(graph, cur', vis', pathVia', log + [QueueItem(du, u)])
  {
    SettleKeepsDistances(graph, cur, vis, pathVia, u, du, cur', vis', pathVia');
    SettleKeepsPredecessors(graph, cur, vis, pathVia, u, du, cur', vis', pathVia');
    SettleKeepsFirst(graph, cur, vis, pathVia, u, du, cur', vis', pathVia');
    LogGrows(log, cur, vis, cur', vis', u, du);
  }

  /** The distance half of SettleKeepsProgress. */
  lemma SettleKeepsDistances(graph: seq<seq<int>>, cur: seq<int>, vis: seq<bool>, pathVia: seq<int>,
                             u: nat, du: int, cur': seq<int>, vis': seq<bool>, pathVia': seq<int>)
    requires IsGraph(graph) && |cur| == |graph| && |vis| == |graph| && |pathVia| == |graph|
    requires Bounded(cur) && SettledFirst(cur, vis) && RelaxedFrom(graph, cur, vis)
    requires u < |graph| && !vis[u] && du == cur[u]
    requires forall v :: 0 <= v < |graph| && !vis[v] ==> du <= cur[v]
    requires vis' == vis[u := true] && |cur'| == |graph| && |pathVia'| == |graph|
    requires RelaxStep(graph, cur, cur', vis', pathVia, pathVia', u, du)
    ensures Bounded(cur') && SettledFirst(cur', vis') && RelaxedFrom(graph, cur', vis')
  {
  }

  /** The pathVia half of SettleKeepsProgress. */
  lemma SettleKeepsPredecessors(graph: seq<seq<int>>, cur: seq<int>, vis: seq<bool>, pathVia: seq<int>,
                                u: nat, du: int, cur': seq<int>, vis': seq<bool>, pathVia': seq<int>)
    requires IsGraph(graph) && |cur| == |graph| && |vis| == |graph| && |pathVia| == |graph|
    requires Bounded(cur) && PredecessorTable(graph, cur, pathVia) && PredecessorsSettled(cur, pathVia, vis)
    requires u < |graph| && !vis[u] && du == cur[u]
    requires vis' == vis[u := true] && |cur'| == |graph| && |pathVia'| == |graph|
    requires RelaxStep(graph, cur, cur', vis', pathVia, pathVia', u, du)
    ensures PredecessorTable(graph, cur', pathVia') && PredecessorsSettled(cur', pathVia', vis')
  {
  }

  /** Settling u keeps every recorded predecessor the earliest settled
      one.  A node whose entry changes had no visited node offering its new
      distance, and a node whose entry stays has a predecessor settled no
      later than u. */
  lemma SettleKeepsFirst(graph: seq<seq<int>>, cur: seq<int>, vis: seq<bool>, pathVia: seq<int>,
                         u: nat, du: int, cur': seq<int>, vis': seq<bool>, pathVia': seq<int>)
    requires IsGraph(graph) && |cur| == |graph| && |vis| == |graph| && |pathVia| == |graph|
    requires Bounded(cur) && SettledFirst(cur, vis) && RelaxedFrom(graph, cur, vis)
    requires PredecessorTable(graph, cur, pathVia) && PredecessorsSettled(cur, pathVia, vis)
    requires FirstPredecessors(graph, cur, vis, pathVia)
    requires u < |graph| && !vis[u] && du == cur[u]
    requires vis' == vis[u := true] && |cur'| == |graph| && |pathVia'| == |graph|
    requires RelaxStep(graph, cur, cur', vis', pathVia, pathVia', u, du)
    requires PredecessorTable(graph, cur', pathVia')
    ensures FirstPredecessors(graph, cur', vis', pathVia')
  {
    forall v, w | 0 <= v < |cur| && 0 <= w < |cur| && v != 0 && cur'[v] < Infinity && vis'[w] &&
      graph[w][v] != 0 && cur'[w] + graph[w][v] == cur'[v]
      ensures cur'[pathVia'[v]] <= cur'[w]
    {
      if w != u {
        assert cur'[w] == cur[w];
      }
      if cur'[v] == cur[v] && pathVia'[v] == pathVia[v] {
        var p := pathVia[v];
        assert vis[p] && cur'[p] == cur[p];
      }
    }
  }

  /** Appending the record of the node just settled keeps the log one
      record per visited node, in non-decreasing order of distance. */
  lemma LogGrows(log: seq<QueueItem>, cur: seq<int>, vis: seq<bool>, cur': seq<int>, vis': seq<bool>,
                 u: nat, du: int)
    requires |vis| == |cur| == |cur'| == |vis'|
    requires LogOf(log, cur, vis) && SettledFirst(cur, vis)
    requires u < |cur| && !vis[u] && du == cur[u] && vis' == vis[u := true]
    requires forall v :: 0 <= v < |cur| && vis'[v] ==> cur'[v] == cur[v]
    ensures LogOf(log + [QueueItem(du, u)], cur', vis')
  {
    var log' := log + [QueueItem(du, u)];
    assert Nodes(log') == Nodes(log) + [u];
    forall i | 0 <= i < |log'|
      ensures log'[i].node < |cur| && vis'[log'[i].node] && log'[i].distance == cur'[log'[i].node]
    {
      if i < |log| {
        assert log'[i] == log[i];
      }
    }
    forall i, j | 0 <= i < j < |log'|
      ensures log'[i].node != log'[j].node && log'[i].distance <= log'[j].distance
    {
      assert log'[i] == log[i];
      if j < |log| {
        assert log'[j] == log[j];
      } else {
        assert vis[log[i].node];
      }
    }
    forall v | 0 <= v < |cur| && vis'[v]
      ensures v in Nodes(log')
    {
      if v != u {
        assert v in Nodes(log);
      }
    }
  }

  /** An empty queue means every node has been visited. */
  lemma NothingPending(cur: seq<int>, vis: seq<bool>)
    requires |vis| == |cur| && Pending(cur, vis, |cur|) == multiset{}
    ensures forall v :: 0 <= v < |vis| ==> vis[v]
  {
    forall v | 0 <= v < |vis|
      ensures vis[v]
    {
      PendingHas(cur, vis, |cur|, QueueItem(cur[v], v));
    }
  }

  /** Once every node is visited, Progress says all that the main loop
      promises. */
  lemma AllSettled(graph: seq<seq<int>>, cur: seq<int>, vis: seq<bool>, pathVia: seq<int>,
                   log: seq<QueueItem>)
    requires Progress(graph, cur, vis, pathVia, log)
    requires forall v :: 0 <= v < |vis| ==> vis[v]
    ensures Bounded(cur) && cur[0] == 0
    ensures Relaxed(graph, cur)
    ensures PredecessorTable(graph, cur, pathVia) && NearestPredecessors(graph, cur, pathVia)
    ensures forall i :: 0 <= i < |log| ==>
      log[i].node < |graph| && log[i].distance == cur[log[i].node]
    ensures forall i, j :: 0 <= i < j < |log| ==>
      log[i].node != log[j].node && log[i].distance <= log[j].distance
    ensures forall v :: 0 <= v < |graph| ==> v in Nodes(log)
  {
  }

  lemma StartProgress(graph: seq<seq<int>>)
    requires IsGraph(graph)
    ensures Progress(graph, InitialDistances(|graph|), Filled(|graph|, false), Filled(|graph|, 0), [])
  {
  }

  // ---------------------------------------------------------------------
  // The main loop.

  /** Enqueues every node with its initial distance: node 0 with 0, every
      other node with Infinity. */
  method EnqueueAll(n: nat) returns (pq: PriorityQueue)
    ensures fresh(pq) && pq.Valid() && |pq.data| == n
    ensures multiset(pq.data) == Pending(InitialDistances(n), Filled(n, false), n)
  {
    pq := new PriorityQueue();
    ghost var cur := InitialDistances(n);
    ghost var none := Filled(n, false);
    for v := 0 to n
      modifies pq
      invariant pq.Valid() && |pq.data| == v
      invariant multiset(pq.data) == Pending(cur, none, v)
    {
      pq.Enqueue(QueueItem(Initial(v), v));
    }
  }

  /** One round of the main loop: dequeue the nearest record, print it,
      mark its node visited and relax the edges out of it. */
  method SettleNearest(graph: seq<seq<int>>, pq: PriorityQueue, visited: array<bool>, via: array<int>,
                       ghost cur: seq<int>, ghost log: seq<QueueItem>)
    returns (u: QueueItem, ghost cur': seq<int>)
    requires visited.Length == |graph| && via.Length == |graph|
    requires Progress(graph, cur, visited[..], via[..], log)
    requires pq.Valid() && |pq.data| > 0 && multiset(pq.data) == Pending(cur, visited[..], |graph|)
    modifies pq, visited, via
    ensures pq.Valid() && |pq.data| == old(|pq.data|) - 1
    ensures u.node < |graph| && !old(visited[u.node]) && u.distance == cur[u.node]
    ensures forall v :: 0 <= v < |graph| && !old(visited[v]) ==> u.distance <= cur[v]
    ensures visited[..] == old(visited[..])[u.node := true] && |cur'| == |graph|
    ensures RelaxStep(graph, cur, cur', visited[..], old(via[..]), via[..], u.node, u.distance)
    ensures Progress(graph, cur', visited[..], via[..], log + [u])
    ensures multiset(pq.data) == Pending(cur', visited[..], |graph|)
  {
    var n := visited.Length;
    ghost var vis := visited[..];
    ghost var pending := multiset(pq.data);
    u := pq.Dequeue();
    forall y | y in pending
      ensures u.distance <= y.distance
    {
      if y != u {
        assert y in multiset(pq.data);
      }
    }
    NearestPending(cur, vis, u);
    var uDistance := u.distance;
    var rowNo := u.node;
    ghost var vis' := vis[rowNo := true];
    visited[rowNo] := true;
    assert visited[..] == vis';
    PendingSettle(cur, vis, n, rowNo);
    assert multiset(pq.data) == Pending(cur, vis', n);
    cur' := RelaxNeighbours(graph, pq, visited, via, rowNo, uDistance, cur);
    SettleKeepsProgress(graph, cur, vis, old(via[..]), log, rowNo, uDistance, cur', vis', via[..]);
  }

  method SettleAll(graph: seq<seq<int>>, pq: PriorityQueue, visited: array<bool>, via: array<int>,
                   ghost cur0: seq<int>)
    returns (log: seq<QueueItem>, ghost cur: seq<int>)
    requires visited.Length == |graph| && via.Length == |graph|
    requires Progress(graph, cur0, visited[..], via[..], [])
    requires pq.Valid() && |pq.data| == |graph| && multiset(pq.data) == Pending(cur0, visited[..], |graph|)
    modifies pq, visited, via
    ensures Progress(graph, cur, visited[..], via[..], log) && |log| == |graph|
    ensures forall v :: 0 <= v < |graph| ==> visited[v]
  {
    var n := visited.Length;
    cur := cur0;
    log := [];
    while pq.Count() != 0
      invariant pq.Valid() && |log| + |pq.data| == n
      invariant Progress(graph, cur, visited[..], via[..], log)
      invariant multiset(pq.data) == Pending(cur, visited[..], n)
      decreases |pq.data|
    {
      var u;
      u, cur := SettleNearest(graph, pq, visited, via, cur, log);
      log := log + [u];
    }
    NothingPending(cur, visited[..]);
  }

  /** Dijkstra's algorithm from node 0.  Every node is enqueued with its
      initial distance; the nearest record is dequeued, printed and its node
      marked visited, and the edges out of it are relaxed, until the queue
      is empty.  The results are the printed records and the pathVia table;
      the ghost result holds every node's final distance. */
  method ShortestPaths(graph: seq<seq<int>>)
    returns (log: seq<QueueItem>, pathVia: seq<int>, ghost distance: seq<int>)
    requires IsGraph(graph)
    ensures |distance| == |graph| && |pathVia| == |graph|
    ensures Bounded(distance) && distance[0] == 0
    ensures Relaxed(graph, distance)
    ensures PredecessorTable(graph, distance, pathVia) && NearestPredecessors(graph, distance, pathVia)
    ensures |log| == |graph|
    ensures forall i :: 0 <= i < |log| ==>
      log[i].node < |graph| && log[i].distance == distance[log[i].node]
    ensures forall i, j :: 0 <= i < j < |log| ==>
      log[i].node != log[j].node && log[i].distance <= log[j].distance
    ensures forall v :: 0 <= v < |graph| ==> v in Nodes(log)
  {
    var n := |graph|;
    var pq := EnqueueAll(n);
    var visited := new bool[n](_ => false);
    var via := new int[n](_ => 0);
    ghost var cur := InitialDistances(n);
    assert visited[..] == Filled(n, false);
    assert via[..] == Filled(n, 0);
    StartProgress(graph);
    log, cur := SettleAll(graph, pq, visited, via, cur);
    pathVia := via[..];
    distance := cur;
    ghost var vis := visited[..];
    AllSettled(graph, distance, vis, pathVia, log);
  }
}
