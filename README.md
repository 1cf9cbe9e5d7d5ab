# Dijkstra's shortest paths over a binary-heap priority queue

This project models a small C# console program that runs Dijkstra's
single-source shortest-path algorithm from city 0 (Liverpool) over a weight
matrix in which 0 means "no road". The program has four parts, and each has
a Dafny counterpart:

- **The priority queue.** It is a binary min-heap kept in a list. Its records
  hold a tentative distance and a city, and are compared by distance only.
  Modelled in `queue_item.dfy` (module `QueueItems`) and
  `priority_queue.dfy` (module `PriorityQueues`). The queue is a class whose
  `data` field is a sequence. The methods swap entries in place inside sift
  loops, and the object invariant is the heap property.
- **`upDateDistances`.** The heap has no decrease-key, so this routine
  dequeues records onto a stack until the wanted city turns up. It lowers
  that city's distance when the offer is strictly smaller, then enqueues the
  whole stack again. Modelled in `update_distances.dfy` (module
  `UpdateDistances`).
- **The main loop.** It dequeues the nearest record and prints it. It marks
  the city visited and relaxes every edge to an unvisited city. When a
  distance goes down, it records the settled city in `pathVia`. Modelled in
  `dijkstra.dfy` (module `Dijkstra`). The visited table and `pathVia` are
  arrays. Each node's tentative distance is a ghost sequence `cur`. The
  queue always holds exactly one record per unvisited node: the multiset
  `Pending(cur, visited, n)`.
- **The walk back.** It starts from the city the user chooses and follows
  `pathVia` to city 0, printing each city on the way. Modelled in `paths.dfy`
  (module `Paths`). That module also proves what the run computes:
  - no route back to the source is shorter than a node's final distance;
  - when that distance is below `Infinity`, the node followed by what the
    walk prints is a route of exactly that length;
  - otherwise the walk prints the source alone.

`example.dfy` (module `Example`) proves what the model computes on the
program's own five-city graph. The distances are 0, 34, 75, 73, 98 and
`pathVia` is [0, 0, 0, 1, 2]. The printed order is Liverpool, Manchester, Sheffield,
Leeds, York. Asking for York prints Leeds, then Liverpool.

`overflow.dfy` (module `Overflow`) models the 32-bit wrapping sum that the
program actually computes; see "## Findings".

Cities are node numbers, the row and column indices of the matrix. Distances
are unbounded integers. `Infinity` is the program's `int.MaxValue`,
2147483647.

With unbounded sums, an unreachable node keeps `Infinity` and `pathVia` 0,
and the walk from it prints city 0 alone (`Paths.ShortestPathsAreShortest`).
With the program's 32-bit sum this need not hold; see "## Findings".

## Model

| member | source | states |
|---|---|---|
| QueueItems.QueueItem.CompareTo | Dijkstra/Program.cs:104-109 | The result is -1, 0 or 1. It is negative, zero or positive exactly as this record's distance is less than, equal to or greater than the other's. |
| QueueItems.CompareToIgnoresNode | Dijkstra/Program.cs:104-109 | Changing the nodes of both records never changes the comparison. |
| QueueItems.CompareToIsTotalPreorder | Dijkstra/Program.cs:104-109 | The comparison is reflexive, antisymmetric in sign, total and transitive. |
| PriorityQueues.Parent | Dijkstra/Program.cs:26 | The parent index (c-1)/2 of a non-root index lies strictly before it. |
| PriorityQueues.HeapIffChildrenOrdered | Dijkstra/Program.cs:76-91 | Two readings of the heap property are equivalent. One says every record is no nearer than its parent at (c-1)/2. The other says every in-range child at 2p+1 or 2p+2 is no nearer than p. |
| PriorityQueues.HeapRootIsMin | Dijkstra/Program.cs:56-60 | In a heap, the root is no farther than the record at any index. |
| PriorityQueues.HeapRootIsMinOfAll | Dijkstra/Program.cs:56-60 | In a non-empty heap, the root is no farther than every member. |
| PriorityQueues.Swap | Dijkstra/Program.cs:28 | Exchanging two entries puts each at the other's index. It leaves every other index alone and keeps the multiset. |
| PriorityQueues.SiftUpStep | Dijkstra/Program.cs:24-30 | Swapping a record with a strictly farther parent keeps the heap broken only at the moving record, now one level up. |
| PriorityQueues.SiftUpDone | Dijkstra/Program.cs:24-27 | Sift-up stops at the root, or below a parent that is no farther. Either way the list is a heap. |
| PriorityQueues.RemoveRoot | Dijkstra/Program.cs:35-39 | Moving the last record to the root and dropping the last slot removes exactly the old root from the multiset. It leaves the heap broken only at the root. |
| PriorityQueues.RemoveRootMultiset | Dijkstra/Program.cs:35-39 | The multiset half of RemoveRoot. |
| PriorityQueues.SiftDownStep | Dijkstra/Program.cs:44-52 | Swapping a record with its nearer child, when that child is strictly nearer, keeps the heap broken only at the moving record, now one level down. |
| PriorityQueues.SiftDownDone | Dijkstra/Program.cs:44-50 | Sift-down stops when the record has no children, or when it is no farther than each child. Either way the list is a heap. |
| PriorityQueues.RootBoundsRemainder | Dijkstra/Program.cs:33-54 | The removed root is no farther than any record left behind. |
| PriorityQueues.PriorityQueue.constructor | Dijkstra/Program.cs:15-18 | A new queue is an empty heap. |
| PriorityQueues.PriorityQueue.Enqueue | Dijkstra/Program.cs:20-31 | The queue stays a heap. It grows by one and gains exactly the new item. |
| PriorityQueues.PriorityQueue.Dequeue | Dijkstra/Program.cs:33-54 | The queue must be non-empty. The result is what Peek returned before the call. The queue stays a heap, shrinks by one and loses exactly that item. The item is no farther than anything that remains. |
| PriorityQueues.PriorityQueue.SiftDown | Dijkstra/Program.cs:41-53 | Starting from a list that is a heap except at the root, the record at the root moves down. Afterwards the list is a heap with the same records. |
| PriorityQueues.PriorityQueue.Peek | Dijkstra/Program.cs:56-60 | The result is in the queue and no record in the queue is nearer. |
| PriorityQueues.PriorityQueue.Count | Dijkstra/Program.cs:62-65 | The result is the number of records held, counted with multiplicity. |
| PriorityQueues.PriorityQueue.IsConsistent | Dijkstra/Program.cs:76-91 | The result is true exactly when the list is a min-heap. An empty list is one. |
| UpdateDistances.Lowered | Dijkstra/Program.cs:227-230 | The record keeps its node. Its distance becomes the smaller of its old distance and the offer. |
| UpdateDistances.StackHoldsLowered | Dijkstra/Program.cs:222-230 | The stack of dequeued records, with the found one lowered, holds their multiset with that one record replaced. |
| UpdateDistances.NearestIsNearest | Dijkstra/Program.cs:220-226 | The nearest record of rowNo is found exactly when the list holds a record of rowNo. It is such a record, and no record of rowNo is nearer. |
| UpdateDistances.NearestIsUnique | Dijkstra/Program.cs:220-226 | A record of rowNo that no record of rowNo beats is the nearest one, so the record the scan stops at is determined. |
| UpdateDistances.ScanStep | Dijkstra/Program.cs:222-226 | While every record of rowNo still waits in the queue, dequeuing the nearest record q keeps them all waiting when q is another node's. When q is rowNo's, none of them is nearer than q. |
| UpdateDistances.TakeNearest | Dijkstra/Program.cs:222 | One dequeue: the queue stays a heap and loses exactly q. Afterwards the records of rowNo are still waiting, or q is one of them and no nearer one exists. |
| UpdateDistances.ScanEnds | Dijkstra/Program.cs:223-233 | The turn that finds rowNo's record leaves the loop with every dequeued record accounted for, none of the earlier ones rowNo's, and the stack equal to them followed by the found record lowered. |
| UpdateDistances.ScanFor | Dijkstra/Program.cs:218-233 | Records leave the queue until one of node rowNo has left, and the queue stays a heap. The scan stops at the first record of rowNo: no earlier dequeued record is rowNo's, and no record of rowNo in the queue was nearer. The flag is set exactly when that record's distance exceeds the offer. The stack holds the dequeued records, with that last one lowered. |
| UpdateDistances.Restore | Dijkstra/Program.cs:234-237 | Every record on the stack is back in the queue, which stays a heap. |
| UpdateDistances.UpDateDistances | Dijkstra/Program.cs:204-238 | The node's record must be in the queue. Afterwards the queue is a heap of the same size. The record t is the nearest record of rowNo the queue held, and it is replaced by Lowered(t, distance + Udistance). Every other record is unchanged. The result is true exactly when t.distance > distance + Udistance. |
| Dijkstra.InitialDistances | Dijkstra/Program.cs:142-146 | Node 0 starts at 0 and every other node starts at Infinity. |
| Dijkstra.Filled | Dijkstra/Program.cs:157-158 | A freshly allocated table holds the same value everywhere. |
| Dijkstra.PendingHas | Dijkstra/Program.cs:160-180 | A record is pending exactly when it belongs to an unvisited node and carries that node's tentative distance. |
| Dijkstra.PendingFrame | Dijkstra/Program.cs:160-180 | The pending records below m depend only on the entries below m. |
| Dijkstra.PendingSettle | Dijkstra/Program.cs:162-165 | Marking an unvisited node visited removes exactly its record. |
| Dijkstra.PendingUpdate | Dijkstra/Program.cs:227-229 | Lowering an unvisited node's distance replaces its record by one with the new distance. |
| Dijkstra.OfferKeepsPending | Dijkstra/Program.cs:172-176 | Offering a distance to an unvisited node changes the pending records exactly as upDateDistances changes the queue. |
| Dijkstra.RelaxEdge | Dijkstra/Program.cs:169-177 | For an unvisited column with an edge: if the offer is strictly smaller, its distance becomes the offer and pathVia records rowNo. Otherwise nothing changes. The queue stays the pending records. |
| Dijkstra.RelaxNeighbours | Dijkstra/Program.cs:167-179 | Each node either keeps its distance and pathVia entry, or it is an unvisited node with an edge from rowNo. In that case its distance dropped strictly to Udistance plus the weight, and pathVia names rowNo. No such node is left farther than its offer. |
| Dijkstra.NearestPending | Dijkstra/Program.cs:162-164 | The dequeued record belongs to an unvisited node and carries its distance. It is no farther than any unvisited node. |
| Dijkstra.SettleKeepsProgress | Dijkstra/Program.cs:160-180 | One round keeps the whole loop invariant, with the settled record appended to the printed log. |
| Dijkstra.SettleKeepsDistances | Dijkstra/Program.cs:160-180 | One round keeps three facts. Distances stay between 0 and their initial value. Visited nodes are no farther than unvisited ones. No edge out of a visited node offers a shorter distance. |
| Dijkstra.SettleKeepsPredecessors | Dijkstra/Program.cs:173-176 | One round keeps pathVia right. Each node below Infinity, other than the source, names a visited node with an edge to it, whose distance plus the weight is its own. Every other entry is 0. |
| Dijkstra.SettleKeepsFirst | Dijkstra/Program.cs:227-233 | One round keeps pathVia on the first settled predecessor. No visited node that gives a node the same distance is nearer than its recorded predecessor, because an equal offer is not a strict improvement. |
| Dijkstra.LogGrows | Dijkstra/Program.cs:162-166 | The printed records stay one per visited node, each with its distance, in non-decreasing order. |
| Dijkstra.NothingPending | Dijkstra/Program.cs:160 | An empty queue means every node is visited. |
| Dijkstra.AllSettled | Dijkstra/Program.cs:160-180 | Once every node is visited, the invariant gives everything the run promises, including that pathVia names a nearest predecessor of each node. |
| Dijkstra.StartProgress | Dijkstra/Program.cs:142-158 | The initial distances, an all-false visited table, an all-zero pathVia and an empty log satisfy the loop invariant. |
| Dijkstra.EnqueueAll | Dijkstra/Program.cs:142-153 | The new queue is a heap holding one record per node with its initial distance. |
| Dijkstra.SettleNearest | Dijkstra/Program.cs:161-179 | One round dequeues the record of an unvisited node whose distance is no greater than any unvisited node's. Visited gains exactly that node. Distances and pathVia change as relaxing its edges says. The loop invariant is kept and the record is appended to the log. |
| Dijkstra.SettleAll | Dijkstra/Program.cs:160-180 | The loop ends with every node visited, the invariant intact and one printed record per node. |
| Dijkstra.ShortestPaths | Dijkstra/Program.cs:127-180 | The final distances lie between 0 and Infinity, and the source's is 0. No edge offers a shorter distance. pathVia is a predecessor table for the distances, and each entry is a nearest predecessor, so on a tie the first settled one is kept. The log prints every node exactly once with its distance, in non-decreasing order of distance. |
| Paths.RelaxedBoundsRoutes | Dijkstra/Program.cs:167-179 | With relaxed distances, a route's start is no farther than its end plus the route's length. |
| Paths.PredecessorsDescend | Dijkstra/Program.cs:173-176 | Following pathVia from any node other than the source reaches a strictly nearer node, in range. |
| Paths.BackPathShape | Dijkstra/Program.cs:197-201 | The walk from the source prints nothing. From any other node it prints that node's pathVia entry first. Each later node is the pathVia entry of the one before. The source is printed last and only last. |
| Paths.WalkBack | Dijkstra/Program.cs:196-201 | The loop prints exactly BackPath of the chosen node. |
| Paths.WalkRealizesDistance | Dijkstra/Program.cs:197-201 | For a node below Infinity, the node followed by what the walk prints is a route to the source whose length equals its distance. |
| Paths.ShortestPathsAreShortest | Dijkstra/Program.cs:160-201 | No route from a node back to the source is shorter than its final distance. Below Infinity, the walk realises that distance. At Infinity, the walk prints the source alone. |
| Paths.SourcePrintedFirst | Dijkstra/Program.cs:142-166 | The first record printed is the source at distance 0. |
| Overflow.AddInt32 | Dijkstra/Program.cs:227 | The sum is the 32-bit signed value congruent to a + b modulo 2^32. |
| Overflow.LoweredAsWritten | Dijkstra/Program.cs:227-229 | Lowered with the wrapping sum: the node is kept, and the distance becomes the smaller of the old distance and the wrapped 32-bit sum. |
| Overflow.AsWrittenLowersFromInfinity | Dijkstra/Program.cs:227-229 | As written, an offer from a node at Infinity over a weight-1 edge lowers an Infinity record to -2147483648. With the unbounded sum it changes nothing. |
| Overflow.OfferFromInfinityChangesNothing | Dijkstra/Program.cs:227-229 | With the unbounded sum, an offer made from Infinity never lowers a distance of at most Infinity. |
| Example.ExampleIsGraph | Dijkstra/Program.cs:128-135 | The program's matrix is square with non-negative weights. |
| Example.ExampleUpperBounds | Dijkstra/Program.cs:128-135 | Relaxed distances on it are at most 0, 34, 75, 73, 98. |
| Example.ExampleLowerBound | Dijkstra/Program.cs:128-135 | A distance realised by a pathVia route is at least the corresponding entry of 0, 34, 75, 73, 98. |
| Example.ExampleSolution | Dijkstra/Program.cs:128-135 | Any result with the run's guarantees has distances 0, 34, 75, 73, 98 and pathVia [0, 0, 0, 1, 2]. |
| Example.ExampleLog | Dijkstra/Program.cs:166 | With those distances the only possible printed order is 0, 1, 3, 2, 4. |
| Example.ExampleRun | Dijkstra/Program.cs:127-201 | The run prints Liverpool 0, Manchester 34, Sheffield 73, Leeds 75, York 98. pathVia is [0, 0, 0, 1, 2]. The walk from York prints Leeds, then Liverpool. |
| Example.TieKeepsFirstSettled | Dijkstra/Program.cs:227-233 | On a four-node graph where node 3 is reached at distance 3 through node 1 and through node 2, any result with the run's guarantees has pathVia [0, 0, 0, 1]. |
| Example.TieLowerBound | Dijkstra/Program.cs:160-180 | On that graph, a distance realised by a pathVia route is at least the corresponding entry of 0, 1, 2, 3. |
| Example.TieRun | Dijkstra/Program.cs:127-180 | The run on that graph records node 1 as node 3's predecessor. |

## Left out

- Console output and input are not modelled as I/O. This covers the
  printed lines, the city list, reading the chosen city and the final
  `ReadLine`. The main loop returns the records it would print, and the
  walk returns the nodes it would print.
- The chosen city is read from the console. The walk takes it as a
  parameter, which must be a valid node.
- `ToString` on both classes is left out: it is string formatting only.
- The name dictionary and its reverse lookup in `upDateDistances` are not
  modelled. Cities are node numbers, so the lookup always finds its city.
- The program's unused `visited` array is not modelled. Its
  `shortestPathTreeSet` is the model's visited table.
- A record is a value here, not a shared object. The program lowers a
  record's distance through its reference after pushing it on the stack. The
  model pushes the lowered copy, which has the same effect on the queue.
- The program enqueues its five cities by five explicit calls.
  `Dijkstra.EnqueueAll` does the same for any number of nodes with a loop,
  in node order.
- Dijkstra.ShortestPaths: distances are unbounded integers, so the 32-bit
  wrap-around of `Udistance + distance` is not part of the run. It is
  modelled separately in `Overflow` (see "## Findings"), and true distances
  of `int.MaxValue` or more are not distinguished from Infinity.
- The order among records of equal distance is not specified. The
  contracts make no claim about which of them is dequeued first.
- Dijkstra.ShortestPaths: the distances are a ghost result, since the
  program prints them but keeps no distance array.

## Findings

| source | as written | input that shows it | evidently intended | confidence | as-written member | corrected member |
|---|---|---|---|---|---|---|
| Dijkstra/Program.cs:227-229 | `distance + Udistance` is unchecked 32-bit addition. Once every reachable city is settled, the next city dequeued carries `Udistance == int.MaxValue`. Adding an edge weight wraps to a negative number, which beats the neighbour's `int.MaxValue`. | Three cities, with 0 isolated and one road of length 1 between cities 1 and 2. City 2 is settled at `int.MaxValue`, city 1 is lowered to -2147483648 with pathVia 2, and the walk from city 1 prints city 2 and then city 0. | An offer made from a city at the sentinel never lowers a distance. Unreachable cities keep the sentinel, and pathVia keeps 0. | high (not executed) | Overflow.AsWrittenLowersFromInfinity | Overflow.OfferFromInfinityChangesNothing |
