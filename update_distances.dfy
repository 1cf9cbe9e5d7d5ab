// Decrease-key for a heap that has none: records are dequeued onto a stack
// until the record of the wanted node turns up, its distance is lowered when
// the new one is strictly smaller, and every record on the stack is
// enqueued again.

module UpdateDistances {
  import opened QueueItems
  import opened PriorityQueues

  /** The record t after offering it the distance d: d when d is strictly
      smaller, t unchanged otherwise. */
  function Lowered(t: QueueItem, d: int): (r: QueueItem)
    ensures r.node == t.node
    ensures r.distance <= t.distance && r.distance <= d
    ensures r.distance == t.distance || r.distance == d
  {
    if t.distance > d then t.(distance := d) else t
  }

  /** A stack that holds the dequeued records with the last one replaced
      by y holds their multiset with that one record swapped for y. */
  lemma StackHoldsLowered(taken: seq<QueueItem>, stack: seq<QueueItem>, y: QueueItem)
    requires |taken| > 0 && stack == taken[..|taken| - 1] + [y]
    ensures multiset(stack) == multiset(taken) - multiset{taken[|taken| - 1]} + multiset{y}
  {
    assert taken == taken[..|taken| - 1] + [taken[|taken| - 1]];
  }

  /** No record in s belongs to node rowNo. */
  ghost predicate NoneOf(s: seq<QueueItem>, rowNo: nat) {
    forall i :: 0 <= i < |s| ==> s[i].node != rowNo
  }

  /** A record of another node can be added to a list with none of rowNo. */
  lemma NoneOfAppend(s: seq<QueueItem>, x: QueueItem, rowNo: nat)
    requires NoneOf(s, rowNo) && x.node != rowNo
    ensures NoneOf(s + [x], rowNo)
  {
  }

  datatype Option<T> = None | Some(value: T)

  /** The nearest record of node rowNo in s, if s holds one.  Records of the
      same node at the same distance are equal, so there is only one. */
  ghost function Nearest(s: seq<QueueItem>, rowNo: nat): Option<QueueItem>
    decreases |s|
  {
    if |s| == 0 then None
    else
      var rest := Nearest(s[1..], rowNo);
      if s[0].node != rowNo || (rest.Some? && rest.value.distance < s[0].distance) then rest
      else Some(s[0])
  }

  /** Nearest finds a record exactly when s holds one of rowNo, and what it
      finds is such a record that no other record of rowNo is nearer. */
  lemma {:induction false} NearestIsNearest(s: seq<QueueItem>, rowNo: nat)
    ensures Nearest(s, rowNo).Some? <==> exists q :: q in s && q.node == rowNo
    ensures Nearest(s, rowNo).Some? ==>
      var n := Nearest(s, rowNo).value;
      n in s && n.node == rowNo && forall q :: q in s && q.node == rowNo ==> n.distance <= q.distance
    decreases |s|
  {
    if |s| > 0 {
      NearestIsNearest(s[1..], rowNo);
      assert forall q :: q in s ==> q == s[0] || q in s[1..];
    }
  }

  /** A record of rowNo in s that no record of rowNo beats is the one
      Nearest finds. */
  lemma NearestIsUnique(s: seq<QueueItem>, rowNo: nat, t: QueueItem)
    requires t in s && t.node == rowNo
    requires forall q :: q in s && q.node == rowNo ==> t.distance <= q.distance
    ensures Nearest(s, rowNo) == Some(t)
  {
    NearestIsNearest(s, rowNo);
  }

  /** One turn of the first loop.  Every record of rowNo still waits in the
      queue, and the nearest record q leaves it.  If q is not rowNo's, every
      record of rowNo is still waiting.  If it is, none of them is nearer
      than q. */
  lemma ScanStep(original: multiset<QueueItem>, before: multiset<QueueItem>, after: multiset<QueueItem>,
                 q: QueueItem, rowNo: nat)
    requires q in before && after == before - multiset{q}
    requires forall x :: x in after ==> q.distance <= x.distance
    requires forall x :: x in original && x.node == rowNo ==> x in before
    ensures q.node != rowNo ==> forall x :: x in original && x.node == rowNo ==> x in after
    ensures q.node == rowNo ==> forall x :: x in original && x.node == rowNo ==> q.distance <= x.distance
  {
    forall x | x in original && x.node == rowNo && x != q
      ensures x in after
    {
      assert after[x] == before[x];
    }
  }

  /** One turn of the first loop takes the nearest record q out of the
      queue.  Every record of rowNo in original is still waiting in the
      queue; afterwards, if q is not rowNo's they all still are, and if it
      is none of them is nearer than q. */
  method TakeNearest(pq: PriorityQueue, rowNo: nat, ghost original: multiset<QueueItem>,
                     ghost sought: QueueItem)
    returns (q: QueueItem)
    requires pq.Valid() && sought in original && sought.node == rowNo
    requires forall x :: x in original && x.node == rowNo ==> x in multiset(pq.data)
    modifies pq
    ensures pq.Valid() && |pq.data| == old(|pq.data|) - 1
    ensures multiset(pq.data) + multiset{q} == multiset(old(pq.data))
    ensures q.node != rowNo ==> forall x :: x in original && x.node == rowNo ==> x in multiset(pq.data)
    ensures q.node == rowNo ==> forall x :: x in original && x.node == rowNo ==> q.distance <= x.distance
  {
    ghost var before := multiset(pq.data);
    assert sought in before;
    q := pq.Dequeue();
    ScanStep(original, before, multiset(pq.data), q, rowNo);
  }

  /** The turn that finds the record q of rowNo ends the first loop with
      the stack and the taken list ScanFor promises. */
  lemma ScanEnds(original: multiset<QueueItem>, rest: multiset<QueueItem>, prev: seq<QueueItem>,
                 stack: seq<QueueItem>, q: QueueItem, pushed: QueueItem, rowNo: nat, offer: int)
    requires rest + multiset(prev) + multiset{q} == original
    requires NoneOf(prev, rowNo) && stack == prev && q.node == rowNo && pushed == Lowered(q, offer)
    ensures var taken := prev + [q];
      rest + multiset(taken) == original &&
      |taken| > 0 && taken[|taken| - 1] == q && NoneOf(taken[..|taken| - 1], rowNo) &&
      stack + [pushed] == taken[..|taken| - 1] + [Lowered(taken[|taken| - 1], offer)]
  {
    var taken := prev + [q];
    assert taken[..|taken| - 1] == prev;
    assert multiset(taken) == multiset(prev) + multiset{q};
  }

  /** The first loop: dequeue and push until the record of node rowNo has
      been pushed, lowered to distance + uDistance when that is strictly
      smaller.  `taken` lists the records as they left the queue; the
      stack holds the same records with the last one lowered. */
  method ScanFor(rowNo: nat, pq: PriorityQueue, distance: int, uDistance: int)
    returns (tempStack: seq<QueueItem>, distanceUpdated: bool, ghost taken: seq<QueueItem>)
    requires pq.Valid()
    requires exists q :: q in pq.data && q.node == rowNo
    modifies pq
    ensures pq.Valid()
    ensures multiset(pq.data) + multiset(taken) == multiset(old(pq.data))
    ensures |taken| > 0 && taken[|taken| - 1].node == rowNo
    ensures NoneOf(taken[..|taken| - 1], rowNo)
    ensures forall q :: q in old(pq.data) && q.node == rowNo ==> taken[|taken| - 1].distance <= q.distance
    ensures distanceUpdated == (taken[|taken| - 1].distance > distance + uDistance)
    ensures tempStack == taken[..|taken| - 1] + [Lowered(taken[|taken| - 1], distance + uDistance)]
  {
    ghost var original := multiset(pq.data);
    ghost var sought :| sought in original && sought.node == rowNo;
    taken := [];
    tempStack := [];
    // The program loops until a flag is set; the turn that sets it is the
    // last, so here that turn leaves the loop directly.
    while true
      invariant pq.Valid()
      invariant multiset(pq.data) + multiset(taken) == original
      invariant tempStack == taken
      invariant NoneOf(taken, rowNo)
      invariant forall q :: q in original && q.node == rowNo ==> q in multiset(pq.data)
      decreases |pq.data|
    {
      var q := TakeNearest(pq, rowNo, original, sought);
      // The program pushes the record and then lowers its distance through
      // the shared reference; pushing the lowered value has the same effect.
      if q.node == rowNo {
        var pushed := q;
        distanceUpdated := false;
        if q.distance > distance + uDistance {
          pushed := q.(distance := distance + uDistance);
          distanceUpdated := true;
        }
        ScanEnds(original, multiset(pq.data), taken, tempStack, q, pushed, rowNo, distance + uDistance);
        tempStack := tempStack + [pushed];
        taken := taken + [q];
        return;
      }
      NoneOfAppend(taken, q, rowNo);
      tempStack := tempStack + [q];
      taken := taken + [q];
    }
  }

  /** The second loop: pop every record off the stack into the queue. */
  method Restore(pq: PriorityQueue, stack: seq<QueueItem>)
    requires pq.Valid()
    modifies pq
    ensures pq.Valid()
    ensures multiset(pq.data) == multiset(old(pq.data)) + multiset(stack)
  {
    var tempStack := stack;
    while |tempStack| != 0
      invariant pq.Valid()
      invariant multiset(pq.data) + multiset(tempStack) == multiset(old(pq.data)) + multiset(stack)
    {
      var top := tempStack[|tempStack| - 1];
      assert tempStack == tempStack[..|tempStack| - 1] + [top];
      tempStack := tempStack[..|tempStack| - 1];
      pq.Enqueue(top);
    }
  }

  /** Offers node rowNo the distance distance + uDistance.  The queue ends
      up a heap of the same size in which the first record t of rowNo to
      leave it, a nearest record of rowNo, has been replaced by Lowered(t, distance + uDistance), and
      the result tells whether the distance went down.  A record of rowNo
      must be in the queue: the program would otherwise dequeue from an
      empty queue.  The ghost result names the record that was found. */
  method UpDateDistances(rowNo: nat, pq: PriorityQueue, distance: int, uDistance: int)
    returns (distanceUpdated: bool, ghost t: QueueItem)
    requires pq.Valid()
    requires exists q :: q in pq.data && q.node == rowNo
    modifies pq
    ensures pq.Valid() && |pq.data| == old(|pq.data|)
    ensures t in old(pq.data) && t.node == rowNo
    ensures Nearest(old(pq.data), rowNo) == Some(t)
    ensures distanceUpdated == (t.distance > distance + uDistance)
    ensures multiset(pq.data) == multiset(old(pq.data)) - multiset{t} + multiset{Lowered(t, distance + uDistance)}
  {
    ghost var original := multiset(pq.data);
    ghost var before := pq.data;
    var tempStack;
    ghost var taken;
    tempStack, distanceUpdated, taken := ScanFor(rowNo, pq, distance, uDistance);
    t := taken[|taken| - 1];
    assert t in original;
    NearestIsUnique(before, rowNo, t);
    StackHoldsLowered(taken, tempStack, Lowered(t, distance + uDistance));
    assert t in original;
    Restore(pq, tempStack);
    assert |pq.data| == |multiset(pq.data)|;
  }
}
