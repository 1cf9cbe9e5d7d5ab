// The relaxation sum as the program computes it: a 32-bit signed addition
// that wraps around.  The rest of the model adds without bound; this module
// shows what the wrap-around does once a node at Infinity is settled.

module Overflow {
  import opened QueueItems
  import opened Dijkstra
  import opened UpdateDistances

  /** The smallest 32-bit signed value. */
  const MinInt32: int := -0x8000_0000

  /** 32-bit signed addition with wrap-around, as unchecked C# int
      arithmetic does it. */
  function AddInt32(a: int, b: int): (r: int)
    requires MinInt32 <= a <= Infinity && MinInt32 <= b <= Infinity
    ensures MinInt32 <= r <= Infinity
    ensures (r - (a + b)) % 0x1_0000_0000 == 0
  {
    var s := a + b;
    if s > Infinity then s - 0x1_0000_0000
    else if s < MinInt32 then s + 0x1_0000_0000
    else s
  }

  /** Lowered with the program's wrapping sum of edge weight and distance. */
  function LoweredAsWritten(t: QueueItem, distance: int, uDistance: int): (r: QueueItem)
    requires MinInt32 <= t.distance <= Infinity
    requires MinInt32 <= distance <= Infinity && MinInt32 <= uDistance <= Infinity
    ensures r.node == t.node
    ensures r.distance <= t.distance && r.distance <= AddInt32(distance, uDistance)
    ensures r.distance == t.distance || r.distance == AddInt32(distance, uDistance)
  {
    var sum := AddInt32(distance, uDistance);
    if t.distance > sum then t.(distance := sum) else t
  }

  /** As written, once an unreachable node u is settled at Infinity, an edge
      of weight 1 from u to another unreachable node lowers that node from
      Infinity to the most negative 32-bit value; the program then records
      u as its predecessor and prints a route for it. */
  lemma AsWrittenLowersFromInfinity()
    ensures LoweredAsWritten(QueueItem(Infinity, 1), 1, Infinity) == QueueItem(MinInt32, 1)
    ensures Lowered(QueueItem(Infinity, 1), 1 + Infinity) == QueueItem(Infinity, 1)
  {
  }

  /** With the sum taken without bound, as in the rest of the model, an
      offer made from a node at Infinity never lowers a distance that is at
      most Infinity. */
  lemma OfferFromInfinityChangesNothing(t: QueueItem, w: int)
    requires t.distance <= Infinity && w >= 0
    ensures Lowered(t, w + Infinity) == t
  {
  }
}
