// The record the priority queue holds while Dijkstra's algorithm runs:
// a tentative distance and the node it belongs to.  Records are ordered by
// distance alone; the node never takes part in a comparison.

module QueueItems {

  /** A node together with its currently known distance from the source.
      The program keys records by city name; here a node is its row number
      in the weight matrix. */
  datatype QueueItem = QueueItem(distance: int, node: nat) {

    /** Three-way comparison on distance only: negative, zero or positive
        as this record is nearer, as near as, or farther than `other`. */
    function CompareTo(other: QueueItem): (r: int)
      ensures -1 <= r <= 1
      ensures r < 0 <==> distance < other.distance
      ensures r == 0 <==> distance == other.distance
      ensures r > 0 <==> distance > other.distance
    {
      if distance < other.distance then -1
      else if distance > other.distance then 1
      else 0
    }
  }

  /** The node never affects the outcome of a comparison. */
  lemma CompareToIgnoresNode(a: QueueItem, b: QueueItem, x: nat, y: nat)
    ensures a.CompareTo(b) == a.(node := x).CompareTo(b.(node := y))
  {
  }

  /** CompareTo is a total preorder: reflexive, total, transitive, and
      antisymmetric in sign (ties are allowed between distinct nodes). */
  lemma CompareToIsTotalPreorder(a: QueueItem, b: QueueItem, c: QueueItem)
    ensures a.CompareTo(a) == 0
    ensures a.CompareTo(b) == -b.CompareTo(a)
    ensures a.CompareTo(b) <= 0 || b.CompareTo(a) <= 0
    ensures a.CompareTo(b) <= 0 && b.CompareTo(c) <= 0 ==> a.CompareTo(c) <= 0
  {
  }
}
