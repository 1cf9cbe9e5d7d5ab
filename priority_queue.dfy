// A binary min-heap of queue records kept in a growable list: the children
// of index i sit at 2i+1 and 2i+2, the parent of index i > 0 at (i-1)/2.

module PriorityQueues {
  import opened QueueItems

  /** The index of the parent of index c > 0. */
  function Parent(c: nat): nat
    requires c > 0
    ensures Parent(c) < c
  {
    (c - 1) / 2
  }

  /** The heap property, stated from the child's side: no record is nearer
      than its parent. */
  ghost predicate IsHeap(s: seq<QueueItem>) {
    forall c {:trigger s[Parent(c)]} :: 0 < c < |s| ==> s[Parent(c)].distance <= s[c].distance
  }

  /** The heap property as the consistency check scans it: every in-range
      child at 2p+1 and 2p+2 is at least as far as its parent p. */
  ghost predicate ChildrenOrdered(s: seq<QueueItem>) {
    forall p, c :: 0 <= p < |s| && 0 <= c < |s| && (c == 2 * p + 1 || c == 2 * p + 2) ==> s[p].distance <= s[c].distance
  }

  /** The two readings of the heap property agree. */
  lemma HeapIffChildrenOrdered(s: seq<QueueItem>)
    ensures IsHeap(s) <==> ChildrenOrdered(s)
  {
    if IsHeap(s) {
      forall p, c | 0 <= p < |s| && 0 <= c < |s| && (c == 2 * p + 1 || c == 2 * p + 2)
        ensures s[p].distance <= s[c].distance
      {
        assert p == Parent(c);
      }
    }
    if ChildrenOrdered(s) {
      forall c | 0 < c < |s|
        ensures s[Parent(c)].distance <= s[c].distance
      {
        var p := Parent(c);
        assert c == 2 * p + 1 || c == 2 * p + 2;
      }
    }
  }

  /** In a heap the root is no farther than any record. */
  lemma {:induction false} HeapRootIsMin(s: seq<QueueItem>, i: nat)
    requires IsHeap(s) && i < |s|
    ensures s[0].distance <= s[i].distance
  {
    if i > 0 {
      HeapRootIsMin(s, Parent(i));
    }
  }

  /** HeapRootIsMin for every member of the heap at once. */
  lemma HeapRootIsMinOfAll(s: seq<QueueItem>)
    requires IsHeap(s) && |s| > 0
    ensures forall x :: x in s ==> s[0].distance <= x.distance
  {
    forall x | x in s
      ensures s[0].distance <= x.distance
    {
      var i :| 0 <= i < |s| && s[i] == x;
      HeapRootIsMin(s, i);
    }
  }

  /** The list with the records at i and j exchanged. */
  function Swap(s: seq<QueueItem>, i: nat, j: nat): (r: seq<QueueItem>)
    requires i < |s| && j < |s|
    ensures |r| == |s| && r[i] == s[j] && r[j] == s[i]
    ensures forall k :: 0 <= k < |s| && k != i && k != j ==> r[k] == s[k]
    ensures multiset(r) == multiset(s)
  {
    s[i := s[j]][j := s[i]]
  }

  /** Sift-up state: every parent/child pair is ordered except the pair
      above the moving record at k, and k's parent is no farther than k's
      children. */
  ghost predicate HeapExceptUp(s: seq<QueueItem>, k: nat) {
    k < |s| &&
    (forall c {:trigger s[Parent(c)]} :: 0 < c < |s| && c != k ==> s[Parent(c)].distance <= s[c].distance) &&
    (k > 0 ==> forall c :: 0 < c < |s| && Parent(c) == k ==> s[Parent(k)].distance <= s[c].distance)
  }

  /** One sift-up swap moves the hole one level up. */
  lemma SiftUpStep(s: seq<QueueItem>, k: nat)
    requires HeapExceptUp(s, k) && k > 0
    requires s[k].distance < s[Parent(k)].distance
    ensures HeapExceptUp(Swap(s, k, Parent(k)), Parent(k))
  {
    var pk := Parent(k);
    var r := Swap(s, k, pk);
    forall c | 0 < c < |r| && c != pk
      ensures r[Parent(c)].distance <= r[c].distance
    {
      var p := Parent(c);
      if c == k {
      } else if p == k {
      } else if p == pk {
        assert s[pk].distance <= s[c].distance;
      }
    }
    if pk > 0 {
      forall c | 0 < c < |r| && Parent(c) == pk
        ensures r[Parent(pk)].distance <= r[c].distance
      {
        assert s[Parent(pk)].distance <= s[pk].distance;
      }
    }
  }

  /** Sift-up stops at the root or below a parent that is no farther. */
  lemma SiftUpDone(s: seq<QueueItem>, k: nat)
    requires HeapExceptUp(s, k)
    requires k > 0 ==> s[Parent(k)].distance <= s[k].distance
    ensures IsHeap(s)
  {
  }

  /** Moving the last record into the root and dropping the last slot
      removes exactly the root and leaves a sift-down state at the root. */
  lemma RemoveRoot(s: seq<QueueItem>)
    requires IsHeap(s) && |s| > 0
    ensures multiset(s[0 := s[|s| - 1]][..|s| - 1]) == multiset(s) - multiset{s[0]}
    ensures HeapExceptDown(s[0 := s[|s| - 1]][..|s| - 1], 0)
  {
    RemoveRootMultiset(s);
    var r := s[0 := s[|s| - 1]][..|s| - 1];
    forall c | 0 < c < |r| && Parent(c) != 0
      ensures r[Parent(c)].distance <= r[c].distance
    {
      assert r[Parent(c)] == s[Parent(c)] && r[c] == s[c];
    }
  }

  /** The multiset half of RemoveRoot. */
  lemma RemoveRootMultiset(s: seq<QueueItem>)
    requires |s| > 0
    ensures multiset(s[0 := s[|s| - 1]][..|s| - 1]) == multiset(s) - multiset{s[0]}
  {
    var li := |s| - 1;
    if li == 0 {
      assert s == [s[0]];
    } else {
      var middle, last := s[1..li], [s[li]];
      var rest := s[0 := s[li]][..li];
      assert s == [s[0]] + (middle + last);
      assert multiset(s) == multiset{s[0]} + multiset(middle + last);
      assert rest == last + middle;
      assert multiset(rest) == multiset(middle + last);
    }
  }

  /** Sift-down state: every pair is ordered except those below the moving
      record at k, and k's parent is no farther than k's children. */
  ghost predicate HeapExceptDown(s: seq<QueueItem>, k: nat) {
    (forall c {:trigger s[Parent(c)]} :: 0 < c < |s| && Parent(c) != k ==> s[Parent(c)].distance <= s[c].distance) &&
    (k > 0 ==> k < |s| && forall c :: 0 < c < |s| && Parent(c) == k ==> s[Parent(k)].distance <= s[c].distance)
  }

  /** One sift-down swap with the nearer child moves the hole one level down. */
  lemma SiftDownStep(s: seq<QueueItem>, k: nat, m: nat)
    requires HeapExceptDown(s, k) && k < m < |s|
    requires m == 2 * k + 1 || m == 2 * k + 2
    requires 2 * k + 1 < |s| ==> s[m].distance <= s[2 * k + 1].distance
    requires 2 * k + 2 < |s| ==> s[m].distance <= s[2 * k + 2].distance
    requires s[m].distance < s[k].distance
    ensures HeapExceptDown(Swap(s, k, m), m)
  {
    var r := Swap(s, k, m);
    assert Parent(m) == k;
    forall c | 0 < c < |r| && Parent(c) != m
      ensures r[Parent(c)].distance <= r[c].distance
    {
      var p := Parent(c);
      if p == k {
        assert c == 2 * k + 1 || c == 2 * k + 2;
      } else if c == k {
        assert s[Parent(k)].distance <= s[m].distance;
      }
    }
    forall c | 0 < c < |r| && Parent(c) == m
      ensures r[Parent(m)].distance <= r[c].distance
    {
      assert s[m].distance <= s[c].distance;
    }
  }

  /** Sift-down stops when the moving record has no child nearer than it. */
  lemma SiftDownDone(s: seq<QueueItem>, k: nat)
    requires HeapExceptDown(s, k)
    requires 2 * k + 1 < |s| ==> s[k].distance <= s[2 * k + 1].distance
    requires 2 * k + 2 < |s| ==> s[k].distance <= s[2 * k + 2].distance
    ensures IsHeap(s)
  {
    forall c | 0 < c < |s|
      ensures s[Parent(c)].distance <= s[c].distance
    {
      if Parent(c) == k {
        assert c == 2 * k + 1 || c == 2 * k + 2;
      }
    }
  }

  /** After removing the root of a heap, the root was no farther than any
      record that remains. */
  lemma RootBoundsRemainder(before: seq<QueueItem>, after: seq<QueueItem>)
    requires IsHeap(before) && |before| > 0
    requires multiset(after) == multiset(before) - multiset{before[0]}
    ensures forall x :: x in after ==> before[0].distance <= x.distance
  {
    HeapRootIsMinOfAll(before);
    forall x | x in after
      ensures before[0].distance <= x.distance
    {
      assert x in multiset(after);
      assert x in before;
    }
  }

  class PriorityQueue {
    var data: seq<QueueItem>

    /** The object invariant: the list is a min-heap. */
    ghost predicate Valid()
      reads this
    {
      IsHeap(data)
    }

    constructor ()
      ensures Valid() && data == []
    {
      data := [];
    }

    /** Appends the item and sifts it up while it is strictly nearer than
        its parent. */
    method Enqueue(item: QueueItem)
      requires Valid()
      modifies this
      ensures Valid()
      ensures |data| == old(|data|) + 1
      ensures multiset(data) == multiset(old(data)) + multiset{item}
    {
      data := data + [item];
      var ci: nat := |data| - 1;
      while ci > 0
        invariant HeapExceptUp(data, ci)
        invariant |data| == old(|data|) + 1
        invariant multiset(data) == multiset(old(data)) + multiset{item}
      {
        var pi := Parent(ci);
        if data[ci].CompareTo(data[pi]) >= 0 {
          break;
        }
        SiftUpStep(data, ci);
        data := Swap(data, ci, pi);
        ci := pi;
      }
      SiftUpDone(data, ci);
    }

    /** Removes and returns the root: the last record moves to the root and
        sifts down while it is strictly farther than its nearer child.  The
        list must not be empty. */
    method Dequeue() returns (frontItem: QueueItem)
      requires Valid() && |data| > 0
      modifies this
      ensures Valid()
      ensures frontItem == old(Peek())
      ensures |data| == old(|data|) - 1
      ensures multiset(data) == multiset(old(data)) - multiset{frontItem}
      ensures forall x :: x in data ==> frontItem.distance <= x.distance
    {
      ghost var before := data;
      var li := |data| - 1;
      frontItem := data[0];
      RemoveRoot(data);
      data := data[0 := data[li]];
      data := data[..li];
      SiftDown();
      RootBoundsRemainder(before, data);
    }

    /** The loop of Dequeue: the record at the root moves down, swapping
        with its nearer child while that child is strictly nearer. */
    method SiftDown()
      requires HeapExceptDown(data, 0)
      modifies this
      ensures Valid()
      ensures multiset(data) == multiset(old(data)) && |data| == old(|data|)
    {
      var li := |data| - 1;
      var pi: nat := 0;
      while true
        invariant HeapExceptDown(data, pi)
        invariant 0 <= pi <= |data| && li == |data| - 1
        invariant |data| == old(|data|)
        invariant multiset(data) == multiset(old(data))
        decreases |data| - pi
      {
        var ci := pi * 2 + 1;
        if ci > li {
          SiftDownDone(data, pi);
          break;
        }
        var rc := ci + 1;
        if rc <= li && data[rc].CompareTo(data[ci]) < 0 {
          ci := rc;
        }
        if data[pi].CompareTo(data[ci]) <= 0 {
          SiftDownDone(data, pi);
          break;
        }
        SiftDownStep(data, pi, ci);
        data := Swap(data, pi, ci);
        pi := ci;
      }
    }

    /** The root: no record in the queue is nearer. */
    function Peek(): (r: QueueItem)
      reads this
      requires Valid() && |data| > 0
      ensures r in data
      ensures forall x :: x in data ==> r.distance <= x.distance
    {
      HeapRootIsMinOfAll(data);
      data[0]
    }

    /** The number of records held. */
    function Count(): (n: nat)
      reads this
      ensures n == |multiset(data)|
    {
      |data|
    }

    /** Scans every parent against its in-range children; true exactly
        when the list is a min-heap (an empty list is one). */
    method IsConsistent() returns (ok: bool)
      ensures ok == Valid()
    {
      HeapIffChildrenOrdered(data);
      if |data| == 0 {
        return true;
      }
      var li := |data| - 1;
      for pi := 0 to |data|
        invariant forall p, c :: 0 <= p < pi && 0 <= c < |data| && (c == 2 * p + 1 || c == 2 * p + 2) ==> data[p].distance <= data[c].distance
      {
        var lci := 2 * pi + 1;
        var rci := 2 * pi + 2;
        if lci <= li && data[pi].CompareTo(data[lci]) > 0 {
          return false;
        }
        if rci <= li && data[pi].CompareTo(data[rci]) > 0 {
          return false;
        }
      }
      return true;
    }
  }
}
