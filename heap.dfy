/**
 * A fixed-capacity binary min-heap of (key, value) slots (heap.c).
 * The live entries are the prefix data[..size] of a buffer of capacity
 * slots; the tree over them is implicit in the index arithmetic of
 * module HeapIndex. Sift-up restores heap order after an insertion at
 * the end, sift-down after the last entry has been moved to the root.
 */
module MinHeap {
  import opened HeapIndex

  datatype Option<T> = None | Some(value: T)

  /** One slot of the heap (heap_node_t): an ordered key and an opaque payload. */
  datatype Node<V> = Node(key: int, value: V)

  // ---------------------------------------------------------------------
  // Heap order on the sequence of live slots
  // ---------------------------------------------------------------------

  /** No live slot has a smaller key than its parent. */
  ghost predicate IsMinHeap<V>(s: seq<Node<V>>)
  {
    forall i :: 0 < i < |s| ==> s[Parent(i)].key <= s[i].key
  }

  /** The same order seen top-down: no slot has a larger key than a live child. */
  ghost predicate ChildrenNotSmaller<V>(s: seq<Node<V>>)
  {
    forall i :: 0 <= i < |s| ==>
      (LeftChild(i) < |s| ==> s[i].key <= s[LeftChild(i)].key) &&
      (RightChild(i) < |s| ==> s[i].key <= s[RightChild(i)].key)
  }

  /** Every key of s is at least k. */
  ghost predicate AllKeysAtLeast<V>(s: seq<Node<V>>, k: int)
  {
    forall i :: 0 <= i < |s| ==> k <= s[i].key
  }

  /** The parent of slot k, if k has one, is no larger than k's live children,
      so that k and any one of its children may trade places. */
  ghost predicate GrandparentBound<V>(s: seq<Node<V>>, k: nat)
  {
    forall i :: 0 < i < |s| && k > 0 && Parent(i) == k ==> s[Parent(k)].key <= s[i].key
  }

  /** Key x is no larger than the key of any live child of slot k. */
  ghost predicate AtMostChildren<V>(s: seq<Node<V>>, k: nat, x: int)
  {
    (LeftChild(k) < |s| ==> x <= s[LeftChild(k)].key) &&
    (RightChild(k) < |s| ==> x <= s[RightChild(k)].key)
  }

  /** Heap order may fail only between slot k and its parent (sift-up). */
  ghost predicate HeapExceptAbove<V>(s: seq<Node<V>>, k: nat)
  {
    (forall i :: 0 < i < |s| && i != k ==> s[Parent(i)].key <= s[i].key) &&
    GrandparentBound(s, k)
  }

  /** Heap order may fail only between slot k and its children (sift-down). */
  ghost predicate HeapExceptBelow<V>(s: seq<Node<V>>, k: nat)
  {
    (forall i :: 0 < i < |s| && Parent(i) != k ==> s[Parent(i)].key <= s[i].key) &&
    GrandparentBound(s, k)
  }

  /** s with the slots i and j exchanged. */
  function Swapped<T>(s: seq<T>, i: nat, j: nat): (r: seq<T>)
    requires i < |s| && j < |s|
    ensures |r| == |s| && r[i] == s[j] && r[j] == s[i]
    ensures forall m :: 0 <= m < |s| && m != i && m != j ==> r[m] == s[m]
    ensures multiset(r) == multiset(s)
  {
    s[i := s[j]][j := s[i]]
  }

  /** The live slots after remove_min has moved the last entry into the root. */
  function LastToRoot<V>(s: seq<Node<V>>): (r: seq<Node<V>>)
    requires |s| > 0
    ensures |r| == |s| - 1
    ensures multiset(r) == multiset(s) - multiset{s[0]}
    ensures forall i :: 0 < i < |r| ==> r[i] == s[i]
    ensures |r| > 0 ==> r[0] == s[|s| - 1]
  {
    if |s| == 1 then []
    else
      var middle := s[1..|s| - 1];
      assert s == [s[0]] + middle + [s[|s| - 1]];
      assert multiset(s) == multiset{s[0]} + multiset(middle) + multiset{s[|s| - 1]};
      [s[|s| - 1]] + middle
  }

  // ---------------------------------------------------------------------
  // Lemmas about heap order
  // ---------------------------------------------------------------------

  /** The bottom-up and the top-down statements of heap order agree. */
  lemma MinHeapIffChildrenNotSmaller<V>(s: seq<Node<V>>)
    ensures IsMinHeap(s) <==> ChildrenNotSmaller(s)
  {
    if IsMinHeap(s) {
      forall i | 0 <= i < |s|
        ensures LeftChild(i) < |s| ==> s[i].key <= s[LeftChild(i)].key
        ensures RightChild(i) < |s| ==> s[i].key <= s[RightChild(i)].key
      {
        var l, r := LeftChild(i), RightChild(i);
        if l < |s| { assert s[Parent(l)].key <= s[l].key; }
        if r < |s| { assert s[Parent(r)].key <= s[r].key; }
      }
    }
    if ChildrenNotSmaller(s) {
      forall i | 0 < i < |s| ensures s[Parent(i)].key <= s[i].key {
        var p := Parent(i);
        if i == LeftChild(p) {
          assert LeftChild(p) < |s|;
        } else {
          assert i == RightChild(p);
        }
      }
    }
  }

  /** In a min-heap every ancestor of a slot has a key no larger than the
      slot's; in particular the root holds a minimum key. */
  lemma {:induction false} RootIsMinimum<V>(s: seq<Node<V>>, i: nat)
    requires IsMinHeap(s) && i < |s|
    ensures s[0].key <= s[i].key
    decreases i
  {
    if i > 0 {
      RootIsMinimum(s, Parent(i));
    }
  }

  /** The root's key bounds every key of a non-empty min-heap from below. */
  lemma RootBoundsAll<V>(s: seq<Node<V>>)
    requires IsMinHeap(s) && |s| > 0
    ensures AllKeysAtLeast(s, s[0].key)
  {
    forall i | 0 <= i < |s| ensures s[0].key <= s[i].key {
      RootIsMinimum(s, i);
    }
  }

  /** A lower bound on the keys of s is one on the keys of any sub-multiset of s. */
  lemma LowerBoundOfPart<V>(s: seq<Node<V>>, t: seq<Node<V>>, k: int)
    requires multiset(t) <= multiset(s) && AllKeysAtLeast(s, k)
    ensures AllKeysAtLeast(t, k)
  {
    forall i | 0 <= i < |t| ensures k <= t[i].key {
      assert t[i] in multiset(t);
      assert t[i] in multiset(s);
      var j :| 0 <= j < |s| && s[j] == t[i];
    }
  }

  /** After remove_min: the live entries are those of s less its root, and
      the root's key bounds from below both the old and the new entries. */
  lemma RemovedRootBounds<V>(s: seq<Node<V>>, t: seq<Node<V>>)
    requires IsMinHeap(s) && |s| > 0
    requires multiset(t) == multiset(LastToRoot(s))
    ensures AllKeysAtLeast(s, s[0].key)
    ensures multiset(t) == multiset(s) - multiset{s[0]}
    ensures AllKeysAtLeast(t, s[0].key)
  {
    RootBoundsAll(s);
    LowerBoundOfPart(s, t, s[0].key);
  }

  /** Appending a leaf to a min-heap breaks order at most above the new leaf. */
  lemma AppendLeaf<V>(s: seq<Node<V>>, x: Node<V>)
    requires IsMinHeap(s)
    ensures HeapExceptAbove(s + [x], |s|)
  {
  }

  /** Moving the last entry of a min-heap to the root breaks order at most
      below the root. */
  lemma LastToRootBelow<V>(s: seq<Node<V>>)
    requires IsMinHeap(s) && |s| > 0
    ensures HeapExceptBelow(LastToRoot(s), 0)
  {
  }

  /** One sift-up step: trading places with a larger parent moves the
      single fault one level up. */
  lemma SiftUpStep<V>(s: seq<Node<V>>, k: nat)
    requires 0 < k < |s| && HeapExceptAbove(s, k)
    requires s[k].key < s[Parent(k)].key
    ensures HeapExceptAbove(Swapped(s, k, Parent(k)), Parent(k))
  {
  }

  /** Sift-up stops at the root or below a parent that is not larger: the
      sequence is then a min-heap. */
  lemma SiftUpDone<V>(s: seq<Node<V>>, k: nat)
    requires k < |s| && HeapExceptAbove(s, k)
    requires k == 0 || s[Parent(k)].key <= s[k].key
    ensures IsMinHeap(s)
  {
  }

  /** One sift-down step: trading places with the smallest child, which is
      smaller than slot k, moves the single fault one level down. */
  lemma SiftDownStep<V>(s: seq<Node<V>>, k: nat, c: nat)
    requires c == LeftChild(k) || c == RightChild(k)
    requires c < |s| && HeapExceptBelow(s, k)
    requires s[c].key < s[k].key && AtMostChildren(s, k, s[c].key)
    ensures HeapExceptBelow(Swapped(s, k, c), c)
  {
  }

  /** Sift-down stops when no live child of k is smaller than k: the
      sequence is then a min-heap. */
  lemma SiftDownDone<V>(s: seq<Node<V>>, k: nat)
    requires HeapExceptBelow(s, k)
    requires k < |s| ==> AtMostChildren(s, k, s[k].key)
    ensures IsMinHeap(s)
  {
  }

  // ---------------------------------------------------------------------
  // The heap object (heap_t)
  // ---------------------------------------------------------------------

  class Heap<V(0)> {
    /** Number of slots of the buffer, fixed at creation. */
    const capacity: nat
    /** The buffer; only data[..size] holds live entries. */
    const data: array<Node<V>>
    /** Number of live entries. */
    var size: nat

    ghost predicate WellFormed()
      reads this
    {
      data.Length == capacity && size <= capacity
    }

    ghost predicate Valid()
      reads this, data
    {
      WellFormed() && IsMinHeap(data[..size])
    }

    /** The live entries, in storage order. */
    ghost function Contents(): seq<Node<V>>
      reads this, data
      requires WellFormed()
    {
      data[..size]
    }

    /** heap_create: an empty heap with room for exactly capacity entries. */
    constructor (capacity: nat)
      ensures Valid() && fresh(data)
      ensures this.capacity == capacity && data.Length == capacity
      ensures size == 0 && Contents() == []
    {
      this.capacity := capacity;
      data := new Node<V>[capacity];
      size := 0;
    }

    /** heap_size: the number of live entries. */
    function Size(): (n: nat)
      reads this, data
      requires WellFormed()
      ensures n == |Contents()| && n <= capacity
    {
      size
    }

    /** heap_swap: exchanges two slots of the buffer and nothing else. */
    method Swap(index1: nat, index2: nat)
      requires WellFormed() && index1 < data.Length && index2 < data.Length
      modifies data
      ensures data[..] == Swapped(old(data[..]), index1, index2)
      ensures index1 < size && index2 < size ==>
        Contents() == Swapped(old(Contents()), index1, index2) &&
        multiset(Contents()) == old(multiset(Contents())) &&
        data[size..] == old(data[size..])
    {
      var temp := data[index1];
      data[index1] := data[index2];
      data[index2] := temp;
      assert data[..size] == data[..][..size];
      assert data[size..] == data[..][size..];
    }

    /** heap_bubble_up: moves the entry at index towards the root while it
        is smaller than its parent. Only the live prefix is permuted. */
    method BubbleUp(index: nat)
      requires WellFormed() && index < size && HeapExceptAbove(Contents(), index)
      modifies data
      ensures Valid()
      ensures multiset(Contents()) == old(multiset(Contents()))
      ensures data[size..] == old(data[size..])
    {
      var i: nat := index;
      while i > 0 && data[i].key < data[Parent(i)].key
        invariant i < size
        invariant HeapExceptAbove(Contents(), i)
        invariant multiset(Contents()) == old(multiset(Contents()))
        invariant data[size..] == old(data[size..])
        decreases i
      {
        SiftUpStep(Contents(), i);
        Swap(i, Parent(i));
        i := Parent(i);
      }
      SiftUpDone(Contents(), i);
    }

    /** heap_bubble_down: swaps the entry at index with its smallest live
        child while that child is strictly smaller, then continues from the
        child's slot. Only the live prefix is permuted. */
    method BubbleDown(index: nat)
      requires WellFormed() && HeapExceptBelow(Contents(), index)
      modifies data
      ensures Valid()
      ensures multiset(Contents()) == old(multiset(Contents()))
      ensures data[size..] == old(data[size..])
      decreases size - index
    {
      var left := LeftChild(index);
      var right := RightChild(index);
      var smallest := index;
      if left < size && data[left].key < data[smallest].key {
        smallest := left;
      }
      if right < size && data[right].key < data[smallest].key {
        smallest := right;
      }
      if smallest != index {
        SiftDownStep(Contents(), index, smallest);
        Swap(index, smallest);
        BubbleDown(smallest);
      } else {
        SiftDownDone(Contents(), index);
      }
    }

    /** heap_insert: when the heap is full nothing changes; otherwise the
        entry is placed after the live ones and sifted up. The result
        reports which of the two happened. */
    method Insert(key: int, value: V) returns (ok: bool)
      requires Valid()
      modifies this, data
      ensures Valid()
      ensures ok <==> old(size) < capacity
      ensures !ok ==> size == old(size) && data[..] == old(data[..])
      ensures ok ==> size == old(size) + 1
      ensures ok ==> multiset(Contents()) == old(multiset(Contents())) + multiset{Node(key, value)}
      ensures ok ==> data[size..] == old(data[..])[size..]
    {
      if size == capacity {
        return false;
      }
      ghost var before := Contents();
      data[size] := Node(key, value);
      size := size + 1;
      assert Contents() == before + [Node(key, value)];
      AppendLeaf(before, Node(key, value));
      BubbleUp(size - 1);
      ok := true;
    }

    /** heap_remove_min: on an empty heap nothing changes and None is
        returned; otherwise the root's value is returned, the last live
        entry takes the root's place and is sifted down. */
    method RemoveMin() returns (r: Option<V>)
      requires Valid()
      modifies this, data
      ensures Valid()
      ensures old(size) == 0 ==> r == None && size == 0 && data[..] == old(data[..])
      ensures old(size) > 0 ==> r == Some(old(data[0]).value)
      ensures old(size) > 0 ==> AllKeysAtLeast(old(Contents()), old(data[0]).key)
      ensures old(size) > 0 ==> size == old(size) - 1
      ensures old(size) > 0 ==>
        multiset(Contents()) == old(multiset(Contents())) - multiset{old(data[0])}
      ensures old(size) > 0 ==> AllKeysAtLeast(Contents(), old(data[0]).key)
    {
      if size == 0 {
        return None;
      }
      ghost var before := Contents();
      var min := data[0].value;
      size := size - 1;
      data[0] := data[size];
      assert Contents() == LastToRoot(before) by {
        forall i | 0 <= i < size ensures Contents()[i] == LastToRoot(before)[i] {
        }
      }
      LastToRootBelow(before);
      BubbleDown(0);
      RemovedRootBounds(before, Contents());
      r := Some(min);
    }
  }
}
