/**
 * Index arithmetic of the implicit binary tree that the heap stores in a
 * contiguous array: slot 0 is the root, the children of slot i are
 * 2i+1 and 2i+2, and the parent of slot i > 0 is (i-1)/2.
 * Indices are mathematical naturals; the C code's unsigned arithmetic
 * never wraps on the paths that call these helpers.
 */
module HeapIndex {

  /** Parent slot of a non-root slot (heap_parent). At slot 0 the C
      unsigned subtraction would wrap around; no caller passes 0. */
  function Parent(i: nat): (p: nat)
    requires i > 0
    ensures p < i
    ensures i == 2 * p + 1 || i == 2 * p + 2
  {
    (i - 1) / 2
  }

  /** Left child slot (heap_left_child): its parent is i. */
  function LeftChild(i: nat): (c: nat)
    ensures c > i && Parent(c) == i
    ensures c % 2 == 1
  {
    2 * i + 1
  }

  /** Right child slot (heap_right_child): its parent is i, and it sits just after the left child. */
  function RightChild(i: nat): (c: nat)
    ensures c > i && Parent(c) == i
    ensures c == LeftChild(i) + 1
  {
    2 * i + 2
  }

  /** Number of parent hops from slot i to the root. */
  ghost function Depth(i: nat): nat
  {
    if i == 0 then 0 else Depth(Parent(i)) + 1
  }

  ghost function Pow2(n: nat): (r: nat)
    ensures r >= 1
  {
    if n == 0 then 1 else 2 * Pow2(n - 1)
  }

  /** The depth of a slot is the floor of log2(i + 1): level d holds
      exactly the slots 2^d - 1 .. 2^(d+1) - 2. */
  lemma {:induction false} DepthBounds(i: nat)
    ensures Pow2(Depth(i)) <= i + 1 < Pow2(Depth(i) + 1)
  {
    if i > 0 {
      var p := Parent(i);
      DepthBounds(p);
      assert Depth(i) == Depth(p) + 1;
      assert Pow2(Depth(i)) == 2 * Pow2(Depth(p));
      assert Pow2(Depth(i) + 1) == 2 * Pow2(Depth(p) + 1);
    }
  }

  /** A child is one level deeper than its parent. */
  lemma ChildDepth(i: nat)
    ensures Depth(LeftChild(i)) == Depth(i) + 1
    ensures Depth(RightChild(i)) == Depth(i) + 1
  {
  }

  /** heap_level: climbs to the root one parent at a time, counting the hops. */
  method Level(index: nat) returns (level: nat)
    ensures level == Depth(index)
    ensures Pow2(level) <= index + 1 < Pow2(level + 1)
  {
    var i := index;
    level := 0;
    while i > 0
      invariant level + Depth(i) == Depth(index)
      decreases i
    {
      i := Parent(i);
      level := level + 1;
    }
    DepthBounds(index);
  }
}
