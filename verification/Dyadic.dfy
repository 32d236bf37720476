/** Aligned power-of-two ranges of chunks and their in-order tree indices.

    The range of `size` chunks that begins at chunk `start` is the tree node with index
    start + (start + size - 1); the node numbers of a tree are read off its leaves this way.
 */
module Dyadic {
  import opened Bits

  /** size is a power of two and divides start. */
  predicate IsDyadic(start: nat, size: nat)
    decreases size
  {
    size == 1 || (size > 1 && size % 2 == 0 && start % 2 == 0 && IsDyadic(start / 2, size / 2))
  }

  function Index(start: nat, size: nat): int {
    2 * start + size - 1
  }

  /** The remainder test that tells a right half from a left half. */
  predicate IsRightHalf(start: nat, size: nat) {
    size > 0 && start >= size && (start + size) % (2 * size) == 0
  }

  /** Start of the range beside [start, start+size) under their common parent. */
  function SiblingStart(start: nat, size: nat): nat {
    if IsRightHalf(start, size) then start - size else start + size
  }

  function ParentStart(start: nat, size: nat): nat {
    if IsRightHalf(start, size) then start - size else start
  }

  function SiblingIndex(start: nat, size: nat): int {
    Index(SiblingStart(start, size), size)
  }

  /** The range with a given tree index. */
  function StartOf(x: nat): nat {
    if x % 2 == 0 then x / 2 else 2 * StartOf(x / 2)
  }

  function SizeOf(x: nat): nat {
    if x % 2 == 0 then 1 else 2 * SizeOf(x / 2)
  }

  lemma {:induction false} DyadicMeaning(start: nat, size: nat)
    ensures IsDyadic(start, size) <==> PowerOfTwo(size) && start % size == 0
  {
    if size > 1 && size % 2 == 0 {
      DyadicMeaning(start / 2, size / 2);
      HalvedRemainder(start, size);
      if start % size == 0 {
        EvenMultiple(start, size);
      }
    }
  }

  lemma EvenMultiple(a: nat, b: nat)
    requires b > 0 && b % 2 == 0 && a % b == 0
    ensures a % 2 == 0
  {
    var q := a / b;
    assert a == b * q == 2 * ((b / 2) * q);
  }

  lemma HalvedRemainder(a: nat, b: nat)
    requires b > 0 && b % 2 == 0
    ensures a % 2 == 0 ==> a % b == 2 * ((a / 2) % (b / 2))
  {
    if a % 2 == 0 {
      var h, q, r := b / 2, (a / 2) / (b / 2), (a / 2) % (b / 2);
      assert a / 2 == h * q + r;
      assert a == b * q + 2 * r;
      RemainderUnique(a, b, q, 2 * r);
    }
  }

  lemma RemainderUnique(a: nat, b: nat, q: nat, r: nat)
    requires b > 0 && a == b * q + r && r < b
    ensures a % b == r
  {
    assert b * (a / b - q) == r - a % b;
    assert a == b * (a / b) + a % b;
    MultipleOutside(b, a / b - q);
  }

  lemma MultipleOutside(b: int, d: int)
    requires b > 0
    ensures d >= 1 ==> b * d >= b
    ensures d <= -1 ==> b * d <= -b
  {
    if d >= 1 {
      assert b * (d - 1) >= 0;
    } else if d <= -1 {
      assert b * (-d - 1) >= 0;
    }
  }

  lemma {:induction false} NextOf(start: nat, size: nat)
    requires IsDyadic(start, size)
    ensures IsDyadic(start + size, size)
    ensures IsDyadic(start, 2 * size) <==> !IsDyadic(start + size, 2 * size)
    decreases size
  {
    if size == 1 {
      assert IsDyadic(start / 2, 1) && IsDyadic((start + 1) / 2, 1);
    } else {
      NextOf(start / 2, size / 2);
      assert (start + size) / 2 == start / 2 + size / 2 && 2 * (size / 2) == size;
    }
  }

  lemma {:induction false} PreviousOf(start: nat, size: nat)
    requires IsDyadic(start, size)
    ensures start < size ==> start == 0
    ensures start >= size ==> IsDyadic(start - size, size)
    decreases size
  {
    if size > 1 {
      PreviousOf(start / 2, size / 2);
      if start >= size { assert (start - size) / 2 == start / 2 - size / 2; }
    }
  }

  /** A range is either the left or the right half of exactly one range of twice the size. */
  lemma {:induction false} ParentOf(start: nat, size: nat)
    requires IsDyadic(start, size)
    ensures IsDyadic(start, 2 * size) || (start >= size && IsDyadic(start - size, 2 * size))
    ensures start >= size ==> (IsDyadic(start, 2 * size) <==> !IsDyadic(start - size, 2 * size))
  {
    PreviousOf(start, size);
    if start >= size {
      NextOf(start - size, size);
    } else {
      DyadicSize(start, size);
      ZeroIsDyadic(2 * size);
    }
  }

  lemma {:induction false} ChildrenOf(start: nat, size: nat)
    requires IsDyadic(start, 2 * size) && size > 0
    ensures IsDyadic(start, size) && IsDyadic(start + size, size)
    decreases size
  {
    assert (2 * size) / 2 == size;
    assert IsDyadic(start / 2, size);
    if size > 1 {
      var s, h := start / 2, size / 2;
      assert size == 2 * h && start == 2 * s;
      ChildrenOf(s, h);
      assert (start + size) / 2 == s + h;
    }
  }

  /** The remainder test recognises right halves. */
  lemma {:induction false} RightHalfTest(start: nat, size: nat)
    requires IsDyadic(start, size)
    ensures (start + size) % (2 * size) == 0 <==> !IsDyadic(start, 2 * size)
    ensures IsRightHalf(start, size) <==> !IsDyadic(start, 2 * size)
    decreases size
  {
    if size == 1 {
      assert IsDyadic(start / 2, 1);
    } else {
      RightHalfTest(start / 2, size / 2);
      HalvedRemainder(start + size, 2 * size);
      assert (start + size) / 2 == start / 2 + size / 2;
      assert 2 * (size / 2) == size;
    }
    ParentOf(start, size);
  }

  /** What climbing relies on: sibling and parent are dyadic, the sibling of the sibling is the
      range itself, and the two halves make the parent. */
  lemma {:induction false} SiblingFacts(start: nat, size: nat)
    requires IsDyadic(start, size)
    ensures IsDyadic(SiblingStart(start, size), size)
    ensures SiblingStart(SiblingStart(start, size), size) == start
    ensures IsDyadic(ParentStart(start, size), 2 * size)
    ensures ParentStart(SiblingStart(start, size), size) == ParentStart(start, size)
    ensures ParentStart(start, size) == if start < SiblingStart(start, size) then start else SiblingStart(start, size)
    ensures start < SiblingStart(start, size) <==> IsDyadic(start, 2 * size)
    ensures SiblingStart(start, size) == if IsDyadic(start, 2 * size) then start + size else start - size
  {
    hide IsRightHalf;
    RightHalfTest(start, size);
    ParentOf(start, size);
    var p := ParentStart(start, size);
    ChildrenOf(p, size);
    NextOf(p, size);
    RightHalfTest(p, size);
    RightHalfTest(p + size, size);
  }

  lemma {:induction false} DyadicSize(start: nat, size: nat)
    requires IsDyadic(start, size)
    ensures PowerOfTwo(size)
  {
    if size > 1 { DyadicSize(start / 2, size / 2); }
  }

  lemma {:induction false} ZeroIsDyadic(size: nat)
    requires PowerOfTwo(size)
    ensures IsDyadic(0, size)
  {
    if size > 1 { ZeroIsDyadic(size / 2); }
  }

  /** Tree indices and dyadic ranges are in bijection. */
  lemma {:induction false} RangeOfIndex(x: nat)
    ensures IsDyadic(StartOf(x), SizeOf(x)) && Index(StartOf(x), SizeOf(x)) == x
  {
    if x % 2 == 1 {
      RangeOfIndex(x / 2);
      var s, z := StartOf(x / 2), SizeOf(x / 2);
      assert (2 * s) / 2 == s && (2 * z) / 2 == z;
    }
  }

  lemma {:induction false} IndexOfRange(start: nat, size: nat)
    requires IsDyadic(start, size)
    ensures StartOf(Index(start, size)) == start && SizeOf(Index(start, size)) == size
    decreases size
  {
    if size > 1 {
      IndexOfRange(start / 2, size / 2);
      assert Index(start, size) / 2 == Index(start / 2, size / 2);
    }
  }

  /** The nodes of a tree with `leaves` leaves are exactly the indices up to 2 * leaves - 2. */
  lemma {:induction false} InsideTree(start: nat, size: nat, leaves: nat)
    requires IsDyadic(start, size) && PowerOfTwo(leaves)
    ensures Index(start, size) <= 2 * leaves - 2 <==> start + size <= leaves
    decreases size
  {
    if size > 1 && leaves > 1 {
      InsideTree(start / 2, size / 2, leaves / 2);
    }
  }

  /** Below the root, the sibling of a node of the tree is a node of the tree and so is the parent. */
  lemma {:induction false} SiblingInside(start: nat, size: nat, leaves: nat)
    requires IsDyadic(start, size) && PowerOfTwo(leaves) && start + size <= leaves
    ensures size < leaves ==> SiblingStart(start, size) + size <= leaves
    ensures size < leaves ==> ParentStart(start, size) + 2 * size <= leaves
    ensures size == leaves ==> start == 0 && SiblingIndex(start, size) == 3 * leaves - 1
    decreases size
  {
    hide IsRightHalf;
    SiblingFacts(start, size);
    if size == leaves {
      ZeroIsDyadic(2 * leaves);
    } else if size == 1 {
      assert leaves % 2 == 0;
      assert IsDyadic(start, 2) <==> start % 2 == 0 by { assert IsDyadic(start / 2, 1); }
    } else {
      SiblingInside(start / 2, size / 2, leaves / 2);
      SiblingFacts(start / 2, size / 2);
    }
  }

  /** Ranges of one size do not overlap. */
  lemma {:induction false} Separated(a: nat, b: nat, size: nat)
    requires IsDyadic(a, size) && IsDyadic(b, size) && a < b
    ensures a + size <= b
    decreases size
  {
    if size > 1 { Separated(a / 2, b / 2, size / 2); }
  }

  lemma {:induction false} PowerIsMultiple(p: nat, size: nat)
    requires PowerOfTwo(p) && PowerOfTwo(size) && size <= p
    ensures IsDyadic(p, size)
  {
    if size > 1 { PowerIsMultiple(p / 2, size / 2); }
  }

  lemma StartOfLevel(size: nat, leaves: nat)
    requires PowerOfTwo(size) && PowerOfTwo(leaves) && size < leaves
    ensures 2 * size <= leaves && IsDyadic(0, size) && IsDyadic(0, 2 * size)
  {
    PowersAreSparse(size, leaves);
    ZeroIsDyadic(2 * size);
    ChildrenOf(0, size);
  }

  lemma SiblingNonNegative(start: nat, size: nat)
    requires size >= 1
    ensures SiblingIndex(start, size) >= size - 1
    ensures ParentStart(start, size) == if start < SiblingStart(start, size) then start else SiblingStart(start, size)
  {
  }

  /** The union of a range and its sibling is their parent. */
  lemma UnionIsParent(start: nat, size: nat)
    requires size >= 1
    ensures var s := SiblingStart(start, size);
            && (if start > s then s else start) == ParentStart(start, size)
            && (if start + size - 1 > s + size - 1 then start + size - 1 else s + size - 1)
               == ParentStart(start, size) + 2 * size - 1
  {
  }

  lemma SingleIsDyadic(start: nat)
    ensures IsDyadic(start, 1)
  {
  }
}
