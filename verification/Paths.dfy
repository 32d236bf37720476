/** The way from a chunk to the root of the tree, and what the nodes beside it hold. */
module Paths {
  import opened Bits
  import opened Bytes
  import opened Dyadic
  import opened Merkle

  /** The siblings met on the way from a range to the root of a tree with `leaves` leaves. */
  function Path(leaves: nat, start: nat, size: nat): set<int>
    requires size >= 1
    decreases leaves - size
  {
    if size >= leaves then {}
    else {SiblingIndex(start, size)} + Path(leaves, ParentStart(start, size), 2 * size)
  }

  /** How often a size can be doubled before it reaches the leaf count. */
  function Levels(leaves: nat, size: nat): nat
    requires size >= 1
    decreases leaves - size
  {
    if size >= leaves then 0 else 1 + Levels(leaves, 2 * size)
  }

  lemma {:induction false} PathNodes(leaves: nat, start: nat, size: nat, x: int)
    requires IsDyadic(start, size) && PowerOfTwo(leaves) && start + size <= leaves
    requires x in Path(leaves, start, size)
    ensures 0 <= x <= 2 * leaves - 2 && SizeOf(x) >= size
    ensures StartOf(x) + SizeOf(x) <= leaves
    decreases leaves - size
  {
    hide IsRightHalf;
    SiblingFacts(start, size);
    SiblingInside(start, size, leaves);
    DyadicSize(start, size);
    PowersAreSparse(size, leaves);
    var s := SiblingStart(start, size);
    if x == SiblingIndex(start, size) {
      IndexOfRange(s, size);
      InsideTree(s, size, leaves);
    } else {
      PathNodes(leaves, ParentStart(start, size), 2 * size, x);
    }
  }

  /** One level of the climb stays inside the tree. */
  lemma OneUp(leaves: nat, start: nat, size: nat)
    requires IsDyadic(start, size) && PowerOfTwo(leaves) && start + size <= leaves && size < leaves
    ensures IsDyadic(SiblingStart(start, size), size) && SiblingStart(start, size) + size <= leaves
    ensures IsDyadic(ParentStart(start, size), 2 * size) && ParentStart(start, size) + 2 * size <= leaves
    ensures 2 * size <= leaves
    ensures 0 <= SiblingIndex(start, size) <= 2 * leaves - 2
    ensures StartOf(SiblingIndex(start, size)) == SiblingStart(start, size)
    ensures SizeOf(SiblingIndex(start, size)) == size
    ensures ParentStart(start, size) == if start < SiblingStart(start, size) then start else SiblingStart(start, size)
    ensures start < SiblingStart(start, size) ==> SiblingStart(start, size) == start + size
    ensures start >= SiblingStart(start, size) ==> start == SiblingStart(start, size) + size
  {
    hide IsRightHalf;
    SiblingFacts(start, size);
    SiblingInside(start, size, leaves);
    DyadicSize(start, size);
    PowersAreSparse(size, leaves);
    IndexOfRange(SiblingStart(start, size), size);
    InsideTree(SiblingStart(start, size), size, leaves);
  }

  /** At the root the sibling index is past every node. */
  lemma AtRoot(leaves: nat, start: nat, size: nat)
    requires IsDyadic(start, size) && PowerOfTwo(leaves) && start + size <= leaves && size >= leaves
    ensures start == 0 && size == leaves && SiblingIndex(start, size) == 3 * leaves - 1
  {
    SiblingInside(start, size, leaves);
  }

  /** The climb meets one new node per level, all of them in the tree, and stops at the root only. */
  lemma {:induction false} ClimbMeetsPath(leaves: nat, start: nat, size: nat)
    requires IsDyadic(start, size) && PowerOfTwo(leaves) && start + size <= leaves
    ensures |Path(leaves, start, size)| == Levels(leaves, size)
    ensures SiblingIndex(start, size) <= (leaves - 1) * 2 <==> size < leaves
    ensures forall x | x in Path(leaves, start, size) :: 0 <= x <= 2 * leaves - 2 && SizeOf(x) >= size
    decreases leaves - size
  {
    hide IsRightHalf, StartOf, SizeOf;
    if size >= leaves {
      AtRoot(leaves, start, size);
    } else {
      OneUp(leaves, start, size);
      ClimbMeetsPath(leaves, ParentStart(start, size), 2 * size);
      forall x | x in Path(leaves, start, size) ensures 0 <= x <= 2 * leaves - 2 && SizeOf(x) >= size {
        PathNodes(leaves, start, size, x);
      }
    }
  }

  // ------------------------------------------------------------------ nodes of the made tree

  /** Hash of the node with a given index. */
  function HashAt(hs: Hasher, chunks: seq<bytes>, x: nat): Option<bytes> {
    TreeHash(hs, chunks, StartOf(x), SizeOf(x))
  }

  lemma MadeAt(hs: Hasher, chunks: seq<bytes>, leaves: nat, x: int)
    ensures x in MadeTree(hs, chunks, leaves) <==> 0 <= x < 2 * leaves - 1
    ensures x in MadeTree(hs, chunks, leaves) ==>
              && MadeTree(hs, chunks, leaves)[x] == MadeNode(hs, chunks, leaves, x)
              && MadeTree(hs, chunks, leaves)[x].hash == HashAt(hs, chunks, x)
              && MadeTree(hs, chunks, leaves)[x].startChunk + MadeTree(hs, chunks, leaves)[x].endChunk == x
              && MadeTree(hs, chunks, leaves)[x].treeIndex == x
  {
    if 0 <= x { RangeOfIndex(x); }
  }

  /** Exactly the nodes 0 .. 2*leaves-2; each spans an aligned range whose ends add up to its index;
      its hash is null exactly when the range holds padding only. */
  lemma MadeTreeShape(hs: Hasher, chunks: seq<bytes>, x: int)
    requires |chunks| >= 1
    ensures var leaves := Leaves(chunks);
            var tree := MadeTree(hs, chunks, leaves);
            && (x in tree <==> 0 <= x <= 2 * leaves - 2)
            && (x in tree ==>
                  && IsDyadic(tree[x].startChunk, tree[x].endChunk - tree[x].startChunk + 1)
                  && tree[x].endChunk < leaves
                  && tree[x].startChunk + tree[x].endChunk == x
                  && (tree[x].hash.None? <==> tree[x].startChunk >= |chunks|)
                  && (tree[x].isAllZero <==> tree[x].hash.None?)
                  && (tree[x].isInComplete <==> tree[x].endChunk >= |chunks|)
                  && (tree[x].isRoot <==> x == leaves - 1)
                  && tree[x].treeIndex == x
                  && (tree[x].leftChild.None? <==> tree[x].startChunk == tree[x].endChunk)
                  && (tree[x].rightChild.None? <==> tree[x].startChunk == tree[x].endChunk)
                  && (tree[x].startChunk == tree[x].endChunk < |chunks| ==>
                        tree[x].hash == Some(hs.sum(chunks[tree[x].startChunk]))))
  {
    var leaves := Leaves(chunks);
    MadeAt(hs, chunks, leaves, x);
    if 0 <= x < 2 * leaves - 1 {
      RangeOfIndex(x);
      InsideTree(StartOf(x), SizeOf(x), leaves);
      DyadicSize(StartOf(x), SizeOf(x));
      NullExactlyForPadding(hs, chunks, StartOf(x), SizeOf(x));
      ZeroIsDyadic(leaves);
      IndexOfRange(0, leaves);
      if SizeOf(x) == leaves { AtRoot(leaves, StartOf(x), SizeOf(x)); }
    }
  }

  /** The root of three chunks written out: left before right, and null hashes as zeros. */
  lemma ThreeChunks(hs: Hasher, a: bytes, b: bytes, c: bytes)
    ensures RootDigest(hs, [a, b, c])
         == hs.sum(hs.sum(hs.sum(a) + hs.sum(b)) + hs.sum(hs.sum(c) + seq(hs.size, _ => 0)))
  {
    var chunks := [a, b, c];
    assert CeilPower(3) == 4 && Leaves(chunks) == 4;
    assert TreeHash(hs, chunks, 0, 1) == Some(hs.sum(a)) && TreeHash(hs, chunks, 1, 1) == Some(hs.sum(b));
    assert TreeHash(hs, chunks, 2, 1) == Some(hs.sum(c)) && TreeHash(hs, chunks, 3, 1) == None;
    assert Zeros(hs.size) == seq(hs.size, _ => 0);
    JoinHalves(hs, chunks, 0, 1);
    JoinHalves(hs, chunks, 2, 1);
    JoinHalves(hs, chunks, 0, 2);
  }

  /** Links agree: below the root, node and sibling point at each other and at one parent, whose
      children they are, in order, and whose hash is made of theirs. */
  lemma MadeTreeLinks(hs: Hasher, chunks: seq<bytes>, x: int)
    requires |chunks| >= 1
    requires 0 <= x <= 2 * Leaves(chunks) - 2 && x != Leaves(chunks) - 1
    ensures var tree := MadeTree(hs, chunks, Leaves(chunks));
            && x in tree && tree[x].sibling.Some? && tree[x].parent.Some?
            && var y, p := tree[x].sibling.value, tree[x].parent.value;
               && y in tree && p in tree && y != x
               && tree[y].sibling == Some(x) && tree[y].parent == Some(p)
               && var (l, r) := if x < y then (x, y) else (y, x);
                  && tree[p].leftChild == Some(l) && tree[p].rightChild == Some(r)
                  && tree[l].endChunk + 1 == tree[r].startChunk
                  && tree[p].startChunk == tree[l].startChunk && tree[p].endChunk == tree[r].endChunk
                  && tree[p].hash == hs.EncryptLR(tree[l].hash, tree[r].hash)
  {
    hide MadeTree, MadeNode, IsRightHalf, TreeHash, IsDyadic, PowerOfTwo;
    var leaves := Leaves(chunks);
    RangeOfIndex(x);
    var s, z := StartOf(x), SizeOf(x);
    InsideTree(s, z, leaves);
    if z >= leaves { AtRoot(leaves, s, z); }
    OneUp(leaves, s, z);
    PairLinks(hs, chunks, ParentStart(s, z), z);
  }

  /** The two halves of a range of the made tree and the range itself. */
  lemma PairLinks(hs: Hasher, chunks: seq<bytes>, s: nat, z: nat)
    requires |chunks| >= 1 && z > 0 && IsDyadic(s, 2 * z) && s + 2 * z <= Leaves(chunks)
    ensures var tree := MadeTree(hs, chunks, Leaves(chunks));
            var l, r, p := Index(s, z), Index(s + z, z), Index(s, 2 * z);
            && l < r && l in tree && r in tree && p in tree
            && tree[l].sibling == Some(r) && tree[r].sibling == Some(l)
            && tree[l].parent == Some(p) && tree[r].parent == Some(p)
            && tree[p].leftChild == Some(l) && tree[p].rightChild == Some(r)
            && tree[l].endChunk + 1 == tree[r].startChunk
            && tree[p].startChunk == tree[l].startChunk && tree[p].endChunk == tree[r].endChunk
            && tree[p].hash == hs.EncryptLR(tree[l].hash, tree[r].hash)
  {
    hide MadeTree, IsRightHalf, TreeHash, IsDyadic, PowerOfTwo;
    var leaves := Leaves(chunks);
    PairAt(leaves, z, s);
    JoinHalves(hs, chunks, s, z);
    MadeAt(hs, chunks, leaves, Index(s, z));
    MadeAt(hs, chunks, leaves, Index(s + z, z));
    MadeAt(hs, chunks, leaves, Index(s, 2 * z));
  }
}
