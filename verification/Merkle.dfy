/** The Merkle hash tree of section 5.1 of RFC 7574, defined by recursion over chunk ranges.

    This is the reference that the in-place construction, the sender and the verifier of the
    HashTree class are proved against.
 */
module Merkle {
  import opened Bits
  import opened Bytes
  import opened Dyadic

  /** A hash function with a fixed digest length; SHA-1 and SHA-256 are the instances in use. */
  datatype Hasher = Hasher(sum: bytes -> bytes, size: nat) {

    ghost predicate Valid() {
      size > 0 && forall b: bytes :: |sum(b)| == size
    }

    /** A null hash pointer stands for the all-zero digest. */
    function OrZero(h: Option<bytes>): bytes {
      match h
      case Some(b) => b
      case None => Zeros(size)
    }

    /** SHA_EncryptLR: null only when both children are null. */
    function EncryptLR(left: Option<bytes>, right: Option<bytes>): Option<bytes> {
      if left.None? && right.None? then None
      else Some(sum(OrZero(left) + OrZero(right)))
    }
  }

  /** Hash of the range of `size` chunks at `start`; null when it holds padding only. */
  function TreeHash(hs: Hasher, chunks: seq<bytes>, start: nat, size: nat): Option<bytes>
    decreases size
  {
    if size <= 1 then
      if start < |chunks| then Some(hs.sum(chunks[start])) else None
    else
      hs.EncryptLR(TreeHash(hs, chunks, start, size / 2), TreeHash(hs, chunks, start + size / 2, size / 2))
  }

  /** The hash of a range is made of the hashes of its halves. */
  lemma JoinHalves(hs: Hasher, chunks: seq<bytes>, start: nat, size: nat)
    requires size >= 1
    ensures TreeHash(hs, chunks, start, 2 * size)
         == hs.EncryptLR(TreeHash(hs, chunks, start, size), TreeHash(hs, chunks, start + size, size))
  {
    assert (2 * size) / 2 == size;
  }

  lemma {:induction false} NullExactlyForPadding(hs: Hasher, chunks: seq<bytes>, start: nat, size: nat)
    requires PowerOfTwo(size)
    ensures TreeHash(hs, chunks, start, size).None? <==> start >= |chunks|
    ensures hs.Valid() && start < |chunks| ==> |TreeHash(hs, chunks, start, size).value| == hs.size
    decreases size
  {
    if size > 1 {
      NullExactlyForPadding(hs, chunks, start, size / 2);
      NullExactlyForPadding(hs, chunks, start + size / 2, size / 2);
    }
  }

  /** A node of the tree. The pointers of the C++ structure are the tree indices they point to. */
  datatype BTreeNode = BTreeNode(
    treeIndex: int,
    isAllZero: bool,
    isInComplete: bool,
    isRoot: bool,
    startChunk: nat,
    endChunk: nat,
    hash: Option<bytes>,
    parent: Option<int>,
    sibling: Option<int>,
    leftChild: Option<int>,
    rightChild: Option<int>)

  type MerkleHashmap = map<int, BTreeNode>

  /** The leaf count: the least power of two that holds all chunks. */
  function Leaves(chunks: seq<bytes>): (leaves: nat)
    requires |chunks| >= 1
    ensures PowerOfTwo(leaves) && |chunks| <= leaves < 2 * |chunks|
  {
    CeilPower(|chunks|)
  }

  /** The node with index x of the finished tree over `leaves` leaves. */
  function MadeNode(hs: Hasher, chunks: seq<bytes>, leaves: nat, x: nat): BTreeNode {
    RangeOfIndex(x);
    var s, z := StartOf(x), SizeOf(x);
    BTreeNode(
      x,
      s >= |chunks|,
      s + z > |chunks|,
      z == leaves,
      s,
      s + z - 1,
      TreeHash(hs, chunks, s, z),
      if z == leaves then None else Some(Index(ParentStart(s, z), 2 * z)),
      if z == leaves then None else Some(SiblingIndex(s, z)),
      if z == 1 then None else Some(x - z / 2),
      if z == 1 then None else Some(x + z / 2))
  }

  function MadeTree(hs: Hasher, chunks: seq<bytes>, leaves: nat): MerkleHashmap {
    map x: int | 0 <= x < 2 * leaves - 1 :: MadeNode(hs, chunks, leaves, x)
  }

  function RootDigest(hs: Hasher, chunks: seq<bytes>): (r: bytes)
    requires |chunks| >= 1
  {
    NullExactlyForPadding(hs, chunks, 0, Leaves(chunks));
    TreeHash(hs, chunks, 0, Leaves(chunks)).value
  }

  /** The file cut into chunks; only the last one may be shorter. */
  function Split(content: bytes, chunkSize: nat): (chunks: seq<bytes>)
    requires chunkSize > 0
    decreases |content|
  {
    if content == [] then []
    else if |content| <= chunkSize then [content]
    else [content[..chunkSize]] + Split(content[chunkSize..], chunkSize)
  }

  lemma SplitStep(content: bytes, chunkSize: nat)
    requires chunkSize > 0 && content != []
    ensures var k := if |content| < chunkSize then |content| else chunkSize;
            && Split(content, chunkSize) != [] && Split(content, chunkSize)[0] == content[..k]
            && Split(content, chunkSize)[1..] == Split(content[k..], chunkSize)
  {
  }

  /** How many bytes the last read of a file of length len returns. */
  function LastRead(len: nat, chunkSize: nat): nat
    requires chunkSize > 0
  {
    if len < chunkSize then len else LastRead(len - chunkSize, chunkSize)
  }

  // ---------------------------------------------------------------- construction in stages

  /** Leaf k after c leaves have been stored. */
  function LeafNode(hs: Hasher, chunks: seq<bytes>, k: nat, c: nat): BTreeNode {
    BTreeNode(
      2 * k, k >= |chunks|, k >= |chunks|, false, k, k,
      if k < |chunks| then Some(hs.sum(chunks[k])) else None,
      None,
      if k % 2 == 1 then Some(2 * k - 2) else if k + 1 < c then Some(2 * k + 2) else None,
      None, None)
  }

  function LeafMap(hs: Hasher, chunks: seq<bytes>, c: nat): MerkleHashmap {
    map x: int | 0 <= x < 2 * c && x % 2 == 0 :: LeafNode(hs, chunks, x / 2, c)
  }

  /** What storing leaf c does to the map: the new node, and the link back from its left sibling. */
  function StoreLeaf(m: MerkleHashmap, node: BTreeNode, c: nat): MerkleHashmap {
    var i := 2 * c;
    if c % 2 == 1 && i - 2 in m then
      m[i := node.(sibling := Some(i - 2))][i - 2 := m[i - 2].(sibling := Some(i))]
    else
      m[i := node]
  }

  lemma LeafMapAt(hs: Hasher, chunks: seq<bytes>, c: nat, x: int)
    ensures x in LeafMap(hs, chunks, c) <==> 0 <= x < 2 * c && x % 2 == 0
    ensures x in LeafMap(hs, chunks, c) ==> LeafMap(hs, chunks, c)[x] == LeafNode(hs, chunks, x / 2, c)
  {
  }

  lemma LeafMapStep(hs: Hasher, chunks: seq<bytes>, c: nat)
    ensures LeafMap(hs, chunks, c + 1)
         == StoreLeaf(LeafMap(hs, chunks, c), LeafNode(hs, chunks, c, c + 1).(sibling := None), c)
  {
    hide LeafMap;
    var m := LeafMap(hs, chunks, c);
    var m' := LeafMap(hs, chunks, c + 1);
    var node := LeafNode(hs, chunks, c, c + 1).(sibling := None);
    var b := StoreLeaf(m, node, c);
    forall x: int
      ensures x in m' <==> x in b
      ensures x in m' ==> m'[x] == b[x]
    {
      LeafMapAt(hs, chunks, c, x);
      LeafMapAt(hs, chunks, c + 1, x);
      LeafMapAt(hs, chunks, c, 2 * c - 2);
    }
    assert m' == b;
  }

  lemma {:induction false} LeafCount(hs: Hasher, chunks: seq<bytes>, c: nat)
    ensures |LeafMap(hs, chunks, c)| == c
  {
    hide LeafNode;
    if c == 0 {
      assert LeafMap(hs, chunks, 0) == map[];
    } else {
      LeafCount(hs, chunks, c - 1);
      LeafKeys(hs, chunks, c - 1);
    }
  }

  lemma LeafKeys(hs: Hasher, chunks: seq<bytes>, c: nat)
    ensures LeafMap(hs, chunks, c + 1).Keys == LeafMap(hs, chunks, c).Keys + {2 * c}
    ensures 2 * c !in LeafMap(hs, chunks, c).Keys
  {
    hide LeafMap, LeafNode;
    forall x: int
      ensures x in LeafMap(hs, chunks, c + 1).Keys <==> x in LeafMap(hs, chunks, c).Keys || x == 2 * c
      ensures x == 2 * c ==> x !in LeafMap(hs, chunks, c).Keys
    {
      LeafMapAt(hs, chunks, c, x);
      LeafMapAt(hs, chunks, c + 1, x);
    }
  }

  lemma TwoChunks(content: bytes, chunkSize: nat)
    requires chunkSize > 0 && |content| > chunkSize
    ensures |Split(content, chunkSize)| >= 2
  {
  }

  /** Nodes present when the level of size-z nodes is paired up as far as chunk s. */
  predicate Built(x: nat, z: nat, s: nat) {
    SizeOf(x) <= z || (SizeOf(x) == 2 * z && StartOf(x) < s)
  }

  /** A node gets its parent, and above the leaves also its sibling, when its pair is joined. */
  function StageNode(hs: Hasher, chunks: seq<bytes>, leaves: nat, x: nat, z: nat, s: nat): BTreeNode {
    var made := MadeNode(hs, chunks, leaves, x);
    if SizeOf(x) < z || (SizeOf(x) == z && StartOf(x) < s) then made
    else if z == 1 && SizeOf(x) == 1 then made.(parent := None)
    else made.(parent := None, sibling := None)
  }

  function Stage(hs: Hasher, chunks: seq<bytes>, leaves: nat, z: nat, s: nat): MerkleHashmap {
    map x: int | 0 <= x < 2 * leaves - 1 && Built(x, z, s) :: StageNode(hs, chunks, leaves, x, z, s)
  }

  /** The node that joins two siblings. */
  function ParentNode(hs: Hasher, left: BTreeNode, right: BTreeNode, leaves: nat): BTreeNode {
    var pidx := (left.treeIndex + right.treeIndex) / 2;
    BTreeNode(
      pidx, left.isAllZero && right.isAllZero, left.isInComplete || right.isInComplete, pidx == leaves - 1,
      left.startChunk, right.endChunk, hs.EncryptLR(left.hash, right.hash),
      None, None, Some(left.treeIndex), Some(right.treeIndex))
  }

  /** Storing the parent of the nodes li and ri and linking the three. */
  function JoinPair(hs: Hasher, m: MerkleHashmap, li: int, ri: int, leaves: nat): MerkleHashmap
    requires li in m && ri in m
  {
    var p := ParentNode(hs, m[li], m[ri], leaves);
    m[li := m[li].(parent := Some(p.treeIndex), sibling := Some(ri))]
     [ri := m[ri].(parent := Some(p.treeIndex), sibling := Some(li))]
     [p.treeIndex := p]
  }

  lemma StageAt(hs: Hasher, chunks: seq<bytes>, leaves: nat, z: nat, s: nat, x: int)
    ensures var m := Stage(hs, chunks, leaves, z, s);
            && (x in m <==> 0 <= x < 2 * leaves - 1 && Built(x, z, s))
            && (x in m ==> m[x] == StageNode(hs, chunks, leaves, x, z, s))
  {
  }

  /** The three nodes touched when the pair of size-z nodes at s is joined. */
  lemma PairAt(leaves: nat, z: nat, s: nat)
    requires IsDyadic(s, 2 * z) && z > 0 && PowerOfTwo(leaves) && s + 2 * z <= leaves
    ensures var li, ri, pi := Index(s, z), Index(s + z, z), Index(s, 2 * z);
            && IsDyadic(s, z) && IsDyadic(s + z, z)
            && 0 <= li < pi < ri < 2 * leaves - 1 && (li + ri) / 2 == pi
            && StartOf(li) == s && SizeOf(li) == z
            && StartOf(ri) == s + z && SizeOf(ri) == z
            && StartOf(pi) == s && SizeOf(pi) == 2 * z
            && SiblingStart(s, z) == s + z && SiblingStart(s + z, z) == s
            && ParentStart(s, z) == s && ParentStart(s + z, z) == s
            && (pi == leaves - 1 <==> 2 * z == leaves)
  {
    hide IsRightHalf;
    ChildrenOf(s, z);
    NextOf(s, z);
    SiblingFacts(s, z);
    SiblingFacts(s + z, z);
    IndexOfRange(s, z);
    IndexOfRange(s + z, z);
    IndexOfRange(s, 2 * z);
    InsideTree(s + z, z, leaves);
    ZeroIsDyadic(leaves);
    IndexOfRange(0, leaves);
  }

  /** Nodes other than those three keep their stage. */
  lemma OtherNodes(z: nat, s: nat, x: nat)
    requires IsDyadic(s, 2 * z) && z > 0
    requires x != Index(s, z) && x != Index(s + z, z) && x != Index(s, 2 * z)
    ensures Built(x, z, s) <==> Built(x, z, s + 2 * z)
    ensures SizeOf(x) == z ==> (StartOf(x) < s <==> StartOf(x) < s + 2 * z)
  {
    RangeOfIndex(x);
    ChildrenOf(s, z);
    var t := StartOf(x);
    if SizeOf(x) == 2 * z && t != s {
      if t < s { Separated(t, s, 2 * z); } else { Separated(s, t, 2 * z); }
    }
    if SizeOf(x) == z && s <= t {
      if t != s { Separated(s, t, z); }
      if t != s + z && s + z < t { Separated(s + z, t, z); }
    }
  }

  /** A joined pair and its parent are in their next stage. */
  lemma JoinedNodes(hs: Hasher, chunks: seq<bytes>, leaves: nat, z: nat, s: nat)
    requires IsDyadic(s, 2 * z) && z > 0 && PowerOfTwo(leaves) && s + 2 * z <= leaves
    ensures var li, ri, pi := Index(s, z), Index(s + z, z), Index(s, 2 * z);
            var l, r := StageNode(hs, chunks, leaves, li, z, s), StageNode(hs, chunks, leaves, ri, z, s);
            var t := s + 2 * z;
            && StageNode(hs, chunks, leaves, li, z, t) == l.(parent := Some(pi), sibling := Some(ri))
            && StageNode(hs, chunks, leaves, ri, z, t) == r.(parent := Some(pi), sibling := Some(li))
            && StageNode(hs, chunks, leaves, pi, z, t) == ParentNode(hs, l, r, leaves)
            && l.treeIndex == li && r.treeIndex == ri
  {
    hide IsDyadic, PowerOfTwo, IsRightHalf, TreeHash, StartOf, SizeOf, SiblingStart, ParentStart;
    PairAt(leaves, z, s);
    JoinHalves(hs, chunks, s, z);
  }

  lemma StageStep(hs: Hasher, chunks: seq<bytes>, leaves: nat, z: nat, s: nat)
    requires IsDyadic(s, 2 * z) && z > 0 && PowerOfTwo(leaves) && s + 2 * z <= leaves
    ensures var m := Stage(hs, chunks, leaves, z, s);
            && Index(s, z) in m && Index(s + z, z) in m
            && Stage(hs, chunks, leaves, z, s + 2 * z) == JoinPair(hs, m, Index(s, z), Index(s + z, z), leaves)
  {
    PairAt(leaves, z, s);
    JoinedNodes(hs, chunks, leaves, z, s);
    var m, m' := Stage(hs, chunks, leaves, z, s), Stage(hs, chunks, leaves, z, s + 2 * z);
    StageAt(hs, chunks, leaves, z, s, Index(s, z));
    StageAt(hs, chunks, leaves, z, s, Index(s + z, z));
    var j := JoinPair(hs, m, Index(s, z), Index(s + z, z), leaves);
    forall x: int
      ensures x in m' <==> x in j
      ensures x in m' ==> m'[x] == j[x]
    {
      StageStepAt(hs, chunks, leaves, z, s, x);
    }
    assert m' == j;
  }

  lemma StageStepAt(hs: Hasher, chunks: seq<bytes>, leaves: nat, z: nat, s: nat, x: int)
    requires IsDyadic(s, 2 * z) && z > 0 && PowerOfTwo(leaves) && s + 2 * z <= leaves
    requires var m := Stage(hs, chunks, leaves, z, s); Index(s, z) in m && Index(s + z, z) in m
    ensures var m' := Stage(hs, chunks, leaves, z, s + 2 * z);
            var j := JoinPair(hs, Stage(hs, chunks, leaves, z, s), Index(s, z), Index(s + z, z), leaves);
            && (x in m' <==> x in j)
            && (x in m' ==> m'[x] == j[x])
  {
    hide IsDyadic, PowerOfTwo, IsRightHalf, Stage, TreeHash, MadeNode;
    PairAt(leaves, z, s);
    JoinedNodes(hs, chunks, leaves, z, s);
    StageAt(hs, chunks, leaves, z, s, Index(s, z));
    StageAt(hs, chunks, leaves, z, s, Index(s + z, z));
    StageAt(hs, chunks, leaves, z, s, x);
    StageAt(hs, chunks, leaves, z, s + 2 * z, x);
    if x != Index(s, z) && x != Index(s + z, z) && x != Index(s, 2 * z) && x >= 0 {
      OtherNodes(z, s, x);
    }
  }

  /** A finished level is the start of the next one. */
  lemma StageNextLevel(hs: Hasher, chunks: seq<bytes>, leaves: nat, z: nat)
    requires PowerOfTwo(z) && PowerOfTwo(leaves) && z < leaves
    ensures Stage(hs, chunks, leaves, z, leaves) == Stage(hs, chunks, leaves, 2 * z, 0)
  {
    var m, m' := Stage(hs, chunks, leaves, z, leaves), Stage(hs, chunks, leaves, 2 * z, 0);
    forall x: int
      ensures x in m' <==> x in m
      ensures x in m' ==> m'[x] == m[x]
    {
      StageAt(hs, chunks, leaves, z, leaves, x);
      StageAt(hs, chunks, leaves, 2 * z, 0, x);
      if 0 <= x < 2 * leaves - 1 {
        RangeOfIndex(x);
        InsideTree(StartOf(x), SizeOf(x), leaves);
        DyadicSize(StartOf(x), SizeOf(x));
        if z < SizeOf(x) { PowersAreSparse(z, SizeOf(x)); }
      }
    }
    assert m == m';
  }

  /** All leaves stored: the first level can be paired up. */
  lemma StageZero(hs: Hasher, chunks: seq<bytes>, leaves: nat)
    requires PowerOfTwo(leaves) && leaves >= 2
    ensures LeafMap(hs, chunks, leaves) == Stage(hs, chunks, leaves, 1, 0)
  {
    var m, m' := LeafMap(hs, chunks, leaves), Stage(hs, chunks, leaves, 1, 0);
    forall x: int
      ensures x in m' <==> x in m
      ensures x in m' ==> m'[x] == m[x]
    {
      StageAt(hs, chunks, leaves, 1, 0, x);
      LeafMapAt(hs, chunks, leaves, x);
      if 0 <= x < 2 * leaves - 1 {
        if x % 2 == 0 { LeafSibling(x / 2); LeafStage(hs, chunks, leaves, x / 2); } else { RangeOfIndex(x / 2); }
      }
    }
    assert m == m';
  }

  lemma LeafStage(hs: Hasher, chunks: seq<bytes>, leaves: nat, k: nat)
    requires PowerOfTwo(leaves) && k < leaves && leaves >= 2
    ensures StageNode(hs, chunks, leaves, 2 * k, 1, 0) == LeafNode(hs, chunks, k, leaves)
  {
    LeafSibling(k);
    assert leaves % 2 == 0;
  }

  lemma LeafSibling(k: nat)
    ensures IsDyadic(k, 1) && SiblingStart(k, 1) == if k % 2 == 0 then k + 1 else k - 1
    ensures SizeOf(2 * k) == 1 && StartOf(2 * k) == k
  {
    hide IsRightHalf;
    SiblingFacts(k, 1);
    assert IsDyadic(k / 2, 1);
  }

  /** The last stage is the finished tree. */
  lemma StageLast(hs: Hasher, chunks: seq<bytes>, leaves: nat)
    requires PowerOfTwo(leaves)
    ensures Stage(hs, chunks, leaves, leaves, 0) == MadeTree(hs, chunks, leaves)
  {
    var m, m' := Stage(hs, chunks, leaves, leaves, 0), MadeTree(hs, chunks, leaves);
    forall x: int
      ensures x in m' <==> x in m
      ensures x in m' ==> m'[x] == m[x]
    {
      StageAt(hs, chunks, leaves, leaves, 0, x);
      if 0 <= x < 2 * leaves - 1 {
        RangeOfIndex(x);
        InsideTree(StartOf(x), SizeOf(x), leaves);
      }
    }
    assert m == m';
  }

  /** Where the walk along a level ends. */
  lemma StageEdge(hs: Hasher, chunks: seq<bytes>, leaves: nat, z: nat, s: nat)
    requires IsDyadic(s, 2 * z) && z > 0 && PowerOfTwo(leaves) && s <= leaves && z < leaves
    ensures Index(s, z) in Stage(hs, chunks, leaves, z, s) <==> s < leaves
    ensures s < leaves ==> s + 2 * z <= leaves
  {
    hide IsDyadic, PowerOfTwo, IsRightHalf, Stage;
    DyadicSize(s, 2 * z);
    ChildrenOf(s, z);
    DyadicSize(s, z);
    PowersAreSparse(z, leaves);
    IndexOfRange(s, z);
    InsideTree(s, z, leaves);
    StageAt(hs, chunks, leaves, z, s, Index(s, z));
    if s < leaves {
      ZeroIsDyadic(leaves);
      PowerIsMultiple(leaves, 2 * z);
      Separated(s, leaves, 2 * z);
    }
  }

  /** One round of the pairing loop: the pair is there, and joining it leads to the next stage. */
  lemma StagePair(hs: Hasher, chunks: seq<bytes>, leaves: nat, z: nat, s: nat)
    requires IsDyadic(s, 2 * z) && z > 0 && PowerOfTwo(leaves) && s + 2 * z <= leaves
    ensures var li, ri, m := Index(s, z), Index(s + z, z), Stage(hs, chunks, leaves, z, s);
            && li in m && ri in m && li != ri && m[li].treeIndex == li && m[ri].treeIndex == ri
            && ((li + ri) / 2 == leaves - 1 <==> 2 * z == leaves)
            && Stage(hs, chunks, leaves, z, s + 2 * z) == JoinPair(hs, m, li, ri, leaves)
            && hs.EncryptLR(m[li].hash, m[ri].hash) == TreeHash(hs, chunks, s, 2 * z)
            && IsDyadic(s + 2 * z, 2 * z) && (2 * z == leaves ==> s == 0)
  {
    StageStep(hs, chunks, leaves, z, s);
    PairAt(leaves, z, s);
    StageAt(hs, chunks, leaves, z, s, Index(s, z));
    StageAt(hs, chunks, leaves, z, s, Index(s + z, z));
    NextOf(s, 2 * z);
  }
}
