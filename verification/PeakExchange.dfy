/** Peak hashes end to end: the seeder's walk finds the peaks, and a peer that received exactly these
    learns the size of the content from them. */
module PeakExchange {
  import opened Bits
  import opened Bytes
  import opened Dyadic
  import opened Merkle
  import opened Paths
  import opened Verification
  import opened Completeness
  import opened Peaks

  function PeakSet(chunks: seq<bytes>): set<int>
    requires |chunks| >= 1
  {
    Nodes(Cover(0, Leaves(chunks), |chunks|))
  }

  // ---------------------------------------------------------------------------------- seeder

  lemma MadeTreeIsLinked(hs: Hasher, chunks: seq<bytes>)
    requires |chunks| >= 1
    ensures WellLinked(MadeTree(hs, chunks, Leaves(chunks))) && KeysAreIndices(MadeTree(hs, chunks, Leaves(chunks)))
  {
    hide MadeTree, MadeNode, TreeHash;
    var tree := MadeTree(hs, chunks, Leaves(chunks));
    forall k | k in tree
      ensures tree[k].sibling.Some? ==> tree[k].sibling.value in tree
      ensures tree[k].parent.Some? ==> tree[k].parent.value in tree && Width(tree[k]) < Width(tree[tree[k].parent.value])
      ensures tree[k].treeIndex == k
    {
      MadeAt(hs, chunks, Leaves(chunks), k);
      if k == Leaves(chunks) - 1 {
        RootHasNoLinks(hs, chunks);
      } else {
        MadeTreeLinks(hs, chunks, k);
        var y := tree[k].sibling.value;
        MadeTreeShape(hs, chunks, y);
        MadeTreeShape(hs, chunks, k);
      }
    }
  }

  lemma RootHasNoLinks(hs: Hasher, chunks: seq<bytes>)
    requires |chunks| >= 1
    ensures var leaves := Leaves(chunks); var tree := MadeTree(hs, chunks, leaves);
            leaves - 1 in tree && tree[leaves - 1].parent.None? && tree[leaves - 1].sibling.None?
  {
    ZeroIsDyadic(Leaves(chunks));
    IndexOfRange(0, Leaves(chunks));
    MadeAt(hs, chunks, Leaves(chunks), Leaves(chunks) - 1);
  }

  /** Links and flags of a node given by its range. */
  lemma MadeRange(hs: Hasher, chunks: seq<bytes>, start: nat, size: nat)
    requires |chunks| >= 1 && IsDyadic(start, size) && start + size <= Leaves(chunks)
    ensures var leaves, tree, x := Leaves(chunks), MadeTree(hs, chunks, Leaves(chunks)), Index(start, size);
            && x in tree
            && (tree[x].isInComplete <==> start + size > |chunks|)
            && tree[x].hash == TreeHash(hs, chunks, start, size)
            && tree[x].startChunk == start && tree[x].endChunk == start + size - 1
            && tree[x].sibling == (if size == leaves then None else Some(SiblingIndex(start, size)))
            && tree[x].parent == (if size == leaves then None else Some(Index(ParentStart(start, size), 2 * size)))
  {
    IndexOfRange(start, size);
    InsideTree(start, size, Leaves(chunks));
    MadeAt(hs, chunks, Leaves(chunks), Index(start, size));
  }

  lemma {:induction false} WalkIsClimb(hs: Hasher, chunks: seq<bytes>, start: nat, size: nat)
    requires |chunks| >= 1 && IsDyadic(start, size) && start + size <= Leaves(chunks)
    requires start < |chunks| <= start + size
    ensures WellLinked(MadeTree(hs, chunks, Leaves(chunks)))
    ensures Index(start, size) in MadeTree(hs, chunks, Leaves(chunks))
    ensures PeakWalk(MadeTree(hs, chunks, Leaves(chunks)), Index(start, size)) == Climb(Leaves(chunks), |chunks|, start, size)
    decreases Leaves(chunks) - size
  {
    hide MadeTree, IsRightHalf, TreeHash, WellLinked;
    MadeTreeIsLinked(hs, chunks);
    MadeRange(hs, chunks, start, size);
    if size >= Leaves(chunks) {
      AtRoot(Leaves(chunks), start, size);
    } else {
      OneUp(Leaves(chunks), start, size);
      MadeRange(hs, chunks, SiblingStart(start, size), size);
      WalkIsClimb(hs, chunks, ParentStart(start, size), 2 * size);
    }
  }

  /** GetPeakHashes on a made tree: exactly the maximal ranges without padding, unless the chunk count
      is a power of two, when none is sent. */
  lemma SeederSendsPeaks(hs: Hasher, chunks: seq<bytes>)
    requires |chunks| >= 2
    ensures var tree := MadeTree(hs, chunks, Leaves(chunks));
            && WellLinked(tree)
            && 2 * (|chunks| - 1) in tree
            && (ClearLowestBit(|chunks|) != 0 <==> |chunks| < Leaves(chunks))
            && (|chunks| < Leaves(chunks) ==> PeakWalk(tree, 2 * (|chunks| - 1)) == PeakSet(chunks))
  {
    hide MadeTree, IsRightHalf, WellLinked;
    var n, leaves := |chunks|, Leaves(chunks);
    ClearLowestBitIsPowerTest(n);
    if PowerOfTwo(n) { CeilOfPower(n); }
    SingleIsDyadic(n - 1);
    WalkIsClimb(hs, chunks, n - 1, 1);
    if n < leaves {
      ClimbFindsCover(leaves, n, n - 1, 1);
    }
  }

  /** What the peaks are: they tile the chunks, their sizes strictly decrease, there is one for each
      one-bit of the chunk count, and a node is a peak exactly if it is full and its parent is not. */
  lemma PeaksAreMaximal(chunks: seq<bytes>, s: nat, z: nat)
    requires |chunks| >= 1 && |chunks| < Leaves(chunks)
    ensures var rs := Cover(0, Leaves(chunks), |chunks|);
            && Tiles(rs, 0, |chunks|) && Shrinking(rs) && |rs| == PopCount(|chunks|)
    ensures IsDyadic(s, z) && s + z <= Leaves(chunks) ==>
              (Index(s, z) in PeakSet(chunks) <==> s + z <= |chunks| && ParentStart(s, z) + 2 * z > |chunks|)
  {
    hide IsRightHalf;
    var n, leaves := |chunks|, Leaves(chunks);
    ZeroIsDyadic(leaves);
    CoverTiles(0, leaves, n);
    CoverShrinks(0, leaves, n);
    CoverCount(0, leaves, n);
    if IsDyadic(s, z) && s + z <= leaves {
      CoverIsMaximal(0, leaves, n, s, z);
      PeakIndex(chunks, s, z);
    }
  }

  lemma PeakIndex(chunks: seq<bytes>, s: nat, z: nat)
    requires |chunks| >= 1 && IsDyadic(s, z)
    ensures Index(s, z) in PeakSet(chunks) <==> Range(s, z) in Cover(0, Leaves(chunks), |chunks|)
  {
    var rs := Cover(0, Leaves(chunks), |chunks|);
    if Index(s, z) in PeakSet(chunks) {
      var r :| r in rs && Index(r.start, r.size) == Index(s, z);
      ZeroIsDyadic(Leaves(chunks));
      CoverTiles(0, Leaves(chunks), |chunks|);
      IndexOfRange(r.start, r.size);
      IndexOfRange(s, z);
      assert r == Range(s, z);
    }
  }

  // ------------------------------------------------------------------------------------ peer

  /** The messages for a set of nodes of the source tree, as AddIntegrity stores them. */
  function Messages(hs: Hasher, chunks: seq<bytes>, ks: set<int>): MerkleHashmap
    requires |chunks| >= 1
  {
    map x: int | x in ks && 0 <= x < 2 * Leaves(chunks) - 1 ::
      Received(MessageOf(MadeNode(hs, chunks, Leaves(chunks), x)))
  }

  lemma MessageAt(hs: Hasher, chunks: seq<bytes>, ks: set<int>, s: nat, z: nat)
    requires |chunks| >= 1 && IsDyadic(s, z) && s + z <= Leaves(chunks) && Index(s, z) in ks && s < |chunks|
    ensures var m, x := Messages(hs, chunks, ks), Index(s, z);
            && x in m && m[x].treeIndex == x && m[x].startChunk == s && m[x].endChunk == s + z - 1
            && m[x].hash == TreeHash(hs, chunks, s, z) && m[x].hash.Some?
  {
    DyadicSize(s, z);
    IndexOfRange(s, z);
    InsideTree(s, z, Leaves(chunks));
    NullExactlyForPadding(hs, chunks, s, z);
  }

  lemma MessageKeys(hs: Hasher, chunks: seq<bytes>, ks: set<int>)
    requires |chunks| >= 1
    ensures Messages(hs, chunks, ks).Keys <= ks
  {
  }

  /** Only the last range of a tiling reaches its end. */
  lemma {:induction false} TilesEnd(rs: seq<Range>, start: nat, end: nat, i: nat)
    requires Tiles(rs, start, end) && i < |rs|
    ensures start <= end
    ensures rs[i].start + rs[i].size <= end
    ensures rs[i].start + rs[i].size == end <==> i == |rs| - 1
  {
    if |rs| > 1 {
      assert rs[1..] != [];
      TilesEnd(rs[1..], start + rs[0].size, end, if i == 0 then 0 else i - 1);
      if i == 0 {
        TilesForward(rs[1..], start + rs[0].size, end);
      }
    } else {
      assert rs[1..] == [];
    }
  }

  lemma {:induction false} TilesForward(rs: seq<Range>, start: nat, end: nat)
    requires Tiles(rs, start, end) && rs != []
    ensures start < end
  {
    if rs[1..] != [] { TilesForward(rs[1..], start + rs[0].size, end); }
  }

  lemma LastOfCover(chunks: seq<bytes>)
    requires 1 <= |chunks| < Leaves(chunks)
    ensures var rs := Cover(0, Leaves(chunks), |chunks|);
            && rs != []
            && var r := rs[|rs| - 1];
               r.start + r.size == |chunks| && r.size > 0 && IsDyadic(r.start, r.size) && (|chunks| % 2 == 1 ==> r.size == 1)
  {
    hide Cover;
    var n, rs := |chunks|, Cover(0, Leaves(chunks), |chunks|);
    ZeroIsDyadic(Leaves(chunks));
    CoverTiles(0, Leaves(chunks), n);
    assert rs != [];
    TilesEnd(rs, 0, n, |rs| - 1);
    var r := rs[|rs| - 1];
    assert IsDyadic(r.start, r.size);
  }

  /** The range of the last, smallest peak. */
  function LastPeak(chunks: seq<bytes>): (r: Range)
    requires 1 <= |chunks| < Leaves(chunks)
    ensures r in Cover(0, Leaves(chunks), |chunks|)
    ensures r.start + r.size == |chunks| && r.size > 0
    ensures IsDyadic(r.start, r.size)
    ensures |chunks| % 2 == 1 ==> r.size == 1
  {
    LastOfCover(chunks);
    var rs := Cover(0, Leaves(chunks), |chunks|);
    rs[|rs| - 1]
  }

  /** In any order of visiting, the check starts from the last peak, as long as it is there. */
  lemma LastPeakIsPicked(hs: Hasher, chunks: seq<bytes>, ks: set<int>, p: int)
    requires 1 <= |chunks| < Leaves(chunks)
    requires ks <= PeakSet(chunks) && var r := LastPeak(chunks); Index(r.start, r.size) in ks
    requires IsLastPeak(Messages(hs, chunks, ks), p)
    ensures var r := LastPeak(chunks); p == Index(r.start, r.size)
  {
    hide TreeHash, Cover, IsRightHalf, Messages, Tiles, IsDyadic, Leaves, PowerOfTwo;
    var n, leaves, rs := |chunks|, Leaves(chunks), Cover(0, Leaves(chunks), |chunks|);
    var pend := Messages(hs, chunks, ks);
    ZeroIsDyadic(leaves);
    CoverTiles(0, leaves, n);
    CoverShrinks(0, leaves, n);
    var last := LastPeak(chunks);
    MessageKeys(hs, chunks, ks);
    var q :| q in rs && Index(q.start, q.size) == p;
    var i :| 0 <= i < |rs| && rs[i] == q;
    var j :| 0 <= j < |rs| && rs[j] == last;
    TilesEnd(rs, 0, n, i);
    TilesEnd(rs, 0, n, j);
    MessageAt(hs, chunks, ks, q.start, q.size);
    MessageAt(hs, chunks, ks, last.start, last.size);
  }

  /** The leaf count computed from the last chunk is right unless one chunk less is a power of two. */
  lemma LeafCountIsRight(n: nat)
    requires n >= 3 && !PowerOfTwo(n)
    ensures !PowerOfTwo(n - 1) ==> LeafCountFor(n - 1) == CeilPower(n)
    ensures PowerOfTwo(n - 1) ==> LeafCountFor(n - 1) == n - 1
  {
    if PowerOfTwo(n - 1) {
      CeilOfPower(n - 1);
    } else if (n - 1) % 2 == 0 {
      CeilPowerIsLeast(n, CeilPower(n - 1));
      CeilPowerIsLeast(n - 1, CeilPower(n));
    }
  }

  /** Above the last peak the climb finds every left sibling among the peaks and ends in the root. */
  lemma {:induction false} PeakClimbReachesRoot(hs: Hasher, chunks: seq<bytes>, ks: set<int>, start: nat, size: nat)
    requires 1 <= |chunks| < Leaves(chunks) && IsDyadic(start, size) && start + size <= Leaves(chunks)
    requires start < |chunks| < start + size
    requires Climb(Leaves(chunks), |chunks|, start, size) <= ks
    ensures TreeHash(hs, chunks, start, size).Some?
    ensures var bound, last := 2 * (Leaves(chunks) - 1), 2 * (|chunks| - 1);
            && ClimbPeak(hs, Messages(hs, chunks, ks), bound, last, start, size, TreeHash(hs, chunks, start, size).value)
               == Some(RootDigest(hs, chunks))
            && UsedPeak(bound, last, start, size) == Climb(Leaves(chunks), |chunks|, start, size)
    decreases Leaves(chunks) - size
  {
    hide IsRightHalf, TreeHash, Messages;
    var leaves, n := Leaves(chunks), |chunks|;
    DyadicSize(start, size);
    NullExactlyForPadding(hs, chunks, start, size);
    if size >= leaves {
      AtRoot(leaves, start, size);
    } else {
      OneUp(leaves, start, size);
      var sib := SiblingStart(start, size);
      NullExactlyForPadding(hs, chunks, sib, size);
      ParentHash(hs, chunks, start, size);
      PeakClimbReachesRoot(hs, chunks, ks, ParentStart(start, size), 2 * size);
      if sib < start {
        MessageAt(hs, chunks, ks, sib, size);
      }
    }
  }

  /** The whole climb, from the last peak. */
  lemma PeakClimbFromLast(hs: Hasher, chunks: seq<bytes>)
    requires 1 <= |chunks| < Leaves(chunks)
    ensures var bound, last, r := 2 * (Leaves(chunks) - 1), 2 * (|chunks| - 1), LastPeak(chunks);
            var p := Index(r.start, r.size);
            && TreeHash(hs, chunks, r.start, r.size).Some?
            && ClimbPeak(hs, Messages(hs, chunks, PeakSet(chunks) - {p}), bound, last, r.start, r.size,
                         TreeHash(hs, chunks, r.start, r.size).value) == Some(RootDigest(hs, chunks))
            && {p} + UsedPeak(bound, last, r.start, r.size) == PeakSet(chunks)
  {
    hide IsRightHalf, TreeHash, Messages, Cover, Nodes;
    var leaves, n, r := Leaves(chunks), |chunks|, LastPeak(chunks);
    var s, z, ks := r.start, r.size, PeakSet(chunks) - {Index(r.start, r.size)};
    DyadicSize(s, z);
    NullExactlyForPadding(hs, chunks, s, z);
    PeakIndex(chunks, s, z);
    PeaksAreMaximal(chunks, s, z);
    assert z < leaves by { if z >= leaves { AtRoot(leaves, s, z); } }
    OneUp(leaves, s, z);
    NullExactlyForPadding(hs, chunks, SiblingStart(s, z), z);
    ParentHash(hs, chunks, s, z);
    ClimbFindsCover(leaves, n, s, z);
    IndexOfRange(s, z);
    NotAbove(leaves, n, ParentStart(s, z), 2 * z, Index(s, z));
    PeakClimbReachesRoot(hs, chunks, ks, ParentStart(s, z), 2 * z);
  }

  /** Higher levels meet larger nodes only. */
  lemma {:induction false} NotAbove(leaves: nat, n: nat, start: nat, size: nat, x: nat)
    requires IsDyadic(start, size) && PowerOfTwo(leaves) && start + size <= leaves && SizeOf(x) < size
    ensures x !in Climb(leaves, n, start, size)
    decreases leaves - size
  {
    hide IsRightHalf;
    if size < leaves {
      OneUp(leaves, start, size);
      IndexOfRange(start, size);
      NotAbove(leaves, n, ParentStart(start, size), 2 * size, x);
    }
  }

  lemma MessagesBut(hs: Hasher, chunks: seq<bytes>, ks: set<int>, p: int)
    requires |chunks| >= 1
    ensures Messages(hs, chunks, ks) - {p} == Messages(hs, chunks, ks - {p})
    ensures Restrict(Messages(hs, chunks, ks), ks) == Messages(hs, chunks, ks)
  {
    hide MadeNode;
  }

  /** The check from the last peak, when the chunk count and one less are no powers of two. */
  lemma PeaksAccepted(hs: Hasher, chunks: seq<bytes>, v: Verifier, c: int)
    requires 3 <= |chunks| < Leaves(chunks) && !PowerOfTwo(|chunks| - 1)
    requires c in v.inte && v.inte[c] == Messages(hs, chunks, PeakSet(chunks))
    ensures var r, all := LastPeak(chunks), Messages(hs, chunks, PeakSet(chunks));
            var p := Index(r.start, r.size);
            && p in all && all[p].hash.Some? && all[p].startChunk <= all[p].endChunk
            && CheckPeakFrom(hs, RootDigest(hs, chunks), v, c, p)
               == (true, v.(chunkRange := |chunks| - 1, lastChunkIndex := 2 * (|chunks| - 1), leafNodeCount := Leaves(chunks),
                            tree := all + v.tree, peaks := v.peaks + all, isPeakMapCreated := true,
                            inte := v.inte[c := map[]]))
  {
    hide IsRightHalf, TreeHash, Messages, ClimbPeak, UsedPeak, Restrict, PeakSet, Cover;
    var n, r := |chunks|, LastPeak(chunks);
    var all, p := Messages(hs, chunks, PeakSet(chunks)), Index(r.start, r.size);
    PowerIsCeil(n);
    LeafCountIsRight(n);
    PeakIndex(chunks, r.start, r.size);
    MessageAt(hs, chunks, PeakSet(chunks), r.start, r.size);
    PeakClimbFromLast(hs, chunks);
    MessagesBut(hs, chunks, PeakSet(chunks), p);
    assert all - {p} - all.Keys == map[];
  }

  lemma PowerIsCeil(n: nat)
    requires n >= 1
    ensures PowerOfTwo(n) <==> CeilPower(n) == n
  {
    if PowerOfTwo(n) { CeilOfPower(n); }
  }

  /** One chunk more than a power of two: the leaf count comes out too small, so that the check
      compares the hash of the last chunk alone with the root. */
  lemma PeaksMisjudged(hs: Hasher, chunks: seq<bytes>, v: Verifier, c: int)
    requires 3 <= |chunks| < Leaves(chunks) && PowerOfTwo(|chunks| - 1)
    requires c in v.inte && v.inte[c] == Messages(hs, chunks, PeakSet(chunks))
    ensures var r, all := LastPeak(chunks), Messages(hs, chunks, PeakSet(chunks));
            var p := Index(r.start, r.size);
            && p in all && all[p].hash.Some? && all[p].startChunk <= all[p].endChunk
            && CheckPeakFrom(hs, RootDigest(hs, chunks), v, c, p).0 == (hs.sum(chunks[|chunks| - 1]) == RootDigest(hs, chunks))
            && CheckPeakFrom(hs, RootDigest(hs, chunks), v, c, p).1.leafNodeCount == |chunks| - 1
  {
    hide IsRightHalf, TreeHash, Messages, PeakSet, Cover, ClimbPeak, LeafCountFor, CheckPeakFrom, RootDigest;
    hide IsDyadic, CeilPower, LastPeak, SiblingIndex;
    var n, r := |chunks|, LastPeak(chunks);
    PowerIsCeil(n);
    LeafCountIsRight(n);
    EvenPower(n - 1);
    PeakIndex(chunks, r.start, r.size);
    MessageAt(hs, chunks, PeakSet(chunks), r.start, r.size);
    LeafHash(hs, chunks, n - 1);
    RightOfLast(chunks, n - 1);
    PeakFromClimb(hs, RootDigest(hs, chunks), v, c, Index(n - 1, 1));
    StopsAtOnce(hs, Messages(hs, chunks, PeakSet(chunks)) - {Index(n - 1, 1)}, 2 * (n - 2), 2 * (n - 1), n - 1, 1,
                hs.sum(chunks[n - 1]));
  }

  lemma PeakFromClimb(hs: Hasher, root: bytes, v: Verifier, c: int, p: int)
    requires c in v.inte && p in v.inte[c] && v.inte[c][p].hash.Some? && v.inte[c][p].startChunk <= v.inte[c][p].endChunk
    ensures var leaf := v.inte[c][p];
            var leaves := LeafCountFor(leaf.endChunk);
            && CheckPeakFrom(hs, root, v, c, p).1.leafNodeCount == leaves
            && CheckPeakFrom(hs, root, v, c, p).0
               == (ClimbPeak(hs, v.inte[c] - {p}, 2 * (leaves - 1), leaf.endChunk * 2, leaf.startChunk,
                             leaf.endChunk - leaf.startChunk + 1, leaf.hash.value) == Some(root))
  {
    hide ClimbPeak, UsedPeak, Restrict, LeafCountFor;
  }

  lemma RightOfLast(chunks: seq<bytes>, s: nat)
    requires 1 <= |chunks| < Leaves(chunks) && s + 1 == |chunks| && Index(s, 1) in PeakSet(chunks)
    ensures SiblingIndex(s, 1) == 2 * |chunks|
  {
    hide IsRightHalf, Cover, PeakSet;
    SingleIsDyadic(s);
    SiblingFacts(s, 1);
    PeaksAreMaximal(chunks, s, 1);
  }

  lemma StopsAtOnce(hs: Hasher, pend: MerkleHashmap, bound: int, last: int, start: nat, size: nat, h: bytes)
    requires size >= 1 && SiblingIndex(start, size) > bound
    ensures ClimbPeak(hs, pend, bound, last, start, size, h) == Some(h)
  {
  }

  /** The peak-hash round trip, for every chunk count that has peaks and every order in which the
      map of received hashes is visited: the check accepts exactly if one chunk less is not a power of
      two (or the root hash happens to be the hash of the last chunk), and then the size is known. */
  lemma PeakRoundTrip(hs: Hasher, chunks: seq<bytes>, v: Verifier, c: int, accepted: bool, after: Verifier)
    requires 3 <= |chunks| < Leaves(chunks)
    requires c in v.inte && v.inte[c] == Messages(hs, chunks, PeakSet(chunks))
    requires PeakOutcome(hs, RootDigest(hs, chunks), v, c, accepted, after)
    ensures accepted <==> !PowerOfTwo(|chunks| - 1) || hs.sum(chunks[|chunks| - 1]) == RootDigest(hs, chunks)
    ensures after.leafNodeCount == Leaves(chunks) <==> !PowerOfTwo(|chunks| - 1)
    ensures !PowerOfTwo(|chunks| - 1) ==>
              var all := Messages(hs, chunks, PeakSet(chunks));
              after == v.(chunkRange := |chunks| - 1, lastChunkIndex := 2 * (|chunks| - 1), leafNodeCount := Leaves(chunks),
                          tree := all + v.tree, peaks := v.peaks + all, isPeakMapCreated := true,
                          inte := v.inte[c := map[]])
  {
    hide IsRightHalf, TreeHash, Messages, PeakSet, CheckPeakFrom, Cover, RootDigest;
    var r, all := LastPeak(chunks), Messages(hs, chunks, PeakSet(chunks));
    var p := Index(r.start, r.size);
    if PowerOfTwo(|chunks| - 1) {
      PeaksMisjudged(hs, chunks, v, c);
    } else {
      PeaksAccepted(hs, chunks, v, c);
    }
    assert v.inte[c] != map[];
    var q :| IsLastPeak(v.inte[c], q) && v.inte[c][q].hash.Some?
             && v.inte[c][q].startChunk <= v.inte[c][q].endChunk
             && (accepted, after) == CheckPeakFrom(hs, RootDigest(hs, chunks), v, c, q);
    PeakIndex(chunks, r.start, r.size);
    LastPeakIsPicked(hs, chunks, PeakSet(chunks), q);
  }
}
