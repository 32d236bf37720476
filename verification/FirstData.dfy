/** The data check of a peer that knows nothing but the root hash: a seeder has sent it the peak hashes
    and the hashes for the first chunk asked for, and the check climbs as far as these reach. */
module FirstData {
  import opened Bits
  import opened Bytes
  import opened Dyadic
  import opened Merkle
  import opened Paths
  import opened Verification
  import opened Sender
  import opened Completeness
  import opened Soundness
  import opened Peaks
  import opened PeakExchange

  /** Hash messages as they are stored one by one. */
  ghost function AddAll(hs: Hasher, chunks: seq<bytes>, inte: IntegrityMaps, c: int, order: seq<int>): IntegrityMaps
    requires |chunks| >= 1
  {
    if order == [] then inte
    else
      var x := order[|order| - 1];
      var before := AddAll(hs, chunks, inte, c, order[..|order| - 1]);
      if 0 <= x < 2 * Leaves(chunks) - 1 then
        AddReceived(before, c, MessageOf(MadeNode(hs, chunks, Leaves(chunks), x)))
      else before
  }

  function Elements(s: seq<int>): set<int> {
    set x | x in s
  }

  /** The order of arrival does not matter. */
  lemma {:induction false} OrderIsIrrelevant(hs: Hasher, chunks: seq<bytes>, c: int, order: seq<int>)
    requires |chunks| >= 1
    requires forall x: int | x in order :: 0 <= x < 2 * Leaves(chunks) - 1
    ensures Pending(AddAll(hs, chunks, map[], c, order), c) == Messages(hs, chunks, Elements(order))
    ensures AddAll(hs, chunks, map[], c, order)
            == if order == [] then map[] else map[c := Messages(hs, chunks, Elements(order))]
    decreases |order|
  {
    hide MadeNode, IsDyadic;
    if order != [] {
      var init, x := order[..|order| - 1], order[|order| - 1];
      forall y: int | y in init ensures y in order {
      }
      OrderIsIrrelevant(hs, chunks, c, init);
      assert Elements(order) == Elements(init) + {x};
      MadeAt(hs, chunks, Leaves(chunks), x);
      assert Messages(hs, chunks, Elements(order))
          == Messages(hs, chunks, Elements(init))[x := Received(MessageOf(MadeNode(hs, chunks, Leaves(chunks), x)))];
    }
  }

  lemma MessagesGenuine(hs: Hasher, chunks: seq<bytes>, ks: set<int>)
    requires |chunks| >= 1
    requires forall x: int | x in ks :: 0 <= x < 2 * Leaves(chunks) - 1 && HashAt(hs, chunks, x).Some?
    ensures Genuine(hs, chunks, Messages(hs, chunks, ks))
    ensures Messages(hs, chunks, ks).Keys == ks
  {
    hide TreeHash;
    forall x: int | x in Messages(hs, chunks, ks)
      ensures Messages(hs, chunks, ks)[x].hash == HashAt(hs, chunks, x)
    {
      MadeAt(hs, chunks, Leaves(chunks), x);
    }
  }

  /** With every sibling at hand and the root's sibling index free, the climb ends at the root. */
  lemma {:induction false} UnknownClimb(hs: Hasher, chunks: seq<bytes>, pend: MerkleHashmap, start: nat, size: nat)
    requires |chunks| >= 1 && IsDyadic(start, size) && start + size <= Leaves(chunks)
    requires TreeHash(hs, chunks, start, size).Some?
    requires Genuine(hs, chunks, pend) && Path(Leaves(chunks), start, size) <= pend.Keys
    ensures ClimbUnknown(hs, pend, start, size, TreeHash(hs, chunks, start, size).value)
         == (RootDigest(hs, chunks), Leaves(chunks) - 1)
    ensures UsedUnknown(pend, start, size) == Path(Leaves(chunks), start, size)
    decreases Leaves(chunks) - size
  {
    hide IsRightHalf, TreeHash, Top;
    var leaves := Leaves(chunks);
    if size >= leaves {
      AtRoot(leaves, start, size);
    } else {
      OneUp(leaves, start, size);
      ParentHash(hs, chunks, start, size);
      var x := SiblingIndex(start, size);
      assert x in pend.Keys;
      UnknownClimb(hs, chunks, pend, ParentStart(start, size), 2 * size);
    }
  }

  /** In the left half of the tree no sibling on the path is padding, and none is a peak. */
  lemma {:induction false} LeftHalfPath(hs: Hasher, chunks: seq<bytes>, start: nat, size: nat, x: int)
    requires |chunks| >= 2 && IsDyadic(start, size) && x in Path(Leaves(chunks), start, size)
    requires start + size <= Leaves(chunks)
    requires |chunks| == Leaves(chunks) || start + size <= Leaves(chunks) / 2 || size == Leaves(chunks)
    ensures 0 <= x < 2 * Leaves(chunks) - 1 && HashAt(hs, chunks, x).Some?
    ensures |chunks| < Leaves(chunks) ==> x !in PeakSet(chunks)
    decreases Leaves(chunks) - size
  {
    hide IsRightHalf, TreeHash, PeakSet;
    var leaves := Leaves(chunks);
    var half := leaves / 2;
    DyadicSize(start, size);
    OneUp(leaves, start, size);
    var s, p := SiblingStart(start, size), ParentStart(start, size);
    if |chunks| < leaves { HalfIsEnough(leaves, start, size); }
    if x == SiblingIndex(start, size) {
      NullExactlyForPadding(hs, chunks, s, size);
      SiblingFacts(start, size);
      if |chunks| < leaves {
        PeaksAreMaximal(chunks, s, size);
      }
    } else {
      LeftHalfPath(hs, chunks, p, 2 * size, x);
    }
  }

  /** Below the top level, the parent of a range in the left half is in the left half too. */
  lemma HalfIsEnough(leaves: nat, start: nat, size: nat)
    requires PowerOfTwo(leaves) && leaves >= 2 && IsDyadic(start, size) && size < leaves
    requires start + size <= leaves / 2
    ensures size < leaves / 2 ==> ParentStart(start, size) + 2 * size <= leaves / 2
    ensures size < leaves / 2 ==> SiblingStart(start, size) + size <= leaves / 2
    ensures size >= leaves / 2 ==> size == leaves / 2 && start == 0 && SiblingStart(start, size) == leaves / 2
    ensures size >= leaves / 2 ==> ParentStart(start, size) == 0
  {
    hide IsRightHalf;
    SiblingInside(start, size, leaves / 2);
    SiblingFacts(start, size);
    if size >= leaves / 2 {
      ZeroIsDyadic(leaves);
    }
  }

  // -------------------------------------------------------------------------- the first packet

  /** A peer that knows the root hash only. */
  const UNKNOWN: Verifier := Verifier(map[], map[], map[], false, -1, 0, 0, 0, 0)

  /** The peak hashes a seeder sends: none when the chunk count is a power of two. */
  function SentPeaks(chunks: seq<bytes>): set<int>
    requires |chunks| >= 1
  {
    if |chunks| < Leaves(chunks) then PeakSet(chunks) else {}
  }

  lemma NeededOnLeft(hs: Hasher, chunks: seq<bytes>, i: nat)
    requires |chunks| >= 2 && i < |chunks|
    requires |chunks| == Leaves(chunks) || i < Leaves(chunks) / 2
    ensures Needed(hs, chunks, i) == Path(Leaves(chunks), i, 1)
    ensures forall x: int | x in Needed(hs, chunks, i) :: 0 <= x < 2 * Leaves(chunks) - 1 && HashAt(hs, chunks, x).Some?
    ensures Needed(hs, chunks, i) !! SentPeaks(chunks)
    ensures Reach(hs, chunks, i, 1).size == Leaves(chunks)
  {
    hide TreeHash, PeakSet, Reach;
    SingleIsDyadic(i);
    LeafHash(hs, chunks, i);
    ReachFacts(hs, chunks, i, 1);
    forall x | x in Path(Leaves(chunks), i, 1)
      ensures 0 <= x < 2 * Leaves(chunks) - 1 && HashAt(hs, chunks, x).Some? && x !in SentPeaks(chunks)
    {
      LeftHalfPath(hs, chunks, i, 1, x);
    }
  }

  lemma PeaksAreNodes(hs: Hasher, chunks: seq<bytes>, x: int)
    requires |chunks| >= 1 && x in SentPeaks(chunks)
    ensures 0 <= x < 2 * Leaves(chunks) - 1 && HashAt(hs, chunks, x).Some?
  {
    hide Cover, TreeHash;
    var n, leaves := |chunks|, Leaves(chunks);
    var r :| r in Cover(0, leaves, n) && Index(r.start, r.size) == x;
    ZeroIsDyadic(leaves);
    CoverTiles(0, leaves, n);
    IndexOfRange(r.start, r.size);
    InsideTree(r.start, r.size, leaves);
    DyadicSize(r.start, r.size);
    NullExactlyForPadding(hs, chunks, r.start, r.size);
  }

  /** How far the climb of a peer that does not know the size gets: up to the first null sibling. */
  function Reach(hs: Hasher, chunks: seq<bytes>, start: nat, size: nat): Range
    requires |chunks| >= 1 && size >= 1
    decreases Leaves(chunks) - size
  {
    if size >= Leaves(chunks) || TreeHash(hs, chunks, SiblingStart(start, size), size).None? then Range(start, size)
    else Reach(hs, chunks, ParentStart(start, size), 2 * size)
  }

  /** No sibling on the way to the root is padding. */
  ghost predicate PathHashed(hs: Hasher, chunks: seq<bytes>, start: nat, size: nat)
    requires |chunks| >= 1 && size >= 1
  {
    forall x: int | x in Path(Leaves(chunks), start, size) :: x >= 0 && HashAt(hs, chunks, x).Some?
  }

  /** One level of the way to the root. */
  lemma PathHashedStep(hs: Hasher, chunks: seq<bytes>, start: nat, size: nat)
    requires |chunks| >= 1 && IsDyadic(start, size) && start + size <= Leaves(chunks) && size < Leaves(chunks)
    ensures TreeHash(hs, chunks, SiblingStart(start, size), size).Some? <==> SiblingStart(start, size) < |chunks|
    ensures PathHashed(hs, chunks, start, size)
       <==> SiblingStart(start, size) < |chunks| && PathHashed(hs, chunks, ParentStart(start, size), 2 * size)
  {
    hide IsRightHalf, TreeHash, HashAt;
    SiblingHash(hs, chunks, start, size);
    var x, p := SiblingIndex(start, size), ParentStart(start, size);
    assert Path(Leaves(chunks), start, size) == {x} + Path(Leaves(chunks), p, 2 * size);
    assert x in Path(Leaves(chunks), start, size);
  }

  lemma SiblingHash(hs: Hasher, chunks: seq<bytes>, start: nat, size: nat)
    requires |chunks| >= 1 && IsDyadic(start, size) && start + size <= Leaves(chunks) && size < Leaves(chunks)
    ensures SiblingIndex(start, size) >= 0
    ensures HashAt(hs, chunks, SiblingIndex(start, size)) == TreeHash(hs, chunks, SiblingStart(start, size), size)
    ensures TreeHash(hs, chunks, SiblingStart(start, size), size).Some? <==> SiblingStart(start, size) < |chunks|
  {
    hide IsRightHalf, TreeHash;
    OneUp(Leaves(chunks), start, size);
    DyadicSize(start, size);
    NullExactlyForPadding(hs, chunks, SiblingStart(start, size), size);
  }

  /** The messages at hand are, on the way to the root, those for siblings that are not padding. */
  ghost predicate PathAtHand(hs: Hasher, chunks: seq<bytes>, pend: MerkleHashmap, start: nat, size: nat)
    requires |chunks| >= 1 && size >= 1
  {
    forall x: int | x in Path(Leaves(chunks), start, size) :: x >= 0 && (x in pend <==> HashAt(hs, chunks, x).Some?)
  }

  lemma PathAtHandStep(hs: Hasher, chunks: seq<bytes>, pend: MerkleHashmap, start: nat, size: nat)
    requires |chunks| >= 1 && IsDyadic(start, size) && start + size <= Leaves(chunks) && size < Leaves(chunks)
    requires PathAtHand(hs, chunks, pend, start, size)
    ensures SiblingIndex(start, size) in pend <==> SiblingStart(start, size) < |chunks|
    ensures PathAtHand(hs, chunks, pend, ParentStart(start, size), 2 * size)
  {
    hide IsRightHalf, TreeHash, HashAt;
    SiblingHash(hs, chunks, start, size);
    var x, p := SiblingIndex(start, size), ParentStart(start, size);
    assert Path(Leaves(chunks), start, size) == {x} + Path(Leaves(chunks), p, 2 * size);
    assert x in Path(Leaves(chunks), start, size);
  }

  /** What the reached range is. */
  lemma {:induction false} ReachFacts(hs: Hasher, chunks: seq<bytes>, start: nat, size: nat)
    requires |chunks| >= 1 && IsDyadic(start, size) && start + size <= Leaves(chunks) && start < |chunks|
    ensures var r := Reach(hs, chunks, start, size);
            && IsDyadic(r.start, r.size) && r.start + r.size <= Leaves(chunks) && size <= r.size && r.start < |chunks|
            && (r.size == Leaves(chunks) ==> r.start == 0)
            && (r.size < Leaves(chunks) ==> |chunks| <= r.start + r.size)
            && (r.size == Leaves(chunks) <==> PathHashed(hs, chunks, start, size))
            && (size < Leaves(chunks) ==> (r.size == size <==> SiblingStart(start, size) >= |chunks|))
    decreases Leaves(chunks) - size
  {
    hide IsRightHalf, TreeHash, PathHashed;
    var leaves := Leaves(chunks);
    if size >= leaves {
      AtRoot(leaves, start, size);
      assert PathHashed(hs, chunks, start, size) by { NoPath(hs, chunks, start, size); }
    } else {
      OneUp(leaves, start, size);
      PathHashedStep(hs, chunks, start, size);
      if SiblingStart(start, size) < |chunks| {
        ReachFacts(hs, chunks, ParentStart(start, size), 2 * size);
      }
    }
  }

  lemma NoPath(hs: Hasher, chunks: seq<bytes>, start: nat, size: nat)
    requires |chunks| >= 1 && size >= Leaves(chunks)
    ensures PathHashed(hs, chunks, start, size)
  {
  }

  /** With the seeder's hashes the climb ends with the hash of the reached range. */
  lemma {:induction false} UnknownReach(hs: Hasher, chunks: seq<bytes>, pend: MerkleHashmap, start: nat, size: nat)
    requires |chunks| >= 1 && IsDyadic(start, size) && start + size <= Leaves(chunks) && start < |chunks|
    requires TreeHash(hs, chunks, start, size).Some? && Genuine(hs, chunks, pend)
    requires PathAtHand(hs, chunks, pend, start, size)
    ensures var r := Reach(hs, chunks, start, size);
            && TreeHash(hs, chunks, r.start, r.size).Some?
            && ClimbUnknown(hs, pend, start, size, TreeHash(hs, chunks, start, size).value)
               == (TreeHash(hs, chunks, r.start, r.size).value, r.start + r.size - 1)
    decreases Leaves(chunks) - size
  {
    hide IsRightHalf, TreeHash, Top, PathAtHand, HashAt, Combine;
    var leaves := Leaves(chunks);
    if size >= leaves {
      AtRoot(leaves, start, size);
    } else {
      OneUp(leaves, start, size);
      PathAtHandStep(hs, chunks, pend, start, size);
      SiblingHash(hs, chunks, start, size);
      if SiblingStart(start, size) < |chunks| {
        ParentHash(hs, chunks, start, size);
        assert SiblingIndex(start, size) in pend.Keys;
        UnknownReach(hs, chunks, pend, ParentStart(start, size), 2 * size);
      }
    }
  }

  /** The range whose hash the first check compares with the root: without a message for the first
      sibling it is the pair of the chunk and padding. */
  function Compared(hs: Hasher, chunks: seq<bytes>, i: nat): Range
    requires |chunks| >= 1
  {
    var r := Reach(hs, chunks, i, 1);
    if r.size == 1 then Range(ParentStart(i, 1), 2) else r
  }

  /** The hash of the whole tree is the hash of no smaller range of it. */
  ghost predicate RootIsApart(hs: Hasher, chunks: seq<bytes>)
    requires |chunks| >= 1
  {
    forall s: nat, z: nat | IsDyadic(s, z) && s + z <= Leaves(chunks) && z < Leaves(chunks) ::
      TreeHash(hs, chunks, s, z) != Some(RootDigest(hs, chunks))
  }

  /** The coincidence is ruled out when no two strings that Make hashes collide and no chunk is as long
      as two digests. */
  lemma ApartUnlessCollision(hs: Hasher, chunks: seq<bytes>)
    requires hs.Valid() && |chunks| >= 1 && NoCollision(hs, SourceInputs(hs, chunks))
    requires forall k | 0 <= k < |chunks| :: |chunks[k]| != 2 * hs.size
    ensures RootIsApart(hs, chunks)
  {
    hide TreeHash, SourceInputs, NoCollision, IsDyadic, RootDigest;
    var leaves := Leaves(chunks);
    forall s: nat, z: nat | IsDyadic(s, z) && s + z <= leaves && z < leaves
      ensures TreeHash(hs, chunks, s, z) != Some(RootDigest(hs, chunks))
    {
      ZeroIsDyadic(leaves);
      RootHash(hs, chunks);
      if TreeHash(hs, chunks, s, z) == TreeHash(hs, chunks, 0, leaves) {
        SmallerDiffers(hs, chunks, s, z, 0, leaves);
      }
    }
  }

  /** Equal hashes of ranges of different size lead down to a chunk that is a pair of digests. */
  lemma {:induction false} SmallerDiffers(hs: Hasher, chunks: seq<bytes>, s: nat, z: nat, t: nat, y: nat)
    requires hs.Valid() && |chunks| >= 1 && NoCollision(hs, SourceInputs(hs, chunks))
    requires IsDyadic(s, z) && s + z <= Leaves(chunks) && IsDyadic(t, y) && t + y <= Leaves(chunks) && z < y
    requires TreeHash(hs, chunks, s, z).Some? && TreeHash(hs, chunks, t, y) == TreeHash(hs, chunks, s, z)
    ensures exists k :: 0 <= k < |chunks| && |chunks[k]| == 2 * hs.size
    decreases z
  {
    hide SourceInputs, NoCollision, IsDyadic, PowerOfTwo, Leaves, TreeHash;
    SourceInput(hs, chunks, s, z);
    SourceInput(hs, chunks, t, y);
    SameInput(hs, SourceInputs(hs, chunks), NodeInput(hs, chunks, s, z), NodeInput(hs, chunks, t, y));
    Halves(hs, chunks, t, y);
    Halves(hs, chunks, s, z);
    if z > 1 {
      var l := hs.OrZero(TreeHash(hs, chunks, s, z / 2));
      SameParts(l, hs.OrZero(TreeHash(hs, chunks, s + z / 2, z / 2)),
                hs.OrZero(TreeHash(hs, chunks, t, y / 2)), hs.OrZero(TreeHash(hs, chunks, t + y / 2, y / 2)));
      SmallerDiffers(hs, chunks, s, z / 2, t, y / 2);
    } else {
      assert |chunks[s]| == 2 * hs.size;
    }
  }

  /** The input of a node: a chunk, or two digests the first of which is not null. */
  lemma Halves(hs: Hasher, chunks: seq<bytes>, s: nat, z: nat)
    requires hs.Valid() && |chunks| >= 1 && IsDyadic(s, z) && s + z <= Leaves(chunks)
    requires TreeHash(hs, chunks, s, z).Some?
    ensures s < |chunks| && z >= 1
    ensures z == 1 ==> NodeInput(hs, chunks, s, z) == chunks[s]
    ensures z > 1 ==>
              && IsDyadic(s, z / 2) && z == 2 * (z / 2) && TreeHash(hs, chunks, s, z / 2).Some?
              && |hs.OrZero(TreeHash(hs, chunks, s, z / 2))| == hs.size
              && |hs.OrZero(TreeHash(hs, chunks, s + z / 2, z / 2))| == hs.size
              && NodeInput(hs, chunks, s, z) == hs.OrZero(TreeHash(hs, chunks, s, z / 2))
                                                + hs.OrZero(TreeHash(hs, chunks, s + z / 2, z / 2))
  {
    hide TreeHash;
    DyadicSize(s, z);
    NullExactlyForPadding(hs, chunks, s, z);
    if z > 1 {
      ChildrenOf(s, z / 2);
      NullExactlyForPadding(hs, chunks, s, z / 2);
      NullExactlyForPadding(hs, chunks, s + z / 2, z / 2);
    }
  }

  /** The first data packet in full, for every chunk: with the seeder's hashes, the check accepts
      exactly if the range it can reach has the root hash. It reaches the root exactly if no sibling is
      padding; then the size it records is the leaf count, which is right only for powers of two. */
  lemma FirstDataExact(hs: Hasher, chunks: seq<bytes>, v: Verifier, c: int, i: nat)
    requires |chunks| >= 2 && i < |chunks|
    requires v == UNKNOWN.(inte := map[c := Messages(hs, chunks, SentPeaks(chunks) + Needed(hs, chunks, i))])
    ensures var (accepted, after) := CheckUnknown(hs, RootDigest(hs, chunks), v, c, i, chunks[i]);
            var r, q := Reach(hs, chunks, i, 1), Compared(hs, chunks, i);
            && (accepted <==> TreeHash(hs, chunks, q.start, q.size) == Some(RootDigest(hs, chunks)))
            && (r.size == Leaves(chunks) <==> PathHashed(hs, chunks, i, 1))
            && (r.size == Leaves(chunks) ==> accepted)
            && (accepted ==> after.chunkRange == if r.size == 1 then 0 else r.start + r.size - 1)
            && (accepted && after.chunkRange == |chunks| - 1 <==>
                  PowerOfTwo(|chunks|) || (accepted && 1 < r.size < Leaves(chunks) && r.start + r.size == |chunks|))
            && (RootIsApart(hs, chunks) ==>
                  && (accepted <==> r.size == Leaves(chunks))
                  && (accepted && after.chunkRange == |chunks| - 1 <==> PowerOfTwo(|chunks|)))
  {
    hide TreeHash, Messages, IsRightHalf, SentPeaks, ClimbUnknown, UsedUnknown, Reach;
    var leaves, peaks, needed := Leaves(chunks), SentPeaks(chunks), Needed(hs, chunks, i);
    var pend := Messages(hs, chunks, peaks + needed);
    SingleIsDyadic(i);
    FirstMessages(hs, chunks, i);
    LeafHash(hs, chunks, i);
    OneUp(leaves, i, 1);
    SiblingNeeded(leaves, i);
    ReachFacts(hs, chunks, i, 1);
    RootHash(hs, chunks);
    PowerIsCeil(|chunks|);
    if Reach(hs, chunks, i, 1).size == 1 {
      assert |chunks| < leaves && 2 < leaves by { EvenLeaves(chunks, i); }
      PaddedFirst(hs, chunks, i);
    } else {
      FirstAtHand(hs, chunks, i);
      UnknownReach(hs, chunks, pend, i, 1);
    }
    if |chunks| == leaves {
      WholeReached(hs, chunks, i);
    }
  }

  /** The messages sent first are, on the path, exactly those for siblings that are not padding. */
  lemma FirstAtHand(hs: Hasher, chunks: seq<bytes>, i: nat)
    requires |chunks| >= 2 && i < |chunks|
    ensures var pend := Messages(hs, chunks, SentPeaks(chunks) + Needed(hs, chunks, i));
            && PathAtHand(hs, chunks, pend, i, 1)
            && (SiblingStart(i, 1) < |chunks| ==> SiblingIndex(i, 1) in pend)
  {
    hide Messages, SentPeaks, IsRightHalf;
    var pend := Messages(hs, chunks, SentPeaks(chunks) + Needed(hs, chunks, i));
    SingleIsDyadic(i);
    OneUp(Leaves(chunks), i, 1);
    SiblingNeeded(Leaves(chunks), i);
    FirstMessages(hs, chunks, i);
    forall x: int | x in Path(Leaves(chunks), i, 1) ensures x >= 0 && (x in pend <==> HashAt(hs, chunks, x).Some?) {
      PathNodes(Leaves(chunks), i, 1, x);
      assert x in pend <==> x in pend.Keys;
    }
    NullExactlyForPadding(hs, chunks, SiblingStart(i, 1), 1);
  }

  lemma EvenLeaves(chunks: seq<bytes>, i: nat)
    requires |chunks| >= 2 && i < |chunks| <= SiblingStart(i, 1) && SiblingStart(i, 1) + 1 <= Leaves(chunks)
    ensures 2 < Leaves(chunks) && |chunks| < Leaves(chunks)
  {
  }

  /** A full tree has no padding. */
  lemma WholeReached(hs: Hasher, chunks: seq<bytes>, i: nat)
    requires |chunks| >= 2 && i < |chunks| && |chunks| == Leaves(chunks)
    ensures Reach(hs, chunks, i, 1) == Range(0, Leaves(chunks))
  {
    hide TreeHash, Reach;
    SingleIsDyadic(i);
    LeafHash(hs, chunks, i);
    ReachFacts(hs, chunks, i, 1);
    forall x: int | x in Path(Leaves(chunks), i, 1) ensures x >= 0 && HashAt(hs, chunks, x).Some? {
      LeftHalfPath(hs, chunks, i, 1, x);
    }
  }

  /** A chunk whose sibling is padding: no message is there, and the pair has the hash of the chunk
      joined with a null hash. */
  lemma PaddedFirst(hs: Hasher, chunks: seq<bytes>, i: nat)
    requires |chunks| >= 2 && i < |chunks| <= SiblingStart(i, 1)
    requires SiblingStart(i, 1) < Leaves(chunks)
    ensures TreeHash(hs, chunks, ParentStart(i, 1), 2) == hs.EncryptLR(Some(hs.sum(chunks[i])), None)
    ensures SiblingIndex(i, 1) !in Messages(hs, chunks, SentPeaks(chunks) + Needed(hs, chunks, i))
    ensures IsDyadic(ParentStart(i, 1), 2) && ParentStart(i, 1) + 2 <= Leaves(chunks)
  {
    hide IsRightHalf, PeakSet, TreeHash, MadeNode;
    var s := SiblingStart(i, 1);
    SingleIsDyadic(i);
    SiblingFacts(i, 1);
    LeafHash(hs, chunks, i);
    ParentHash(hs, chunks, i, 1);
    NullExactlyForPadding(hs, chunks, s, 1);
    IndexOfRange(s, 1);
    if Index(s, 1) in SentPeaks(chunks) {
      PeaksAreNodes(hs, chunks, Index(s, 1));
    }
  }

  lemma RootHash(hs: Hasher, chunks: seq<bytes>)
    requires |chunks| >= 1
    ensures TreeHash(hs, chunks, 0, Leaves(chunks)) == Some(RootDigest(hs, chunks))
  {
    NullExactlyForPadding(hs, chunks, 0, Leaves(chunks));
  }

  /** All that is sent first are hashes of tree nodes. */
  lemma FirstMessages(hs: Hasher, chunks: seq<bytes>, i: nat)
    requires |chunks| >= 2 && i < |chunks|
    ensures var ks := SentPeaks(chunks) + Needed(hs, chunks, i);
            && (forall x: int | x in ks :: 0 <= x < 2 * Leaves(chunks) - 1 && HashAt(hs, chunks, x).Some?)
            && Genuine(hs, chunks, Messages(hs, chunks, ks)) && Messages(hs, chunks, ks).Keys == ks
  {
    hide TreeHash, Messages, SentPeaks, IsRightHalf;
    SingleIsDyadic(i);
    forall x: int | x in SentPeaks(chunks) + Needed(hs, chunks, i)
      ensures 0 <= x < 2 * Leaves(chunks) - 1 && HashAt(hs, chunks, x).Some?
    {
      if x in SentPeaks(chunks) {
        PeaksAreNodes(hs, chunks, x);
      } else {
        PathNodes(Leaves(chunks), i, 1, x);
      }
    }
    MessagesGenuine(hs, chunks, SentPeaks(chunks) + Needed(hs, chunks, i));
  }

  lemma NeededIsPath(hs: Hasher, chunks: seq<bytes>, i: nat)
    requires |chunks| >= 2 && i < |chunks| && Reach(hs, chunks, i, 1).size == Leaves(chunks)
    ensures Needed(hs, chunks, i) == Path(Leaves(chunks), i, 1)
  {
    hide TreeHash, Reach;
    SingleIsDyadic(i);
    LeafHash(hs, chunks, i);
    ReachFacts(hs, chunks, i, 1);
  }

  /** No padding on the path: the data packet is accepted, the size is taken to be the leaf count, and
      the hashes it needed move to the shared tree, peaks among them. */
  lemma FirstDataAccepted(hs: Hasher, chunks: seq<bytes>, v: Verifier, c: int, i: nat)
    requires |chunks| >= 2 && i < |chunks| && Reach(hs, chunks, i, 1).size == Leaves(chunks)
    requires v == UNKNOWN.(inte := map[c := Messages(hs, chunks, SentPeaks(chunks) + Needed(hs, chunks, i))])
    ensures CheckUnknown(hs, RootDigest(hs, chunks), v, c, i, chunks[i])
         == (true, v.(chunkRange := Leaves(chunks) - 1, lastChunkIndex := (Leaves(chunks) - 1) * 2,
                      leafNodeCount := Leaves(chunks),
                      tree := Messages(hs, chunks, Needed(hs, chunks, i)),
                      inte := map[c := Messages(hs, chunks, SentPeaks(chunks) - Needed(hs, chunks, i))]))
  {
    hide TreeHash, Messages, IsRightHalf, SentPeaks, Needed, ClimbUnknown, UsedUnknown, HashAt, Reach;
    var leaves, peaks, needed := Leaves(chunks), SentPeaks(chunks), Needed(hs, chunks, i);
    var pend := Messages(hs, chunks, peaks + needed);
    SingleIsDyadic(i);
    NeededIsPath(hs, chunks, i);
    FirstMessages(hs, chunks, i);
    LeafHash(hs, chunks, i);
    UnknownClimb(hs, chunks, pend, i, 1);
    SiblingNeeded(leaves, i);
    SplitMessages(hs, chunks, peaks, needed);
    assert SiblingIndex(i, 1) in pend.Keys;
    assert map[c := pend][c := pend - needed] == map[c := pend - needed];
    assert Messages(hs, chunks, needed) + map[] == Messages(hs, chunks, needed);
  }

  lemma SiblingNeeded(leaves: nat, i: nat)
    requires leaves >= 2
    ensures SiblingIndex(i, 1) in Path(leaves, i, 1)
  {
  }

  lemma SplitMessages(hs: Hasher, chunks: seq<bytes>, a: set<int>, b: set<int>)
    requires |chunks| >= 1
    ensures Restrict(Messages(hs, chunks, a + b), b) == Messages(hs, chunks, b)
    ensures Messages(hs, chunks, a + b) - b == Messages(hs, chunks, a - b)
  {
    hide MadeNode;
  }
}
