/** What the verdict of the data check depends on, and what it leaves behind: nothing when a packet is
    rejected, and the move of exactly the used hashes when it is accepted. */
module Verdicts {
  import opened Bits
  import opened Bytes
  import opened Dyadic
  import opened Merkle
  import opened Paths
  import opened Verification
  import opened Sender
  import opened Completeness
  import opened Soundness
  import opened PeakExchange
  import opened FirstData
  import opened FirstContact
  import opened Relay

  // -------------------------------------------------------------------------------- rejected

  /** A rejected packet changes nothing, whichever branch rejects it, and only a packet with data for a
      single chunk can be accepted. */
  lemma RejectedChangesNothing(hs: Hasher, chunkSize: nat, root: bytes, v: Verifier, c: int, d: Data)
    ensures !CheckData(hs, chunkSize, root, v, c, d).0 ==> CheckData(hs, chunkSize, root, v, c, d).1 == v
    ensures CheckData(hs, chunkSize, root, v, c, d).0 ==> d.buffer.Some? && d.startChunk == d.endChunk
  {
    hide ClimbKnown, ClimbUnknown, UsedKnown, UsedUnknown, Commit;
  }

  /** Every message is a packet that is rejected when it arrives. */
  ghost predicate AllRejected(hs: Hasher, chunkSize: nat, root: bytes, v: Verifier, ms: seq<Message>) {
    forall k | 0 <= k < |ms| ::
      && ms[k].DataMessage?
      && !CheckData(hs, chunkSize, root, DeliverAll(hs, chunkSize, root, v, ms[..k]), ms[k].channel, ms[k].data).0
  }

  /** Any number of rejected packets on any channels leaves the peer as it was. */
  lemma {:induction false} RejectedRun(hs: Hasher, chunkSize: nat, root: bytes, v: Verifier, ms: seq<Message>)
    requires AllRejected(hs, chunkSize, root, v, ms)
    ensures DeliverAll(hs, chunkSize, root, v, ms) == v
    decreases |ms|
  {
    hide CheckData;
    if ms != [] {
      var init, last := ms[..|ms| - 1], ms[|ms| - 1];
      forall k | 0 <= k < |init| ensures init[..k] == ms[..k] && init[k] == ms[k] {
      }
      RejectedRun(hs, chunkSize, root, v, init);
      RejectedChangesNothing(hs, chunkSize, root, v, last.channel, last.data);
    }
  }

  /** A first contact that is preceded by any number of rejected packets ends like one that is not: the
      seeder never repeats a hash, but none has been lost. */
  lemma RetriedFirstContact(hs: Hasher, chunkSize: nat, chunks: seq<bytes>, c: int, i: nat, order: seq<int>, ms: seq<Message>,
                            dataOk: bool, v1: Verifier, peakOk: bool, v2: Verifier)
    requires |chunks| >= 2 && i < |chunks|
    requires var tree := MadeTree(hs, chunks, Leaves(chunks));
             Elements(order) == SentPeaks(chunks) + Sending(tree, {}, i, 1)
    requires var v0 := UNKNOWN.(inte := AddAll(hs, chunks, map[], c, order));
             && AllRejected(hs, chunkSize, RootDigest(hs, chunks), v0, ms)
             && FirstPacket(hs, chunks, DeliverAll(hs, chunkSize, RootDigest(hs, chunks), v0, ms), c, i,
                            dataOk, v1, peakOk, v2)
    ensures FirstContactWorks(|chunks|, i) ==> dataOk && peakOk && v1.chunkRange == Leaves(chunks) - 1
    ensures FirstContactWorks(|chunks|, i) ==> SizeLearnt(hs, chunks, c, i, v2)
    ensures RootIsApart(hs, chunks) ==> (dataOk && peakOk <==> FirstContactWorks(|chunks|, i))
  {
    hide MadeTree, Sending, SentPeaks, RootDigest, AddAll, FirstPacket, AllRejected, SizeLearnt, RootIsApart, FirstContactWorks;
    hide DeliverAll, Elements;
    RejectedRun(hs, chunkSize, RootDigest(hs, chunks), UNKNOWN.(inte := AddAll(hs, chunks, map[], c, order)), ms);
    FirstContactSucceeds(hs, chunks, c, i, order, dataOk, v1, peakOk, v2);
  }

  /** For instance two chunks: after a corrupted chunk 0 the genuine one is accepted. */
  lemma TwoChunksRetried(hs: Hasher, chunkSize: nat, a: bytes, b: bytes, wrong: bytes, c: int)
    ensures var root := RootDigest(hs, [a, b]);
            var v := UNKNOWN.(inte := AddReceived(map[], c, Integrity(1, 1, hs.sum(b))));
            var after := CheckData(hs, chunkSize, root, v, c, Data(0, 0, Some(wrong))).1;
            CheckData(hs, chunkSize, root, v, c, Data(0, 0, Some(wrong))).0
            || CheckData(hs, chunkSize, root, after, c, Data(0, 0, Some(a))).0
  {
    var chunks := [a, b];
    var root := RootDigest(hs, chunks);
    var v := UNKNOWN.(inte := AddReceived(map[], c, Integrity(1, 1, hs.sum(b))));
    RejectedChangesNothing(hs, chunkSize, root, v, c, Data(0, 0, Some(wrong)));
    assert CeilPower(2) == 2 && Leaves(chunks) == 2;
    assert TreeHash(hs, chunks, 0, 1) == Some(hs.sum(a)) && TreeHash(hs, chunks, 1, 1) == Some(hs.sum(b));
    JoinHalves(hs, chunks, 0, 1);
    assert root == hs.sum(hs.sum(a) + hs.sum(b));
    assert SiblingStart(0, 1) == 1 && SiblingIndex(0, 1) == 2 && SiblingIndex(0, 2) == 5;
    var pend := Pending(v.inte, c);
    assert pend.Keys == {2} && pend[2].hash == Some(hs.sum(b));
    assert ClimbUnknown(hs, pend, 0, 2, root) == (root, 1);
    assert ClimbUnknown(hs, pend, 0, 1, hs.sum(a)) == (root, 1);
  }

  // -------------------------------------------------------------------------------- accepted

  /** What an accepted packet changes: hashes leave its channel for the shared tree, where those already
      present stay; other channels, peaks and a known size are not touched. */
  lemma AcceptedMoves(hs: Hasher, chunkSize: nat, root: bytes, v: Verifier, c: int, d: Data)
    requires CheckData(hs, chunkSize, root, v, c, d).0
    ensures var w := CheckData(hs, chunkSize, root, v, c, d).1;
            var before, left := Pending(v.inte, c), Pending(w.inte, c);
            && w.inte.Keys == v.inte.Keys
            && (forall e: int | e in v.inte && e != c :: w.inte[e] == v.inte[e])
            && IsPart(left, before)
            && w.tree.Keys == v.tree.Keys + (before.Keys - left.Keys)
            && (forall x: int | x in w.tree :: w.tree[x] == if x in v.tree then v.tree[x] else before[x])
            && w.peaks == v.peaks && w.isPeakMapCreated == v.isPeakMapCreated
            && (v.chunkRange >= 0 ==>
                  w.chunkRange == v.chunkRange && w.lastChunkIndex == v.lastChunkIndex && w.leafNodeCount == v.leafNodeCount)
  {
    hide ClimbKnown, ClimbUnknown, UsedKnown, UsedUnknown, Commit;
    var i, b, pend := d.startChunk, d.buffer.value, Pending(v.inte, c);
    if v.chunkRange >= 0 {
      var used := UsedKnown(pend, v.leafNodeCount, v.chunkRange, i, 1);
      CommitMoves(v, v, c, used);
      CommitMoves(v, v.(contentSize := chunkSize * v.chunkRange + |b|, lastChunkSize := |b|), c, used);
    } else if SiblingIndex(i, 1) in pend {
      var end := ClimbUnknown(hs, pend, i, 1, hs.sum(b)).1;
      CommitMoves(v, v.(chunkRange := end, lastChunkIndex := end * 2, leafNodeCount := end + 1), c,
                  UsedUnknown(pend, i, 1));
    } else {
      assert pend.Keys - pend.Keys == {};
    }
  }

  lemma CommitMoves(v: Verifier, v': Verifier, c: int, used: set<int>)
    requires v'.tree == v.tree && v'.inte == v.inte
    ensures var w := Commit(v', c, used);
            var before, left := Pending(v.inte, c), Pending(w.inte, c);
            && w.inte.Keys == v.inte.Keys
            && (forall e: int | e in v.inte && e != c :: w.inte[e] == v.inte[e])
            && IsPart(left, before) && left.Keys == before.Keys - used
            && w.tree.Keys == v.tree.Keys + (before.Keys - left.Keys)
            && (forall x: int | x in w.tree :: w.tree[x] == if x in v.tree then v.tree[x] else before[x])
            && w == v'.(tree := w.tree, inte := w.inte)
  {
  }

  /** With a known size exactly those messages are used that lie on the packet's path and whose range
      begins within the content. */
  lemma {:induction false} UsedIsOnPath(pend: MerkleHashmap, leaves: nat, range: int, start: nat, size: nat, x: int)
    requires IsDyadic(start, size) && PowerOfTwo(leaves) && start + size <= leaves
    ensures x in UsedKnown(pend, leaves, range, start, size)
       <==> x in Path(leaves, start, size) && x >= 0 && StartOf(x) <= range && x in pend
    decreases leaves - size
  {
    hide IsRightHalf, StartOf, SizeOf;
    if size >= leaves {
      AtRoot(leaves, start, size);
    } else {
      OneUp(leaves, start, size);
      UsedIsOnPath(pend, leaves, range, ParentStart(start, size), 2 * size, x);
    }
  }

  /** With an unknown size the climb covers the range [s, s + z): the message for its sibling is the first
      that is missing, and those used are the siblings on the way up to it. */
  lemma {:induction false} UsedUpToMissing(hs: Hasher, pend: MerkleHashmap, start: nat, size: nat, h: bytes)
    returns (s: nat, z: nat)
    requires size >= 1
    ensures z >= size && ClimbUnknown(hs, pend, start, size, h).1 == s + z - 1
    ensures SiblingIndex(s, z) !in pend
    ensures UsedUnknown(pend, start, size) == Path(z, start, size) <= pend.Keys
    decreases Top(pend.Keys) + 2 - size
  {
    hide IsRightHalf, Combine, Top;
    var x, p := SiblingIndex(start, size), ParentStart(start, size);
    SiblingNonNegative(start, size);
    if x in pend {
      assert x in pend.Keys;
      s, z := UsedUpToMissing(hs, pend, p, 2 * size, Combine(hs, start, size, h, pend[x].hash));
    } else {
      s, z := start, size;
    }
  }

  // ---------------------------------------------------------------------------- exact verdict

  /** Each hash the chunk needs is right on its channel, or missing there and present in the tree. */
  ghost predicate RightAtHand(hs: Hasher, chunks: seq<bytes>, tree: MerkleHashmap, pend: MerkleHashmap, i: nat)
    requires |chunks| >= 1
  {
    forall x: int | x in Needed(hs, chunks, i) ::
      if x in pend then pend[x].hash == HashAt(hs, chunks, x) else x in tree
  }

  /** The exact verdict on a genuine chunk, whatever hashes others have sent: it is accepted if and only
      if for each hash it needs the one on its own channel is right, or there is none and the shared
      tree has it. A wrong hash on the channel is not made up for by a right one in the tree. */
  lemma GenuineAcceptedIff(hs: Hasher, chunkSize: nat, chunks: seq<bytes>, v: Verifier, c: int, i: nat)
    requires hs.Valid() && |chunks| >= 2 && Sound(hs, chunks, v) && i < |chunks|
    requires NoCollision(hs, InputsOf(hs, v, DataMessage(c, Data(i, i, Some(chunks[i])))) + SourceInputs(hs, chunks))
    ensures CheckKnown(hs, chunkSize, RootDigest(hs, chunks), v, c, i, chunks[i]).0
       <==> RightAtHand(hs, chunks, v.tree, Pending(v.inte, c), i)
  {
    hide TreeHash, SourceInputs, ClimbInputs, ClimbKnown, UsedKnown, NoCollision, HashAt, IsRightHalf;
    var pend, leaves, range, h := Pending(v.inte, c), Leaves(chunks), |chunks| - 1, hs.sum(chunks[i]);
    SingleIsDyadic(i);
    LeafHash(hs, chunks, i);
    if ClimbKnown(hs, v.tree, pend, leaves, range, i, 1, h) == Some(RootDigest(hs, chunks)) {
      var all := InputsOf(hs, v, DataMessage(c, Data(i, i, Some(chunks[i])))) + SourceInputs(hs, chunks);
      FewerInputs(hs, all, ClimbInputs(hs, v.tree, pend, leaves, range, i, 1, h) + SourceInputs(hs, chunks));
      HonestDescent(hs, chunks, v.tree, pend, i, 1, h);
      forall x: int | x in Needed(hs, chunks, i)
        ensures if x in pend then pend[x].hash == HashAt(hs, chunks, x) else x in v.tree
      {
        NeededFacts(hs, chunks, i, x);
        ClimbUses(hs, chunks, v.tree, pend, i, 1, h, x);
        UsedIsOnPath(pend, leaves, range, i, 1, x);
        if x in pend {
          assert x in UsedKnown(pend, leaves, range, i, 1);
          assert Lookup(v.tree, pend, x) == HashAt(hs, chunks, x);
        }
      }
    } else if RightAtHand(hs, chunks, v.tree, pend, i) {
      RightOnPath(hs, chunks, v.tree, pend, i);
      RightClimb(hs, chunks, v.tree, pend, i, 1);
    }
  }

  lemma NeededFacts(hs: Hasher, chunks: seq<bytes>, i: nat, x: int)
    requires |chunks| >= 2 && i < |chunks| && x in Needed(hs, chunks, i)
    ensures x in Path(Leaves(chunks), i, 1) && x >= 0 && HashAt(hs, chunks, x).Some? && StartOf(x) < |chunks|
  {
    hide TreeHash;
    SingleIsDyadic(i);
    PathNodes(Leaves(chunks), i, 1, x);
    RangeOfIndex(x);
    DyadicSize(StartOf(x), SizeOf(x));
    NullExactlyForPadding(hs, chunks, StartOf(x), SizeOf(x));
  }

  /** What is looked up on the way to the root is right. */
  ghost predicate PathRight(hs: Hasher, chunks: seq<bytes>, tree: MerkleHashmap, pend: MerkleHashmap, start: nat, size: nat)
    requires |chunks| >= 1 && size >= 1
  {
    forall x: int | x in Path(Leaves(chunks), start, size) ::
      x >= 0 && (HashAt(hs, chunks, x).Some? ==> Lookup(tree, pend, x) == HashAt(hs, chunks, x))
  }

  lemma RightOnPath(hs: Hasher, chunks: seq<bytes>, tree: MerkleHashmap, pend: MerkleHashmap, i: nat)
    requires |chunks| >= 2 && i < |chunks| && Genuine(hs, chunks, tree)
    requires RightAtHand(hs, chunks, tree, pend, i)
    ensures PathRight(hs, chunks, tree, pend, i, 1)
  {
    hide TreeHash, HashAt;
    SingleIsDyadic(i);
    forall x: int | x in Path(Leaves(chunks), i, 1)
      ensures x >= 0 && (HashAt(hs, chunks, x).Some? ==> Lookup(tree, pend, x) == HashAt(hs, chunks, x))
    {
      PathNodes(Leaves(chunks), i, 1, x);
      if HashAt(hs, chunks, x).Some? {
        assert x in Needed(hs, chunks, i);
      }
    }
  }

  lemma {:induction false} RightClimb(hs: Hasher, chunks: seq<bytes>, tree: MerkleHashmap, pend: MerkleHashmap,
                                      start: nat, size: nat)
    requires |chunks| >= 1 && IsDyadic(start, size) && start + size <= Leaves(chunks) && start < |chunks|
    requires PathRight(hs, chunks, tree, pend, start, size)
    ensures TreeHash(hs, chunks, start, size).Some?
    ensures ClimbKnown(hs, tree, pend, Leaves(chunks), |chunks| - 1, start, size, TreeHash(hs, chunks, start, size).value)
         == Some(RootDigest(hs, chunks))
    decreases Leaves(chunks) - size
  {
    hide IsRightHalf, TreeHash, HashAt, Combine, Lookup;
    var leaves := Leaves(chunks);
    DyadicSize(start, size);
    NullExactlyForPadding(hs, chunks, start, size);
    if size >= leaves {
      AtRoot(leaves, start, size);
      RootHash(hs, chunks);
    } else {
      OneUp(leaves, start, size);
      SiblingHash(hs, chunks, start, size);
      var x, p := SiblingIndex(start, size), ParentStart(start, size);
      assert Path(leaves, start, size) == {x} + Path(leaves, p, 2 * size);
      assert x in Path(leaves, start, size);
      ParentHash(hs, chunks, start, size);
      RightClimb(hs, chunks, tree, pend, p, 2 * size);
    }
  }

  // ------------------------------------------------------------------------ a single chunk

  /** A content of one chunk has the hash of the chunk joined with a null hash as its root. A peer that
      knows this root and no hashes accepts exactly the chunk, learns its size, and accepts it again. */
  lemma LoneChunk(hs: Hasher, chunkSize: nat, a: bytes, b: bytes, c: int, i: nat)
    requires hs.Valid() && NoCollision(hs, {a, b, hs.sum(a) + Zeros(hs.size), hs.sum(b) + Zeros(hs.size)})
    ensures TreeHash(hs, [a], 0, 2).Some?
    ensures var root := TreeHash(hs, [a], 0, 2).value;
            var (accepted, w) := CheckData(hs, chunkSize, root, UNKNOWN, c, Data(i, i, Some(b)));
            && (accepted <==> b == a)
            && (accepted ==>
                  && w == UNKNOWN.(chunkRange := 0, lastChunkIndex := 0, leafNodeCount := 2, contentSize := |a|,
                                   lastChunkSize := |a|)
                  && CheckData(hs, chunkSize, root, w, c, Data(0, 0, Some(a))).0)
  {
    var x, y := hs.sum(a) + Zeros(hs.size), hs.sum(b) + Zeros(hs.size);
    assert TreeHash(hs, [a], 0, 1) == Some(hs.sum(a)) && TreeHash(hs, [a], 1, 1) == None;
    JoinHalves(hs, [a], 0, 1);
    if hs.sum(x) == hs.sum(y) {
      SameParts(hs.sum(a), Zeros(hs.size), hs.sum(b), Zeros(hs.size));
    }
    assert SiblingStart(0, 1) == 1 && SiblingIndex(0, 1) == 2 && SiblingIndex(0, 2) == 5;
  }

  // ------------------------------------------------------------------------------- arriving

  /** A message replaces what its channel had under start + end and touches nothing else. */
  lemma ArrivalFacts(inte: IntegrityMaps, c: int, m: Integrity)
    ensures var after, x := AddReceived(inte, c, m), m.startChunk + m.endChunk;
            && Pending(after, c).Keys == Pending(inte, c).Keys + {x}
            && Pending(after, c)[x].hash == Some(m.hash) && Pending(after, c)[x].treeIndex == x
            && Pending(after, c)[x].startChunk == m.startChunk && Pending(after, c)[x].endChunk == m.endChunk
            && (forall y: int | y in Pending(inte, c) && y != x :: Pending(after, c)[y] == Pending(inte, c)[y])
            && (forall e: int | e != c :: Pending(after, e) == Pending(inte, e))
  {
  }
}
