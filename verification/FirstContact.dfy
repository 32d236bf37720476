/** The first exchange with a peer that knows nothing but the root hash: the seeder sends its peak
    hashes, the hashes for the first chunk asked for and the chunk; the peer learns the size, or not. */
module FirstContact {
  import opened Bits
  import opened Bytes
  import opened Dyadic
  import opened Merkle
  import opened Paths
  import opened Verification
  import opened Sender
  import opened Completeness
  import opened Peaks
  import opened PeakExchange
  import opened LatePeaks
  import opened FirstData

  /** Both checks of the first data packet, as ReceiveData runs them: the second one only after the
      first has succeeded. */
  ghost predicate FirstPacket(hs: Hasher, chunks: seq<bytes>, v: Verifier, c: int, i: nat,
                              dataOk: bool, v1: Verifier, peakOk: bool, v2: Verifier)
    requires |chunks| >= 1 && i < |chunks|
  {
    && (dataOk, v1) == CheckUnknown(hs, RootDigest(hs, chunks), v, c, i, chunks[i])
    && if dataOk then PeakOutcome(hs, RootDigest(hs, chunks), v1, c, peakOk, v2) else !peakOk && v2 == v1
  }

  /** When first contact works: for any first chunk if the chunk count is a power of two, else for
      the chunks of the left half of the tree, provided one chunk less is no power of two. */
  predicate FirstContactWorks(n: nat, i: nat)
    requires n >= 1
  {
    PowerOfTwo(n) || (i < CeilPower(n) / 2 && !PowerOfTwo(n - 1))
  }

  /** First contact, for every chunk count and every first chunk, whatever the order in which the peak
      hashes and the hashes for the chunk arrive. If it works, the data packet passes both checks, the
      size becomes known, and the peer is in an honest session with the seeder, from where every later
      chunk is accepted. In all other cases one of the two checks fails, unless the root hash happens
      to be the hash of a smaller range of the tree. */
  lemma FirstContactSucceeds(hs: Hasher, chunks: seq<bytes>, c: int, i: nat, order: seq<int>,
                             dataOk: bool, v1: Verifier, peakOk: bool, v2: Verifier)
    requires |chunks| >= 2 && i < |chunks|
    requires var tree := MadeTree(hs, chunks, Leaves(chunks));
             Elements(order) == SentPeaks(chunks) + Sending(tree, {}, i, 1)
    requires FirstPacket(hs, chunks, UNKNOWN.(inte := AddAll(hs, chunks, map[], c, order)), c, i, dataOk, v1, peakOk, v2)
    ensures FirstContactWorks(|chunks|, i) ==> dataOk && peakOk && v1.chunkRange == Leaves(chunks) - 1
    ensures FirstContactWorks(|chunks|, i) ==> SizeLearnt(hs, chunks, c, i, v2)
    ensures RootIsApart(hs, chunks) ==> (dataOk && peakOk <==> FirstContactWorks(|chunks|, i))
  {
    hide MadeTree, TreeHash, Messages, PeakSet, HashAt, AddAll, FirstPacket, SizeLearnt, RootIsApart, FirstContactWorks;
    var leaves, peaks, needed := Leaves(chunks), SentPeaks(chunks), Needed(hs, chunks, i);
    NoneSentYet(hs, chunks, i);
    FirstMessages(hs, chunks, i);
    SomethingNeeded(hs, chunks, i);
    forall x: int | x in order ensures 0 <= x < 2 * leaves - 1 {
      assert x in Elements(order);
    }
    OrderIsIrrelevant(hs, chunks, c, order);
    var x :| x in needed;
    assert x in Elements(order);
    FirstContactStored(hs, chunks, c, i, dataOk, v1, peakOk, v2);
  }

  /** What the peer has after a first contact that works. */
  ghost predicate SizeLearnt(hs: Hasher, chunks: seq<bytes>, c: int, i: nat, v: Verifier)
    requires |chunks| >= 1
  {
    && v.lastChunkIndex == 2 * (|chunks| - 1) && v.isPeakMapCreated
    && v.contentSize == 0 && v.lastChunkSize == 0
    && v.peaks == Messages(hs, chunks, SentPeaks(chunks)) && Needed(hs, chunks, i) <= v.tree.Keys
    && var sent := map[c := Needed(hs, chunks, i)]; Honest(hs, chunks, Session(sent, sent, v))
  }

  /** Every chunk needs the hash of the other half of the tree. */
  lemma SomethingNeeded(hs: Hasher, chunks: seq<bytes>, i: nat)
    requires |chunks| >= 2 && i < |chunks|
    ensures Needed(hs, chunks, i) != {}
  {
    hide TreeHash, IsRightHalf;
    var leaves := Leaves(chunks);
    var half := leaves / 2;
    var s := if i < half then half else 0;
    SingleIsDyadic(i);
    OtherHalfOnPath(leaves, i, 1);
    ZeroIsDyadic(half);
    PowerIsMultiple(half, half);
    IndexOfRange(s, half);
    NullExactlyForPadding(hs, chunks, s, half);
    assert Index(s, half) in Needed(hs, chunks, i);
  }

  /** The same from the map of stored messages. */
  lemma FirstContactStored(hs: Hasher, chunks: seq<bytes>, c: int, i: nat,
                           dataOk: bool, v1: Verifier, peakOk: bool, v2: Verifier)
    requires |chunks| >= 2 && i < |chunks|
    requires var ks := SentPeaks(chunks) + Needed(hs, chunks, i);
             FirstPacket(hs, chunks, UNKNOWN.(inte := map[c := Messages(hs, chunks, ks)]), c, i, dataOk, v1, peakOk, v2)
    ensures FirstContactWorks(|chunks|, i) ==> dataOk && peakOk && v1.chunkRange == Leaves(chunks) - 1
    ensures FirstContactWorks(|chunks|, i) ==> SizeLearnt(hs, chunks, c, i, v2)
    ensures RootIsApart(hs, chunks) ==> (dataOk && peakOk <==> FirstContactWorks(|chunks|, i))
  {
    hide FirstPacket, SizeLearnt, RootIsApart, Messages, SentPeaks, Needed;
    PowerIsCeil(|chunks|);
    if FirstContactWorks(|chunks|, i) {
      WorkingContact(hs, chunks, c, i, dataOk, v1, peakOk, v2);
    } else if i < Leaves(chunks) / 2 {
      MisjudgedContact(hs, chunks, c, i, dataOk, v1, peakOk, v2);
    } else if Reach(hs, chunks, i, 1).size == Leaves(chunks) {
      RightHalfContact(hs, chunks, c, i, dataOk, v1, peakOk, v2);
    } else {
      PaddedContact(hs, chunks, c, i, dataOk, v1, peakOk, v2);
    }
  }

  lemma WorkingContact(hs: Hasher, chunks: seq<bytes>, c: int, i: nat,
                       dataOk: bool, v1: Verifier, peakOk: bool, v2: Verifier)
    requires |chunks| >= 2 && i < |chunks| && FirstContactWorks(|chunks|, i)
    requires var ks := SentPeaks(chunks) + Needed(hs, chunks, i);
             FirstPacket(hs, chunks, UNKNOWN.(inte := map[c := Messages(hs, chunks, ks)]), c, i, dataOk, v1, peakOk, v2)
    ensures dataOk && peakOk && v1.chunkRange == Leaves(chunks) - 1 && SizeLearnt(hs, chunks, c, i, v2)
  {
    hide MadeTree, TreeHash, Messages, PeakSet, Needed, HashAt, CheckUnknown, PeakOutcome, Path, Honest, Reach;
    var peaks, needed := SentPeaks(chunks), Needed(hs, chunks, i);
    PowerIsCeil(|chunks|);
    NeededOnLeft(hs, chunks, i);
    assert peaks - needed == peaks;
    forall x: int | x in peaks ensures 0 <= x < 2 * Leaves(chunks) - 1 && HashAt(hs, chunks, x).Some? {
      PeaksAreNodes(hs, chunks, x);
    }
    FirstDataAccepted(hs, chunks, UNKNOWN.(inte := map[c := Messages(hs, chunks, peaks + needed)]), c, i);
    MessagesGenuine(hs, chunks, needed);
    MessagesGenuine(hs, chunks, peaks);
    SecondCheck(hs, chunks, v1, c, needed, peakOk, v2);
  }

  /** One chunk more than a power of two: the peak check misjudges the leaf count. */
  lemma MisjudgedContact(hs: Hasher, chunks: seq<bytes>, c: int, i: nat,
                         dataOk: bool, v1: Verifier, peakOk: bool, v2: Verifier)
    requires 2 <= |chunks| < Leaves(chunks) && i < Leaves(chunks) / 2 && i < |chunks| && PowerOfTwo(|chunks| - 1)
    requires var ks := SentPeaks(chunks) + Needed(hs, chunks, i);
             FirstPacket(hs, chunks, UNKNOWN.(inte := map[c := Messages(hs, chunks, ks)]), c, i, dataOk, v1, peakOk, v2)
    ensures dataOk && (peakOk <==> hs.sum(chunks[|chunks| - 1]) == RootDigest(hs, chunks))
    ensures RootIsApart(hs, chunks) ==> !peakOk
  {
    hide TreeHash, Messages, PeakSet, Needed, CheckUnknown, PeakOutcome, Path, Reach, RootDigest;
    var peaks, needed := SentPeaks(chunks), Needed(hs, chunks, i);
    NeededOnLeft(hs, chunks, i);
    assert peaks - needed == peaks;
    FirstDataAccepted(hs, chunks, UNKNOWN.(inte := map[c := Messages(hs, chunks, peaks + needed)]), c, i);
    SmallCounts(chunks);
    PeakRoundTrip(hs, chunks, v1, c, peakOk, v2);
    LeafHash(hs, chunks, |chunks| - 1);
    SingleIsDyadic(|chunks| - 1);
  }

  /** A chunk of the right half without padding on its path: the data check succeeds and takes the left
      half's hash, which is a peak, off the channel; then the peak check fails. */
  lemma RightHalfContact(hs: Hasher, chunks: seq<bytes>, c: int, i: nat,
                         dataOk: bool, v1: Verifier, peakOk: bool, v2: Verifier)
    requires 2 <= |chunks| < Leaves(chunks) && Leaves(chunks) / 2 <= i < |chunks|
    requires Reach(hs, chunks, i, 1).size == Leaves(chunks)
    requires var ks := SentPeaks(chunks) + Needed(hs, chunks, i);
             FirstPacket(hs, chunks, UNKNOWN.(inte := map[c := Messages(hs, chunks, ks)]), c, i, dataOk, v1, peakOk, v2)
    ensures dataOk && !peakOk && v1.chunkRange == Leaves(chunks) - 1
  {
    hide TreeHash, Messages, PeakSet, Needed, CheckUnknown, PeakOutcome, Path, Reach, RootDigest;
    var peaks, needed := SentPeaks(chunks), Needed(hs, chunks, i);
    NeededIsPath(hs, chunks, i);
    FirstDataAccepted(hs, chunks, UNKNOWN.(inte := map[c := Messages(hs, chunks, peaks + needed)]), c, i);
    SmallCounts(chunks);
    NotOneMore(hs, chunks, i);
    PeakCheckFails(hs, chunks, v1, c, i, peakOk, v2);
  }

  lemma NotOneMore(hs: Hasher, chunks: seq<bytes>, i: nat)
    requires 3 <= |chunks| < Leaves(chunks) && Leaves(chunks) / 2 <= i < |chunks|
    requires Reach(hs, chunks, i, 1).size == Leaves(chunks)
    ensures !PowerOfTwo(|chunks| - 1)
  {
    hide TreeHash, Reach;
    SingleIsDyadic(i);
    LeafHash(hs, chunks, i);
    ReachFacts(hs, chunks, i, 1);
    if PowerOfTwo(|chunks| - 1) {
      PowersAreSparse(|chunks| - 1, Leaves(chunks));
      AfterPower(i);
    }
  }

  lemma AfterPower(i: nat)
    requires PowerOfTwo(i) && i >= 2
    ensures SiblingStart(i, 1) == i + 1
  {
  }

  /** Padding on the path: the data check compares the hash of a smaller range with the root. */
  lemma PaddedContact(hs: Hasher, chunks: seq<bytes>, c: int, i: nat,
                      dataOk: bool, v1: Verifier, peakOk: bool, v2: Verifier)
    requires |chunks| >= 2 && i < |chunks| && Reach(hs, chunks, i, 1).size != Leaves(chunks)
    requires var ks := SentPeaks(chunks) + Needed(hs, chunks, i);
             FirstPacket(hs, chunks, UNKNOWN.(inte := map[c := Messages(hs, chunks, ks)]), c, i, dataOk, v1, peakOk, v2)
    ensures RootIsApart(hs, chunks) ==> !dataOk
  {
    hide Messages, SentPeaks, Needed, CheckUnknown, PeakOutcome, Reach, RootDigest, RootIsApart, Compared, Path, HashAt;
    FirstDataExact(hs, chunks, UNKNOWN.(inte := map[c := Messages(hs, chunks, SentPeaks(chunks) + Needed(hs, chunks, i))]),
                   c, i);
  }

  /** Seven chunks, chunk 4 asked for first: it is verified with the hash of chunks 0..3, which the peak
      check then misses. */
  lemma SevenChunks(hs: Hasher, chunks: seq<bytes>, c: int, dataOk: bool, v1: Verifier, peakOk: bool, v2: Verifier)
    requires |chunks| == 7
    requires var ks := SentPeaks(chunks) + Needed(hs, chunks, 4);
             FirstPacket(hs, chunks, UNKNOWN.(inte := map[c := Messages(hs, chunks, ks)]), c, 4, dataOk, v1, peakOk, v2)
    ensures dataOk && !peakOk && v1.chunkRange == 7
    ensures !FirstContactWorks(7, 4)
  {
    hide TreeHash, Messages, PeakSet, Needed, FirstPacket;
    assert CeilPower(7) == 8 && Leaves(chunks) == 8;
    assert SiblingStart(4, 1) == 5 && SiblingStart(4, 2) == 6 && SiblingStart(4, 4) == 0;
    NullExactlyForPadding(hs, chunks, 5, 1);
    NullExactlyForPadding(hs, chunks, 6, 2);
    NullExactlyForPadding(hs, chunks, 0, 4);
    assert Reach(hs, chunks, 0, 8) == Range(0, 8);
    assert Reach(hs, chunks, 4, 4) == Range(0, 8);
    assert Reach(hs, chunks, 4, 2) == Range(0, 8);
    RightHalfContact(hs, chunks, c, 4, dataOk, v1, peakOk, v2);
  }

  lemma NoneSentYet(hs: Hasher, chunks: seq<bytes>, i: nat)
    requires |chunks| >= 2
    ensures Sending(MadeTree(hs, chunks, Leaves(chunks)), {}, i, 1) == Needed(hs, chunks, i)
  {
    hide MadeTree, Needed, Sending;
    SendingIsNeeded(hs, chunks, {}, i);
  }

  /** The peak check after the data check. */
  lemma SecondCheck(hs: Hasher, chunks: seq<bytes>, v1: Verifier, c: int, needed: set<int>, peakOk: bool, v2: Verifier)
    requires |chunks| >= 2
    requires |chunks| == Leaves(chunks) || !PowerOfTwo(|chunks| - 1)
    requires v1.chunkRange == Leaves(chunks) - 1 && v1.leafNodeCount == Leaves(chunks)
    requires v1.lastChunkIndex == 2 * (Leaves(chunks) - 1) && v1.contentSize == 0 && v1.lastChunkSize == 0
    requires v1.peaks == map[]
    requires v1.tree == Messages(hs, chunks, needed) && v1.tree.Keys == needed
    requires v1.inte == map[c := Messages(hs, chunks, SentPeaks(chunks))]
    requires Genuine(hs, chunks, v1.tree) && Genuine(hs, chunks, Messages(hs, chunks, SentPeaks(chunks)))
    requires PeakOutcome(hs, RootDigest(hs, chunks), v1, c, peakOk, v2)
    ensures peakOk && v2.lastChunkIndex == 2 * (|chunks| - 1) && v2.isPeakMapCreated
    ensures v2.contentSize == 0 && v2.lastChunkSize == 0
    ensures v2.peaks == Messages(hs, chunks, SentPeaks(chunks)) && needed <= v2.tree.Keys
    ensures Honest(hs, chunks, Session(map[c := needed], map[c := needed], v2))
  {
    hide TreeHash, IsRightHalf, PeakSet, HashAt, MadeNode, Messages, RootDigest, Genuine, Honest, PeakOutcome;
    if |chunks| == Leaves(chunks) {
      FullTree(hs, chunks, v1, c, peakOk, v2);
    } else {
      PowerIsCeil(|chunks|);
      SmallCounts(chunks);
      PeakRoundTrip(hs, chunks, v1, c, peakOk, v2);
      assert map[] + Messages(hs, chunks, SentPeaks(chunks)) == Messages(hs, chunks, SentPeaks(chunks));
    }
    KnownNow(hs, chunks, v1, c, needed, v2);
  }

  lemma FullTree(hs: Hasher, chunks: seq<bytes>, v: Verifier, c: int, peakOk: bool, v2: Verifier)
    requires |chunks| >= 1 && v.chunkRange >= 0
    requires v.inte == map[c := Messages(hs, chunks, {})]
    requires PeakOutcome(hs, RootDigest(hs, chunks), v, c, peakOk, v2)
    ensures peakOk && v2 == v.(isPeakMapCreated := true)
    ensures Messages(hs, chunks, {}) == map[]
  {
    hide RootDigest, CheckPeakFrom;
    assert Messages(hs, chunks, {}) == map[];
  }

  lemma KnownNow(hs: Hasher, chunks: seq<bytes>, v1: Verifier, c: int, needed: set<int>, v2: Verifier)
    requires |chunks| >= 2
    requires v2.chunkRange == |chunks| - 1 && v2.leafNodeCount == Leaves(chunks)
    requires Genuine(hs, chunks, v1.tree) && Genuine(hs, chunks, Messages(hs, chunks, SentPeaks(chunks)))
    requires v1.tree.Keys == needed
    requires v2.tree == v1.tree || v2.tree == Messages(hs, chunks, SentPeaks(chunks)) + v1.tree
    requires v2.inte.Keys == {c} && (v2.inte[c] == map[] || v2.inte[c] == Messages(hs, chunks, SentPeaks(chunks)))
    ensures Honest(hs, chunks, Session(map[c := needed], map[c := needed], v2))
  {
    hide HashAt, Leaves, Messages, SentPeaks;
  }

  lemma SmallCounts(chunks: seq<bytes>)
    requires |chunks| >= 2 && |chunks| < Leaves(chunks)
    ensures |chunks| >= 3
  {
    PowerIsCeil(|chunks|);
  }
}
