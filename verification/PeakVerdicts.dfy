/** What a peak check leaves behind, accepted or not, and what a second check makes of that. */
module PeakVerdicts {
  import opened Bits
  import opened Bytes
  import opened Dyadic
  import opened Merkle
  import opened Paths
  import opened Verification
  import opened Sender
  import opened Completeness
  import opened Peaks
  import opened PeakExchange
  import opened LatePeaks
  import opened FirstData
  import opened FirstContact

  // -------------------------------------------------------------------------- leaf count

  /** The leaf count computed from the last chunk, for every chunk count: it is the least power of two
      that suffices, except for one chunk and for one chunk more than an even power of two. */
  lemma LeafCountExact(n: nat)
    requires n >= 1
    ensures LeafCountFor(n - 1) == if n == 1 then 0
                                   else if PowerOfTwo(n - 1) && n > 2 then n - 1
                                   else CeilPower(n)
  {
    if n > 2 {
      if PowerOfTwo(n) {
        CeilOfPower(n);
        EvenPower(n);
        OddBefore(n);
      } else {
        LeafCountIsRight(n);
      }
    } else if n == 2 {
      assert CeilPower(2) == 2;
    }
  }

  lemma OddBefore(n: nat)
    requires n > 2 && n % 2 == 0 && PowerOfTwo(n)
    ensures !PowerOfTwo(n - 1)
  {
  }

  // -------------------------------------------------------------------------------- failed

  /** Without messages the check succeeds exactly on a channel that had some, once the size is known: a full
      tree has no peaks to wait for. */
  lemma NothingToCheck(hs: Hasher, root: bytes, v: Verifier, c: int, accepted: bool, after: Verifier)
    requires PeakOutcome(hs, root, v, c, accepted, after) && Pending(v.inte, c) == map[]
    ensures accepted <==> c in v.inte && v.chunkRange >= 0
    ensures after == if accepted then v.(isPeakMapCreated := true) else v
  {
    hide CheckPeakFrom;
  }

  /** A failed peak check. Without messages on the channel nothing changes. Otherwise exactly the node the
      check started from is taken off the channel and the leaf count computed from it is kept; nothing
      else changes. */
  lemma FailedPeakCheck(hs: Hasher, root: bytes, v: Verifier, c: int, after: Verifier)
    requires PeakOutcome(hs, root, v, c, false, after)
    ensures Pending(v.inte, c) == map[] ==> after == v
    ensures Pending(v.inte, c) != map[] ==>
              exists p :: IsLastPeak(Pending(v.inte, c), p) && OneTaken(v, c, p, after)
  {
    hide PeakOutcome, IsLastPeak, OneTaken;
    if Pending(v.inte, c) != map[] {
      var p := FailedFrom(hs, root, v, c, after);
    } else {
      NothingToCheck(hs, root, v, c, false, after);
    }
  }

  lemma FailedFrom(hs: Hasher, root: bytes, v: Verifier, c: int, after: Verifier) returns (p: int)
    requires PeakOutcome(hs, root, v, c, false, after) && Pending(v.inte, c) != map[]
    ensures IsLastPeak(Pending(v.inte, c), p) && OneTaken(v, c, p, after)
  {
    hide ClimbPeak, UsedPeak, LeafCountFor;
    p :| IsLastPeak(v.inte[c], p) && v.inte[c][p].hash.Some?
         && v.inte[c][p].startChunk <= v.inte[c][p].endChunk
         && (false, after) == CheckPeakFrom(hs, root, v, c, p);
  }

  /** The same as one equation. */
  lemma TakenState(v: Verifier, c: int, p: int, after: Verifier)
    requires OneTaken(v, c, p, after)
    ensures c in v.inte && p in v.inte[c]
    ensures after == v.(inte := v.inte[c := v.inte[c] - {p}], leafNodeCount := LeafCountFor(v.inte[c][p].endChunk))
  {
    hide LeafCountFor;
    var left := Pending(after.inte, c);
    SameNodes(left, v.inte[c] - {p});
    OnlyOneChannel(v.inte, c, after.inte);
  }

  lemma SameNodes(a: MerkleHashmap, b: MerkleHashmap)
    requires a.Keys == b.Keys && forall x: int | x in a :: a[x] == b[x]
    ensures a == b
  {
    forall x: int
      ensures x in a <==> x in b
      ensures x in a ==> a[x] == b[x]
    {
      assert (x in a <==> x in a.Keys) && (x in b <==> x in b.Keys);
    }
    assert a == b;
  }

  /** Node p has been taken off channel c, and the leaf count is what chunk 0 to its end take. */
  ghost predicate OneTaken(v: Verifier, c: int, p: int, after: Verifier) {
    var before, left := Pending(v.inte, c), Pending(after.inte, c);
    && p in before && left.Keys == before.Keys - {p} && |left| == |before| - 1
    && (forall x: int | x in left :: left[x] == before[x])
    && after.inte.Keys == v.inte.Keys && (forall e: int | e in v.inte && e != c :: after.inte[e] == v.inte[e])
    && after.leafNodeCount == LeafCountFor(before[p].endChunk)
    && after == v.(inte := after.inte, leafNodeCount := after.leafNodeCount)
  }

  // ------------------------------------------------------------------------------ accepted

  /** An accepted peak check with messages on the channel: the node it started from and the siblings it
      used leave the channel for the shared tree, where nodes already present stay, and for the peak
      map; messages it did not use stay on the channel; the size is that of the starting node's end. */
  lemma AcceptedPeakCheck(hs: Hasher, root: bytes, v: Verifier, c: int, after: Verifier)
    requires PeakOutcome(hs, root, v, c, true, after) && Pending(v.inte, c) != map[]
    ensures exists p :: IsLastPeak(Pending(v.inte, c), p) && PeaksTaken(v, c, p, after)
  {
    hide ClimbPeak, UsedPeak, LeafCountFor;
    var p :| IsLastPeak(v.inte[c], p) && v.inte[c][p].hash.Some?
             && v.inte[c][p].startChunk <= v.inte[c][p].endChunk
             && (true, after) == CheckPeakFrom(hs, root, v, c, p);
    TakenFrom(hs, root, v, c, p);
  }

  ghost predicate PeaksTaken(v: Verifier, c: int, p: int, after: Verifier) {
    var before, left := Pending(v.inte, c), Pending(after.inte, c);
    && p in before && before[p].startChunk <= before[p].endChunk
    && var leaves, z := LeafCountFor(before[p].endChunk), before[p].endChunk - before[p].startChunk + 1;
       var taken := {p} + UsedPeak(2 * (leaves - 1), 2 * before[p].endChunk, before[p].startChunk, z);
       && left.Keys == before.Keys - taken
       && (forall x: int | x in left :: left[x] == before[x])
       && after.inte.Keys == v.inte.Keys && (forall e: int | e in v.inte && e != c :: after.inte[e] == v.inte[e])
       && after.tree.Keys == v.tree.Keys + (before.Keys - left.Keys)
       && (forall x: int | x in after.tree :: after.tree[x] == if x in v.tree then v.tree[x] else before[x])
       && after.peaks.Keys == v.peaks.Keys + (before.Keys - left.Keys)
       && (forall x: int | x in after.peaks :: after.peaks[x] == if x in before && x !in left then before[x] else v.peaks[x])
       && after == v.(inte := after.inte, tree := after.tree, peaks := after.peaks, isPeakMapCreated := true,
                      chunkRange := before[p].endChunk, lastChunkIndex := 2 * before[p].endChunk, leafNodeCount := leaves)
  }

  lemma TakenFrom(hs: Hasher, root: bytes, v: Verifier, c: int, p: int)
    requires c in v.inte && p in v.inte[c] && v.inte[c][p].hash.Some? && v.inte[c][p].startChunk <= v.inte[c][p].endChunk
    requires CheckPeakFrom(hs, root, v, c, p).0
    ensures PeaksTaken(v, c, p, CheckPeakFrom(hs, root, v, c, p).1)
  {
    hide ClimbPeak, UsedPeak, LeafCountFor;
  }

  /** The siblings used are those on the path of the starting range that lie to its left. */
  lemma {:induction false} UsedIsOnLeft(leaves: nat, last: nat, start: nat, size: nat, x: int)
    requires IsDyadic(start, size) && PowerOfTwo(leaves) && start + size <= leaves && start <= last < start + size
    ensures x in UsedPeak(2 * (leaves - 1), 2 * last, start, size)
       <==> x in Path(leaves, start, size) && x >= 0 && StartOf(x) < start
    decreases leaves - size
  {
    hide IsRightHalf, StartOf, SizeOf;
    if size >= leaves {
      AtRoot(leaves, start, size);
    } else {
      OneUp(leaves, start, size);
      UsedIsOnLeft(leaves, last, ParentStart(start, size), 2 * size, x);
      if x in Path(leaves, ParentStart(start, size), 2 * size) {
        LeftOfParent(leaves, start, size, ParentStart(start, size), 2 * size, x);
      }
    }
  }

  /** A sibling met above a range begins to the left of the range exactly if it does of its parent. */
  lemma LeftOfParent(leaves: nat, start: nat, size: nat, p: nat, z: nat, x: int)
    requires IsDyadic(p, z) && PowerOfTwo(leaves) && p + z <= leaves && p <= start < p + z
    requires x in Path(leaves, p, z)
    ensures x >= 0 && (StartOf(x) < start <==> StartOf(x) < p)
  {
    hide IsRightHalf, StartOf, SizeOf;
    PathNodes(leaves, p, z, x);
    BesidePath(leaves, p, z, x);
  }

  lemma {:induction false} BesidePath(leaves: nat, p: nat, z: nat, x: int)
    requires IsDyadic(p, z) && PowerOfTwo(leaves) && p + z <= leaves && x in Path(leaves, p, z)
    ensures x >= 0 && (StartOf(x) < p || StartOf(x) >= p + z)
    decreases leaves - z
  {
    hide IsRightHalf, StartOf, SizeOf;
    OneUp(leaves, p, z);
    if x != SiblingIndex(p, z) {
      BesidePath(leaves, ParentStart(p, z), 2 * z, x);
    }
  }

  // ---------------------------------------------------------------------------- second checks

  /** For an even chunk count no peak is a single chunk. */
  lemma NoSinglePeak(chunks: seq<bytes>, x: int)
    requires 3 <= |chunks| < Leaves(chunks) && |chunks| % 2 == 0 && x in PeakSet(chunks)
    ensures x % 2 == 1 && x >= 0 && SizeOf(x) > 1 && x < 2 * Leaves(chunks) - 1
  {
    hide IsRightHalf, Cover;
    var n, leaves := |chunks|, Leaves(chunks);
    ZeroIsDyadic(leaves);
    var r :| r in Cover(0, leaves, n) && Index(r.start, r.size) == x;
    CoverTiles(0, leaves, n);
    IndexOfRange(r.start, r.size);
    InsideTree(r.start, r.size, leaves);
    PeaksAreMaximal(chunks, r.start, r.size);
    if r.size == 1 {
      SiblingFacts(r.start, 1);
      EvenParent(r.start, n);
    }
  }

  lemma EvenParent(s: nat, n: nat)
    requires s < n && n % 2 == 0
    ensures ParentStart(s, 1) + 2 <= n
  {
    SingleIsDyadic(s);
    SiblingFacts(s, 1);
    DyadicMeaning(ParentStart(s, 1), 2);
  }

  /** The peaks of an even chunk count and one forged single chunk on a channel. */
  function PeaksAndOne(hs: Hasher, chunks: seq<bytes>, k: nat, h: bytes): MerkleHashmap
    requires |chunks| >= 1
  {
    Messages(hs, chunks, PeakSet(chunks))[2 * k := Received(Integrity(k, k, h))]
  }

  lemma ForgedIsPicked(hs: Hasher, chunks: seq<bytes>, k: nat, h: bytes, p: int)
    requires 3 <= |chunks| < Leaves(chunks) && |chunks| % 2 == 0
    requires IsLastPeak(PeaksAndOne(hs, chunks, k, h), p)
    ensures p == 2 * k
  {
    hide PeakSet, TreeHash;
    var m := PeaksAndOne(hs, chunks, k, h);
    assert 2 * k in m && m[2 * k].startChunk == m[2 * k].endChunk;
    if p != 2 * k {
      NoSinglePeak(chunks, p);
      WideRange(hs, chunks, p);
    }
  }

  lemma WideRange(hs: Hasher, chunks: seq<bytes>, x: nat)
    requires |chunks| >= 1 && SizeOf(x) > 1
    ensures var m := Received(MessageOf(MadeNode(hs, chunks, Leaves(chunks), x))); m.startChunk < m.endChunk
  {
  }

  /** One forged single-chunk hash beside the peaks of an even chunk count. The check starts from it, in
      any visiting order; if it fails, the forged hash is gone and the next check succeeds. */
  lemma SecondCheckSucceeds(hs: Hasher, chunks: seq<bytes>, v: Verifier, c: int, k: nat, h: bytes,
                            v1: Verifier, ok2: bool, v2: Verifier)
    requires 3 <= |chunks| < Leaves(chunks) && |chunks| % 2 == 0
    requires c in v.inte && v.inte[c] == PeaksAndOne(hs, chunks, k, h)
    requires PeakOutcome(hs, RootDigest(hs, chunks), v, c, false, v1)
    requires PeakOutcome(hs, RootDigest(hs, chunks), v1, c, ok2, v2)
    ensures v1 == v.(inte := v.inte[c := Messages(hs, chunks, PeakSet(chunks))], leafNodeCount := LeafCountFor(k))
    ensures ok2 && v2.chunkRange == |chunks| - 1 && v2.leafNodeCount == Leaves(chunks) && v2.isPeakMapCreated
    ensures v2.inte == v.inte[c := map[]]
  {
    hide PeakSet, Messages, PeakOutcome, RootDigest, LeafCountFor, IsLastPeak, OneTaken;
    var m, all := PeaksAndOne(hs, chunks, k, h), Messages(hs, chunks, PeakSet(chunks));
    assert 2 * k in m;
    var p := FailedFrom(hs, RootDigest(hs, chunks), v, c, v1);
    ForgedIsPicked(hs, chunks, k, h, p);
    EvenIsNoPeak(hs, chunks, k);
    TakenState(v, c, p, v1);
    WithoutAdded(all, 2 * k, Received(Integrity(k, k, h)));
    EvenMinusOne(|chunks|);
    PeakRoundTrip(hs, chunks, v1, c, ok2, v2);
    assert v1.inte[c := map[]] == v.inte[c := map[]];
  }

  lemma WithoutAdded(all: MerkleHashmap, x: int, node: BTreeNode)
    requires x !in all
    ensures all[x := node] - {x} == all
  {
  }

  lemma OnlyOneChannel(inte: IntegrityMaps, c: int, after: IntegrityMaps)
    requires c in inte && after.Keys == inte.Keys && forall e: int | e in inte && e != c :: after[e] == inte[e]
    ensures after == inte[c := after[c]]
  {
    forall e: int
      ensures e in after <==> e in inte
      ensures e in after && e != c ==> after[e] == inte[e]
    {
      assert e in after <==> e in after.Keys;
    }
    assert after == inte[c := after[c]];
  }

  lemma EvenMinusOne(n: nat)
    requires n >= 3 && n % 2 == 0
    ensures !PowerOfTwo(n - 1)
  {
  }

  lemma EvenIsNoPeak(hs: Hasher, chunks: seq<bytes>, k: nat)
    requires 3 <= |chunks| < Leaves(chunks) && |chunks| % 2 == 0
    ensures 2 * k !in Messages(hs, chunks, PeakSet(chunks))
  {
    hide PeakSet;
    if 2 * k in PeakSet(chunks) { NoSinglePeak(chunks, 2 * k); }
  }

  /** For instance six chunks and a forged chunk 5: the first check fails, the second succeeds. */
  lemma SixChunks(hs: Hasher, chunks: seq<bytes>, v: Verifier, c: int, h: bytes,
                  ok1: bool, v1: Verifier, ok2: bool, v2: Verifier)
    requires |chunks| == 6 && c in v.inte && v.inte[c] == PeaksAndOne(hs, chunks, 5, h)
    requires PeakOutcome(hs, RootDigest(hs, chunks), v, c, ok1, v1)
    requires PeakOutcome(hs, RootDigest(hs, chunks), v1, c, ok2, v2)
    ensures !ok1 && ok2 && v2.chunkRange == 5
  {
    hide PeakSet, Messages, RootDigest, PeakOutcome, TreeHash;
    assert CeilPower(6) == 8 && Leaves(chunks) == 8;
    if ok1 { ForgedFiveFails(hs, chunks, v, c, h, v1); }
    SecondCheckSucceeds(hs, chunks, v, c, 5, h, v1, ok2, v2);
  }

  lemma ForgedFiveFails(hs: Hasher, chunks: seq<bytes>, v: Verifier, c: int, h: bytes, v1: Verifier)
    requires |chunks| == 6 && Leaves(chunks) == 8 && c in v.inte && v.inte[c] == PeaksAndOne(hs, chunks, 5, h)
    ensures !PeakOutcome(hs, RootDigest(hs, chunks), v, c, true, v1)
  {
    hide PeakSet, Messages, RootDigest, CheckPeakFrom, LeafCountFor;
    var m := v.inte[c];
    assert 10 in m;
    EvenIsNoPeak(hs, chunks, 4);
    assert 8 !in m - {10};
    NoSibling(hs, m - {10}, h);
    assert LeafCountFor(5) == 8 by { LeafCountExact(6); assert CeilPower(6) == 8; }
    if PeakOutcome(hs, RootDigest(hs, chunks), v, c, true, v1) {
      var p :| IsLastPeak(v.inte[c], p) && v.inte[c][p].hash.Some?
               && v.inte[c][p].startChunk <= v.inte[c][p].endChunk
               && (true, v1) == CheckPeakFrom(hs, RootDigest(hs, chunks), v, c, p);
      ForgedIsPicked(hs, chunks, 5, h, p);
      PeakFromClimb(hs, RootDigest(hs, chunks), v, c, p);
    }
  }

  lemma NoSibling(hs: Hasher, pend: MerkleHashmap, h: bytes)
    requires 8 !in pend
    ensures ClimbPeak(hs, pend, 14, 10, 5, 1, h) == None
  {
    assert SiblingStart(5, 1) == 4 && SiblingIndex(5, 1) == 8;
  }

  /** Seven chunks, chunk 4 first: after the failed peak check only the peak of chunks 4 and 5 is left. */
  lemma SevenChunksLeft(hs: Hasher, chunks: seq<bytes>, c: int, dataOk: bool, v1: Verifier, peakOk: bool, v2: Verifier)
    requires |chunks| == 7
    requires var ks := SentPeaks(chunks) + Needed(hs, chunks, 4);
             FirstPacket(hs, chunks, UNKNOWN.(inte := map[c := Messages(hs, chunks, ks)]), c, 4, dataOk, v1, peakOk, v2)
    ensures Pending(v2.inte, c).Keys == {9} && v2.leafNodeCount == 8 && v2.chunkRange == 7
  {
    hide MadeNode, PeakSet, Needed, Messages, CheckUnknown, RootDigest, PeakOutcome, LastPeak, Reach;
    assert CeilPower(7) == 8 && Leaves(chunks) == 8;
    SevenChunks(hs, chunks, c, dataOk, v1, peakOk, v2);
    SevenReach(hs, chunks);
    NeededIsPath(hs, chunks, 4);
    FirstDataAccepted(hs, chunks, UNKNOWN.(inte := map[c := Messages(hs, chunks, SentPeaks(chunks) + Needed(hs, chunks, 4))]),
                      c, 4);
    SevenPeaks(hs, chunks);
    OneOfTwoLeft(hs, chunks, v1, c, v2);
  }

  lemma OneOfTwoLeft(hs: Hasher, chunks: seq<bytes>, v1: Verifier, c: int, v2: Verifier)
    requires |chunks| == 7 && Leaves(chunks) == 8 && v1.inte == map[c := Messages(hs, chunks, {9, 12})]
    requires PeakOutcome(hs, RootDigest(hs, chunks), v1, c, false, v2)
    ensures Pending(v2.inte, c).Keys == {9} && v2.leafNodeCount == 8 && v2.chunkRange == v1.chunkRange
  {
    hide Messages, RootDigest, PeakOutcome, IsLastPeak, LeafCountFor, OneTaken, PeakSet, Path, PowerOfTwo;
    var m := Messages(hs, chunks, {9, 12});
    SevenPeaks(hs, chunks);
    assert 9 in m.Keys;
    var p := FailedFrom(hs, RootDigest(hs, chunks), v1, c, v2);
    LastOfSeven(hs, chunks, p);
    TakenState(v1, c, p, v2);
    assert (m - {12}).Keys == {9};
    SixEnds();
  }

  lemma SixEnds()
    ensures LeafCountFor(6) == 8
  {
    LeafCountExact(7);
    assert CeilPower(7) == 8;
  }

  lemma SevenReach(hs: Hasher, chunks: seq<bytes>)
    requires |chunks| == 7 && Leaves(chunks) == 8
    ensures Reach(hs, chunks, 4, 1).size == 8
  {
    hide TreeHash;
    assert SiblingStart(4, 1) == 5 && SiblingStart(4, 2) == 6 && SiblingStart(4, 4) == 0;
    NullExactlyForPadding(hs, chunks, 5, 1);
    NullExactlyForPadding(hs, chunks, 6, 2);
    NullExactlyForPadding(hs, chunks, 0, 4);
    assert Reach(hs, chunks, 0, 8) == Range(0, 8);
    assert Reach(hs, chunks, 4, 4) == Range(0, 8);
    assert Reach(hs, chunks, 4, 2) == Range(0, 8);
  }

  lemma SevenPeaks(hs: Hasher, chunks: seq<bytes>)
    requires |chunks| == 7 && Leaves(chunks) == 8
    ensures PeakSet(chunks) == {3, 9, 12} && Path(8, 4, 1) == {10, 13, 3}
    ensures PeakSet(chunks) - Path(8, 4, 1) == {9, 12}
    ensures Messages(hs, chunks, {9, 12}).Keys == {9, 12}
  {
    assert Cover(0, 8, 7) == [Range(0, 4), Range(4, 2), Range(6, 1)] by {
      assert Cover(4, 4, 7) == Cover(4, 2, 7) + Cover(6, 2, 7);
      assert Cover(6, 2, 7) == Cover(6, 1, 7) + Cover(7, 1, 7);
    }
    var rs := [Range(0, 4), Range(4, 2), Range(6, 1)];
    assert rs[0] in rs && rs[1] in rs && rs[2] in rs;
    assert Path(8, 0, 8) == {};
    assert SiblingIndex(4, 1) == 10 && SiblingIndex(4, 2) == 13 && SiblingIndex(4, 4) == 3;
    assert Path(8, 4, 4) == {3} + Path(8, 0, 8);
    assert Path(8, 4, 2) == {13} + Path(8, 4, 4);
    assert Path(8, 4, 1) == {10} + Path(8, 4, 2);
  }

  lemma LastOfSeven(hs: Hasher, chunks: seq<bytes>, p: int)
    requires |chunks| == 7 && Leaves(chunks) == 8 && IsLastPeak(Messages(hs, chunks, {9, 12}), p)
    ensures p == 12 && Messages(hs, chunks, {9, 12})[12].endChunk == 6
  {
    hide TreeHash;
    var m := Messages(hs, chunks, {9, 12});
    assert StartOf(9) == 4 && SizeOf(9) == 2 && StartOf(12) == 6 && SizeOf(12) == 1;
    assert 9 in m && 12 in m;
  }
}
