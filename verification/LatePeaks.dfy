/** The peak check after a packet whose verification has used up a peak: a chunk of the right half of
    the tree is verified with the hash of the left half, which is the first peak, and verified hashes
    leave the channel. */
module LatePeaks {
  import opened Bits
  import opened Bytes
  import opened Dyadic
  import opened Merkle
  import opened Paths
  import opened Verification
  import opened Completeness
  import opened Peaks
  import opened PeakExchange

  /** Above the right half the climb stays in the right half until it reaches the whole tree. */
  lemma StaysRight(leaves: nat, start: nat, size: nat)
    requires PowerOfTwo(leaves) && leaves >= 2 && IsDyadic(start, size) && start + size <= leaves
    requires leaves / 2 <= start && size < leaves
    ensures size <= leaves / 2
    ensures size < leaves / 2 ==> ParentStart(start, size) >= leaves / 2 && 2 * size <= leaves / 2
    ensures size == leaves / 2 ==> start == leaves / 2 && SiblingStart(start, size) == 0
  {
    hide IsRightHalf;
    var half := leaves / 2;
    DyadicSize(start, size);
    SiblingFacts(start, size);
    PowersAreSparse(size, leaves);
    if size < half {
      PowersAreSparse(size, half);
      var p := ParentStart(start, size);
      DyadicSize(p, 2 * size);
      PowerIsMultiple(half, 2 * size);
      if p < half { Separated(p, half, 2 * size); }
    } else {
      SiblingInside(start, size, leaves);
    }
  }

  /** Every path from below the root ends with the other half of the tree. */
  lemma {:induction false} OtherHalfOnPath(leaves: nat, start: nat, size: nat)
    requires PowerOfTwo(leaves) && leaves >= 2 && IsDyadic(start, size) && start + size <= leaves && size < leaves
    ensures Index(if start < leaves / 2 then leaves / 2 else 0, leaves / 2) in Path(leaves, start, size)
    decreases leaves - size
  {
    hide IsRightHalf;
    var half := leaves / 2;
    OneUp(leaves, start, size);
    DyadicSize(start, size);
    PowersAreSparse(size, leaves);
    if start >= half {
      StaysRight(leaves, start, size);
    } else {
      PowerIsMultiple(half, size);
      Separated(start, half, size);
      LeftStaysLeft(leaves, start, size);
    }
    if size < half {
      PowersAreSparse(size, half);
      OtherHalfOnPath(leaves, ParentStart(start, size), 2 * size);
    }
  }

  lemma LeftStaysLeft(leaves: nat, start: nat, size: nat)
    requires PowerOfTwo(leaves) && leaves >= 2 && IsDyadic(start, size) && start + size <= leaves / 2
    ensures size < leaves / 2 ==> ParentStart(start, size) < leaves / 2
    ensures size >= leaves / 2 ==> start == 0 && size == leaves / 2 && SiblingStart(start, size) == leaves / 2
  {
    hide IsRightHalf;
    DyadicSize(start, size);
    SiblingFacts(start, size);
    if size >= leaves / 2 {
      ZeroIsDyadic(leaves);
    }
  }

  /** With more than half of the leaves in use the left half is a peak. */
  lemma LeftHalfIsPeak(chunks: seq<bytes>)
    requires 2 <= |chunks| < Leaves(chunks)
    ensures Leaves(chunks) / 2 < |chunks|
    ensures Index(0, Leaves(chunks) / 2) in PeakSet(chunks)
  {
    hide IsRightHalf, PeakSet, Cover;
    var leaves := Leaves(chunks);
    var half := leaves / 2;
    ZeroIsDyadic(half);
    ZeroIsDyadic(leaves);
    SiblingFacts(0, half);
    PeaksAreMaximal(chunks, 0, half);
  }

  lemma LastPeakOnRight(chunks: seq<bytes>)
    requires 2 <= |chunks| < Leaves(chunks)
    ensures LastPeak(chunks).start >= Leaves(chunks) / 2 && LastPeak(chunks).size < Leaves(chunks)
  {
    hide IsRightHalf, Cover;
    var half, r := Leaves(chunks) / 2, LastPeak(chunks);
    LeftHalfIsPeak(chunks);
    DyadicSize(r.start, r.size);
    PowersAreSparse(r.size, Leaves(chunks));
    if r.start < half {
      PowerIsMultiple(half, r.size);
      Separated(r.start, half, r.size);
    }
  }

  /** The last peak is not on the path of a chunk. */
  lemma {:induction false} LastPeakOffPath(chunks: seq<bytes>, start: nat, size: nat)
    requires 2 <= |chunks| < Leaves(chunks) && IsDyadic(start, size) && start + size <= Leaves(chunks)
    requires start < |chunks|
    ensures var r := LastPeak(chunks); Index(r.start, r.size) !in Path(Leaves(chunks), start, size)
    decreases Leaves(chunks) - size
  {
    hide IsRightHalf, PeakSet, Cover, LastPeak;
    var leaves, r := Leaves(chunks), LastPeak(chunks);
    if size < leaves {
      OneUp(leaves, start, size);
      SiblingFacts(start, size);
      LastPeakOffPath(chunks, ParentStart(start, size), 2 * size);
      IndexOfRange(r.start, r.size);
      PeakIndex(chunks, r.start, r.size);
      PeaksAreMaximal(chunks, r.start, r.size);
    }
  }

  /** Without the left half's hash no climb in the right half gets to the root. */
  lemma {:induction false} ClimbLacksLeftHalf(hs: Hasher, chunks: seq<bytes>, pend: MerkleHashmap,
                                              start: nat, size: nat, h: bytes)
    requires 2 <= |chunks| < Leaves(chunks) && IsDyadic(start, size) && start + size <= Leaves(chunks)
    requires Leaves(chunks) / 2 <= start && size < Leaves(chunks)
    requires Index(0, Leaves(chunks) / 2) !in pend
    ensures ClimbPeak(hs, pend, 2 * (Leaves(chunks) - 1), 2 * (|chunks| - 1), start, size, h) == None
    decreases Leaves(chunks) - size
  {
    hide IsRightHalf, Combine;
    var leaves := Leaves(chunks);
    LeftHalfIsPeak(chunks);
    OneUp(leaves, start, size);
    StaysRight(leaves, start, size);
    var x, last := SiblingIndex(start, size), 2 * (|chunks| - 1);
    if size < leaves / 2 && (x > last || x in pend) {
      var up := Combine(hs, start, size, h, if x <= last then pend[x].hash else None);
      ClimbLacksLeftHalf(hs, chunks, pend, ParentStart(start, size), 2 * size, up);
    }
  }

  /** When the peaks on the path of a right-half chunk have left the channel, the peak check fails. */
  lemma PeakCheckFails(hs: Hasher, chunks: seq<bytes>, v: Verifier, c: int, i: nat, accepted: bool, after: Verifier)
    requires 3 <= |chunks| < Leaves(chunks) && !PowerOfTwo(|chunks| - 1)
    requires Leaves(chunks) / 2 <= i < |chunks|
    requires c in v.inte
    requires v.inte[c] == Messages(hs, chunks, PeakSet(chunks) - Path(Leaves(chunks), i, 1))
    requires PeakOutcome(hs, RootDigest(hs, chunks), v, c, accepted, after)
    ensures !accepted
  {
    hide IsRightHalf, TreeHash, Messages, PeakSet, Cover, RootDigest, ClimbPeak, LeafCountFor, CheckPeakFrom, Path;
    var leaves, r := Leaves(chunks), LastPeak(chunks);
    var p, ks := Index(r.start, r.size), PeakSet(chunks) - Path(leaves, i, 1);
    SingleIsDyadic(i);
    LastPeakOffPath(chunks, i, 1);
    PeakIndex(chunks, r.start, r.size);
    MessageAt(hs, chunks, ks, r.start, r.size);
    assert v.inte[c] != map[];
    var q :| IsLastPeak(v.inte[c], q) && v.inte[c][q].hash.Some?
             && v.inte[c][q].startChunk <= v.inte[c][q].endChunk
             && (accepted, after) == CheckPeakFrom(hs, RootDigest(hs, chunks), v, c, q);
    LastPeakIsPicked(hs, chunks, ks, q);
    PowerIsCeil(|chunks|);
    LeafCountIsRight(|chunks|);
    PeakFromClimb(hs, RootDigest(hs, chunks), v, c, q);
    LastPeakOnRight(chunks);
    OtherHalfOnPath(leaves, i, 1);
    MessageKeys(hs, chunks, ks);
    ClimbLacksLeftHalf(hs, chunks, v.inte[c] - {q}, r.start, r.size, v.inte[c][q].hash.value);
  }
}
