/** What a seeder sends over a whole run of requests, channel by channel. */
module Sender {
  import opened Bits
  import opened Bytes
  import opened Dyadic
  import opened Merkle
  import opened Paths
  import opened Verification

  /** The hashes a peer needs to verify a chunk: the siblings on its path that are not null. */
  function Needed(hs: Hasher, chunks: seq<bytes>, index: nat): set<int>
    requires |chunks| >= 1
  {
    var leaves := Leaves(chunks);
    if index >= leaves then {}
    else set x: int | x in Path(leaves, index, 1) && x >= 0 && HashAt(hs, chunks, x).Some?
  }

  /** On a made tree, climbing from a range picks the path nodes that are not null and not yet sent. */
  lemma {:induction false} SendingIsPath(hs: Hasher, chunks: seq<bytes>, sent: set<int>, start: nat, size: nat, x: int)
    requires |chunks| >= 1
    requires IsDyadic(start, size) && start + size <= Leaves(chunks)
    requires sent <= MadeTree(hs, chunks, Leaves(chunks)).Keys
    ensures x in Sending(MadeTree(hs, chunks, Leaves(chunks)), sent, start, size)
       <==> x in Path(Leaves(chunks), start, size) && x >= 0 && x !in sent && HashAt(hs, chunks, x).Some?
    decreases Leaves(chunks) - size
  {
    hide IsRightHalf, MadeTree, MadeNode, TreeHash, HashAt, Top;
    var leaves := Leaves(chunks);
    var tree := MadeTree(hs, chunks, leaves);
    var y := SiblingIndex(start, size);
    SendingStep(tree, sent, start, size);
    MadeAt(hs, chunks, leaves, y);
    if size >= leaves {
      AtRoot(leaves, start, size);
    } else {
      OneUp(leaves, start, size);
      SendingIsPath(hs, chunks, sent, ParentStart(start, size), 2 * size, x);
    }
  }

  /** Beyond the leaves nothing is stored, so nothing is sent. */
  lemma NothingBeyond(hs: Hasher, chunks: seq<bytes>, sent: set<int>, index: nat)
    requires |chunks| >= 2 && index >= Leaves(chunks)
    requires sent <= MadeTree(hs, chunks, Leaves(chunks)).Keys
    ensures Sending(MadeTree(hs, chunks, Leaves(chunks)), sent, index, 1) == {}
  {
    var leaves := Leaves(chunks);
    SingleIsDyadic(index);
    SiblingFacts(index, 1);
    MadeAt(hs, chunks, leaves, SiblingIndex(index, 1));
    assert leaves % 2 == 0;
    assert IsDyadic(index, 2) <==> index % 2 == 0 by { SingleIsDyadic(index / 2); }
  }

  lemma SendingIsNeeded(hs: Hasher, chunks: seq<bytes>, sent: set<int>, index: nat)
    requires |chunks| >= 2
    requires sent <= MadeTree(hs, chunks, Leaves(chunks)).Keys
    ensures Sending(MadeTree(hs, chunks, Leaves(chunks)), sent, index, 1) == Needed(hs, chunks, index) - sent
  {
    var s := Sending(MadeTree(hs, chunks, Leaves(chunks)), sent, index, 1);
    if index >= Leaves(chunks) {
      NothingBeyond(hs, chunks, sent, index);
    } else {
      SingleIsDyadic(index);
      forall x ensures x in s <==> x in Needed(hs, chunks, index) - sent {
        SendingIsPath(hs, chunks, sent, index, 1, x);
      }
    }
  }

  // ------------------------------------------------------------------------------- whole runs

  datatype Ask = Ask(channel: int, index: nat)

  /** What has been sent on each channel after a run of GetDataIntegrity calls. */
  ghost function SentAfter(tree: MerkleHashmap, asks: seq<Ask>): SendMaps {
    if asks == [] then map[]
    else
      var before := SentAfter(tree, asks[..|asks| - 1]);
      var last := asks[|asks| - 1];
      before[last.channel := SentOn(before, last.channel)
                             + Sending(tree, SentOn(before, last.channel), last.index, 1)]
  }

  /** The nodes the j-th call returns. */
  ghost function Output(tree: MerkleHashmap, asks: seq<Ask>, j: nat): set<int>
    requires j < |asks|
  {
    Sending(tree, SentOn(SentAfter(tree, asks[..j]), asks[j].channel), asks[j].index, 1)
  }

  lemma {:induction false} SentStays(tree: MerkleHashmap, asks: seq<Ask>, j: nat, c: int)
    requires j <= |asks|
    ensures SentOn(SentAfter(tree, asks[..j]), c) <= SentOn(SentAfter(tree, asks), c)
    ensures SentOn(SentAfter(tree, asks), c) <= tree.Keys
    decreases |asks|
  {
    if asks == [] {
    } else {
      var init := asks[..|asks| - 1];
      if j == |asks| {
        assert asks[..j] == asks;
        SentStays(tree, init, j - 1, c);
      } else {
        assert asks[..j] == init[..j];
        SentStays(tree, init, j, c);
      }
      var last := asks[|asks| - 1];
      SendingStep(tree, SentOn(SentAfter(tree, init), last.channel), last.index, 1);
    }
  }

  /** No node is returned twice on one channel. */
  lemma {:induction false} NeverSentTwice(hs: Hasher, chunks: seq<bytes>, asks: seq<Ask>, j: nat, k: nat)
    requires |chunks| >= 2 && j < k < |asks| && asks[j].channel == asks[k].channel
    ensures var tree := MadeTree(hs, chunks, Leaves(chunks)); Output(tree, asks, j) !! Output(tree, asks, k)
  {
    hide MadeTree, Sending;
    var tree, c := MadeTree(hs, chunks, Leaves(chunks)), asks[j].channel;
    var upTo := asks[..j + 1];
    assert upTo[..|upTo| - 1] == asks[..j];
    assert Output(tree, asks, j) <= SentOn(SentAfter(tree, upTo), c);
    assert asks[..k][..j + 1] == upTo;
    SentStays(tree, asks[..k], j + 1, c);
    SendingIsNeeded(hs, chunks, SentOn(SentAfter(tree, asks[..k]), c), asks[k].index);
  }

  /** A channel has been sent exactly what the chunks asked on it need. */
  lemma {:induction false} SentIsNeeded(hs: Hasher, chunks: seq<bytes>, asks: seq<Ask>, c: int, x: int)
    requires |chunks| >= 2
    ensures x in SentOn(SentAfter(MadeTree(hs, chunks, Leaves(chunks)), asks), c)
       <==> exists j :: 0 <= j < |asks| && asks[j].channel == c && x in Needed(hs, chunks, asks[j].index)
    decreases |asks|
  {
    hide MadeTree, Sending, Needed;
    var tree := MadeTree(hs, chunks, Leaves(chunks));
    if asks != [] {
      var init, last := asks[..|asks| - 1], asks[|asks| - 1];
      SentIsNeeded(hs, chunks, init, c, x);
      SentStays(tree, init, 0, last.channel);
      SendingIsNeeded(hs, chunks, SentOn(SentAfter(tree, init), last.channel), last.index);
      if j :| 0 <= j < |asks| && asks[j].channel == c && x in Needed(hs, chunks, asks[j].index) {
        if j < |asks| - 1 {
          assert init[j] == asks[j];
        }
      }
      if j :| 0 <= j < |init| && init[j].channel == c && x in Needed(hs, chunks, init[j].index) {
        assert asks[j] == init[j];
      }
    }
  }
}
