/** A peer that has downloaded a chunk serves it: what GetDataIntegrity picks from its partial tree,
    together with the peak hashes it remembers, is what the chunk needs. */
module Relay {
  import opened Bits
  import opened Bytes
  import opened Dyadic
  import opened Merkle
  import opened Paths
  import opened Verification
  import opened Sender
  import opened Completeness
  import opened Soundness
  import opened Peaks
  import opened PeakExchange
  import opened FirstData
  import opened Robustness

  /** Above a range that ends in padding, every sibling is a peak or padding. */
  lemma {:induction false} PeaksAbove(hs: Hasher, chunks: seq<bytes>, start: nat, size: nat, x: int)
    requires 1 <= |chunks| < Leaves(chunks) && IsDyadic(start, size) && start + size <= Leaves(chunks)
    requires start < |chunks| < start + size
    requires x in Path(Leaves(chunks), start, size) && x >= 0 && HashAt(hs, chunks, x).Some?
    ensures x in PeakSet(chunks)
    decreases Leaves(chunks) - size
  {
    hide IsRightHalf, TreeHash, PeakSet, Cover, HashAt;
    var leaves := Leaves(chunks);
    OneUp(leaves, start, size);
    SiblingFacts(start, size);
    SiblingHash(hs, chunks, start, size);
    if x == SiblingIndex(start, size) {
      PeaksAreMaximal(chunks, SiblingStart(start, size), size);
    } else {
      PeaksAbove(hs, chunks, ParentStart(start, size), 2 * size, x);
    }
  }

  /** The hashes on the path are in the tree. */
  ghost predicate PathHeld(hs: Hasher, chunks: seq<bytes>, tree: MerkleHashmap, start: nat, size: nat)
    requires |chunks| >= 1 && size >= 1
  {
    forall x: int | x in Path(Leaves(chunks), start, size) :: x >= 0 && (HashAt(hs, chunks, x).Some? ==> x in tree)
  }

  lemma PathHeldStep(hs: Hasher, chunks: seq<bytes>, tree: MerkleHashmap, start: nat, size: nat)
    requires |chunks| >= 1 && IsDyadic(start, size) && start + size <= Leaves(chunks) && size < Leaves(chunks)
    requires PathHeld(hs, chunks, tree, start, size) && Genuine(hs, chunks, tree)
    ensures SiblingIndex(start, size) in tree <==> SiblingStart(start, size) < |chunks|
    ensures SiblingStart(start, size) < |chunks| ==> tree[SiblingIndex(start, size)].hash.Some?
    ensures PathHeld(hs, chunks, tree, ParentStart(start, size), 2 * size)
  {
    hide IsRightHalf, TreeHash, HashAt;
    SiblingHash(hs, chunks, start, size);
    var x, p := SiblingIndex(start, size), ParentStart(start, size);
    assert Path(Leaves(chunks), start, size) == {x} + Path(Leaves(chunks), p, 2 * size);
    assert x in Path(Leaves(chunks), start, size);
  }

  /** Climbing the partial tree finds the hashes of the path below the first padding sibling that was
      not sent before; those above it are peaks. */
  lemma {:induction false} RelayCovers(hs: Hasher, chunks: seq<bytes>, tree: MerkleHashmap, sent: set<int>,
                                       start: nat, size: nat, x: int)
    requires |chunks| >= 2 && IsDyadic(start, size) && start + size <= Leaves(chunks) && start < |chunks|
    requires Genuine(hs, chunks, tree) && PathHeld(hs, chunks, tree, start, size)
    requires x in Path(Leaves(chunks), start, size) && x >= 0 && HashAt(hs, chunks, x).Some?
    ensures x in Sending(tree, sent, start, size) + sent + SentPeaks(chunks)
    decreases Leaves(chunks) - size
  {
    hide IsRightHalf, TreeHash, PeakSet, HashAt, Sending, Genuine, PathHeld, Top;
    var leaves, y, p := Leaves(chunks), SiblingIndex(start, size), ParentStart(start, size);
    OneUp(leaves, start, size);
    SendingStep(tree, sent, start, size);
    SiblingHash(hs, chunks, start, size);
    PathHeldStep(hs, chunks, tree, start, size);
    if SiblingStart(start, size) >= |chunks| {
      if p + 2 * size > |chunks| && x != y {
        PeaksAbove(hs, chunks, p, 2 * size, x);
      }
    } else if x != y {
      RelayCovers(hs, chunks, tree, sent, p, 2 * size, x);
    }
  }

  /** Nothing else is picked. */
  lemma {:induction false} RelaySends(hs: Hasher, chunks: seq<bytes>, tree: MerkleHashmap, sent: set<int>,
                                      start: nat, size: nat, x: int)
    requires |chunks| >= 2 && IsDyadic(start, size) && start + size <= Leaves(chunks)
    requires Genuine(hs, chunks, tree) && forall y | y in sent :: y < 2 * Leaves(chunks) - 1
    requires x in Sending(tree, sent, start, size)
    ensures x in Path(Leaves(chunks), start, size) && x in tree && x !in sent
    decreases Leaves(chunks) - size
  {
    hide IsRightHalf, TreeHash, HashAt, Sending, Top;
    var leaves, p := Leaves(chunks), ParentStart(start, size);
    SendingStep(tree, sent, start, size);
    if size >= leaves {
      AtRoot(leaves, start, size);
    } else {
      OneUp(leaves, start, size);
      if x in Sending(tree, sent, p, 2 * size) {
        RelaySends(hs, chunks, tree, sent, p, 2 * size, x);
      }
    }
  }

  /** A complete climb has found every hash of the path that is not null, on the channel or in the tree. */
  lemma {:induction false} ClimbUses(hs: Hasher, chunks: seq<bytes>, tree: MerkleHashmap, pend: MerkleHashmap,
                                     start: nat, size: nat, h: bytes, x: int)
    requires |chunks| >= 1 && IsDyadic(start, size) && start + size <= Leaves(chunks)
    requires ClimbKnown(hs, tree, pend, Leaves(chunks), |chunks| - 1, start, size, h).Some?
    requires x in Path(Leaves(chunks), start, size) && x >= 0 && HashAt(hs, chunks, x).Some?
    ensures x in tree || (x in pend && x in UsedKnown(pend, Leaves(chunks), |chunks| - 1, start, size))
    decreases Leaves(chunks) - size
  {
    hide IsRightHalf, TreeHash, HashAt, Combine;
    var leaves, range, y, p := Leaves(chunks), |chunks| - 1, SiblingIndex(start, size), ParentStart(start, size);
    OneUp(leaves, start, size);
    SiblingHash(hs, chunks, start, size);
    if x != y {
      var sibling := if SiblingStart(start, size) > range then None else Lookup(tree, pend, y);
      ClimbUses(hs, chunks, tree, pend, p, 2 * size, Combine(hs, start, size, h, sibling), x);
    }
  }

  /** After a packet for chunk i was accepted, all that chunk i needs is in the shared tree. */
  lemma AcceptedIsHeld(hs: Hasher, chunkSize: nat, chunks: seq<bytes>, v: Verifier, c: int, i: nat, b: bytes)
    requires |chunks| >= 2 && i < |chunks| && v.chunkRange == |chunks| - 1 && v.leafNodeCount == Leaves(chunks)
    requires CheckKnown(hs, chunkSize, RootDigest(hs, chunks), v, c, i, b).0
    ensures Needed(hs, chunks, i) <= CheckKnown(hs, chunkSize, RootDigest(hs, chunks), v, c, i, b).1.tree.Keys
  {
    hide HashAt, ClimbKnown, UsedKnown, RootDigest;
    SingleIsDyadic(i);
    forall x: int | x in Needed(hs, chunks, i)
      ensures x in CheckKnown(hs, chunkSize, RootDigest(hs, chunks), v, c, i, b).1.tree
    {
      ClimbUses(hs, chunks, v.tree, Pending(v.inte, c), i, 1, hs.sum(b), x);
    }
  }

  /** The shared tree only grows. */
  lemma {:induction false} TreeGrows(hs: Hasher, chunkSize: nat, chunks: seq<bytes>, s: Session, events: seq<Event>)
    requires |chunks| >= 2 && Honest(hs, chunks, s)
    ensures s.v.tree.Keys <= Run(hs, chunkSize, chunks, s, events).v.tree.Keys
    decreases |events|
  {
    hide Honest, CheckData, MadeTree, Sending;
    if events != [] {
      var init, e := events[..|events| - 1], events[|events| - 1];
      var before := Run(hs, chunkSize, chunks, s, init);
      TreeGrows(hs, chunkSize, chunks, s, init);
      RunKeeps(hs, chunkSize, chunks, s, init);
      HonestRange(hs, chunks, before);
      if e.Packet? {
        PacketMoves(hs, chunkSize, RootDigest(hs, chunks), before.v, e.channel, e.data, e.channel);
      }
    }
  }

  /** The relay result. A peer in an honest session that has accepted chunk i, whatever has happened since,
      answers a request for it like the seeder: with what the channel has been sent already and the peak
      hashes, exactly the hashes that the chunk needs. */
  lemma RelayServes(hs: Hasher, chunkSize: nat, chunks: seq<bytes>, s: Session, c: int, i: nat, b: bytes,
                    events: seq<Event>, sent: set<int>)
    requires |chunks| >= 2 && Honest(hs, chunks, s) && i < |chunks|
    requires CheckData(hs, chunkSize, RootDigest(hs, chunks), s.v, c, Data(i, i, Some(b))).0
    requires forall y | y in sent :: y < 2 * Leaves(chunks) - 1
    ensures var tree := Run(hs, chunkSize, chunks, s, [Packet(c, Data(i, i, Some(b)))] + events).v.tree;
            var answer := Sending(tree, sent, i, 1);
            && Needed(hs, chunks, i) <= answer + sent + SentPeaks(chunks)
            && answer <= Needed(hs, chunks, i) - sent
            && forall x: int | x in answer :: x in tree && x >= 0 && tree[x].hash == HashAt(hs, chunks, x)
  {
    hide Honest, CheckKnown, Sending, HashAt, PeakSet, Run, TreeHash, RootDigest;
    var packet := Packet(c, Data(i, i, Some(b)));
    HonestRange(hs, chunks, s);
    StepKeeps(hs, chunkSize, chunks, s, packet);
    var next := Step(hs, chunkSize, chunks, s, packet);
    assert Needed(hs, chunks, i) <= next.v.tree.Keys by {
      SizeOfHonest(hs, chunks, s);
      AcceptedIsHeld(hs, chunkSize, chunks, s.v, c, i, b);
    }
    RunFrom(hs, chunkSize, chunks, s, packet, events);
    TreeGrows(hs, chunkSize, chunks, next, events);
    RunKeeps(hs, chunkSize, chunks, next, events);
    var now := Run(hs, chunkSize, chunks, next, events);
    SizeOfHonest(hs, chunks, now);
    HeldServes(hs, chunks, now.v.tree, sent, i);
  }

  /** The answer of any peer whose genuine tree holds what the chunk needs. */
  lemma HeldServes(hs: Hasher, chunks: seq<bytes>, tree: MerkleHashmap, sent: set<int>, i: nat)
    requires |chunks| >= 2 && i < |chunks| && Genuine(hs, chunks, tree) && Needed(hs, chunks, i) <= tree.Keys
    requires forall y | y in sent :: y < 2 * Leaves(chunks) - 1
    ensures var answer := Sending(tree, sent, i, 1);
            && Needed(hs, chunks, i) <= answer + sent + SentPeaks(chunks)
            && answer <= Needed(hs, chunks, i) - sent
            && forall x: int | x in answer :: x in tree && x >= 0 && tree[x].hash == HashAt(hs, chunks, x)
  {
    hide Sending, HashAt, PeakSet;
    SingleIsDyadic(i);
    forall x: int | x in Path(Leaves(chunks), i, 1) ensures x >= 0 && (HashAt(hs, chunks, x).Some? ==> x in tree) {
      PathNodes(Leaves(chunks), i, 1, x);
      if HashAt(hs, chunks, x).Some? {
        assert x in Needed(hs, chunks, i);
      }
    }
    forall x: int | x in Needed(hs, chunks, i) ensures x in Sending(tree, sent, i, 1) + sent + SentPeaks(chunks) {
      RelayCovers(hs, chunks, tree, sent, i, 1, x);
    }
    forall x: int | x in Sending(tree, sent, i, 1) ensures x in Needed(hs, chunks, i) - sent && x in tree {
      RelaySends(hs, chunks, tree, sent, i, 1, x);
    }
  }

  lemma SizeOfHonest(hs: Hasher, chunks: seq<bytes>, s: Session)
    requires |chunks| >= 1 && Honest(hs, chunks, s)
    ensures s.v.chunkRange == |chunks| - 1 && s.v.leafNodeCount == Leaves(chunks) && Genuine(hs, chunks, s.v.tree)
  {
  }

  lemma {:induction false} RunFrom(hs: Hasher, chunkSize: nat, chunks: seq<bytes>, s: Session, e: Event, events: seq<Event>)
    requires |chunks| >= 1
    ensures Run(hs, chunkSize, chunks, s, [e] + events)
         == Run(hs, chunkSize, chunks, Step(hs, chunkSize, chunks, s, e), events)
    decreases |events|
  {
    hide Step;
    var all := [e] + events;
    if events == [] {
      assert all[..|all| - 1] == [] && all[|all| - 1] == e;
    } else {
      assert all[..|all| - 1] == [e] + events[..|events| - 1] && all[|all| - 1] == events[|events| - 1];
      RunFrom(hs, chunkSize, chunks, s, e, events[..|events| - 1]);
    }
  }
}
