/** Honest chunks always verify: a seeder and a verifier that knows the size, connected by channels
    that may delay, reorder and repeat hashes, whatever data packets arrive in between. */
module Completeness {
  import opened Bits
  import opened Bytes
  import opened Dyadic
  import opened Merkle
  import opened Paths
  import opened Verification
  import opened Sender

  /** Every stored node has the hash of the source tree. */
  ghost predicate Genuine(hs: Hasher, chunks: seq<bytes>, m: MerkleHashmap)
    requires |chunks| >= 1
  {
    forall x: int | x in m :: 0 <= x < 2 * Leaves(chunks) - 1 && m[x].hash.Some? && m[x].hash == HashAt(hs, chunks, x)
  }

  /** Every hash needed from a range upwards is at hand. */
  ghost predicate AtHand(hs: Hasher, chunks: seq<bytes>, tree: MerkleHashmap, pend: MerkleHashmap, start: nat, size: nat)
    requires |chunks| >= 1 && size >= 1
  {
    forall x: int | x in Path(Leaves(chunks), start, size) ::
      x >= 0 && (HashAt(hs, chunks, x).Some? ==> x in tree || x in pend)
  }

  lemma {:induction false} HonestClimb(hs: Hasher, chunks: seq<bytes>, tree: MerkleHashmap, pend: MerkleHashmap,
                                       start: nat, size: nat)
    requires |chunks| >= 1 && IsDyadic(start, size) && start + size <= Leaves(chunks) && start < |chunks|
    requires Genuine(hs, chunks, tree) && Genuine(hs, chunks, pend) && AtHand(hs, chunks, tree, pend, start, size)
    ensures TreeHash(hs, chunks, start, size).Some?
    ensures ClimbKnown(hs, tree, pend, Leaves(chunks), |chunks| - 1, start, size, TreeHash(hs, chunks, start, size).value)
         == Some(RootDigest(hs, chunks))
    decreases Leaves(chunks) - size
  {
    hide IsRightHalf, TreeHash, IsDyadic, PowerOfTwo, Combine;
    var leaves := Leaves(chunks);
    DyadicSize(start, size);
    NullExactlyForPadding(hs, chunks, start, size);
    if size >= leaves {
      AtRoot(leaves, start, size);
    } else {
      OneUp(leaves, start, size);
      var x := SiblingIndex(start, size);
      NullExactlyForPadding(hs, chunks, SiblingStart(start, size), size);
      assert x in Path(leaves, start, size);
      ParentHash(hs, chunks, start, size);
      HonestClimb(hs, chunks, tree, pend, ParentStart(start, size), 2 * size);
    }
  }

  /** The parent's hash in terms of a child and its sibling, as the climbs compute it. */
  lemma ParentHash(hs: Hasher, chunks: seq<bytes>, start: nat, size: nat)
    requires IsDyadic(start, size) && TreeHash(hs, chunks, start, size).Some?
    ensures TreeHash(hs, chunks, ParentStart(start, size), 2 * size)
         == Some(Combine(hs, start, size, TreeHash(hs, chunks, start, size).value,
                         TreeHash(hs, chunks, SiblingStart(start, size), size)))
  {
    hide IsRightHalf, TreeHash, IsDyadic;
    SiblingFacts(start, size);
    DyadicSize(start, size);
    JoinHalves(hs, chunks, ParentStart(start, size), size);
  }

  // -------------------------------------------------------------------------------- sessions

  /** A seeder and a verifier: what was sent and what has arrived on each channel. */
  datatype Session = Session(sent: SendMaps, arrived: SendMaps, v: Verifier)

  datatype Event =
    | Request(channel: int, index: nat)
    | Arrive(channel: int, node: int)
    | Volunteer(channel: int, node: int)
    | Packet(channel: int, data: Data)

  function MessageOf(node: BTreeNode): Integrity {
    Integrity(node.startChunk, node.endChunk, match node.hash case Some(b) => b case None => [])
  }

  /** The seeder answers a request, a hash from an answer arrives (again), a genuine hash arrives that is
      no part of an answer, such as the peak hashes sent ahead of the first answer on every channel, or a
      data packet is checked. */
  ghost function Step(hs: Hasher, chunkSize: nat, chunks: seq<bytes>, s: Session, e: Event): Session
    requires |chunks| >= 1
  {
    var tree := MadeTree(hs, chunks, Leaves(chunks));
    match e
    case Request(c, i) =>
      s.(sent := s.sent[c := SentOn(s.sent, c) + Sending(tree, SentOn(s.sent, c), i, 1)])
    case Arrive(c, x) =>
      if x in SentOn(s.sent, c) && x in tree then
        s.(arrived := s.arrived[c := SentOn(s.arrived, c) + {x}],
           v := s.v.(inte := AddReceived(s.v.inte, c, MessageOf(tree[x]))))
      else s
    case Volunteer(c, x) =>
      if x in tree && tree[x].hash.Some? then s.(v := s.v.(inte := AddReceived(s.v.inte, c, MessageOf(tree[x])))) else s
    case Packet(c, d) =>
      s.(v := CheckData(hs, chunkSize, RootDigest(hs, chunks), s.v, c, d).1)
  }

  ghost function Run(hs: Hasher, chunkSize: nat, chunks: seq<bytes>, s: Session, events: seq<Event>): Session
    requires |chunks| >= 1
  {
    if events == [] then s
    else
      Step(hs, chunkSize, chunks, Run(hs, chunkSize, chunks, s, events[..|events| - 1]), events[|events| - 1])
  }

  /** What every step keeps. */
  ghost predicate Honest(hs: Hasher, chunks: seq<bytes>, s: Session)
    requires |chunks| >= 1
  {
    && s.v.chunkRange == |chunks| - 1 && s.v.leafNodeCount == Leaves(chunks)
    && Genuine(hs, chunks, s.v.tree)
    && (forall c | c in s.v.inte :: Genuine(hs, chunks, s.v.inte[c]))
    && (forall c: int | c in s.sent :: forall x: int | x in s.sent[c] ::
          0 <= x < 2 * Leaves(chunks) - 1 && HashAt(hs, chunks, x).Some?)
    && (forall c: int | c in s.arrived :: forall x: int | x in s.arrived[c] :: x in s.v.tree || x in Pending(s.v.inte, c))
  }

  lemma ArriveKeeps(hs: Hasher, chunkSize: nat, chunks: seq<bytes>, s: Session, c: int, x: int)
    requires |chunks| >= 2 && Honest(hs, chunks, s)
    ensures Honest(hs, chunks, Step(hs, chunkSize, chunks, s, Arrive(c, x)))
  {
    hide MadeTree, MadeNode, HashAt, TreeHash;
    MadeAt(hs, chunks, Leaves(chunks), x);
  }

  lemma VolunteerKeeps(hs: Hasher, chunkSize: nat, chunks: seq<bytes>, s: Session, c: int, x: int)
    requires |chunks| >= 2 && Honest(hs, chunks, s)
    ensures Honest(hs, chunks, Step(hs, chunkSize, chunks, s, Volunteer(c, x)))
  {
    hide MadeTree, MadeNode, HashAt, TreeHash;
    MadeAt(hs, chunks, Leaves(chunks), x);
  }

  lemma RequestKeeps(hs: Hasher, chunkSize: nat, chunks: seq<bytes>, s: Session, c: int, i: nat)
    requires |chunks| >= 2 && Honest(hs, chunks, s)
    ensures Honest(hs, chunks, Step(hs, chunkSize, chunks, s, Request(c, i)))
    ensures Needed(hs, chunks, i) <= SentOn(Step(hs, chunkSize, chunks, s, Request(c, i)).sent, c)
  {
    hide TreeHash, Sending, MadeNode;
    forall x | x in SentOn(s.sent, c) ensures x in MadeTree(hs, chunks, Leaves(chunks)) {
      MadeAt(hs, chunks, Leaves(chunks), x);
    }
    SendingIsNeeded(hs, chunks, SentOn(s.sent, c), i);
    forall x | x in Needed(hs, chunks, i) ensures 0 <= x < 2 * Leaves(chunks) - 1 && HashAt(hs, chunks, x).Some? {
      SingleIsDyadic(i);
      PathNodes(Leaves(chunks), i, 1, x);
    }
  }

  lemma CommitKeeps(hs: Hasher, chunks: seq<bytes>, s: Session, v: Verifier, c: int, used: set<int>)
    requires |chunks| >= 1 && Honest(hs, chunks, s)
    requires v.tree == s.v.tree && v.inte == s.v.inte
    requires v.chunkRange == s.v.chunkRange && v.leafNodeCount == s.v.leafNodeCount
    ensures Honest(hs, chunks, s.(v := Commit(v, c, used)))
  {
    hide HashAt;
  }

  lemma PacketKeeps(hs: Hasher, chunkSize: nat, chunks: seq<bytes>, s: Session, c: int, d: Data)
    requires |chunks| >= 1 && Honest(hs, chunks, s)
    ensures Honest(hs, chunks, Step(hs, chunkSize, chunks, s, Packet(c, d)))
  {
    hide Honest, Commit, ClimbKnown, UsedKnown, Leaves, TreeHash;
    assert s.v.chunkRange >= 0 by { HonestRange(hs, chunks, s); }
    assert s.(v := s.v) == s;
    if d.buffer.Some? && d.startChunk == d.endChunk {
      var root := RootDigest(hs, chunks);
      var (ok, after) := CheckKnown(hs, chunkSize, root, s.v, c, d.startChunk, d.buffer.value);
      if ok {
        var used := UsedKnown(Pending(s.v.inte, c), s.v.leafNodeCount, s.v.chunkRange, d.startChunk, 1);
        CommitKeeps(hs, chunks, s, s.v, c, used);
        CommitKeeps(hs, chunks, s, s.v.(contentSize := chunkSize * s.v.chunkRange + |d.buffer.value|,
                                        lastChunkSize := |d.buffer.value|), c, used);
      }
    }
  }

  lemma HonestRange(hs: Hasher, chunks: seq<bytes>, s: Session)
    requires |chunks| >= 1 && Honest(hs, chunks, s)
    ensures s.v.chunkRange >= 0
  {
  }

  lemma StepKeeps(hs: Hasher, chunkSize: nat, chunks: seq<bytes>, s: Session, e: Event)
    requires |chunks| >= 2 && Honest(hs, chunks, s)
    ensures Honest(hs, chunks, Step(hs, chunkSize, chunks, s, e))
  {
    hide Honest, Step;
    match e
    case Request(c, i) => RequestKeeps(hs, chunkSize, chunks, s, c, i);
    case Arrive(c, x) => ArriveKeeps(hs, chunkSize, chunks, s, c, x);
    case Volunteer(c, x) => VolunteerKeeps(hs, chunkSize, chunks, s, c, x);
    case Packet(c, d) => PacketKeeps(hs, chunkSize, chunks, s, c, d);
  }

  lemma {:induction false} RunKeeps(hs: Hasher, chunkSize: nat, chunks: seq<bytes>, s: Session, events: seq<Event>)
    requires |chunks| >= 2 && Honest(hs, chunks, s)
    ensures Honest(hs, chunks, Run(hs, chunkSize, chunks, s, events))
    decreases |events|
  {
    if events != [] {
      var init := events[..|events| - 1];
      RunKeeps(hs, chunkSize, chunks, s, init);
      StepKeeps(hs, chunkSize, chunks, Run(hs, chunkSize, chunks, s, init), events[|events| - 1]);
    }
  }

  /** What a chunk needs has been sent on every channel it was requested on. */
  lemma {:induction false} RequestedIsSent(hs: Hasher, chunkSize: nat, chunks: seq<bytes>, s: Session,
                                           events: seq<Event>, c: int, i: nat)
    requires |chunks| >= 2 && Honest(hs, chunks, s) && Request(c, i) in events
    ensures Needed(hs, chunks, i) <= SentOn(Run(hs, chunkSize, chunks, s, events).sent, c)
    decreases |events|
  {
    hide Needed, Honest, MadeTree;
    var init, last := events[..|events| - 1], events[|events| - 1];
    RunKeeps(hs, chunkSize, chunks, s, init);
    if last == Request(c, i) {
      RequestKeeps(hs, chunkSize, chunks, Run(hs, chunkSize, chunks, s, init), c, i);
    } else {
      assert Request(c, i) in init;
      RequestedIsSent(hs, chunkSize, chunks, s, init, c, i);
    }
  }

  /** Two-sided completeness. Start from any honest session and let any events happen, on any
      channels: requests, deliveries in any order and number, and packets genuine or forged. If chunk
      i was requested on channel c and the hashes it needs that were sent on c have arrived, the
      genuine chunk is accepted, although the seeder never repeats a hash and the verifier keeps
      moving hashes out of the channel. */
  lemma GenuineChunkAccepted(hs: Hasher, chunkSize: nat, chunks: seq<bytes>, s: Session,
                             events: seq<Event>, c: int, i: nat)
    requires |chunks| >= 2 && Honest(hs, chunks, s)
    requires i < |chunks| && Request(c, i) in events
    requires var now := Run(hs, chunkSize, chunks, s, events);
             SentOn(now.sent, c) * Needed(hs, chunks, i) <= SentOn(now.arrived, c)
    ensures var now := Run(hs, chunkSize, chunks, s, events);
            CheckData(hs, chunkSize, RootDigest(hs, chunks), now.v, c, Data(i, i, Some(chunks[i]))).0
  {
    hide TreeHash, Run, Needed, CheckData, Honest;
    var now := Run(hs, chunkSize, chunks, s, events);
    RunKeeps(hs, chunkSize, chunks, s, events);
    RequestedIsSent(hs, chunkSize, chunks, s, events, c, i);
    assert Needed(hs, chunks, i) <= SentOn(now.arrived, c);
    AcceptedWhenAtHand(hs, chunkSize, chunks, now, c, i);
  }

  /** The genuine chunk is accepted on a channel where the hashes it needs have arrived. */
  lemma AcceptedWhenAtHand(hs: Hasher, chunkSize: nat, chunks: seq<bytes>, now: Session, c: int, i: nat)
    requires |chunks| >= 2 && Honest(hs, chunks, now) && i < |chunks|
    requires Needed(hs, chunks, i) <= SentOn(now.arrived, c)
    ensures CheckData(hs, chunkSize, RootDigest(hs, chunks), now.v, c, Data(i, i, Some(chunks[i]))).0
  {
    hide CheckKnown, Needed, HashAt, Genuine;
    var v := now.v;
    forall x: int | x in Needed(hs, chunks, i) ensures x in v.tree.Keys + Pending(v.inte, c).Keys {
      assert x in SentOn(now.arrived, c);
    }
    assert Genuine(hs, chunks, Pending(v.inte, c)) by { NothingIsGenuine(hs, chunks); }
    AcceptedAtHand(hs, chunkSize, chunks, v, c, i);
  }

  lemma NothingIsGenuine(hs: Hasher, chunks: seq<bytes>)
    requires |chunks| >= 1
    ensures Genuine(hs, chunks, map[])
  {
  }

  /** One check: with right hashes in the shared tree and on the channel, and all that the chunk needs
      among them, the genuine chunk is accepted. */
  lemma AcceptedAtHand(hs: Hasher, chunkSize: nat, chunks: seq<bytes>, v: Verifier, c: int, i: nat)
    requires |chunks| >= 2 && i < |chunks| && v.chunkRange == |chunks| - 1 && v.leafNodeCount == Leaves(chunks)
    requires Genuine(hs, chunks, v.tree) && Genuine(hs, chunks, Pending(v.inte, c))
    requires Needed(hs, chunks, i) <= v.tree.Keys + Pending(v.inte, c).Keys
    ensures CheckKnown(hs, chunkSize, RootDigest(hs, chunks), v, c, i, chunks[i]).0
  {
    hide TreeHash, ClimbKnown, UsedKnown;
    SingleIsDyadic(i);
    var pend := Pending(v.inte, c);
    assert AtHand(hs, chunks, v.tree, pend, i, 1) by {
      forall x | x in Path(Leaves(chunks), i, 1)
        ensures x >= 0 && (HashAt(hs, chunks, x).Some? ==> x in v.tree || x in pend)
      {
        PathNodes(Leaves(chunks), i, 1, x);
        if HashAt(hs, chunks, x).Some? {
          assert x in Needed(hs, chunks, i);
          assert x in v.tree.Keys + pend.Keys;
        }
      }
    }
    LeafHash(hs, chunks, i);
    HonestClimb(hs, chunks, v.tree, pend, i, 1);
  }

  lemma LeafHash(hs: Hasher, chunks: seq<bytes>, i: nat)
    requires i < |chunks|
    ensures TreeHash(hs, chunks, i, 1) == Some(hs.sum(chunks[i]))
  {
  }
}
