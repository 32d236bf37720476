/** A seeder and a peer as objects: the calls the message handlers make for one request, and what
    comes of them. */
module Exchange {
  import opened Bits
  import opened Bytes
  import opened Dyadic
  import opened Merkle
  import opened Paths
  import opened Verification
  import opened Sender
  import opened Completeness
  import opened PeakExchange
  import opened FirstData
  import opened FirstContact
  import opened HashTrees

  /** The state Make leaves, with the peak map not computed yet or computed by an earlier call. */
  ghost predicate Seeding(s: HashTree, chunks: seq<bytes>)
    reads s
  {
    && |chunks| >= 2
    && s.hashTreeMap == MadeTree(s.hasher, chunks, Leaves(chunks))
    && s.chunkRange == |chunks| - 1 && s.lastChunkIndex == 2 * (|chunks| - 1)
    && s.peakHashMap == if s.isPeakMapCreated then Restrict(s.hashTreeMap, SentPeaks(chunks)) else map[]
  }

  function OnChannel(sent: SendMaps, c: int): SendMaps {
    if c in sent then map[c := sent[c]] else map[]
  }

  /** All hashes sent on the channel have arrived, and the peer knows the size. */
  ghost predicate InSession(seeder: HashTree, peer: HashTree, c: int, chunks: seq<bytes>)
    requires |chunks| >= 1
    reads seeder, peer
  {
    var sent := OnChannel(seeder.integritySendMap, c);
    Honest(peer.hasher, chunks, Session(sent, sent, peer.View()))
  }

  /** A new seeder of a file of at least two chunks. */
  method StartSeeding(hasher: Hasher, chunkSize: nat, content: bytes) returns (s: HashTree)
    requires chunkSize > 0 && |content| > chunkSize
    ensures fresh(s) && s.hasher == hasher && s.chunkSize == chunkSize
    ensures Seeding(s, Split(content, chunkSize)) && s.integritySendMap == map[]
    ensures s.rootHash == Some(RootDigest(hasher, Split(content, chunkSize)))
  {
    s := new HashTree(hasher, chunkSize);
    s.Make(content);
  }

  /** A new peer that knows the root hash only. */
  method JoinSwarm(hasher: Hasher, chunkSize: nat, root: bytes) returns (p: HashTree)
    ensures fresh(p) && p.hasher == hasher && p.chunkSize == chunkSize
    ensures p.View() == UNKNOWN && p.rootHash == Some(root)
  {
    p := new HashTree(hasher, chunkSize);
    p.SetRootHash(root);
  }

  /** The nodes as the receiver stores them. */
  function Stored(nodes: MerkleHashmap): MerkleHashmap {
    map k | k in nodes :: Received(MessageOf(nodes[k]))
  }

  function AddNodes(inte: IntegrityMaps, c: int, nodes: MerkleHashmap): IntegrityMaps {
    if nodes == map[] then inte else inte[c := Pending(inte, c) + Stored(nodes)]
  }

  /** The sending loops of SendPeakHash and SendData, in the arbitrary order of the hash map, and the
      receiver's side of each message. */
  method SendNodes(peer: HashTree, channel: int, nodes: MerkleHashmap)
    requires WellStored(peer.View())
    requires forall k | k in nodes :: nodes[k].hash.Some? && nodes[k].startChunk + nodes[k].endChunk == k
    modifies peer`integrityMap
    ensures WellStored(peer.View()) && peer.integrityMap == AddNodes(old(peer.integrityMap), channel, nodes)
  {
    var keys := nodes.Keys;
    ghost var inte := peer.integrityMap;
    while exists k :: k in keys
      invariant keys <= nodes.Keys && WellStored(peer.View())
      invariant peer.integrityMap == AddNodes(inte, channel, nodes - keys)
      decreases keys
    {
      var k :| k in keys;
      OneMoreNode(inte, channel, nodes, keys, k);
      peer.AddIntegrity(channel, MessageOf(nodes[k]));
      keys := keys - {k};
    }
    assert keys == {} && nodes - {} == nodes;
  }

  lemma OneMoreNode(inte: IntegrityMaps, c: int, nodes: MerkleHashmap, keys: set<int>, k: int)
    requires k in keys && keys <= nodes.Keys
    requires forall k | k in nodes :: nodes[k].startChunk + nodes[k].endChunk == k
    ensures AddNodes(inte, c, nodes - (keys - {k})) == AddReceived(AddNodes(inte, c, nodes - keys), c, MessageOf(nodes[k]))
  {
    var more, less := nodes - (keys - {k}), nodes - keys;
    assert k in more && more.Keys == less.Keys + {k};
    assert Pending(inte, c) + Stored(more) == (Pending(inte, c) + Stored(less))[k := Received(MessageOf(nodes[k]))];
    if less == map[] {
      assert Pending(inte, c) + Stored(less) == Pending(inte, c);
    }
  }

  /** The indices are nodes of the tree that hold chunks. */
  ghost predicate Hashed(hs: Hasher, chunks: seq<bytes>, ks: set<int>)
    requires |chunks| >= 1
  {
    forall x: int | x in ks :: 0 <= x < 2 * Leaves(chunks) - 1 && HashAt(hs, chunks, x).Some?
  }

  /** Nodes of the made tree are stored as the messages for their indices. */
  lemma StoredMessages(hs: Hasher, chunks: seq<bytes>, ks: set<int>)
    requires |chunks| >= 1 && Hashed(hs, chunks, ks)
    ensures var nodes := Restrict(MadeTree(hs, chunks, Leaves(chunks)), ks);
            && Stored(nodes) == Messages(hs, chunks, ks) && nodes.Keys == ks
            && forall k | k in nodes :: nodes[k].hash.Some? && nodes[k].startChunk + nodes[k].endChunk == k
  {
    hide MadeNode, TreeHash;
    var tree := MadeTree(hs, chunks, Leaves(chunks));
    forall x: int | x in ks
      ensures x in tree && tree[x] == MadeNode(hs, chunks, Leaves(chunks), x) && tree[x].hash.Some?
      ensures tree[x].startChunk + tree[x].endChunk == x
    {
      MadeAt(hs, chunks, Leaves(chunks), x);
    }
  }

  lemma MessagesJoin(hs: Hasher, chunks: seq<bytes>, a: set<int>, b: set<int>)
    requires |chunks| >= 1
    ensures Messages(hs, chunks, a) + Messages(hs, chunks, b) == Messages(hs, chunks, a + b)
  {
    hide MadeNode;
  }

  lemma NothingAdded(m: MerkleHashmap)
    ensures map[] + m == m
  {
  }

  lemma TwoBatches(hs: Hasher, chunks: seq<bytes>, c: int, a: set<int>, b: set<int>)
    requires |chunks| >= 1 && b != {} && Hashed(hs, chunks, a) && Hashed(hs, chunks, b)
    ensures var tree := MadeTree(hs, chunks, Leaves(chunks));
            AddNodes(AddNodes(map[], c, Restrict(tree, a)), c, Restrict(tree, b)) == map[c := Messages(hs, chunks, a + b)]
  {
    hide MadeTree, Hashed, Messages, Stored;
    StoredMessages(hs, chunks, a);
    StoredMessages(hs, chunks, b);
    var tree := MadeTree(hs, chunks, Leaves(chunks));
    assert Restrict(tree, b) != map[] by {
      assert Restrict(tree, b).Keys == b;
    }
    MessagesJoin(hs, chunks, a, b);
    NothingAdded(Messages(hs, chunks, a));
    NothingAdded(Messages(hs, chunks, b));
    if Restrict(tree, a) == map[] {
      assert a == {} by { assert Restrict(tree, a).Keys == a; }
      assert a + b == b;
    }
  }

  /** The peak hashes, then the hashes for the first chunk asked for. */
  method SendFirst(seeder: HashTree, peer: HashTree, channel: int, index: nat, ghost chunks: seq<bytes>)
    requires seeder != peer && seeder.hasher == peer.hasher && Seeding(seeder, chunks)
    requires channel !in seeder.integritySendMap && peer.View() == UNKNOWN
    requires index < |chunks|
    modifies seeder`peakHashMap, seeder`isPeakMapCreated, seeder`integritySendMap, peer`integrityMap
    ensures Seeding(seeder, chunks) && WellStored(peer.View())
    ensures OnChannel(seeder.integritySendMap, channel) == map[channel := Needed(seeder.hasher, chunks, index)]
    ensures peer.integrityMap
         == map[channel := Messages(seeder.hasher, chunks, SentPeaks(chunks) + Needed(seeder.hasher, chunks, index))]
  {
    hide MadeTree, Hashed, TreeHash, PowerOfTwo, Needed, Sending, PeakSet, Restrict, Messages, Stored;
    ghost var hs := seeder.hasher;
    FirstFacts(hs, chunks, index);
    NothingStored();
    SendPeaks(seeder, peer, channel, chunks);
    MadeTreeIsLinked(hs, chunks);
    var nodes := seeder.GetDataIntegrity(channel, index);
    NoneSentYet(hs, chunks, index);
    StoredMessages(hs, chunks, Needed(hs, chunks, index));
    SendNodes(peer, channel, nodes);
    TwoBatches(hs, chunks, channel, SentPeaks(chunks), Needed(hs, chunks, index));
    assert {} + nodes.Keys == nodes.Keys == Needed(hs, chunks, index);
  }

  lemma NothingStored()
    ensures WellStored(UNKNOWN)
  {
  }

  /** The peak hashes, computed now or remembered. */
  method SendPeaks(seeder: HashTree, peer: HashTree, channel: int, ghost chunks: seq<bytes>)
    requires seeder != peer && Seeding(seeder, chunks) && WellStored(peer.View())
    requires Hashed(seeder.hasher, chunks, SentPeaks(chunks))
    modifies seeder`peakHashMap, seeder`isPeakMapCreated, peer`integrityMap
    ensures Seeding(seeder, chunks) && WellStored(peer.View())
    ensures peer.integrityMap == AddNodes(old(peer.integrityMap), channel, Restrict(seeder.hashTreeMap, SentPeaks(chunks)))
  {
    hide MadeTree, Hashed, PeakWalk, WellLinked, PeakSet, Restrict, WellStored, Stored;
    ghost var hs := seeder.hasher;
    SeederSendsPeaks(hs, chunks);
    MadeTreeIsLinked(hs, chunks);
    PeakMapKeys(hs, chunks);
    var peaks := seeder.GetPeakHashes();
    NoPeaks(hs, chunks);
    assert peaks == Restrict(seeder.hashTreeMap, SentPeaks(chunks));
    StoredMessages(hs, chunks, SentPeaks(chunks));
    SendNodes(peer, channel, peaks);
  }

  /** What the seeder and the peer make of the first request on a channel. */
  method FirstRequest(seeder: HashTree, peer: HashTree, channel: int, index: nat, ghost chunks: seq<bytes>, chunk: bytes)
    returns (dataOk: int, peakOk: int)
    requires seeder != peer && seeder.hasher == peer.hasher && Seeding(seeder, chunks)
    requires channel !in seeder.integritySendMap && peer.View() == UNKNOWN
    requires peer.rootHash == Some(RootDigest(peer.hasher, chunks))
    requires index < |chunks| && chunk == chunks[index]
    modifies seeder`peakHashMap, seeder`isPeakMapCreated, seeder`integritySendMap, peer
    ensures Seeding(seeder, chunks) && WellStored(peer.View()) && peer.rootHash == Some(RootDigest(peer.hasher, chunks))
    ensures FirstContactWorks(|chunks|, index) ==> dataOk == 1 && peakOk == 1 && InSession(seeder, peer, channel, chunks)
    ensures RootIsApart(peer.hasher, chunks) ==> (dataOk == 1 && peakOk == 1 <==> FirstContactWorks(|chunks|, index))
  {
    hide MadeTree, Hashed, PowerOfTwo, Needed, Honest, CheckUnknown, PeakOutcome, RootDigest, PeakSet, Messages;
    hide WellStored, FirstContactWorks, RootIsApart;
    ghost var hs := seeder.hasher;
    FirstFacts(hs, chunks, index);
    SendFirst(seeder, peer, channel, index, chunks);
    ghost var v0 := peer.View();
    dataOk := peer.CheckDataIntegrity(channel, Data(index, index, Some(chunk)));
    ghost var v1 := peer.View();
    peakOk := 0;
    if dataOk == 1 {
      MessagesNonEmpty(hs, chunks, SentPeaks(chunks) + Needed(hs, chunks, index));
      UnknownKeepsNonEmpty(hs, RootDigest(hs, chunks), v0, channel, index, chunk);
      peakOk := peer.CheckPeakHash(channel);
    }
    FirstContactStored(hs, chunks, channel, index, dataOk == 1, v1, peakOk == 1, peer.View());
  }

  /** The data check takes messages off the channel and adds none. */
  lemma UnknownKeepsNonEmpty(hs: Hasher, root: bytes, v: Verifier, c: int, i: nat, b: bytes)
    requires NonEmptyRanges(Pending(v.inte, c))
    ensures NonEmptyRanges(Pending(CheckUnknown(hs, root, v, c, i, b).1.inte, c))
  {
    hide ClimbUnknown, UsedUnknown;
  }

  lemma FirstFacts(hs: Hasher, chunks: seq<bytes>, i: nat)
    requires |chunks| >= 2 && i < |chunks|
    ensures Needed(hs, chunks, i) != {}
    ensures Hashed(hs, chunks, Needed(hs, chunks, i)) && Hashed(hs, chunks, SentPeaks(chunks))
  {
    hide HashAt, Needed, SentPeaks, Messages;
    SomethingNeeded(hs, chunks, i);
    FirstMessages(hs, chunks, i);
  }

  lemma PeakMapKeys(hs: Hasher, chunks: seq<bytes>)
    requires |chunks| >= 2
    ensures KeysAreIndices(Restrict(MadeTree(hs, chunks, Leaves(chunks)), SentPeaks(chunks)))
    ensures KeysAreIndices(map[])
  {
    hide MadeTree, SentPeaks;
    MadeTreeIsLinked(hs, chunks);
  }

  lemma NoPeaks(hs: Hasher, chunks: seq<bytes>)
    requires |chunks| >= 2
    ensures |chunks| >= Leaves(chunks) ==> Restrict(MadeTree(hs, chunks, Leaves(chunks)), SentPeaks(chunks)) == map[]
    ensures forall m: MerkleHashmap :: map[] + m == m
  {
  }

  lemma MessagesNonEmpty(hs: Hasher, chunks: seq<bytes>, ks: set<int>)
    requires |chunks| >= 1
    ensures NonEmptyRanges(Messages(hs, chunks, ks))
  {
    forall x: int | x in Messages(hs, chunks, ks)
      ensures Messages(hs, chunks, ks)[x].startChunk <= Messages(hs, chunks, ks)[x].endChunk
    {
      RangeOfIndex(x);
    }
  }

  /** Any later request: the hashes not sent before go out, and the chunk is accepted. */
  method LaterRequest(seeder: HashTree, peer: HashTree, channel: int, index: nat, ghost chunks: seq<bytes>, chunk: bytes)
    returns (dataOk: int)
    requires seeder != peer && seeder.hasher == peer.hasher && Seeding(seeder, chunks)
    requires InSession(seeder, peer, channel, chunks)
    requires WellStored(peer.View()) && peer.rootHash == Some(RootDigest(peer.hasher, chunks))
    requires index < |chunks| && chunk == chunks[index]
    modifies seeder`integritySendMap, peer
    ensures dataOk == 1
    ensures Seeding(seeder, chunks) && WellStored(peer.View()) && peer.rootHash == Some(RootDigest(peer.hasher, chunks))
    ensures InSession(seeder, peer, channel, chunks)
  {
    hide MadeTree, Hashed, TreeHash, Needed, Honest, CheckData, Sending, RootDigest, Restrict;
    ghost var hs := seeder.hasher;
    ghost var before := OnChannel(seeder.integritySendMap, channel);
    ghost var s := Session(before, before, peer.View());
    ghost var sent := SentOn(seeder.integritySendMap, channel);
    MadeTreeIsLinked(hs, chunks);
    LaterFacts(hs, chunks, s, channel, index);
    var nodes := seeder.GetDataIntegrity(channel, index);
    StoredMessages(hs, chunks, Needed(hs, chunks, index) - sent);
    SendNodes(peer, channel, nodes);
    ghost var after := OnChannel(seeder.integritySendMap, channel);
    ghost var now := Session(after, after, peer.View());
    DeliveredKeeps(hs, chunks, s, channel, index, now);
    AcceptedWhenAtHand(hs, peer.chunkSize, chunks, now, channel, index);
    dataOk := peer.CheckDataIntegrity(channel, Data(index, index, Some(chunk)));
    PacketKeeps(hs, peer.chunkSize, chunks, now, channel, Data(index, index, Some(chunk)));
  }

  lemma LaterFacts(hs: Hasher, chunks: seq<bytes>, s: Session, c: int, i: nat)
    requires |chunks| >= 2 && Honest(hs, chunks, s)
    ensures Sending(MadeTree(hs, chunks, Leaves(chunks)), SentOn(s.sent, c), i, 1) == Needed(hs, chunks, i) - SentOn(s.sent, c)
    ensures Hashed(hs, chunks, Needed(hs, chunks, i)) && Hashed(hs, chunks, Needed(hs, chunks, i) - SentOn(s.sent, c))
  {
    hide TreeHash, Sending, MadeNode;
    forall x: int | x in SentOn(s.sent, c) ensures x in MadeTree(hs, chunks, Leaves(chunks)) {
      MadeAt(hs, chunks, Leaves(chunks), x);
    }
    SendingIsNeeded(hs, chunks, SentOn(s.sent, c), i);
    forall x: int | x in Needed(hs, chunks, i) ensures 0 <= x < 2 * Leaves(chunks) - 1 && HashAt(hs, chunks, x).Some? {
      SingleIsDyadic(i);
      PathNodes(Leaves(chunks), i, 1, x);
    }
  }

  /** Sending and receiving the missing hashes leads from an honest session to an honest session in
      which all hashes the chunk needs have arrived. */
  lemma DeliveredKeeps(hs: Hasher, chunks: seq<bytes>, s: Session, c: int, i: nat, now: Session)
    requires |chunks| >= 2 && Honest(hs, chunks, s) && s.sent == s.arrived
    requires Hashed(hs, chunks, Needed(hs, chunks, i) - SentOn(s.sent, c))
    requires var news := Needed(hs, chunks, i) - SentOn(s.sent, c);
             var tree := MadeTree(hs, chunks, Leaves(chunks));
             && now.sent == s.sent[c := SentOn(s.sent, c) + news] && now.arrived == now.sent
             && now.v == s.v.(inte := AddNodes(s.v.inte, c, Restrict(tree, news)))
    ensures Honest(hs, chunks, now) && Needed(hs, chunks, i) <= SentOn(now.arrived, c)
  {
    hide MadeTree, HashAt, Needed, Restrict, Messages, Genuine;
    var needed := Needed(hs, chunks, i);
    var news := needed - SentOn(s.sent, c);
    StoredMessages(hs, chunks, news);
    MessagesGenuine(hs, chunks, news);
    var tree := MadeTree(hs, chunks, Leaves(chunks));
    var m := Restrict(tree, news);
    assert m.Keys == news;
    NodesAdded(hs, chunks, s.v.inte, c, m);
    if m == map[] {
      assert news == {};
    }
    assert needed <= SentOn(s.sent, c) + news;
  }

  /** New genuine messages on a channel: all stored messages stay genuine and none is lost. */
  lemma NodesAdded(hs: Hasher, chunks: seq<bytes>, inte: IntegrityMaps, c: int, m: MerkleHashmap)
    requires |chunks| >= 1 && Genuine(hs, chunks, Stored(m))
    requires forall d | d in inte :: Genuine(hs, chunks, inte[d])
    ensures forall d | d in AddNodes(inte, c, m) :: Genuine(hs, chunks, AddNodes(inte, c, m)[d])
    ensures Pending(AddNodes(inte, c, m), c).Keys == Pending(inte, c).Keys + m.Keys
    ensures forall d | d != c :: Pending(AddNodes(inte, c, m), d) == Pending(inte, d)
  {
    hide HashAt, Leaves;
    if m == map[] {
      assert Pending(inte, c).Keys == Pending(inte, c).Keys + m.Keys;
    }
  }
}
