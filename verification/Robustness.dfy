/** One honest channel among hostile ones. Other channels may deliver arbitrary hashes, and data
    packets may be arbitrary on every channel, including the honest one; still, once the honest
    seeder's hashes for a chunk have arrived, exactly the source's chunk is accepted on its channel. */
module Robustness {
  import opened Bits
  import opened Bytes
  import opened Dyadic
  import opened Merkle
  import opened Paths
  import opened Verification
  import opened Sender
  import opened Completeness
  import opened Soundness

  /** The honest seeder's side of channel c, what has arrived from it, and the verifier. */
  datatype Link = Link(sent: set<int>, arrived: set<int>, v: Verifier)

  datatype Happening =
    | Asked(index: nat)
    | Arrived(node: int)
    | Volunteered(node: int)
    | Hostile(m: Message)

  /** Hashes from elsewhere come on other channels. */
  predicate Allowed(hs: Hasher, c: int, e: Happening) {
    e.Hostile? ==> WellSized(hs, e.m) && (e.m.HashMessage? ==> e.m.channel != c)
  }

  ghost function Happen(hs: Hasher, chunkSize: nat, chunks: seq<bytes>, c: int, s: Link, e: Happening): Link
    requires |chunks| >= 1
  {
    var tree := MadeTree(hs, chunks, Leaves(chunks));
    match e
    case Asked(i) => s.(sent := s.sent + Sending(tree, s.sent, i, 1))
    case Arrived(x) =>
      if x in s.sent && x in tree then
        s.(arrived := s.arrived + {x}, v := s.v.(inte := AddReceived(s.v.inte, c, MessageOf(tree[x]))))
      else s
    case Volunteered(x) =>
      if x in tree && tree[x].hash.Some? then s.(v := s.v.(inte := AddReceived(s.v.inte, c, MessageOf(tree[x])))) else s
    case Hostile(m) => s.(v := Deliver(hs, chunkSize, RootDigest(hs, chunks), s.v, m))
  }

  ghost function HappenAll(hs: Hasher, chunkSize: nat, chunks: seq<bytes>, c: int, s: Link, es: seq<Happening>): Link
    requires |chunks| >= 1
  {
    if es == [] then s
    else Happen(hs, chunkSize, chunks, c, HappenAll(hs, chunkSize, chunks, c, s, es[..|es| - 1]), es[|es| - 1])
  }

  /** The strings the verifier hashes during a run. */
  ghost function LinkInputs(hs: Hasher, chunkSize: nat, chunks: seq<bytes>, c: int, s: Link, es: seq<Happening>): set<bytes>
    requires |chunks| >= 1
  {
    if es == [] then {}
    else
      var init, e := es[..|es| - 1], es[|es| - 1];
      LinkInputs(hs, chunkSize, chunks, c, s, init)
      + (if e.Hostile? then InputsOf(hs, HappenAll(hs, chunkSize, chunks, c, s, init).v, e.m) else {})
  }

  /** What everything that happens keeps. */
  ghost predicate Trusted(hs: Hasher, chunks: seq<bytes>, c: int, s: Link)
    requires |chunks| >= 1
  {
    && Sound(hs, chunks, s.v)
    && Genuine(hs, chunks, Pending(s.v.inte, c))
    && (forall x: int | x in s.sent :: 0 <= x < 2 * Leaves(chunks) - 1 && HashAt(hs, chunks, x).Some?)
    && (forall x: int | x in s.arrived :: x in s.v.tree || x in Pending(s.v.inte, c))
  }

  lemma AskedKeeps(hs: Hasher, chunkSize: nat, chunks: seq<bytes>, c: int, s: Link, i: nat)
    requires |chunks| >= 2 && Trusted(hs, chunks, c, s)
    ensures Trusted(hs, chunks, c, Happen(hs, chunkSize, chunks, c, s, Asked(i)))
    ensures Needed(hs, chunks, i) <= Happen(hs, chunkSize, chunks, c, s, Asked(i)).sent
  {
    hide TreeHash, Sending, MadeNode, Sound, Genuine;
    forall x: int | x in s.sent ensures x in MadeTree(hs, chunks, Leaves(chunks)) {
      MadeAt(hs, chunks, Leaves(chunks), x);
    }
    SendingIsNeeded(hs, chunks, s.sent, i);
    forall x: int | x in Needed(hs, chunks, i) ensures 0 <= x < 2 * Leaves(chunks) - 1 && HashAt(hs, chunks, x).Some? {
      SingleIsDyadic(i);
      PathNodes(Leaves(chunks), i, 1, x);
    }
  }

  lemma ArrivedKeeps(hs: Hasher, chunkSize: nat, chunks: seq<bytes>, c: int, s: Link, x: int)
    requires hs.Valid() && |chunks| >= 2 && Trusted(hs, chunks, c, s)
    ensures Trusted(hs, chunks, c, Happen(hs, chunkSize, chunks, c, s, Arrived(x)))
  {
    hide MadeTree, MadeNode, TreeHash, IsDyadic;
    MadeAt(hs, chunks, Leaves(chunks), x);
    if x in s.sent {
      RangeOfIndex(x);
      DyadicSize(StartOf(x), SizeOf(x));
      NullExactlyForPadding(hs, chunks, StartOf(x), SizeOf(x));
    }
  }

  /** A genuine hash that is no part of an answer, such as a peak hash. */
  lemma VolunteeredKeeps(hs: Hasher, chunkSize: nat, chunks: seq<bytes>, c: int, s: Link, x: int)
    requires hs.Valid() && |chunks| >= 2 && Trusted(hs, chunks, c, s)
    ensures Trusted(hs, chunks, c, Happen(hs, chunkSize, chunks, c, s, Volunteered(x)))
  {
    hide MadeTree, MadeNode, TreeHash, IsDyadic;
    MadeAt(hs, chunks, Leaves(chunks), x);
    if 0 <= x < 2 * Leaves(chunks) - 1 {
      RangeOfIndex(x);
      DyadicSize(StartOf(x), SizeOf(x));
      NullExactlyForPadding(hs, chunks, StartOf(x), SizeOf(x));
    }
  }

  lemma HostileKeeps(hs: Hasher, chunkSize: nat, chunks: seq<bytes>, c: int, s: Link, m: Message)
    requires hs.Valid() && |chunks| >= 2 && Trusted(hs, chunks, c, s) && Allowed(hs, c, Hostile(m))
    requires NoCollision(hs, InputsOf(hs, s.v, m) + SourceInputs(hs, chunks))
    ensures Trusted(hs, chunks, c, Happen(hs, chunkSize, chunks, c, s, Hostile(m)))
  {
    hide NoCollision, SourceInputs, InputsOf, Sound, HashAt;
    MessageIsSound(hs, chunkSize, chunks, s.v, m);
    match m
    case HashMessage(d, i) =>
      assert Pending(AddReceived(s.v.inte, d, i), c) == Pending(s.v.inte, c);
    case DataMessage(d, p) =>
      KnownSize(hs, chunks, s.v);
      PacketMoves(hs, chunkSize, RootDigest(hs, chunks), s.v, d, p, c);
      PartStaysGenuine(hs, chunks, Pending(s.v.inte, c),
                       Pending(Deliver(hs, chunkSize, RootDigest(hs, chunks), s.v, m).inte, c));
  }

  lemma KnownSize(hs: Hasher, chunks: seq<bytes>, v: Verifier)
    requires |chunks| >= 1 && Sound(hs, chunks, v)
    ensures v.chunkRange >= 0
  {
  }

  lemma PartStaysGenuine(hs: Hasher, chunks: seq<bytes>, m: MerkleHashmap, part: MerkleHashmap)
    requires |chunks| >= 1 && Genuine(hs, chunks, m) && IsPart(part, m)
    ensures Genuine(hs, chunks, part)
  {
    hide HashAt, Leaves;
  }

  /** A data packet takes nodes from its channel only to put them into the shared tree. */
  lemma PacketMoves(hs: Hasher, chunkSize: nat, root: bytes, v: Verifier, d: int, p: Data, c: int)
    requires v.chunkRange >= 0
    ensures var after := CheckData(hs, chunkSize, root, v, d, p).1;
            && v.tree.Keys <= after.tree.Keys
            && IsPart(Pending(after.inte, c), Pending(v.inte, c))
            && Pending(v.inte, c).Keys <= Pending(after.inte, c).Keys + after.tree.Keys
  {
    hide ClimbKnown, UsedKnown;
  }

  /** Everything that can happen keeps the link trustworthy, short of a collision. */
  lemma {:induction false} HappenKeeps(hs: Hasher, chunkSize: nat, chunks: seq<bytes>, c: int, s: Link, es: seq<Happening>)
    requires hs.Valid() && |chunks| >= 2 && Trusted(hs, chunks, c, s)
    requires forall i | 0 <= i < |es| :: Allowed(hs, c, es[i])
    requires NoCollision(hs, LinkInputs(hs, chunkSize, chunks, c, s, es) + SourceInputs(hs, chunks))
    ensures Trusted(hs, chunks, c, HappenAll(hs, chunkSize, chunks, c, s, es))
    decreases |es|
  {
    hide NoCollision, SourceInputs, Trusted, InputsOf, Happen;
    if es != [] {
      var init, e := es[..|es| - 1], es[|es| - 1];
      var all := LinkInputs(hs, chunkSize, chunks, c, s, es) + SourceInputs(hs, chunks);
      FewerInputs(hs, all, LinkInputs(hs, chunkSize, chunks, c, s, init) + SourceInputs(hs, chunks));
      HappenKeeps(hs, chunkSize, chunks, c, s, init);
      var before := HappenAll(hs, chunkSize, chunks, c, s, init);
      match e
      case Asked(i) => AskedKeeps(hs, chunkSize, chunks, c, before, i);
      case Arrived(x) => ArrivedKeeps(hs, chunkSize, chunks, c, before, x);
      case Volunteered(x) => VolunteeredKeeps(hs, chunkSize, chunks, c, before, x);
      case Hostile(m) =>
        FewerInputs(hs, all, InputsOf(hs, before.v, m) + SourceInputs(hs, chunks));
        HostileKeeps(hs, chunkSize, chunks, c, before, m);
    }
  }

  /** What was asked has been sent. */
  lemma {:induction false} AskedIsSent(hs: Hasher, chunkSize: nat, chunks: seq<bytes>, c: int, s: Link,
                                       es: seq<Happening>, i: nat)
    requires hs.Valid() && |chunks| >= 2 && Trusted(hs, chunks, c, s) && Asked(i) in es
    requires forall k | 0 <= k < |es| :: Allowed(hs, c, es[k])
    requires NoCollision(hs, LinkInputs(hs, chunkSize, chunks, c, s, es) + SourceInputs(hs, chunks))
    ensures Needed(hs, chunks, i) <= HappenAll(hs, chunkSize, chunks, c, s, es).sent
    decreases |es|
  {
    hide NoCollision, SourceInputs, Trusted, InputsOf, Needed, Sending, MadeTree;
    var init, e := es[..|es| - 1], es[|es| - 1];
    var all := LinkInputs(hs, chunkSize, chunks, c, s, es) + SourceInputs(hs, chunks);
    FewerInputs(hs, all, LinkInputs(hs, chunkSize, chunks, c, s, init) + SourceInputs(hs, chunks));
    HappenKeeps(hs, chunkSize, chunks, c, s, init);
    if e == Asked(i) {
      AskedKeeps(hs, chunkSize, chunks, c, HappenAll(hs, chunkSize, chunks, c, s, init), i);
    } else {
      assert Asked(i) in init;
      AskedIsSent(hs, chunkSize, chunks, c, s, init, i);
    }
  }

  /** Whatever happened on all channels, if chunk i was asked for on the honest channel and the hashes
      it needs have arrived there, a packet for chunk i on that channel is accepted if and only if it
      carries the source's chunk, provided the hash function does not collide on the strings that Make
      and the verifier hashed. */
  lemma AcceptedIffGenuine(hs: Hasher, chunkSize: nat, chunks: seq<bytes>, c: int, s: Link, es: seq<Happening>,
                           i: nat, b: bytes)
    requires hs.Valid() && |chunks| >= 2 && i < |chunks| && Trusted(hs, chunks, c, s) && Asked(i) in es
    requires forall k | 0 <= k < |es| :: Allowed(hs, c, es[k])
    requires var packet := Hostile(DataMessage(c, Data(i, i, Some(b))));
             NoCollision(hs, LinkInputs(hs, chunkSize, chunks, c, s, es + [packet]) + SourceInputs(hs, chunks))
    requires var now := HappenAll(hs, chunkSize, chunks, c, s, es); now.sent * Needed(hs, chunks, i) <= now.arrived
    ensures var now := HappenAll(hs, chunkSize, chunks, c, s, es);
            CheckData(hs, chunkSize, RootDigest(hs, chunks), now.v, c, Data(i, i, Some(b))).0 <==> b == chunks[i]
  {
    hide NoCollision, SourceInputs, InputsOf, Needed, HappenAll, CheckKnown, Genuine, RootDigest, HashAt;
    var packet := Hostile(DataMessage(c, Data(i, i, Some(b))));
    assert (es + [packet])[..|es|] == es;
    var all := LinkInputs(hs, chunkSize, chunks, c, s, es + [packet]) + SourceInputs(hs, chunks);
    FewerInputs(hs, all, LinkInputs(hs, chunkSize, chunks, c, s, es) + SourceInputs(hs, chunks));
    HappenKeeps(hs, chunkSize, chunks, c, s, es);
    AskedIsSent(hs, chunkSize, chunks, c, s, es, i);
    var now := HappenAll(hs, chunkSize, chunks, c, s, es);
    FewerInputs(hs, all, InputsOf(hs, now.v, packet.m) + SourceInputs(hs, chunks));
    PacketIsSound(hs, chunkSize, chunks, now.v, c, i, b);
    HonestPacket(hs, chunkSize, chunks, c, now, i);
  }

  lemma HonestPacket(hs: Hasher, chunkSize: nat, chunks: seq<bytes>, c: int, now: Link, i: nat)
    requires |chunks| >= 2 && Trusted(hs, chunks, c, now) && i < |chunks| && Needed(hs, chunks, i) <= now.arrived
    ensures CheckKnown(hs, chunkSize, RootDigest(hs, chunks), now.v, c, i, chunks[i]).0
  {
    hide CheckKnown, Needed, HashAt, Genuine, Digests;
    forall x: int | x in Needed(hs, chunks, i) ensures x in now.v.tree.Keys + Pending(now.v.inte, c).Keys {
      assert x in now.arrived;
    }
    AcceptedAtHand(hs, chunkSize, chunks, now.v, c, i);
  }

  /** An honest session, such as first contact leaves, is a good start. */
  lemma HonestIsTrusted(hs: Hasher, chunks: seq<bytes>, s: Session, c: int)
    requires hs.Valid() && |chunks| >= 2 && Honest(hs, chunks, s)
    ensures Trusted(hs, chunks, c, Link(SentOn(s.sent, c), SentOn(s.arrived, c), s.v))
  {
    hide HashAt, Leaves, Digests;
    GenuineDigests(hs, chunks, s.v.tree);
    forall d: int | d in s.v.inte ensures Digests(hs, s.v.inte[d]) {
      GenuineDigests(hs, chunks, s.v.inte[d]);
    }
  }

  lemma GenuineDigests(hs: Hasher, chunks: seq<bytes>, m: MerkleHashmap)
    requires hs.Valid() && |chunks| >= 1 && Genuine(hs, chunks, m)
    ensures Digests(hs, m)
  {
    hide TreeHash;
    forall x: int | x in m ensures |m[x].hash.value| == hs.size {
      RangeOfIndex(x);
      DyadicSize(StartOf(x), SizeOf(x));
      NullExactlyForPadding(hs, chunks, StartOf(x), SizeOf(x));
    }
  }
}
