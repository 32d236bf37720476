/** Forged chunks never verify: a verifier that knows the root and the size, fed arbitrary hashes on
    arbitrary channels, accepts only the source's chunks, as long as the hash function does not
    collide on the strings that were actually hashed. */
module Soundness {
  import opened Bits
  import opened Bytes
  import opened Dyadic
  import opened Merkle
  import opened Paths
  import opened Verification
  import opened Completeness

  ghost predicate NoCollision(hs: Hasher, inputs: set<bytes>) {
    forall a, b | a in inputs && b in inputs :: hs.sum(a) == hs.sum(b) ==> a == b
  }

  /** The string whose hash is the hash of a node. */
  function NodeInput(hs: Hasher, chunks: seq<bytes>, start: nat, size: nat): bytes {
    if size <= 1 then
      if start < |chunks| then chunks[start] else []
    else
      hs.OrZero(TreeHash(hs, chunks, start, size / 2)) + hs.OrZero(TreeHash(hs, chunks, start + size / 2, size / 2))
  }

  /** Everything Make hashes. */
  function SourceInputs(hs: Hasher, chunks: seq<bytes>): set<bytes>
    requires |chunks| >= 1
  {
    set x: nat | 0 <= x < 2 * Leaves(chunks) - 1 && HashAt(hs, chunks, x).Some? ::
      NodeInput(hs, chunks, StartOf(x), SizeOf(x))
  }

  /** The string hashed for the parent of a range. */
  function ParentInput(hs: Hasher, start: nat, size: nat, h: bytes, sibling: Option<bytes>): bytes {
    if start < SiblingStart(start, size) then h + hs.OrZero(sibling) else hs.OrZero(sibling) + h
  }

  /** Everything the climb of CheckDataIntegrity hashes after the chunk itself. */
  function ClimbInputs(hs: Hasher, tree: MerkleHashmap, pend: MerkleHashmap, leaves: nat, range: int,
                       start: nat, size: nat, h: bytes): set<bytes>
    requires size >= 1
    decreases 2 * leaves - size
  {
    var x := SiblingIndex(start, size);
    if x > (leaves - 1) * 2 then {}
    else
      var sibling := if SiblingStart(start, size) > range then None else Lookup(tree, pend, x);
      if SiblingStart(start, size) <= range && sibling.None? then {}
      else
        {ParentInput(hs, start, size, h, sibling)}
        + ClimbInputs(hs, tree, pend, leaves, range, ParentStart(start, size), 2 * size,
                      Combine(hs, start, size, h, sibling))
  }

  /** Messages carry digests of the right length: that many bytes are copied out of each packet. */
  ghost predicate Digests(hs: Hasher, m: MerkleHashmap) {
    forall x | x in m :: m[x].hash.Some? ==> |m[x].hash.value| == hs.size
  }

  lemma SourceInput(hs: Hasher, chunks: seq<bytes>, start: nat, size: nat)
    requires |chunks| >= 1 && IsDyadic(start, size) && start + size <= Leaves(chunks)
    requires TreeHash(hs, chunks, start, size).Some?
    ensures NodeInput(hs, chunks, start, size) in SourceInputs(hs, chunks)
    ensures TreeHash(hs, chunks, start, size).value == hs.sum(NodeInput(hs, chunks, start, size))
  {
    IndexOfRange(start, size);
    InsideTree(start, size, Leaves(chunks));
    assert HashAt(hs, chunks, Index(start, size)).Some?;
  }

  /** Equal concatenations of digests have equal parts. */
  lemma SameParts(a: bytes, b: bytes, c: bytes, d: bytes)
    requires |a| == |c| && a + b == c + d
    ensures a == c && b == d
  {
    assert a == (a + b)[..|a|] && c == (c + d)[..|c|];
    assert b == (a + b)[|a|..] && d == (c + d)[|c|..];
  }

  /** If the parent's hash is right, so are the child's and the sibling's. */
  lemma Descend(hs: Hasher, chunks: seq<bytes>, start: nat, size: nat, h: bytes, sibling: Option<bytes>)
    requires hs.Valid() && |chunks| >= 1 && IsDyadic(start, size) && start + size <= Leaves(chunks)
    requires size < Leaves(chunks)
    requires |h| == hs.size && |hs.OrZero(sibling)| == hs.size
    requires TreeHash(hs, chunks, ParentStart(start, size), 2 * size) == Some(Combine(hs, start, size, h, sibling))
    requires NoCollision(hs, {ParentInput(hs, start, size, h, sibling)} + SourceInputs(hs, chunks))
    ensures h == hs.OrZero(TreeHash(hs, chunks, start, size))
    ensures hs.OrZero(sibling) == hs.OrZero(TreeHash(hs, chunks, SiblingStart(start, size), size))
  {
    hide IsRightHalf, TreeHash, NoCollision, SourceInputs, NodeInput, Leaves, Combine, IsDyadic, PowerOfTwo;
    OneUp(Leaves(chunks), start, size);
    DyadicSize(start, size);
    var p := ParentStart(start, size);
    SourceInput(hs, chunks, p, 2 * size);
    var mine, source := ParentInput(hs, start, size, h, sibling), NodeInput(hs, chunks, p, 2 * size);
    CombineIsHash(hs, start, size, h, sibling);
    SameInput(hs, {mine} + SourceInputs(hs, chunks), mine, source);
    InputOfParent(hs, chunks, p, size);
    var l, r := hs.OrZero(TreeHash(hs, chunks, p, size)), hs.OrZero(TreeHash(hs, chunks, p + size, size));
    if start < SiblingStart(start, size) {
      SameParts(h, hs.OrZero(sibling), l, r);
    } else {
      SameParts(hs.OrZero(sibling), h, l, r);
    }
  }

  lemma CombineIsHash(hs: Hasher, start: nat, size: nat, h: bytes, sibling: Option<bytes>)
    ensures Combine(hs, start, size, h, sibling) == hs.sum(ParentInput(hs, start, size, h, sibling))
  {
  }

  lemma InputOfParent(hs: Hasher, chunks: seq<bytes>, start: nat, size: nat)
    requires hs.Valid() && PowerOfTwo(size)
    ensures NodeInput(hs, chunks, start, 2 * size)
         == hs.OrZero(TreeHash(hs, chunks, start, size)) + hs.OrZero(TreeHash(hs, chunks, start + size, size))
    ensures |hs.OrZero(TreeHash(hs, chunks, start, size))| == hs.size
  {
    hide TreeHash;
    NullExactlyForPadding(hs, chunks, start, size);
  }

  lemma SameInput(hs: Hasher, inputs: set<bytes>, a: bytes, b: bytes)
    requires NoCollision(hs, inputs) && a in inputs && b in inputs && hs.sum(a) == hs.sum(b)
    ensures a == b
  {
  }

  lemma FewerInputs(hs: Hasher, all: set<bytes>, some: set<bytes>)
    requires NoCollision(hs, all) && some <= all
    ensures NoCollision(hs, some)
  {
  }

  /** The hashes looked up for a set of indices are those of the source tree. */
  ghost predicate AllRight(hs: Hasher, chunks: seq<bytes>, tree: MerkleHashmap, pend: MerkleHashmap, used: set<int>)
    requires |chunks| >= 1
  {
    forall x: int {:trigger x in used} | x in used ::
      0 <= x < 2 * Leaves(chunks) - 1 && HashAt(hs, chunks, x).Some? && Lookup(tree, pend, x) == HashAt(hs, chunks, x)
  }

  /** A climb that ends in the root hash started from the right hash, and used right hashes only. */
  lemma {:induction false} HonestDescent(hs: Hasher, chunks: seq<bytes>, tree: MerkleHashmap, pend: MerkleHashmap,
                                         start: nat, size: nat, h: bytes)
    requires hs.Valid() && |chunks| >= 1 && IsDyadic(start, size) && start + size <= Leaves(chunks)
    requires Digests(hs, tree) && Digests(hs, pend) && |h| == hs.size
    requires ClimbKnown(hs, tree, pend, Leaves(chunks), |chunks| - 1, start, size, h) == Some(RootDigest(hs, chunks))
    requires NoCollision(hs, ClimbInputs(hs, tree, pend, Leaves(chunks), |chunks| - 1, start, size, h)
                             + SourceInputs(hs, chunks))
    ensures start < |chunks| ==> TreeHash(hs, chunks, start, size) == Some(h)
    ensures AllRight(hs, chunks, tree, pend, UsedKnown(pend, Leaves(chunks), |chunks| - 1, start, size))
    decreases Leaves(chunks) - size
  {
    hide IsRightHalf, TreeHash, NoCollision, SourceInputs, Combine, ParentInput, AllRight, Digests, SiblingStart;
    hide HashAt, SizeOf, StartOf, ParentStart, SiblingIndex, ClimbInputs, ClimbKnown;
    var leaves, range := Leaves(chunks), |chunks| - 1;
    UsedStep(pend, leaves, range, start, size);
    NoneUsed(hs, chunks, tree, pend);
    DyadicSize(start, size);
    NullExactlyForPadding(hs, chunks, start, size);
    if size >= leaves {
      RootCase(hs, chunks, tree, pend, start, size, h);
    } else {
      OneUp(leaves, start, size);
      var x, p := SiblingIndex(start, size), ParentStart(start, size);
      var sibling := if SiblingStart(start, size) > range then None else Lookup(tree, pend, x);
      var up := Combine(hs, start, size, h, sibling);
      CombineLength(hs, start, size, h, sibling);
      ClimbFacts(hs, chunks, tree, pend, start, size, h);
      var rest := ClimbInputs(hs, tree, pend, leaves, range, p, 2 * size, up);
      var all := ClimbInputs(hs, tree, pend, leaves, range, start, size, h) + SourceInputs(hs, chunks);
      FewerInputs(hs, all, rest + SourceInputs(hs, chunks));
      HonestDescent(hs, chunks, tree, pend, p, 2 * size, up);
      if p < |chunks| {
        FewerInputs(hs, all, {ParentInput(hs, start, size, h, sibling)} + SourceInputs(hs, chunks));
        Descend(hs, chunks, start, size, h, sibling);
        NullExactlyForPadding(hs, chunks, SiblingStart(start, size), size);
        if SiblingStart(start, size) <= range {
          HashOfSibling(hs, chunks, start, size);
          OneMore(hs, chunks, tree, pend, UsedKnown(pend, leaves, range, p, 2 * size), x);
        }
      }
    }
  }

  lemma RootCase(hs: Hasher, chunks: seq<bytes>, tree: MerkleHashmap, pend: MerkleHashmap,
                 start: nat, size: nat, h: bytes)
    requires |chunks| >= 1 && IsDyadic(start, size) && start + size <= Leaves(chunks) && size >= Leaves(chunks)
    requires ClimbKnown(hs, tree, pend, Leaves(chunks), |chunks| - 1, start, size, h) == Some(RootDigest(hs, chunks))
    ensures TreeHash(hs, chunks, start, size) == Some(h)
    ensures SiblingIndex(start, size) > (Leaves(chunks) - 1) * 2
  {
    hide IsRightHalf, TreeHash;
    AtRoot(Leaves(chunks), start, size);
    NullExactlyForPadding(hs, chunks, start, size);
  }

  lemma HashOfSibling(hs: Hasher, chunks: seq<bytes>, start: nat, size: nat)
    requires |chunks| >= 1 && IsDyadic(start, size) && start + size <= Leaves(chunks) && size < Leaves(chunks)
    ensures SiblingIndex(start, size) >= 0
    ensures HashAt(hs, chunks, SiblingIndex(start, size)) == TreeHash(hs, chunks, SiblingStart(start, size), size)
  {
    hide TreeHash, IsRightHalf;
    OneUp(Leaves(chunks), start, size);
  }

  lemma UsedStep(pend: MerkleHashmap, leaves: nat, range: int, start: nat, size: nat)
    requires size >= 1
    ensures var x := SiblingIndex(start, size);
            if x > (leaves - 1) * 2 then UsedKnown(pend, leaves, range, start, size) == {}
            else if SiblingStart(start, size) <= range && x in pend then
              UsedKnown(pend, leaves, range, start, size)
              == UsedKnown(pend, leaves, range, ParentStart(start, size), 2 * size) + {x}
            else
              UsedKnown(pend, leaves, range, start, size)
              == UsedKnown(pend, leaves, range, ParentStart(start, size), 2 * size)
  {
    hide IsRightHalf;
  }

  lemma NoneUsed(hs: Hasher, chunks: seq<bytes>, tree: MerkleHashmap, pend: MerkleHashmap)
    requires |chunks| >= 1
    ensures AllRight(hs, chunks, tree, pend, {})
  {
  }

  lemma OneMore(hs: Hasher, chunks: seq<bytes>, tree: MerkleHashmap, pend: MerkleHashmap, used: set<int>, x: nat)
    requires |chunks| >= 1 && AllRight(hs, chunks, tree, pend, used)
    requires x < 2 * Leaves(chunks) - 1 && HashAt(hs, chunks, x).Some? && Lookup(tree, pend, x) == HashAt(hs, chunks, x)
    ensures AllRight(hs, chunks, tree, pend, used + {x})
  {
    hide HashAt, Lookup;
  }

  lemma CombineLength(hs: Hasher, start: nat, size: nat, h: bytes, sibling: Option<bytes>)
    requires hs.Valid()
    ensures |Combine(hs, start, size, h, sibling)| == hs.size
    ensures |hs.OrZero(None)| == hs.size
  {
  }

  /** Unfolds one level of a successful climb below the root. */
  lemma ClimbFacts(hs: Hasher, chunks: seq<bytes>, tree: MerkleHashmap, pend: MerkleHashmap,
                   start: nat, size: nat, h: bytes)
    requires |chunks| >= 1 && size >= 1 && SiblingIndex(start, size) <= (Leaves(chunks) - 1) * 2
    requires Digests(hs, tree) && Digests(hs, pend)
    requires ClimbKnown(hs, tree, pend, Leaves(chunks), |chunks| - 1, start, size, h).Some?
    ensures var leaves, range := Leaves(chunks), |chunks| - 1;
            var x, p := SiblingIndex(start, size), ParentStart(start, size);
            var sibling := if SiblingStart(start, size) > range then None else Lookup(tree, pend, x);
            var up := Combine(hs, start, size, h, sibling);
            && (SiblingStart(start, size) <= range ==> sibling.Some? && |sibling.value| == hs.size)
            && ClimbKnown(hs, tree, pend, leaves, range, start, size, h)
               == ClimbKnown(hs, tree, pend, leaves, range, p, 2 * size, up)
            && ClimbInputs(hs, tree, pend, leaves, range, start, size, h)
               == {ParentInput(hs, start, size, h, sibling)} + ClimbInputs(hs, tree, pend, leaves, range, p, 2 * size, up)
  {
    hide IsRightHalf, Combine, ParentInput;
  }

  // -------------------------------------------------------------------------------- any run

  /** Whatever the network delivers. */
  datatype Message =
    | HashMessage(channel: int, integrity: Integrity)
    | DataMessage(channel: int, data: Data)

  predicate WellSized(hs: Hasher, m: Message) {
    m.HashMessage? ==> |m.integrity.hash| == hs.size
  }

  ghost function Deliver(hs: Hasher, chunkSize: nat, root: bytes, v: Verifier, m: Message): Verifier {
    match m
    case HashMessage(c, i) => v.(inte := AddReceived(v.inte, c, i))
    case DataMessage(c, d) => CheckData(hs, chunkSize, root, v, c, d).1
  }

  /** The strings hashed while a message is handled. */
  ghost function InputsOf(hs: Hasher, v: Verifier, m: Message): set<bytes> {
    if m.DataMessage? && m.data.buffer.Some? && m.data.startChunk == m.data.endChunk then
      var b := m.data.buffer.value;
      {b} + ClimbInputs(hs, v.tree, Pending(v.inte, m.channel), v.leafNodeCount, v.chunkRange,
                        m.data.startChunk, 1, hs.sum(b))
    else {}
  }

  ghost function DeliverAll(hs: Hasher, chunkSize: nat, root: bytes, v: Verifier, ms: seq<Message>): Verifier {
    if ms == [] then v
    else Deliver(hs, chunkSize, root, DeliverAll(hs, chunkSize, root, v, ms[..|ms| - 1]), ms[|ms| - 1])
  }

  ghost function RunInputs(hs: Hasher, chunkSize: nat, root: bytes, v: Verifier, ms: seq<Message>): set<bytes> {
    if ms == [] then {}
    else
      RunInputs(hs, chunkSize, root, v, ms[..|ms| - 1])
      + InputsOf(hs, DeliverAll(hs, chunkSize, root, v, ms[..|ms| - 1]), ms[|ms| - 1])
  }

  /** What every message keeps: the shared tree holds nothing but hashes of the source tree. */
  ghost predicate Sound(hs: Hasher, chunks: seq<bytes>, v: Verifier)
    requires |chunks| >= 1
  {
    && v.chunkRange == |chunks| - 1 && v.leafNodeCount == Leaves(chunks)
    && Genuine(hs, chunks, v.tree)
    && Digests(hs, v.tree)
    && (forall c: int | c in v.inte :: Digests(hs, v.inte[c]) && AllHashed(v.inte[c]))
  }

  predicate AllHashed(m: MerkleHashmap) {
    forall x: int | x in m :: m[x].hash.Some?
  }

  /** One data packet: if it is accepted it carries the source's chunk, and what it moves is right. */
  lemma PacketIsSound(hs: Hasher, chunkSize: nat, chunks: seq<bytes>, v: Verifier, c: int, i: nat, b: bytes)
    requires hs.Valid() && |chunks| >= 2 && Sound(hs, chunks, v)
    requires NoCollision(hs, InputsOf(hs, v, DataMessage(c, Data(i, i, Some(b)))) + SourceInputs(hs, chunks))
    ensures var (accepted, after) := CheckKnown(hs, chunkSize, RootDigest(hs, chunks), v, c, i, b);
            && Sound(hs, chunks, after)
            && (accepted && i < |chunks| ==> b == chunks[i])
  {
    hide TreeHash, SourceInputs, ClimbInputs, ClimbKnown, UsedKnown, NoCollision, HashAt, IsRightHalf;
    var pend := Pending(v.inte, c);
    var leaves, range, root := Leaves(chunks), |chunks| - 1, RootDigest(hs, chunks);
    var used := UsedKnown(pend, leaves, range, i, 1);
    if ClimbKnown(hs, v.tree, pend, leaves, range, i, 1, hs.sum(b)) == Some(root) {
      SingleIsDyadic(i);
      if i >= leaves {
        BeyondLeaves(pend, leaves, range, i);
      } else {
        var all := InputsOf(hs, v, DataMessage(c, Data(i, i, Some(b)))) + SourceInputs(hs, chunks);
        FewerInputs(hs, all, ClimbInputs(hs, v.tree, pend, leaves, range, i, 1, hs.sum(b)) + SourceInputs(hs, chunks));
        HonestDescent(hs, chunks, v.tree, pend, i, 1, hs.sum(b));
        if i < |chunks| {
          LeafHash(hs, chunks, i);
          SourceInput(hs, chunks, i, 1);
          SameInput(hs, all, b, chunks[i]);
        }
      }
      MovedIsSound(hs, chunks, v, c, used);
      MovedIsSound(hs, chunks, v.(contentSize := chunkSize * range + |b|, lastChunkSize := |b|), c, used);
    }
  }

  lemma BeyondLeaves(pend: MerkleHashmap, leaves: nat, range: int, i: nat)
    requires PowerOfTwo(leaves) && leaves >= 2 && i >= leaves
    ensures UsedKnown(pend, leaves, range, i, 1) == {}
  {
    hide IsRightHalf;
    SingleIsDyadic(i);
    SiblingFacts(i, 1);
    assert leaves % 2 == 0;
    assert IsDyadic(i, 2) <==> i % 2 == 0 by { SingleIsDyadic(i / 2); }
  }

  lemma MovedIsSound(hs: Hasher, chunks: seq<bytes>, v: Verifier, c: int, used: set<int>)
    requires |chunks| >= 1 && Sound(hs, chunks, v)
    requires AllRight(hs, chunks, v.tree, Pending(v.inte, c), used)
    ensures Sound(hs, chunks, Commit(v, c, used))
  {
    hide HashAt, Leaves;
  }

  lemma MessageIsSound(hs: Hasher, chunkSize: nat, chunks: seq<bytes>, v: Verifier, m: Message)
    requires hs.Valid() && |chunks| >= 2 && Sound(hs, chunks, v) && WellSized(hs, m)
    requires NoCollision(hs, InputsOf(hs, v, m) + SourceInputs(hs, chunks))
    ensures Sound(hs, chunks, Deliver(hs, chunkSize, RootDigest(hs, chunks), v, m))
  {
    hide SourceInputs, ClimbInputs, CheckKnown, Genuine, NoCollision, HashAt;
    match m
    case HashMessage(c, i) =>
    case DataMessage(c, d) =>
      if d.buffer.Some? && d.startChunk == d.endChunk {
        PacketIsSound(hs, chunkSize, chunks, v, c, d.startChunk, d.buffer.value);
      }
  }

  /** Soundness over all runs, first half: nothing false ever enters the shared tree. */
  lemma {:induction false} TreeStaysGenuine(hs: Hasher, chunkSize: nat, chunks: seq<bytes>, v: Verifier, ms: seq<Message>)
    requires hs.Valid() && |chunks| >= 2 && Sound(hs, chunks, v)
    requires forall m | m in ms :: WellSized(hs, m)
    requires NoCollision(hs, RunInputs(hs, chunkSize, RootDigest(hs, chunks), v, ms) + SourceInputs(hs, chunks))
    ensures Sound(hs, chunks, DeliverAll(hs, chunkSize, RootDigest(hs, chunks), v, ms))
    decreases |ms|
  {
    hide NoCollision, SourceInputs, Sound, Deliver, InputsOf, RootDigest;
    if ms != [] {
      var root, init, last := RootDigest(hs, chunks), ms[..|ms| - 1], ms[|ms| - 1];
      var all := RunInputs(hs, chunkSize, root, v, ms) + SourceInputs(hs, chunks);
      FewerInputs(hs, all, RunInputs(hs, chunkSize, root, v, init) + SourceInputs(hs, chunks));
      TreeStaysGenuine(hs, chunkSize, chunks, v, init);
      var before := DeliverAll(hs, chunkSize, root, v, init);
      FewerInputs(hs, all, InputsOf(hs, before, last) + SourceInputs(hs, chunks));
      MessageIsSound(hs, chunkSize, chunks, before, last);
    }
  }

  /** Soundness over all runs, second half: after any messages on any channels, a packet for a chunk
      of the content is accepted only if it is that chunk. */
  lemma OnlyGenuineAccepted(hs: Hasher, chunkSize: nat, chunks: seq<bytes>, v: Verifier, ms: seq<Message>,
                            c: int, i: nat, b: bytes)
    requires hs.Valid() && |chunks| >= 2 && Sound(hs, chunks, v) && i < |chunks|
    requires forall m | m in ms :: WellSized(hs, m)
    requires NoCollision(hs, RunInputs(hs, chunkSize, RootDigest(hs, chunks), v,
                                       ms + [DataMessage(c, Data(i, i, Some(b)))]) + SourceInputs(hs, chunks))
    ensures CheckData(hs, chunkSize, RootDigest(hs, chunks),
                      DeliverAll(hs, chunkSize, RootDigest(hs, chunks), v, ms), c, Data(i, i, Some(b))).0
            ==> b == chunks[i]
  {
    hide NoCollision, SourceInputs, Deliver, InputsOf, RootDigest, Genuine, CheckKnown;
    var root, packet := RootDigest(hs, chunks), DataMessage(c, Data(i, i, Some(b)));
    var before := DeliverAll(hs, chunkSize, root, v, ms);
    assert (ms + [packet])[..|ms|] == ms;
    var all := RunInputs(hs, chunkSize, root, v, ms + [packet]) + SourceInputs(hs, chunks);
    FewerInputs(hs, all, RunInputs(hs, chunkSize, root, v, ms) + SourceInputs(hs, chunks));
    TreeStaysGenuine(hs, chunkSize, chunks, v, ms);
    FewerInputs(hs, all, InputsOf(hs, before, packet) + SourceInputs(hs, chunks));
    PacketIsSound(hs, chunkSize, chunks, before, c, i, b);
  }
}
