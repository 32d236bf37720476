/** What the root hash alone guarantees. Whatever hashes have arrived, from whomever, and whatever size
    they have made the peer believe in, a packet that passes the data check carries the source's chunk:
    the check always climbs to the root hash. This needs more than absence of collisions, because the
    tree does not tell a chunk from a pair of digests, nor a null hash from an all-zero digest. */
module RootSoundness {
  import opened Bits
  import opened Bytes
  import opened Dyadic
  import opened Merkle
  import opened Paths
  import opened Verification
  import opened Completeness
  import opened Soundness
  import opened Peaks
  import opened FirstData

  // -------------------------------------------------------------------------------- chains

  /** The hash after climbing with the given siblings. */
  function ChainHash(hs: Hasher, start: nat, size: nat, h: bytes, siblings: seq<Option<bytes>>): bytes
    requires size >= 1
    decreases |siblings|
  {
    if siblings == [] then h
    else
      ChainHash(hs, ParentStart(start, size), 2 * size, Combine(hs, start, size, h, siblings[0]), siblings[1..])
  }

  /** The strings hashed on the way. */
  function ChainInputs(hs: Hasher, start: nat, size: nat, h: bytes, siblings: seq<Option<bytes>>): set<bytes>
    requires size >= 1
    decreases |siblings|
  {
    if siblings == [] then {}
    else
      {ParentInput(hs, start, size, h, siblings[0])}
      + ChainInputs(hs, ParentStart(start, size), 2 * size, Combine(hs, start, size, h, siblings[0]), siblings[1..])
  }

  /** The range a climb over k levels covers. */
  function ChainTop(start: nat, size: nat, k: nat): Range
    requires size >= 1
    decreases k
  {
    if k == 0 then Range(start, size) else ChainTop(ParentStart(start, size), 2 * size, k - 1)
  }

  /** The range of the source tree that is reached from its root by going down the same way. */
  function Place(leaves: nat, start: nat, size: nat, k: nat): Range
    requires size >= 1
    decreases k
  {
    if k == 0 then Range(0, leaves)
    else
      var r := Place(leaves, ParentStart(start, size), 2 * size, k - 1);
      Range(if start < SiblingStart(start, size) then r.start else r.start + r.size / 2, r.size / 2)
  }

  predicate AllSized(hs: Hasher, siblings: seq<Option<bytes>>) {
    forall k | 0 <= k < |siblings| :: siblings[k].Some? ==> |siblings[k].value| == hs.size
  }

  ghost predicate NoZero(hs: Hasher, inputs: set<bytes>) {
    forall a | a in inputs :: hs.sum(a) != Zeros(hs.size)
  }

  /** No chunk is as long as two digests. */
  predicate NoPairs(hs: Hasher, chunks: seq<bytes>) {
    forall k | 0 <= k < |chunks| :: |chunks[k]| != 2 * hs.size
  }

  lemma {:induction false} ChainTopFacts(start: nat, size: nat, k: nat)
    requires IsDyadic(start, size)
    ensures var r := ChainTop(start, size, k);
            IsDyadic(r.start, r.size) && r.start <= start && start + size <= r.start + r.size
    decreases k
  {
    hide IsRightHalf, IsDyadic;
    if k > 0 {
      assert size >= 1 by { DyadicSize(start, size); }
      SiblingFacts(start, size);
      ChainTopFacts(ParentStart(start, size), 2 * size, k - 1);
    }
  }

  /** A chain that ends in the root hash started with the hash of the range at its place. */
  lemma {:induction false} Located(hs: Hasher, chunks: seq<bytes>, start: nat, size: nat, h: bytes,
                                   siblings: seq<Option<bytes>>)
    requires hs.Valid() && |chunks| >= 1 && NoPairs(hs, chunks) && size >= 1
    requires |h| == hs.size && h != Zeros(hs.size) && AllSized(hs, siblings)
    requires ChainHash(hs, start, size, h, siblings) == RootDigest(hs, chunks)
    requires NoCollision(hs, ChainInputs(hs, start, size, h, siblings) + SourceInputs(hs, chunks))
    requires NoZero(hs, ChainInputs(hs, start, size, h, siblings))
    ensures var r, top := Place(Leaves(chunks), start, size, |siblings|), ChainTop(start, size, |siblings|);
            && IsDyadic(r.start, r.size) && r.start + r.size <= Leaves(chunks)
            && TreeHash(hs, chunks, r.start, r.size) == Some(h)
            && (r.size == size ==> top.size == Leaves(chunks) && start == top.start + r.start)
    decreases |siblings|
  {
    hide IsRightHalf, TreeHash, NoCollision, SourceInputs, NodeInput, IsDyadic, PowerOfTwo, SiblingStart, ParentStart;
    hide Combine, ParentInput, NoZero;
    if siblings == [] {
      ZeroIsDyadic(Leaves(chunks));
      RootHash(hs, chunks);
    } else {
      var p, up := ParentStart(start, size), Combine(hs, start, size, h, siblings[0]);
      var mine := ParentInput(hs, start, size, h, siblings[0]);
      var rest := ChainInputs(hs, p, 2 * size, up, siblings[1..]);
      var all := ChainInputs(hs, start, size, h, siblings) + SourceInputs(hs, chunks);
      CombineLength(hs, start, size, h, siblings[0]);
      CombineIsHash(hs, start, size, h, siblings[0]);
      FewerInputs(hs, all, rest + SourceInputs(hs, chunks));
      NotZero(hs, ChainInputs(hs, start, size, h, siblings), rest, mine);
      Located(hs, chunks, p, 2 * size, up, siblings[1..]);
      FewerInputs(hs, all, {mine} + SourceInputs(hs, chunks));
      GoDown(hs, chunks, start, size, h, siblings[0], Place(Leaves(chunks), p, 2 * size, |siblings| - 1));
    }
  }

  lemma NotZero(hs: Hasher, all: set<bytes>, rest: set<bytes>, a: bytes)
    requires NoZero(hs, all) && a in all && rest <= all
    ensures NoZero(hs, rest) && hs.sum(a) != Zeros(hs.size)
  {
  }

  /** One level down: the parent is no chunk, and its left and right digests are those combined. */
  lemma GoDown(hs: Hasher, chunks: seq<bytes>, start: nat, size: nat, h: bytes, sibling: Option<bytes>, r: Range)
    requires hs.Valid() && |chunks| >= 1 && NoPairs(hs, chunks) && size >= 1
    requires |h| == hs.size && h != Zeros(hs.size) && (sibling.Some? ==> |sibling.value| == hs.size)
    requires IsDyadic(r.start, r.size) && r.start + r.size <= Leaves(chunks)
    requires TreeHash(hs, chunks, r.start, r.size) == Some(Combine(hs, start, size, h, sibling))
    requires NoCollision(hs, {ParentInput(hs, start, size, h, sibling)} + SourceInputs(hs, chunks))
    ensures r.size > 1 && r.size % 2 == 0
    ensures var t := if start < SiblingStart(start, size) then r.start else r.start + r.size / 2;
            && IsDyadic(t, r.size / 2) && TreeHash(hs, chunks, t, r.size / 2) == Some(h)
    ensures ParentStart(start, size) == if start < SiblingStart(start, size) then start else start - size
    ensures var t := if start < SiblingStart(start, size) then r.start + r.size / 2 else r.start;
            hs.OrZero(TreeHash(hs, chunks, t, r.size / 2)) == hs.OrZero(sibling)
  {
    hide TreeHash, NoCollision, SourceInputs, Combine, IsDyadic, PowerOfTwo, Leaves, NodeInput, IsRightHalf;
    var mine := ParentInput(hs, start, size, h, sibling);
    CombineIsHash(hs, start, size, h, sibling);
    assert |mine| == |h| + |hs.OrZero(sibling)| == 2 * hs.size;
    SourceInput(hs, chunks, r.start, r.size);
    SameInput(hs, {mine} + SourceInputs(hs, chunks), mine, NodeInput(hs, chunks, r.start, r.size));
    Halves(hs, chunks, r.start, r.size);
    if r.size > 1 {
      ChildrenOf(r.start, r.size / 2);
      var a, b := hs.OrZero(TreeHash(hs, chunks, r.start, r.size / 2)),
                  hs.OrZero(TreeHash(hs, chunks, r.start + r.size / 2, r.size / 2));
      if start < SiblingStart(start, size) {
        SameParts(h, hs.OrZero(sibling), a, b);
      } else {
        SameParts(hs.OrZero(sibling), h, a, b);
      }
    }
  }

  // ------------------------------------------------------------------------- the three climbs

  /** The siblings a complete climb of known size uses. */
  function KnownSiblings(tree: MerkleHashmap, pend: MerkleHashmap, leaves: nat, range: int, start: nat, size: nat)
    : seq<Option<bytes>>
    requires size >= 1
    decreases 2 * leaves - size
  {
    var x := SiblingIndex(start, size);
    if x > (leaves - 1) * 2 then []
    else
      [if SiblingStart(start, size) > range then None else Lookup(tree, pend, x)]
      + KnownSiblings(tree, pend, leaves, range, ParentStart(start, size), 2 * size)
  }

  lemma {:induction false} KnownIsChain(hs: Hasher, tree: MerkleHashmap, pend: MerkleHashmap, leaves: nat, range: int,
                                        start: nat, size: nat, h: bytes)
    requires size >= 1 && Digests(hs, tree) && Digests(hs, pend)
    requires ClimbKnown(hs, tree, pend, leaves, range, start, size, h).Some?
    ensures var siblings := KnownSiblings(tree, pend, leaves, range, start, size);
            && ClimbKnown(hs, tree, pend, leaves, range, start, size, h) == Some(ChainHash(hs, start, size, h, siblings))
            && ClimbInputs(hs, tree, pend, leaves, range, start, size, h) == ChainInputs(hs, start, size, h, siblings)
            && AllSized(hs, siblings)
    decreases 2 * leaves - size
  {
    hide IsRightHalf, Combine, ParentInput, Digests;
    var x := SiblingIndex(start, size);
    if x <= (leaves - 1) * 2 {
      var sibling := if SiblingStart(start, size) > range then None else Lookup(tree, pend, x);
      var rest := KnownSiblings(tree, pend, leaves, range, ParentStart(start, size), 2 * size);
      KnownIsChain(hs, tree, pend, leaves, range, ParentStart(start, size), 2 * size, Combine(hs, start, size, h, sibling));
      LookupSized(hs, tree, pend, x);
      assert ([sibling] + rest)[1..] == rest;
    }
  }

  lemma LookupSized(hs: Hasher, tree: MerkleHashmap, pend: MerkleHashmap, x: int)
    requires Digests(hs, tree) && Digests(hs, pend)
    ensures Lookup(tree, pend, x).Some? ==> |Lookup(tree, pend, x).value| == hs.size
  {
  }

  /** The siblings of a climb of unknown size. */
  ghost function UnknownSiblings(pend: MerkleHashmap, start: nat, size: nat): seq<Option<bytes>>
    requires size >= 1
    decreases Top(pend.Keys) + 2 - size
  {
    var x := SiblingIndex(start, size);
    if x !in pend then [] else [pend[x].hash] + UnknownSiblings(pend, ParentStart(start, size), 2 * size)
  }

  lemma {:induction false} UnknownIsChain(hs: Hasher, pend: MerkleHashmap, start: nat, size: nat, h: bytes)
    requires size >= 1 && Digests(hs, pend)
    ensures var siblings := UnknownSiblings(pend, start, size);
            var top := ChainTop(start, size, |siblings|);
            && ClimbUnknown(hs, pend, start, size, h)
               == (ChainHash(hs, start, size, h, siblings), NatOrZero(top.start + top.size - 1))
            && AllSized(hs, siblings) && top.size >= 1
    decreases Top(pend.Keys) + 2 - size
  {
    hide IsRightHalf, Combine, Top;
    var x, p := SiblingIndex(start, size), ParentStart(start, size);
    SiblingNonNegative(start, size);
    if x in pend {
      assert x in pend.Keys;
      var rest := UnknownSiblings(pend, p, 2 * size);
      UnknownIsChain(hs, pend, p, 2 * size, Combine(hs, start, size, h, pend[x].hash));
      assert ([pend[x].hash] + rest)[1..] == rest;
    }
  }

  // ----------------------------------------------------------------------------- one packet

  /** The strings hashed while a packet is checked, for known and unknown size. */
  ghost function CheckInputs(hs: Hasher, v: Verifier, c: int, i: nat, b: bytes): set<bytes> {
    var pend, h := Pending(v.inte, c), hs.sum(b);
    {b} + (if v.chunkRange >= 0 then ClimbInputs(hs, v.tree, pend, v.leafNodeCount, v.chunkRange, i, 1, h)
           else if SiblingIndex(i, 1) in pend then ChainInputs(hs, i, 1, h, UnknownSiblings(pend, i, 1))
           else {h + Zeros(hs.size)})
  }

  /** All stored hashes have the length of a digest. */
  ghost predicate Sized(hs: Hasher, v: Verifier) {
    && Digests(hs, v.tree)
    && forall c: int | c in v.inte :: Digests(hs, v.inte[c]) && AllHashed(v.inte[c])
  }

  /** No coincidence among the strings hashed here and those Make hashed. */
  ghost predicate Clear(hs: Hasher, chunks: seq<bytes>, inputs: set<bytes>)
    requires |chunks| >= 1
  {
    NoPairs(hs, chunks) && NoCollision(hs, inputs + SourceInputs(hs, chunks)) && NoZero(hs, inputs + SourceInputs(hs, chunks))
  }

  /** A chain from a packet to the root: the packet holds the chunk at its place, or a pair of digests. */
  lemma PacketChain(hs: Hasher, chunks: seq<bytes>, i: nat, b: bytes, siblings: seq<Option<bytes>>)
    requires hs.Valid() && |chunks| >= 1 && AllSized(hs, siblings) && |b| != 2 * hs.size
    requires ChainHash(hs, i, 1, hs.sum(b), siblings) == RootDigest(hs, chunks)
    requires Clear(hs, chunks, {b} + ChainInputs(hs, i, 1, hs.sum(b), siblings))
    ensures i % Leaves(chunks) < |chunks| && b == chunks[i % Leaves(chunks)]
    ensures var top := ChainTop(i, 1, |siblings|);
            top.size == Leaves(chunks) && top.start == i - i % Leaves(chunks)
  {
    hide TreeHash, NoCollision, SourceInputs, NodeInput, ChainHash, ChainInputs, IsDyadic, NoZero, PowerOfTwo;
    var inputs := ChainInputs(hs, i, 1, hs.sum(b), siblings);
    var all := {b} + inputs + SourceInputs(hs, chunks);
    FewerInputs(hs, all, inputs + SourceInputs(hs, chunks));
    NotZero(hs, all, inputs, b);
    Located(hs, chunks, i, 1, hs.sum(b), siblings);
    var r := Place(Leaves(chunks), i, 1, |siblings|);
    SourceInput(hs, chunks, r.start, r.size);
    SameInput(hs, all, b, NodeInput(hs, chunks, r.start, r.size));
    Halves(hs, chunks, r.start, r.size);
    var top := ChainTop(i, 1, |siblings|);
    SingleIsDyadic(i);
    ChainTopFacts(i, 1, |siblings|);
    InBlock(top.start, Leaves(chunks), i);
  }

  lemma InBlock(s: nat, leaves: nat, i: nat)
    requires leaves >= 1
    ensures IsDyadic(s, leaves) && s <= i < s + leaves ==> i % leaves == i - s
  {
    if IsDyadic(s, leaves) && s <= i < s + leaves {
      DyadicMeaning(s, leaves);
      RemainderUnique(i, leaves, s / leaves, i - s);
    }
  }

  /** Without a message for the first sibling a packet is never accepted: there are two chunks or more. */
  lemma NoLoneChunk(hs: Hasher, chunks: seq<bytes>, b: bytes)
    requires hs.Valid() && |chunks| >= 2 && Clear(hs, chunks, {b, hs.sum(b) + Zeros(hs.size)})
    ensures hs.EncryptLR(Some(hs.sum(b)), None) != Some(RootDigest(hs, chunks))
  {
    hide TreeHash, SourceInputs, IsDyadic, PowerOfTwo;
    var inputs, leaves := {b, hs.sum(b) + Zeros(hs.size)}, Leaves(chunks);
    if hs.EncryptLR(Some(hs.sum(b)), None) == Some(RootDigest(hs, chunks)) {
      RootHash(hs, chunks);
      ZeroIsDyadic(leaves);
      assert b in inputs + SourceInputs(hs, chunks);
      FewerInputs(hs, inputs + SourceInputs(hs, chunks), {hs.sum(b) + Zeros(hs.size)} + SourceInputs(hs, chunks));
      GoDown(hs, chunks, 0, 1, hs.sum(b), None, Range(0, leaves));
      var half := leaves / 2;
      RightHalfNotZero(hs, chunks, half);
    }
  }

  lemma RightHalfNotZero(hs: Hasher, chunks: seq<bytes>, half: nat)
    requires |chunks| >= 2 && half == Leaves(chunks) / 2 && NoZero(hs, SourceInputs(hs, chunks))
    ensures hs.OrZero(TreeHash(hs, chunks, half, half)) != Zeros(hs.size)
  {
    hide TreeHash, SourceInputs;
    NullExactlyForPadding(hs, chunks, half, half);
    PowerIsMultiple(half, half);
    SourceInput(hs, chunks, half, half);
  }

  /** One packet, in whatever state the peer is: an accepted packet that is not as long as two digests
      holds the source's chunk, its number taken modulo the leaf count. If the size was unknown, the
      recorded leaf count is the right one, except for that modulus. */
  lemma AcceptedIsSource(hs: Hasher, chunkSize: nat, chunks: seq<bytes>, v: Verifier, c: int, i: nat, b: bytes)
    requires hs.Valid() && |chunks| >= 2 && Sized(hs, v) && |b| != 2 * hs.size
    requires Clear(hs, chunks, CheckInputs(hs, v, c, i, b))
    requires CheckData(hs, chunkSize, RootDigest(hs, chunks), v, c, Data(i, i, Some(b))).0
    ensures i % Leaves(chunks) < |chunks| && b == chunks[i % Leaves(chunks)]
    ensures v.chunkRange < 0 ==>
              CheckData(hs, chunkSize, RootDigest(hs, chunks), v, c, Data(i, i, Some(b))).1.leafNodeCount
              == i - i % Leaves(chunks) + Leaves(chunks)
  {
    hide Clear, ClimbKnown, ClimbUnknown, UsedKnown, UsedUnknown, ClimbInputs, ChainInputs, ChainHash, ChainTop;
    hide RootDigest, IsRightHalf, Digests, AllSized, UnknownSiblings, KnownSiblings;
    var pend, h := Pending(v.inte, c), hs.sum(b);
    assert Digests(hs, pend) by { NoDigests(hs); }
    if v.chunkRange >= 0 {
      KnownIsChain(hs, v.tree, pend, v.leafNodeCount, v.chunkRange, i, 1, h);
      PacketChain(hs, chunks, i, b, KnownSiblings(v.tree, pend, v.leafNodeCount, v.chunkRange, i, 1));
    } else if SiblingIndex(i, 1) in pend {
      UnknownIsChain(hs, pend, i, 1, h);
      PacketChain(hs, chunks, i, b, UnknownSiblings(pend, i, 1));
    } else {
      assert {b} + {h + Zeros(hs.size)} == {b, h + Zeros(hs.size)};
      NoLoneChunk(hs, chunks, b);
    }
  }

  lemma NoDigests(hs: Hasher)
    ensures Digests(hs, map[])
  {
  }

  // ---------------------------------------------------------------------------- whole runs

  /** What happens to a peer: a hash arrives, a packet is checked, peak hashes are checked. */
  datatype Move =
    | Hear(channel: int, integrity: Integrity)
    | Take(channel: int, data: Data)
    | Judge(channel: int, accepted: bool)

  ghost predicate Moves(hs: Hasher, chunkSize: nat, root: bytes, v: Verifier, m: Move, w: Verifier) {
    match m
    case Hear(c, i) => |i.hash| == hs.size && w == v.(inte := AddReceived(v.inte, c, i))
    case Take(c, d) => w == CheckData(hs, chunkSize, root, v, c, d).1
    case Judge(c, accepted) => PeakOutcome(hs, root, v, c, accepted, w)
  }

  /** The states vs[0], vs[1], ... of a run that starts with nothing but the root hash. */
  ghost predicate History(hs: Hasher, chunkSize: nat, root: bytes, vs: seq<Verifier>, ms: seq<Move>) {
    && |vs| == |ms| + 1 && vs[0] == UNKNOWN
    && forall k | 0 <= k < |ms| :: Moves(hs, chunkSize, root, vs[k], ms[k], vs[k + 1])
  }

  lemma MoveKeepsSized(hs: Hasher, chunkSize: nat, root: bytes, v: Verifier, m: Move, w: Verifier)
    requires Sized(hs, v) && Moves(hs, chunkSize, root, v, m, w)
    ensures Sized(hs, w)
  {
    hide Sized, CheckData, PeakOutcome;
    match m
    case Hear(c, i) => HearKeepsSized(hs, v, c, i);
    case Take(c, d) => TakeKeepsSized(hs, chunkSize, root, v, c, d);
    case Judge(c, accepted) => JudgeKeepsSized(hs, root, v, c, accepted, w);
  }

  lemma HearKeepsSized(hs: Hasher, v: Verifier, c: int, i: Integrity)
    requires Sized(hs, v) && |i.hash| == hs.size
    ensures Sized(hs, v.(inte := AddReceived(v.inte, c, i)))
  {
  }

  /** Nodes that move from a channel to the tree keep their length. */
  lemma MovedSized(hs: Hasher, v: Verifier, w: Verifier, c: int)
    requires Sized(hs, v)
    requires IsPart(Pending(w.inte, c), Pending(v.inte, c)) && w.inte.Keys == v.inte.Keys
    requires forall d: int | d in v.inte && d != c :: w.inte[d] == v.inte[d]
    requires forall x: int | x in w.tree ::
               if x in v.tree then w.tree[x] == v.tree[x] else x in Pending(v.inte, c) && w.tree[x] == Pending(v.inte, c)[x]
    ensures Sized(hs, w)
  {
    forall d: int | d in w.inte ensures Digests(hs, w.inte[d]) && AllHashed(w.inte[d]) {
      if d == c {
        assert IsPart(w.inte[d], v.inte[d]);
      }
    }
  }

  lemma TakeKeepsSized(hs: Hasher, chunkSize: nat, root: bytes, v: Verifier, c: int, d: Data)
    requires Sized(hs, v)
    ensures Sized(hs, CheckData(hs, chunkSize, root, v, c, d).1)
  {
    hide ClimbKnown, ClimbUnknown, UsedKnown, UsedUnknown, Sized, Commit;
    if d.buffer.Some? && d.startChunk == d.endChunk {
      var i, b, pend := d.startChunk, d.buffer.value, Pending(v.inte, c);
      if v.chunkRange >= 0 {
        var used := UsedKnown(pend, v.leafNodeCount, v.chunkRange, i, 1);
        CommitSized(hs, v, v, c, used);
        CommitSized(hs, v, v.(contentSize := chunkSize * v.chunkRange + |b|, lastChunkSize := |b|), c, used);
      } else {
        var end := ClimbUnknown(hs, pend, i, 1, hs.sum(b)).1;
        CommitSized(hs, v, v.(chunkRange := end, lastChunkIndex := end * 2, leafNodeCount := end + 1), c,
                    UsedUnknown(pend, i, 1));
        SameHashes(hs, v, v.(chunkRange := 0, lastChunkIndex := 0, lastChunkSize := |b|, contentSize := |b|,
                             leafNodeCount := 2));
      }
    }
  }

  lemma SameHashes(hs: Hasher, v: Verifier, w: Verifier)
    requires Sized(hs, v) && w.tree == v.tree && w.inte == v.inte
    ensures Sized(hs, w)
  {
  }

  lemma CommitSized(hs: Hasher, v: Verifier, w: Verifier, c: int, used: set<int>)
    requires Sized(hs, v) && w.tree == v.tree && w.inte == v.inte
    ensures Sized(hs, Commit(w, c, used))
  {
    hide Sized;
    MovedSized(hs, v, Commit(w, c, used), c);
  }

  lemma JudgeKeepsSized(hs: Hasher, root: bytes, v: Verifier, c: int, accepted: bool, w: Verifier)
    requires Sized(hs, v) && PeakOutcome(hs, root, v, c, accepted, w)
    ensures Sized(hs, w)
  {
    hide ClimbPeak, UsedPeak, LeafCountFor, IsLastPeak, Sized;
    MovedSized(hs, v, w, c);
  }

  lemma {:induction false} HistoryIsSized(hs: Hasher, chunkSize: nat, root: bytes, vs: seq<Verifier>, ms: seq<Move>, k: nat)
    requires History(hs, chunkSize, root, vs, ms) && k < |vs|
    ensures Sized(hs, vs[k])
  {
    hide Moves;
    if k > 0 {
      HistoryIsSized(hs, chunkSize, root, vs, ms, k - 1);
      MoveKeepsSized(hs, chunkSize, root, vs[k - 1], ms[k - 1], vs[k]);
    }
  }

  /** Soundness from the root hash alone: after any hashes, packets and peak checks on any channels,
      right or wrong, an accepted packet holds the source's chunk. */
  lemma OnlySourceFromRoot(hs: Hasher, chunkSize: nat, chunks: seq<bytes>, vs: seq<Verifier>, ms: seq<Move>, k: nat,
                           c: int, i: nat, b: bytes)
    requires hs.Valid() && |chunks| >= 2 && |b| != 2 * hs.size
    requires History(hs, chunkSize, RootDigest(hs, chunks), vs, ms) && k < |vs|
    requires Clear(hs, chunks, CheckInputs(hs, vs[k], c, i, b))
    requires CheckData(hs, chunkSize, RootDigest(hs, chunks), vs[k], c, Data(i, i, Some(b))).0
    ensures i % Leaves(chunks) < |chunks| && b == chunks[i % Leaves(chunks)]
    ensures i < Leaves(chunks) ==> i < |chunks| && b == chunks[i]
  {
    hide CheckData, CheckInputs, History, Sized, Clear, RootDigest;
    HistoryIsSized(hs, chunkSize, RootDigest(hs, chunks), vs, ms, k);
    AcceptedIsSource(hs, chunkSize, chunks, vs[k], c, i, b);
    SmallRemainder(i, Leaves(chunks));
  }

  lemma SmallRemainder(i: nat, n: nat)
    ensures i < n ==> i % n == i
  {
  }

  // --------------------------------------------------------------------------- the two limits

  /** The condition on the length is needed: without the size, the two digests below the left half of the
      tree pass for chunk 0 of a content of two chunks. */
  lemma DigestPairAccepted(hs: Hasher, chunks: seq<bytes>, c: int)
    requires hs.Valid() && |chunks| > 2
    ensures var leaves := Leaves(chunks);
            var half := leaves / 2;
            var pair := NodeInput(hs, chunks, 0, half);
            && TreeHash(hs, chunks, half, half).Some?
            && var v := UNKNOWN.(inte := AddReceived(map[], c, Integrity(1, 1, TreeHash(hs, chunks, half, half).value)));
               && |pair| == 2 * hs.size
               && CheckUnknown(hs, RootDigest(hs, chunks), v, c, 0, pair).0
               && CheckUnknown(hs, RootDigest(hs, chunks), v, c, 0, pair).1.chunkRange == 1
  {
    hide TreeHash;
    var leaves := Leaves(chunks);
    var half := leaves / 2;
    ZeroIsDyadic(half);
    NullExactlyForPadding(hs, chunks, half, half);
    NullExactlyForPadding(hs, chunks, 0, half);
    NullExactlyForPadding(hs, chunks, 0, half / 2);
    NullExactlyForPadding(hs, chunks, half / 2, half / 2);
    JoinHalves(hs, chunks, 0, half);
    JoinHalves(hs, chunks, 0, half / 2);
    var v := UNKNOWN.(inte := AddReceived(map[], c, Integrity(1, 1, TreeHash(hs, chunks, half, half).value)));
    var pend := Pending(v.inte, c);
    var h := TreeHash(hs, chunks, 0, half).value;
    assert SiblingStart(0, 1) == 1 && SiblingIndex(0, 1) == 2 && SiblingIndex(0, 2) == 5;
    assert pend.Keys == {2};
    assert ClimbUnknown(hs, pend, 0, 2, RootDigest(hs, chunks)) == (RootDigest(hs, chunks), 1);
  }

  /** An accepted size is guaranteed by nobody: a message that gives the root hash to chunks 0..1 passes
      the peak check, whatever the content. */
  lemma SizeFromRootHash(hs: Hasher, chunks: seq<bytes>, c: int)
    requires |chunks| >= 1
    ensures var root := RootDigest(hs, chunks);
            var v := UNKNOWN.(inte := AddReceived(map[], c, Integrity(0, 1, root)));
            && 1 in v.inte[c]
            && CheckPeakFrom(hs, root, v, c, 1).0 && CheckPeakFrom(hs, root, v, c, 1).1.chunkRange == 1
  {
    assert CeilPower(2) == 2;
    assert SiblingIndex(0, 2) == 5;
  }
}
