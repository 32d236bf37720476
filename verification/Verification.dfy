/** What one call of the sender and of the verifier does, as functions of the maps they hold. */
module Verification {
  import opened Bits
  import opened Bytes
  import opened Dyadic
  import opened Merkle

  type IntegrityMaps = map<int, MerkleHashmap>
  type SendMaps = map<int, set<int>>

  datatype Integrity = Integrity(startChunk: nat, endChunk: nat, hash: bytes)
  datatype Data = Data(startChunk: nat, endChunk: nat, buffer: Option<bytes>)

  /** An upper bound of a set of tree indices: no climb goes past it. */
  ghost function Top(ks: set<int>): (t: nat)
    ensures forall k | k in ks :: k <= t
  {
    if !exists k :: k in ks then 0
    else
      var k :| k in ks;
      var t := Top(ks - {k});
      assert forall j | j in ks :: j == k || j in ks - {k};
      if k > t then k else t
  }

  predicate KeysAreIndices(m: MerkleHashmap) {
    forall k | k in m :: m[k].treeIndex == k
  }

  function Restrict(m: MerkleHashmap, ks: set<int>): MerkleHashmap {
    map k | k in m && k in ks :: m[k]
  }

  predicate IsPart(part: MerkleHashmap, m: MerkleHashmap) {
    forall k | k in part :: k in m && part[k] == m[k]
  }

  lemma PartIsRestriction(part: MerkleHashmap, m: MerkleHashmap)
    requires IsPart(part, m)
    ensures Restrict(m, part.Keys) == part
  {
    var r := Restrict(m, part.Keys);
    forall k: int
      ensures k in r <==> k in part
      ensures k in part ==> r[k] == part[k]
    {
      assert k in part <==> k in part.Keys;
    }
    assert r == part;
  }

  lemma MergeNone(m: MerkleHashmap, tree: MerkleHashmap)
    ensures Restrict(m, {}) + tree == tree
  {
  }

  /** Adding one more node unless the tree has it. */
  lemma MergeOne(m: MerkleHashmap, ks: set<int>, tree: MerkleHashmap, k: int)
    requires k in m && k !in ks
    ensures var merged := Restrict(m, ks) + tree;
            Restrict(m, ks + {k}) + tree == if k in merged then merged else merged[k := m[k]]
  {
  }

  lemma PartWithPick(part: MerkleHashmap, m: MerkleHashmap, p: int)
    requires p in m && IsPart(part, m - {p})
    ensures Restrict(m, {p} + part.Keys) == part[p := m[p]]
    ensures part[p := m[p]].Keys == {p} + part.Keys
  {
    var tmp := part[p := m[p]];
    assert IsPart(tmp, m);
    PartIsRestriction(tmp, m);
  }

  lemma SetTwice(inte: IntegrityMaps, channel: int, m1: MerkleHashmap, m2: MerkleHashmap)
    ensures inte[channel := m1][channel := m2] == inte[channel := m2]
  {
  }

  lemma RestrictNone(m: MerkleHashmap)
    ensures Restrict(m, {}) == map[]
  {
  }

  lemma RestrictAdd(m: MerkleHashmap, ks: set<int>, k: int)
    requires ks <= m.Keys
    ensures Restrict(m, ks).Keys == ks
    ensures k in m ==> Restrict(m, ks + {k}) == Restrict(m, ks)[k := m[k]]
  {
  }

  lemma IndexOfStored(m: MerkleHashmap, k: int)
    requires KeysAreIndices(m) && k in m
    ensures m[k].treeIndex == k && KeysAreIndices(m - {k})
  {
  }

  // ---------------------------------------------------------------------------------- sender

  function SentOn(sent: SendMaps, channel: int): set<int> {
    if channel in sent then sent[channel] else {}
  }

  /** The nodes GetDataIntegrity picks while climbing from a range: siblings not sent before whose
      hash is not null. The climb ends at the first sibling neither sent before nor stored. */
  ghost function Sending(tree: MerkleHashmap, sent: set<int>, start: nat, size: nat): set<int>
    requires size >= 1
    decreases Top(tree.Keys + sent) + 2 - size
  {
    var x := SiblingIndex(start, size);
    if x !in sent && x !in tree then {}
    else
      (if x !in sent && tree[x].hash.Some? then {x} else {})
      + Sending(tree, sent, ParentStart(start, size), 2 * size)
  }

  /** One round of the climb. */
  lemma SendingStep(tree: MerkleHashmap, sent: set<int>, start: nat, size: nat)
    requires size >= 1
    ensures Sending(tree, sent, start, size) <= tree.Keys
    ensures var x := SiblingIndex(start, size);
            if x !in sent && x !in tree then Sending(tree, sent, start, size) == {}
            else
              && size <= Top(tree.Keys + sent) + 1
              && Sending(tree, sent, start, size)
                 == (if x !in sent && tree[x].hash.Some? then {x} else {})
                    + Sending(tree, sent, ParentStart(start, size), 2 * size)
    decreases Top(tree.Keys + sent) + 2 - size
  {
    hide IsRightHalf;
    var x := SiblingIndex(start, size);
    SiblingNonNegative(start, size);
    if x in sent || x in tree {
      assert x in tree.Keys + sent;
      SendingStep(tree, sent, ParentStart(start, size), 2 * size);
    }
  }

  // -------------------------------------------------------------------------------- verifier

  /** The part of a HashTree object that a verifier works on. */
  datatype Verifier = Verifier(
    tree: MerkleHashmap,
    inte: IntegrityMaps,
    peaks: MerkleHashmap,
    isPeakMapCreated: bool,
    chunkRange: int,
    lastChunkIndex: int,
    leafNodeCount: nat,
    contentSize: int,
    lastChunkSize: nat)

  function Pending(inte: IntegrityMaps, channel: int): MerkleHashmap {
    if channel in inte then inte[channel] else map[]
  }

  /** Received nodes are stored under their own index and carry a hash. */
  predicate WellStored(v: Verifier) {
    && KeysAreIndices(v.tree)
    && (forall c | c in v.inte :: KeysAreIndices(v.inte[c]))
    && (forall c | c in v.inte :: forall k | k in v.inte[c] :: v.inte[c][k].hash.Some?)
  }

  /** The node AddIntegrity makes of a message. */
  function Received(i: Integrity): BTreeNode {
    BTreeNode(i.startChunk + i.endChunk, false, false, false, i.startChunk, i.endChunk, Some(i.hash),
              None, None, None, None)
  }

  function AddReceived(inte: IntegrityMaps, channel: int, i: Integrity): IntegrityMaps {
    inte[channel := Pending(inte, channel)[i.startChunk + i.endChunk := Received(i)]]
  }

  /** Hash of the parent range, given the hash of a range and of its sibling. */
  function Combine(hs: Hasher, start: nat, size: nat, h: bytes, sibling: Option<bytes>): bytes {
    if start < SiblingStart(start, size) then hs.EncryptLR(Some(h), sibling).value
    else hs.EncryptLR(sibling, Some(h)).value
  }

  /** The channel's own messages are consulted before the verified tree. */
  function Lookup(tree: MerkleHashmap, pend: MerkleHashmap, x: int): Option<bytes> {
    if x in pend && pend[x].hash.Some? then pend[x].hash
    else if x in tree then tree[x].hash
    else None
  }

  /** The climb of CheckDataIntegrity when the size is known; None when a hash is missing. */
  function ClimbKnown(hs: Hasher, tree: MerkleHashmap, pend: MerkleHashmap, leaves: nat, range: int,
                      start: nat, size: nat, h: bytes): Option<bytes>
    requires size >= 1
    decreases 2 * leaves - size
  {
    var x := SiblingIndex(start, size);
    if x > (leaves - 1) * 2 then Some(h)
    else if SiblingStart(start, size) > range then
      ClimbKnown(hs, tree, pend, leaves, range, ParentStart(start, size), 2 * size, Combine(hs, start, size, h, None))
    else
      match Lookup(tree, pend, x)
      case None => None
      case Some(b) =>
        ClimbKnown(hs, tree, pend, leaves, range, ParentStart(start, size), 2 * size,
                   Combine(hs, start, size, h, Some(b)))
  }

  /** The channel's messages that a complete climb used. */
  function UsedKnown(pend: MerkleHashmap, leaves: nat, range: int, start: nat, size: nat): set<int>
    requires size >= 1
    decreases 2 * leaves - size
  {
    var x := SiblingIndex(start, size);
    if x > (leaves - 1) * 2 then {}
    else
      (if SiblingStart(start, size) <= range && x in pend then {x} else {})
      + UsedKnown(pend, leaves, range, ParentStart(start, size), 2 * size)
  }

  /** The climb of CheckDataIntegrity when the size is unknown: as far as messages reach.
      The result is the last hash and the last chunk of the range it covers. */
  ghost function ClimbUnknown(hs: Hasher, pend: MerkleHashmap, start: nat, size: nat, h: bytes): (bytes, nat)
    requires size >= 1
    decreases Top(pend.Keys) + 2 - size
  {
    var x := SiblingIndex(start, size);
    if x !in pend then (h, start + size - 1)
    else ClimbUnknown(hs, pend, ParentStart(start, size), 2 * size, Combine(hs, start, size, h, pend[x].hash))
  }

  ghost function UsedUnknown(pend: MerkleHashmap, start: nat, size: nat): set<int>
    requires size >= 1
    decreases Top(pend.Keys) + 2 - size
  {
    var x := SiblingIndex(start, size);
    if x !in pend then {} else {x} + UsedUnknown(pend, ParentStart(start, size), 2 * size)
  }

  function Drop(inte: IntegrityMaps, channel: int, ks: set<int>): IntegrityMaps {
    if channel in inte then inte[channel := inte[channel] - ks] else inte
  }

  lemma DropMore(inte: IntegrityMaps, channel: int, ks: set<int>, k: int)
    ensures Drop(inte, channel, {}) == inte
    ensures Drop(Drop(inte, channel, ks), channel, {k}) == Drop(inte, channel, ks + {k})
  {
    if channel in inte {
      assert inte[channel] - {} == inte[channel];
      assert inte[channel] - ks - {k} == inte[channel] - (ks + {k});
    }
  }

  /** Verified nodes go to the shared tree, unless it has that index, and leave the channel. */
  function Commit(v: Verifier, channel: int, used: set<int>): Verifier {
    var moved := Restrict(Pending(v.inte, channel), used);
    v.(tree := moved + v.tree,
       inte := Drop(v.inte, channel, used))
  }

  lemma CommitKeepsStored(v: Verifier, channel: int, used: set<int>)
    requires WellStored(v)
    ensures WellStored(Commit(v, channel, used))
  {
  }

  function CheckKnown(hs: Hasher, chunkSize: nat, root: bytes, v: Verifier, channel: int, i: nat, buffer: bytes)
    : (bool, Verifier)
  {
    var pend := Pending(v.inte, channel);
    if ClimbKnown(hs, v.tree, pend, v.leafNodeCount, v.chunkRange, i, 1, hs.sum(buffer)) == Some(root) then
      var w := if v.contentSize <= 0 && v.lastChunkSize <= 0 && i == v.chunkRange
               then v.(contentSize := chunkSize * v.chunkRange + |buffer|, lastChunkSize := |buffer|)
               else v;
      (true, Commit(w, channel, UsedKnown(pend, v.leafNodeCount, v.chunkRange, i, 1)))
    else
      (false, v)
  }

  ghost function CheckUnknown(hs: Hasher, root: bytes, v: Verifier, channel: int, i: nat, buffer: bytes)
    : (bool, Verifier)
  {
    var pend := Pending(v.inte, channel);
    if SiblingIndex(i, 1) !in pend then
      if hs.EncryptLR(Some(hs.sum(buffer)), None) == Some(root) then
        (true, v.(chunkRange := 0, lastChunkIndex := 0, lastChunkSize := |buffer|, contentSize := |buffer|,
                  leafNodeCount := 2))
      else (false, v)
    else
      var (h, end) := ClimbUnknown(hs, pend, i, 1, hs.sum(buffer));
      if h == root then
        (true, Commit(v.(chunkRange := end, lastChunkIndex := end * 2, leafNodeCount := end + 1), channel,
                      UsedUnknown(pend, i, 1)))
      else (false, v)
  }

  ghost function CheckData(hs: Hasher, chunkSize: nat, root: bytes, v: Verifier, channel: int, d: Data)
    : (bool, Verifier)
  {
    if d.buffer.None? || d.startChunk != d.endChunk then (false, v)
    else if v.chunkRange < 0 then CheckUnknown(hs, root, v, channel, d.startChunk, d.buffer.value)
    else CheckKnown(hs, chunkSize, root, v, channel, d.startChunk, d.buffer.value)
  }

  // ------------------------------------------------------------------------------ peak hashes

  /** The node CheckPeakHash starts from: a single chunk if there is one, else the range that
      ends last. Which one it is among several depends on the order of the hash map. */
  ghost predicate IsLastPeak(pend: MerkleHashmap, p: int) {
    && p in pend
    && (pend[p].startChunk == pend[p].endChunk
        || forall q | q in pend :: pend[q].startChunk != pend[q].endChunk && pend[q].endChunk <= pend[p].endChunk)
  }

  /** The leaf count derived from the last chunk: rounded up to even, then to a power of two. */
  function LeafCountFor(endChunk: nat): nat {
    var even := if endChunk % 2 != 0 then endChunk + 1 else endChunk;
    if even == 0 then 0 else CeilPower(even)
  }

  /** The climb of CheckPeakHash: messages up to index `last`, null hashes beyond it. */
  function ClimbPeak(hs: Hasher, pend: MerkleHashmap, bound: int, last: int, start: nat, size: nat, h: bytes)
    : Option<bytes>
    requires size >= 1
    decreases bound + 2 - size
  {
    var x := SiblingIndex(start, size);
    if x > bound then Some(h)
    else if x <= last then
      if x !in pend then None
      else ClimbPeak(hs, pend, bound, last, ParentStart(start, size), 2 * size, Combine(hs, start, size, h, pend[x].hash))
    else
      ClimbPeak(hs, pend, bound, last, ParentStart(start, size), 2 * size, Combine(hs, start, size, h, None))
  }

  function UsedPeak(bound: int, last: int, start: nat, size: nat): set<int>
    requires size >= 1
    decreases bound + 2 - size
  {
    var x := SiblingIndex(start, size);
    if x > bound then {}
    else (if x <= last then {x} else {}) + UsedPeak(bound, last, ParentStart(start, size), 2 * size)
  }

  /** CheckPeakHash once the node p is picked. */
  function CheckPeakFrom(hs: Hasher, root: bytes, v: Verifier, channel: int, p: int): (bool, Verifier)
    requires channel in v.inte && p in v.inte[channel] && v.inte[channel][p].hash.Some?
    requires v.inte[channel][p].startChunk <= v.inte[channel][p].endChunk
  {
    var leaf := v.inte[channel][p];
    var pend := v.inte[channel] - {p};
    var leaves := LeafCountFor(leaf.endChunk);
    var bound, last, size := 2 * (leaves - 1), leaf.endChunk * 2, leaf.endChunk - leaf.startChunk + 1;
    var tried := v.(inte := v.inte[channel := pend], leafNodeCount := leaves);
    if ClimbPeak(hs, pend, bound, last, leaf.startChunk, size, leaf.hash.value) == Some(root) then
      var moved := Restrict(v.inte[channel], {p} + UsedPeak(bound, last, leaf.startChunk, size));
      (true, tried.(chunkRange := leaf.endChunk, lastChunkIndex := last,
                    tree := moved + v.tree, peaks := v.peaks + moved, isPeakMapCreated := true,
                    inte := v.inte[channel := pend - moved.Keys]))
    else
      (false, tried)
  }

  /** CheckPeakHash as a relation: the picked node is the only freedom it has. */
  ghost predicate PeakOutcome(hs: Hasher, root: bytes, v: Verifier, channel: int, accepted: bool, after: Verifier) {
    if channel !in v.inte then !accepted && after == v
    else if v.inte[channel] == map[] then
      if v.chunkRange >= 0 then accepted && after == v.(isPeakMapCreated := true) else !accepted && after == v
    else
      exists p {:trigger IsLastPeak(v.inte[channel], p)} ::
        && IsLastPeak(v.inte[channel], p) && v.inte[channel][p].hash.Some?
        && v.inte[channel][p].startChunk <= v.inte[channel][p].endChunk
        && (accepted, after) == CheckPeakFrom(hs, root, v, channel, p)
  }

  /** _getSiblingIndex divides by the length of the range, so a node must not end before it starts. */
  predicate NonEmptyRanges(pend: MerkleHashmap) {
    forall k | k in pend :: pend[k].startChunk <= pend[k].endChunk
  }

  // -------------------------------------------------------------------- peak hashes, seeder

  /** Links lead to stored nodes, and a parent covers more chunks than its child. */
  predicate WellLinked(tree: MerkleHashmap) {
    forall k | k in tree ::
      && (tree[k].sibling.Some? ==> tree[k].sibling.value in tree)
      && (tree[k].parent.Some? ==>
            && tree[k].parent.value in tree
            && Width(tree[k]) < Width(tree[tree[k].parent.value]))
  }

  function Width(node: BTreeNode): int {
    node.endChunk - node.startChunk
  }

  /** The peak found at a node: of a pair of siblings the complete one, if the other is not. */
  function PeakAt(tree: MerkleHashmap, x: int): set<int>
    requires WellLinked(tree) && x in tree
  {
    var node := tree[x];
    if node.sibling.None? then {}
    else
      var sibling := tree[node.sibling.value];
      if sibling.isInComplete && !node.isInComplete then {x}
      else if node.isInComplete && !sibling.isInComplete then {node.sibling.value}
      else {}
  }

  function WiderThan(tree: MerkleHashmap, w: int): set<int> {
    set k | k in tree && Width(tree[k]) >= w
  }

  /** The peaks found on the walk from a node to the root. */
  function PeakWalk(tree: MerkleHashmap, x: int): set<int>
    requires WellLinked(tree) && x in tree
    decreases WiderThan(tree, Width(tree[x]))
  {
    PeakAt(tree, x) + (
      if tree[x].parent.None? then {}
      else
        assert x in WiderThan(tree, Width(tree[x])) - WiderThan(tree, Width(tree[tree[x].parent.value]));
        PeakWalk(tree, tree[x].parent.value))
  }

  /** Both checks keep received nodes under their own indices. */
  lemma CheckDataKeepsStored(hs: Hasher, chunkSize: nat, root: bytes, v: Verifier, channel: int, d: Data)
    requires WellStored(v)
    ensures WellStored(CheckData(hs, chunkSize, root, v, channel, d).1)
  {
    hide WellStored, Commit, ClimbKnown, UsedKnown, ClimbUnknown, UsedUnknown;
    if d.buffer.Some? && d.startChunk == d.endChunk {
      var i, b, pend := d.startChunk, d.buffer.value, Pending(v.inte, channel);
      SameStored(v, v.(contentSize := chunkSize * v.chunkRange + |b|, lastChunkSize := |b|));
      SameStored(v, v.(chunkRange := 0, lastChunkIndex := 0, lastChunkSize := |b|, contentSize := |b|, leafNodeCount := 2));
      var end := ClimbUnknown(hs, pend, i, 1, hs.sum(b)).1;
      var w := v.(chunkRange := end, lastChunkIndex := end * 2, leafNodeCount := end + 1);
      SameStored(v, w);
      CommitKeepsStored(w, channel, UsedUnknown(pend, i, 1));
      CommitKeepsStored(v, channel, UsedKnown(pend, v.leafNodeCount, v.chunkRange, i, 1));
      CommitKeepsStored(v.(contentSize := chunkSize * v.chunkRange + |b|, lastChunkSize := |b|), channel,
                        UsedKnown(pend, v.leafNodeCount, v.chunkRange, i, 1));
    }
  }

  lemma SameStored(v: Verifier, w: Verifier)
    requires WellStored(v) && w.tree == v.tree && w.inte == v.inte
    ensures WellStored(w)
  {
  }

  lemma CheckPeakKeepsStored(hs: Hasher, root: bytes, v: Verifier, channel: int, accepted: bool, after: Verifier)
    requires WellStored(v) && PeakOutcome(hs, root, v, channel, accepted, after)
    ensures WellStored(after)
  {
    hide ClimbPeak, UsedPeak, LeafCountFor, IsLastPeak;
  }
}
