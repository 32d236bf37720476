/** HashTree.cpp: the tree held by a seeder, and the partial tree a downloading peer rebuilds. */
module HashTrees {
  import opened Bits
  import opened Bytes
  import opened Dyadic
  import opened Merkle
  import opened Verification

  /** _getSiblingIndex: the range beside [start, end] and its tree index. */
  method GetSiblingIndex(start: nat, end: nat) returns (index: int, s_start: nat, s_end: nat)
    requires start <= end
    ensures s_start == SiblingStart(start, end - start + 1) && s_end == s_start + (end - start)
    ensures index == SiblingIndex(start, end - start + 1)
  {
    var cnt := end - start + 1;
    var dep := cnt * 2;
    if (end + 1) % dep == 0 {
      FullMultiple(end + 1, dep);
      s_start, s_end := start - cnt, end - cnt;
    } else {
      s_start, s_end := start + cnt, end + cnt;
    }
    index := (s_start * 2 + s_end * 2) / 2;
  }

  lemma FullMultiple(a: nat, b: nat)
    requires 0 < a && b > 0 && a % b == 0
    ensures a >= b
  {
  }

  class HashTree {
    const hasher: Hasher
    const chunkSize: nat

    var chunkRange: int
    var lastChunkIndex: int
    var leafNodeCount: nat
    var contentSize: int
    var lastChunkSize: nat
    var rootHash: Option<bytes>
    var rootNode: Option<int>

    var hashTreeMap: MerkleHashmap
    var integrityMap: map<int, MerkleHashmap>
    var peakHashMap: MerkleHashmap
    var isPeakMapCreated: bool
    var integritySendMap: map<int, set<int>>

    constructor (hasher: Hasher, chunkSize: nat)
      ensures this.hasher == hasher && this.chunkSize == chunkSize
      ensures chunkRange == -1 && lastChunkIndex == 0 && leafNodeCount == 0
      ensures contentSize == 0 && lastChunkSize == 0 && rootHash.None? && rootNode.None?
      ensures hashTreeMap == map[] && integrityMap == map[] && peakHashMap == map[] && integritySendMap == map[]
      ensures !isPeakMapCreated
    {
      this.hasher, this.chunkSize := hasher, chunkSize;
      chunkRange, lastChunkIndex, leafNodeCount := -1, 0, 0;
      contentSize, lastChunkSize := 0, 0;
      rootHash, rootNode := None, None;
      hashTreeMap, integrityMap, peakHashMap := map[], map[], map[];
      isPeakMapCreated := false;
      integritySendMap := map[];
    }

    method SetRootHash(hash: bytes)
      modifies this`rootHash
      ensures rootHash == Some(hash)
    {
      rootHash := Some(hash);
    }

    // ------------------------------------------------------------------------------- Make

    /** Stores a leaf and links it with its left neighbour when it completes a pair. */
    method StoreLeafNode(node: BTreeNode, idx: nat, cidx: nat)
      requires idx == 2 * cidx && node.sibling.None?
      modifies this`hashTreeMap
      ensures hashTreeMap == StoreLeaf(old(hashTreeMap), node, cidx)
    {
      hashTreeMap := hashTreeMap[idx := node];
      if (cidx + 1) % 2 == 0 && cidx > 0 {
        if idx - 2 in hashTreeMap {
          hashTreeMap := hashTreeMap[idx := node.(sibling := Some(idx - 2))];
          hashTreeMap := hashTreeMap[idx - 2 := hashTreeMap[idx - 2].(sibling := Some(idx))];
        }
      }
    }

    /** Reads the file chunk by chunk and stores one leaf for each; a short read ends the loop. */
    method ReadLeaves(content: bytes) returns (idx: nat, cidx: nat, ret: nat)
      requires chunkSize > 0
      modifies this`hashTreeMap
      ensures cidx == |Split(content, chunkSize)| && idx == 2 * cidx
      ensures hashTreeMap == LeafMap(hasher, Split(content, chunkSize), cidx)
      ensures ret == LastRead(|content|, chunkSize)
    {
      ghost var chunks := Split(content, chunkSize);
      hashTreeMap := map[];
      idx, cidx, ret := 0, 0, 0;
      var rest := content;
      while true
        invariant cidx <= |chunks| && idx == 2 * cidx
        invariant chunks[cidx..] == Split(rest, chunkSize)
        invariant hashTreeMap == LeafMap(hasher, chunks, cidx)
        invariant LastRead(|rest|, chunkSize) == LastRead(|content|, chunkSize)
        decreases |rest|
      {
        ret := if |rest| < chunkSize then |rest| else chunkSize;
        if ret <= 0 {
          break;
        }
        var fbuf := rest[..ret];
        SplitStep(rest, chunkSize);
        assert chunks[cidx] == fbuf;
        LeafMapStep(hasher, chunks, cidx);
        var node := BTreeNode(idx, false, false, false, cidx, cidx, Some(hasher.sum(fbuf)), None, None, None, None);
        StoreLeafNode(node, idx, cidx);
        cidx := cidx + 1;
        idx := idx + 2;
        if ret != chunkSize {
          break;
        }
        rest := rest[ret..];
      }
    }

    /** Adds all-zero leaves until the leaf count is a power of two. */
    method PadLeaves(idx0: nat, cidx0: nat, ghost chunks: seq<bytes>)
      requires cidx0 == |chunks| >= 1 && idx0 == 2 * cidx0
      requires hashTreeMap == LeafMap(hasher, chunks, cidx0)
      modifies this`hashTreeMap
      ensures hashTreeMap == LeafMap(hasher, chunks, Leaves(chunks))
    {
      var idx, cidx := idx0, cidx0;
      while ClearLowestBit(idx) != 0
        invariant cidx0 <= cidx <= Leaves(chunks) && idx == 2 * cidx
        invariant hashTreeMap == LeafMap(hasher, chunks, cidx)
        decreases Leaves(chunks) - cidx
      {
        ClearLowestBitIsPowerTest(idx);
        LeafMapStep(hasher, chunks, cidx);
        var node := BTreeNode(idx, true, true, false, cidx, cidx, None, None, None, None, None);
        StoreLeafNode(node, idx, cidx);
        idx := idx + 2;
        cidx := cidx + 1;
      }
      ClearLowestBitIsPowerTest(idx);
      CeilPowerIsLeast(cidx0, cidx);
    }

    /** Hashes two siblings into their parent and links the three nodes. */
    method JoinSiblings(li: int, ri: int) returns (hashout: Option<bytes>)
      requires li in hashTreeMap && hashTreeMap[li].treeIndex == li
      requires ri in hashTreeMap && hashTreeMap[ri].treeIndex == ri && li != ri
      modifies this`hashTreeMap, this`rootNode
      ensures hashTreeMap == JoinPair(hasher, old(hashTreeMap), li, ri, leafNodeCount)
      ensures hashout == hasher.EncryptLR(old(hashTreeMap)[li].hash, old(hashTreeMap)[ri].hash)
      ensures rootNode == if (li + ri) / 2 == leafNodeCount - 1 then Some(leafNodeCount - 1) else old(rootNode)
    {
      var left, right := hashTreeMap[li], hashTreeMap[ri];
      hashout := hasher.EncryptLR(left.hash, right.hash);
      var pidx := (ri + li) / 2;
      var node := BTreeNode(
        pidx, left.isAllZero && right.isAllZero, left.isInComplete || right.isInComplete,
        pidx == leafNodeCount - 1, left.startChunk, right.endChunk, hashout, None, None, Some(li), Some(ri));
      if node.isRoot {
        rootNode := Some(pidx);
      }
      hashTreeMap := hashTreeMap[li := left.(parent := Some(pidx), sibling := Some(ri))];
      hashTreeMap := hashTreeMap[ri := right.(parent := Some(pidx), sibling := Some(li))];
      hashTreeMap := hashTreeMap[pidx := node];
    }

    /** Joins the nodes at distance `gap` along one level; `hashout` is the last hash computed. */
    method BuildLevel(startidx: nat, gap: nat, hash0: Option<bytes>, ghost chunks: seq<bytes>, ghost z: nat)
      returns (hashout: Option<bytes>)
      requires |chunks| >= 2 && leafNodeCount == Leaves(chunks)
      requires PowerOfTwo(z) && z < leafNodeCount && gap == 2 * z && startidx == z - 1
      requires hashTreeMap == Stage(hasher, chunks, leafNodeCount, z, 0)
      modifies this`hashTreeMap, this`rootNode
      ensures hashTreeMap == Stage(hasher, chunks, leafNodeCount, 2 * z, 0)
      ensures 2 * z == leafNodeCount ==> hashout == TreeHash(hasher, chunks, 0, leafNodeCount)
      ensures rootNode == if 2 * z == leafNodeCount then Some(leafNodeCount - 1) else old(rootNode)
    {
      hide Stage, PowerOfTwo, IsDyadic, TreeHash;
      hashout := hash0;
      var idx := startidx;
      ghost var s := 0;
      StartOfLevel(z, leafNodeCount);
      while true
        invariant idx == Index(s, z) && IsDyadic(s, 2 * z) && s <= leafNodeCount
        invariant hashTreeMap == Stage(hasher, chunks, leafNodeCount, z, s)
        invariant s > 0 && 2 * z == leafNodeCount ==> hashout == TreeHash(hasher, chunks, 0, leafNodeCount)
        invariant rootNode == if s > 0 && 2 * z == leafNodeCount then Some(leafNodeCount - 1) else old(rootNode)
        decreases leafNodeCount - s
      {
        StageEdge(hasher, chunks, leafNodeCount, z, s);
        if idx !in hashTreeMap {
          break;
        }
        StagePair(hasher, chunks, leafNodeCount, z, s);
        var li := idx;
        idx := idx + gap;
        if idx !in hashTreeMap {
          break;
        }
        hashout := JoinSiblings(li, idx);
        idx := idx + gap;
        s := s + 2 * z;
      }
      StageNextLevel(hasher, chunks, leafNodeCount, z);
    }

    /** Builds the whole tree of a file of at least two chunks: smaller files leave rootNode unset. */
    method Make(content: bytes)
      requires chunkSize > 0 && |content| > chunkSize
      modifies this`hashTreeMap, this`rootNode, this`rootHash, this`contentSize, this`lastChunkSize,
               this`chunkRange, this`lastChunkIndex, this`leafNodeCount
      ensures var chunks := Split(content, chunkSize);
              && |chunks| >= 2
              && leafNodeCount == Leaves(chunks)
              && chunkRange == |chunks| - 1 && lastChunkIndex == 2 * (|chunks| - 1)
              && hashTreeMap == MadeTree(hasher, chunks, leafNodeCount)
              && rootNode == Some(leafNodeCount - 1)
              && rootHash == Some(RootDigest(hasher, chunks))
              && lastChunkSize == LastRead(|content|, chunkSize)
              && contentSize == chunkSize * (|chunks| - 1) + lastChunkSize
    {
      hide Stage, PowerOfTwo, IsDyadic, TreeHash, MadeTree, LeafMap;
      ghost var chunks := Split(content, chunkSize);
      TwoChunks(content, chunkSize);
      var idx, cidx, ret := ReadLeaves(content);
      contentSize := chunkSize * (cidx - 1) + ret;
      lastChunkSize := ret;
      LeafCount(hasher, chunks, cidx);
      chunkRange := |hashTreeMap| - 1;
      lastChunkIndex := chunkRange * 2;
      PadLeaves(idx, cidx, chunks);
      LeafCount(hasher, chunks, Leaves(chunks));
      leafNodeCount := |hashTreeMap|;
      StageZero(hasher, chunks, leafNodeCount);

      var startidx: nat, startgap: nat, gap: nat := 0, 1, 2;
      var hashout := None;
      PowerOne();
      while true
        invariant PowerOfTwo(startgap) && startgap <= leafNodeCount
        invariant gap == 2 * startgap && startidx == startgap - 1
        invariant leafNodeCount == Leaves(chunks)
        invariant hashTreeMap == Stage(hasher, chunks, leafNodeCount, startgap, 0)
        invariant startgap == leafNodeCount ==>
                    hashout == TreeHash(hasher, chunks, 0, leafNodeCount) && rootNode == Some(leafNodeCount - 1)
        modifies this`hashTreeMap, this`rootNode
        decreases leafNodeCount - startgap
      {
        idx := startidx;
        if idx >= leafNodeCount - 1 {
          break;
        }
        StartOfLevel(startgap, leafNodeCount);
        DyadicSize(0, 2 * startgap);
        hashout := BuildLevel(idx, gap, hashout, chunks, startgap);
        gap := gap * 2;
        startgap := startgap * 2;
        startidx := startgap - 1;
      }
      StageLast(hasher, chunks, leafNodeCount);
      NullExactlyForPadding(hasher, chunks, 0, leafNodeCount);
      assert rootNode == Some(leafNodeCount - 1);
      SetRootHash(hashout.value);
    }

    // ----------------------------------------------------------------------------- sender

    /** The hashes to send along with chunk `index` that this channel has not been sent yet. */
    method GetDataIntegrity(channelid: int, index: nat) returns (peakmap: MerkleHashmap)
      requires KeysAreIndices(hashTreeMap)
      modifies this`integritySendMap
      ensures var sent := SentOn(old(integritySendMap), channelid);
              && peakmap == Restrict(hashTreeMap, Sending(hashTreeMap, sent, index, 1))
              && integritySendMap == old(integritySendMap)[channelid := sent + peakmap.Keys]
    {
      hide Sending, Restrict, IsDyadic, SizeOf, StartOf, IsRightHalf, SiblingStart, ParentStart, Top;
      peakmap := map[];
      SingleIsDyadic(index);
      RestrictNone(hashTreeMap);
      var start: nat, end: nat := index, index;
      if channelid !in integritySendMap {
        integritySendMap := integritySendMap[channelid := {}];
      }
      var checkmap := integritySendMap[channelid];
      ghost var sent := checkmap;
      ghost var size: nat, done := 1, {};
      while true
        invariant size >= 1 && end == start + size - 1 && IsDyadic(start, size)
        invariant channelid in integritySendMap && integritySendMap == old(integritySendMap)[channelid := sent]
        invariant checkmap == sent + done && done <= hashTreeMap.Keys && peakmap == Restrict(hashTreeMap, done)
        invariant forall y | y in done :: y >= 0 && SizeOf(y) < size
        invariant done + Sending(hashTreeMap, sent, start, size) == Sending(hashTreeMap, sent, index, 1)
        decreases Top(hashTreeMap.Keys + sent) + 2 - size
      {
        var s_index, s_start, s_end := GetSiblingIndex(start, end);
        SiblingFacts(start, size);
        IndexOfRange(s_start, size);
        SiblingNonNegative(start, size);
        SendingStep(hashTreeMap, sent, start, size);
        RestrictAdd(hashTreeMap, done, s_index);
        if s_index !in checkmap {
          if s_index in hashTreeMap {
            if hashTreeMap[s_index].hash != None {
              peakmap := peakmap[hashTreeMap[s_index].treeIndex := hashTreeMap[s_index]];
              checkmap := checkmap + {s_index};
              done := done + {s_index};
            }
          } else {
            break;
          }
        }
        start := if start > s_start then s_start else start;
        end := if end > s_end then end else s_end;
        size := 2 * size;
      }
      assert done == Sending(hashTreeMap, sent, index, 1);
      RestrictAdd(hashTreeMap, done, 0);
      integritySendMap := integritySendMap[channelid := checkmap];
    }

    // --------------------------------------------------------------------------- verifier

    function View(): Verifier
      reads this
    {
      Verifier(hashTreeMap, integrityMap, peakHashMap, isPeakMapCreated,
               chunkRange, lastChunkIndex, leafNodeCount, contentSize, lastChunkSize)
    }

    method AddIntegrity(channelid: int, integrity: Integrity)
      requires WellStored(View())
      modifies this`integrityMap
      ensures WellStored(View())
      ensures integrityMap == AddReceived(old(integrityMap), channelid, integrity)
    {
      var treeIndex := (integrity.startChunk * 2 + integrity.endChunk * 2) / 2;
      var node := BTreeNode(treeIndex, false, false, false, integrity.startChunk, integrity.endChunk,
                            Some(integrity.hash), None, None, None, None);
      if channelid !in integrityMap {
        integrityMap := integrityMap[channelid := map[treeIndex := node]];
      } else {
        integrityMap := integrityMap[channelid := integrityMap[channelid][treeIndex := node]];
      }
    }

    /** Moves the nodes collected during a successful climb from the channel to the tree. */
    method MoveToTree(channelid: int, tmpmap: MerkleHashmap)
      requires IsPart(tmpmap, Pending(integrityMap, channelid))
      modifies this`hashTreeMap, this`integrityMap
      ensures View() == Commit(old(View()), channelid, tmpmap.Keys)
    {
      hide Restrict;
      var keys := tmpmap.Keys;
      ghost var done := {};
      ghost var tree0, inte0 := hashTreeMap, integrityMap;
      DropMore(inte0, channelid, {}, 0);
      MergeNone(tmpmap, tree0);
      while exists k :: k in keys
        invariant keys + done == tmpmap.Keys && keys !! done
        invariant hashTreeMap == Restrict(tmpmap, done) + tree0
        invariant integrityMap == Drop(inte0, channelid, done)
        decreases keys
      {
        var k :| k in keys;
        MergeOne(tmpmap, done, tree0, k);
        if k !in hashTreeMap {
          hashTreeMap := hashTreeMap[k := tmpmap[k]];
        }
        DropMore(inte0, channelid, done, k);
        integrityMap := integrityMap[channelid := integrityMap[channelid] - {k}];
        keys := keys - {k};
        done := done + {k};
      }
      assert keys == {} && done == tmpmap.Keys;
      PartIsRestriction(tmpmap, tmpmap);
      PartIsRestriction(tmpmap, Pending(inte0, channelid));
    }

    method CheckDataIntegrity(channelid: int, data: Data) returns (result: int)
      requires WellStored(View()) && rootHash.Some?
      modifies this
      ensures rootHash == old(rootHash) && integritySendMap == old(integritySendMap)
      ensures WellStored(View())
      ensures var (accepted, after) := CheckData(hasher, chunkSize, rootHash.value, old(View()), channelid, data);
              result == (if accepted then 1 else 0) && View() == after
    {
      if data.buffer == None {
        return 0;
      }
      if data.startChunk != data.endChunk {
        return 0;
      }
      CheckDataKeepsStored(hasher, chunkSize, rootHash.value, View(), channelid, data);
      var datahash := hasher.sum(data.buffer.value);
      if chunkRange < 0 {
        result := CheckUnknownSize(channelid, data.startChunk, data.buffer.value, datahash);
      } else {
        result := CheckKnownSize(channelid, data.startChunk, data.buffer.value, datahash);
      }
    }

    /** Climbs from a chunk to the root, or reports a missing hash; collects the messages used. */
    method ClimbToRoot(channelid: int, index: nat, datahash0: bytes)
      returns (datahash: Option<bytes>, tmpmap: MerkleHashmap)
      ensures var pend := Pending(integrityMap, channelid);
              && datahash == ClimbKnown(hasher, hashTreeMap, pend, leafNodeCount, chunkRange, index, 1, datahash0)
              && (datahash.Some? ==>
                    && tmpmap.Keys == UsedKnown(pend, leafNodeCount, chunkRange, index, 1)
                    && IsPart(tmpmap, pend))
    {
      hide IsRightHalf, SiblingStart, ParentStart;
      var start: nat, end: nat, hash := index, index, datahash0;
      var sibling, s_start, s_end := GetSiblingIndex(start, end);
      ghost var pend := Pending(integrityMap, channelid);
      ghost var size: nat := 1;
      tmpmap := map[];
      while sibling <= (leafNodeCount - 1) * 2
        invariant size >= 1 && end == start + size - 1
        invariant s_start == SiblingStart(start, size) && s_end == s_start + size - 1 && sibling == SiblingIndex(start, size)
        invariant IsPart(tmpmap, pend)
        invariant ClimbKnown(hasher, hashTreeMap, pend, leafNodeCount, chunkRange, index, 1, datahash0)
               == ClimbKnown(hasher, hashTreeMap, pend, leafNodeCount, chunkRange, start, size, hash)
        invariant UsedKnown(pend, leafNodeCount, chunkRange, index, 1)
               == tmpmap.Keys + UsedKnown(pend, leafNodeCount, chunkRange, start, size)
        decreases 2 * leafNodeCount - size
      {
        UnionIsParent(start, size);
        var siblinghash := None;
        if s_start <= chunkRange {
          if channelid in integrityMap {
            if sibling in integrityMap[channelid] {
              siblinghash := integrityMap[channelid][sibling].hash;
              tmpmap := tmpmap[sibling := integrityMap[channelid][sibling]];
            }
          }
          if siblinghash == None {
            if sibling !in hashTreeMap {
              return None, tmpmap;
            }
            siblinghash := hashTreeMap[sibling].hash;
          }
          if siblinghash == None {
            return None, tmpmap;
          }
        }
        hash := if start < s_start then hasher.EncryptLR(Some(hash), siblinghash).value
                else hasher.EncryptLR(siblinghash, Some(hash)).value;
        start := if start > s_start then s_start else start;
        end := if end > s_end then end else s_end;
        size := 2 * size;
        sibling, s_start, s_end := GetSiblingIndex(start, end);
      }
      datahash := Some(hash);
    }

    method CheckKnownSize(channelid: int, index: nat, buffer: bytes, datahash0: bytes) returns (result: int)
      requires rootHash.Some? && chunkRange >= 0 && datahash0 == hasher.sum(buffer)
      modifies this`hashTreeMap, this`integrityMap, this`contentSize, this`lastChunkSize
      ensures var (accepted, after) := CheckKnown(hasher, chunkSize, rootHash.value, old(View()), channelid, index, buffer);
              result == (if accepted then 1 else 0) && View() == after
    {
      var datahash, tmpmap := ClimbToRoot(channelid, index, datahash0);
      if datahash == None {
        return 0;
      }
      if rootHash != datahash {
        return 0;
      }
      if contentSize <= 0 && lastChunkSize <= 0 && index == chunkRange {
        contentSize := chunkSize * chunkRange + |buffer|;
        lastChunkSize := |buffer|;
      }
      MoveToTree(channelid, tmpmap);
      return 1;
    }

    /** Climbs as far as the channel's messages reach; collects the messages used. */
    method ClimbMessages(channelid: int, index: nat, datahash0: bytes)
      returns (datahash: bytes, end: nat, tmpmap: MerkleHashmap)
      requires channelid in integrityMap && KeysAreIndices(integrityMap[channelid])
      ensures var pend := integrityMap[channelid];
              && (datahash, end) == ClimbUnknown(hasher, pend, index, 1, datahash0)
              && tmpmap.Keys == UsedUnknown(pend, index, 1) && IsPart(tmpmap, pend)
    {
      hide IsRightHalf, Top;
      var pend := integrityMap[channelid];
      var start: nat;
      start, end, datahash := index, index, datahash0;
      var sibling, s_start, s_end := GetSiblingIndex(start, end);
      ghost var size: nat := 1;
      tmpmap := map[];
      while sibling in pend
        invariant size >= 1 && end == start + size - 1
        invariant s_start == SiblingStart(start, size) && s_end == s_start + size - 1 && sibling == SiblingIndex(start, size)
        invariant IsPart(tmpmap, pend)
        invariant ClimbUnknown(hasher, pend, index, 1, datahash0) == ClimbUnknown(hasher, pend, start, size, datahash)
        invariant UsedUnknown(pend, index, 1) == tmpmap.Keys + UsedUnknown(pend, start, size)
        decreases Top(pend.Keys) + 2 - size
      {
        assert sibling in pend.Keys;
        var siblinghash := pend[sibling].hash;
        tmpmap := tmpmap[pend[sibling].treeIndex := pend[sibling]];
        datahash := if start < s_start then hasher.EncryptLR(Some(datahash), siblinghash).value
                    else hasher.EncryptLR(siblinghash, Some(datahash)).value;
        start := if start > s_start then s_start else start;
        end := if end > s_end then end else s_end;
        size := 2 * size;
        sibling, s_start, s_end := GetSiblingIndex(start, end);
      }
    }

    method CheckUnknownSize(channelid: int, index: nat, buffer: bytes, datahash0: bytes) returns (result: int)
      requires WellStored(View()) && rootHash.Some? && chunkRange < 0 && datahash0 == hasher.sum(buffer)
      modifies this`hashTreeMap, this`integrityMap, this`contentSize, this`lastChunkSize,
               this`chunkRange, this`lastChunkIndex, this`leafNodeCount
      ensures var (accepted, after) := CheckUnknown(hasher, rootHash.value, old(View()), channelid, index, buffer);
              result == (if accepted then 1 else 0) && View() == after
    {
      var sibling, s_start, s_end := GetSiblingIndex(index, index);
      if channelid !in integrityMap || sibling !in integrityMap[channelid] {
        var hashout := hasher.EncryptLR(Some(datahash0), None);
        if rootHash == hashout {
          chunkRange := 0;
          lastChunkIndex := 0;
          lastChunkSize := |buffer|;
          contentSize := |buffer|;
          leafNodeCount := 2;
          return 1;
        } else {
          return 0;
        }
      }
      var datahash, end, tmpmap := ClimbMessages(channelid, index, datahash0);
      if rootHash.value != datahash {
        return 0;
      }
      chunkRange := end;
      lastChunkIndex := end * 2;
      leafNodeCount := end + 1;
      MoveToTree(channelid, tmpmap);
      return 1;
    }

    // ------------------------------------------------------------------------ peak hashes

    /** Picks the node to start from, visiting the map in an arbitrary order. */
    method PickLastPeak(pend: MerkleHashmap) returns (pick: Option<int>)
      ensures pick.None? <==> pend == map[]
      ensures pick.Some? ==> IsLastPeak(pend, pick.value)
    {
      var keys, uncle := pend.Keys, None;
      while exists k :: k in keys
        invariant keys <= pend.Keys
        invariant uncle.None? <==> keys == pend.Keys
        invariant uncle.Some? ==> uncle.value in pend
        invariant uncle.Some? ==> forall q | q in pend.Keys - keys ::
                    pend[q].startChunk != pend[q].endChunk && pend[q].endChunk <= pend[uncle.value].endChunk
        decreases keys
      {
        var k :| k in keys;
        keys := keys - {k};
        if pend[k].startChunk == pend[k].endChunk {
          return Some(k);
        } else if uncle == None {
          uncle := Some(k);
        } else if pend[uncle.value].endChunk < pend[k].endChunk {
          uncle := Some(k);
        }
      }
      assert keys == {};
      return uncle;
    }

    method RoundUpLeaves(endChunk: nat) returns (leaves: nat)
      ensures leaves == LeafCountFor(endChunk)
    {
      var idx := endChunk;
      if idx % 2 != 0 {
        idx := idx + 1;
      }
      leaves := RoundUpEven(idx);
    }

    method RoundUpEven(even: nat) returns (idx: nat)
      requires even % 2 == 0
      ensures idx == if even == 0 then 0 else CeilPower(even)
    {
      hide PowerOfTwo, CeilPower, ClearLowestBit;
      idx := even;
      CeilOfEven(even);
      ClearLowestBitIsPowerTest(idx);
      while ClearLowestBit(idx) != 0
        invariant idx % 2 == 0 && even <= idx
        invariant idx <= if even == 0 then 0 else CeilPower(even)
        invariant ClearLowestBit(idx) == 0 <==> idx == 0 || PowerOfTwo(idx)
        decreases if even == 0 then 0 else CeilPower(even) - idx
      {
        idx := idx + 2;
        ClearLowestBitIsPowerTest(idx);
      }
      if even > 0 {
        CeilPowerIsLeast(even, idx);
      }
    }

    /** The climb over peak hashes; collects the messages used. */
    method ClimbPeaks(pend: MerkleHashmap, leafnode: BTreeNode, leaves: nat)
      returns (datahash: Option<bytes>, tmpmap: MerkleHashmap)
      requires KeysAreIndices(pend) && leafnode.hash.Some? && leafnode.startChunk <= leafnode.endChunk
      ensures var bound, last, s, e := 2 * (leaves - 1), leafnode.endChunk * 2, leafnode.startChunk, leafnode.endChunk;
              && datahash == ClimbPeak(hasher, pend, bound, last, s, e - s + 1, leafnode.hash.value)
              && (datahash.Some? ==> IsPart(tmpmap, pend) && tmpmap.Keys == UsedPeak(bound, last, s, e - s + 1))
    {
      hide IsRightHalf;
      var start: nat, end: nat, hash := leafnode.startChunk, leafnode.endChunk, leafnode.hash.value;
      var sibling, s_start, s_end := GetSiblingIndex(start, end);
      var tmpNodeCount, last := 2 * (leaves - 1), leafnode.endChunk * 2;
      ghost var size: nat := end - start + 1;
      ghost var size0 := size;
      tmpmap := map[];
      while sibling <= tmpNodeCount
        invariant size >= 1 && end == start + size - 1
        invariant s_start == SiblingStart(start, size) && s_end == s_start + size - 1 && sibling == SiblingIndex(start, size)
        invariant IsPart(tmpmap, pend)
        invariant ClimbPeak(hasher, pend, tmpNodeCount, last, leafnode.startChunk, size0, leafnode.hash.value)
               == ClimbPeak(hasher, pend, tmpNodeCount, last, start, size, hash)
        invariant UsedPeak(tmpNodeCount, last, leafnode.startChunk, size0)
               == tmpmap.Keys + UsedPeak(tmpNodeCount, last, start, size)
        decreases tmpNodeCount + 2 - size
      {
        var siblinghash := None;
        if sibling <= last {
          if sibling !in pend {
            return None, tmpmap;
          }
          siblinghash := pend[sibling].hash;
          tmpmap := tmpmap[pend[sibling].treeIndex := pend[sibling]];
        }
        hash := if start < s_start then hasher.EncryptLR(Some(hash), siblinghash).value
                else hasher.EncryptLR(siblinghash, Some(hash)).value;
        start := if start > s_start then s_start else start;
        end := if end > s_end then end else s_end;
        size := 2 * size;
        sibling, s_start, s_end := GetSiblingIndex(start, end);
      }
      datahash := Some(hash);
    }

    method CheckPeakHash(channelid: int) returns (result: int)
      requires WellStored(View()) && rootHash.Some?
      requires NonEmptyRanges(Pending(integrityMap, channelid))
      modifies this
      ensures rootHash == old(rootHash) && integritySendMap == old(integritySendMap) && rootNode == old(rootNode)
      ensures result == 0 || result == 1
      ensures WellStored(View()) && PeakOutcome(hasher, rootHash.value, old(View()), channelid, result == 1, View())
    {
      if |integrityMap| <= 0 {
        return 0;
      }
      if channelid !in integrityMap {
        return 0;
      }
      var intemap := integrityMap[channelid];
      if |intemap| <= 0 && chunkRange >= 0 {
        isPeakMapCreated := true;
        return 1;
      }
      var pick := PickLastPeak(intemap);
      if pick == None {
        return 0;
      }
      ghost var before := View();
      result := CheckPeakAt(channelid, pick.value);
      CheckPeakKeepsStored(hasher, rootHash.value, before, channelid, result == 1, View());
    }

    method CheckPeakAt(channelid: int, pick: int) returns (result: int)
      requires WellStored(View()) && rootHash.Some?
      requires channelid in integrityMap && pick in integrityMap[channelid]
      requires integrityMap[channelid][pick].startChunk <= integrityMap[channelid][pick].endChunk
      modifies this`integrityMap, this`leafNodeCount, this`chunkRange, this`lastChunkIndex,
               this`hashTreeMap, this`peakHashMap, this`isPeakMapCreated
      ensures var (accepted, after) := CheckPeakFrom(hasher, rootHash.value, old(View()), channelid, pick);
              result == (if accepted then 1 else 0) && View() == after
    {
      hide ClimbPeak, UsedPeak, Restrict, LeafCountFor, IsPart, KeysAreIndices;
      assert KeysAreIndices(integrityMap[channelid]) && integrityMap[channelid][pick].treeIndex == pick
          && KeysAreIndices(integrityMap[channelid] - {pick}) by { IndexOfStored(integrityMap[channelid], pick); }
      var leafnode := integrityMap[channelid][pick];
      ghost var all := integrityMap[channelid];
      integrityMap := integrityMap[channelid := integrityMap[channelid] - {pick}];
      leafNodeCount := RoundUpLeaves(leafnode.endChunk);
      var datahash, tmpmap := ClimbPeaks(integrityMap[channelid], leafnode, leafNodeCount);
      if datahash == None {
        return 0;
      }
      PartWithPick(tmpmap, all, pick);
      tmpmap := tmpmap[leafnode.treeIndex := leafnode];
      if rootHash != datahash {
        return 0;
      }
      SetTwice(old(integrityMap), channelid, all - {pick}, all - {pick} - tmpmap.Keys);
      AcceptPeaks(channelid, leafnode, tmpmap);
      return 1;
    }

    /** The size is known now, and the peaks go to the shared tree and to the peak map. */
    method AcceptPeaks(channelid: int, leafnode: BTreeNode, tmpmap: MerkleHashmap)
      requires channelid in integrityMap
      modifies this`integrityMap, this`chunkRange, this`lastChunkIndex,
               this`hashTreeMap, this`peakHashMap, this`isPeakMapCreated
      ensures View() == old(View()).(
                chunkRange := leafnode.endChunk, lastChunkIndex := leafnode.endChunk * 2,
                tree := tmpmap + old(hashTreeMap), peaks := old(peakHashMap) + tmpmap, isPeakMapCreated := true,
                inte := old(integrityMap)[channelid := old(integrityMap)[channelid] - tmpmap.Keys])
    {
      chunkRange := leafnode.endChunk;
      lastChunkIndex := chunkRange * 2;
      hashTreeMap := tmpmap + hashTreeMap;
      peakHashMap := peakHashMap + tmpmap;
      integrityMap := integrityMap[channelid := integrityMap[channelid] - tmpmap.Keys];
      isPeakMapCreated := true;
    }

    /** The peak hashes to send, computed on the first call and remembered. */
    method GetPeakHashes() returns (peakmap: MerkleHashmap)
      requires KeysAreIndices(hashTreeMap) && KeysAreIndices(peakHashMap) && WellLinked(hashTreeMap)
      modifies this`peakHashMap, this`isPeakMapCreated
      ensures isPeakMapCreated && KeysAreIndices(peakHashMap)
      ensures old(isPeakMapCreated) ==> peakmap == peakHashMap == old(peakHashMap)
      ensures !old(isPeakMapCreated) ==>
                && peakHashMap == old(peakHashMap) + peakmap
                && peakmap == if ClearLowestBit(NatOrZero(chunkRange + 1)) != 0 && lastChunkIndex in hashTreeMap
                              then Restrict(hashTreeMap, PeakWalk(hashTreeMap, lastChunkIndex)) else map[]
    {
      peakmap := map[];
      if isPeakMapCreated {
        peakmap := peakHashMap;
      } else {
        isPeakMapCreated := true;
        if ClearLowestBit(NatOrZero(chunkRange + 1)) != 0 && lastChunkIndex in hashTreeMap {
          peakmap := WalkToRoot();
          peakHashMap := peakHashMap + peakmap;
        }
      }
    }

    method WalkToRoot() returns (peakmap: MerkleHashmap)
      requires KeysAreIndices(hashTreeMap) && WellLinked(hashTreeMap) && lastChunkIndex in hashTreeMap
      ensures peakmap == Restrict(hashTreeMap, PeakWalk(hashTreeMap, lastChunkIndex))
    {
      hide Restrict;
      peakmap := map[];
      var at := Some(lastChunkIndex);
      ghost var done := {};
      RestrictNone(hashTreeMap);
      while at != None
        invariant at.Some? ==> at.value in hashTreeMap
        invariant done <= hashTreeMap.Keys && peakmap == Restrict(hashTreeMap, done)
        invariant PeakWalk(hashTreeMap, lastChunkIndex)
               == done + (if at.None? then {} else PeakWalk(hashTreeMap, at.value))
        decreases at.Some?, if at.Some? then WiderThan(hashTreeMap, Width(hashTreeMap[at.value])) else {}
      {
        var node := hashTreeMap[at.value];
        if node.sibling != None && hashTreeMap[node.sibling.value].isInComplete && !node.isInComplete {
          RestrictAdd(hashTreeMap, done, at.value);
          peakmap := peakmap[node.treeIndex := node];
          done := done + {at.value};
        } else if node.sibling != None && node.isInComplete && !hashTreeMap[node.sibling.value].isInComplete {
          RestrictAdd(hashTreeMap, done, node.sibling.value);
          peakmap := peakmap[hashTreeMap[node.sibling.value].treeIndex := hashTreeMap[node.sibling.value]];
          done := done + {node.sibling.value};
        }
        if node.parent.Some? {
          assert at.value in WiderThan(hashTreeMap, Width(node))
                           - WiderThan(hashTreeMap, Width(hashTreeMap[node.parent.value]));
        }
        at := node.parent;
      }
      assert done == PeakWalk(hashTreeMap, lastChunkIndex);
    }
  }
}
