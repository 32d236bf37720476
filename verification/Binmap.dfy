/** Binmap.cpp: what a peer has, what it has asked for, and what to ask for next. */
module Binmaps {
  import opened Bytes
  import opened RangeLists

  // -------------------------------------------------------------------------- specification

  /** What IsHaveData answers: outstanding chunks count only once some range is listed. */
  predicate Taken(own: seq<ChunkRange>, requested: set<int>, x: int) {
    exists i :: 0 <= i < |own| && (In(own[i], x) || x in requested)
  }

  lemma TakenSoFar(own: seq<ChunkRange>, requested: set<int>, x: int, i: nat)
    requires i < |own| && !Taken(own[..i], requested, x)
    ensures Taken(own[..i + 1], requested, x) <==> In(own[i], x) || x in requested
    ensures In(own[i], x) || x in requested ==> Taken(own, requested, x)
  {
    forall k | 0 <= k < i ensures !In(own[k], x) && x !in requested {
      assert own[..i][k] == own[k];
    }
    if In(own[i], x) || x in requested {
      assert In(own[..i + 1][i], x) || x in requested;
    }
  }

  /** A chunk that may be asked for from a peer. */
  predicate Wanted(own: seq<ChunkRange>, requested: set<int>, peer: seq<ChunkRange>, x: int) {
    Has(peer, x) && !Taken(own, requested, x)
  }

  /** What GetRequestData returns. With a prefix pointer: the least wanted chunk after it, up to the
      last chunk. Without: the first wanted chunk in the order of the peer's list. */
  ghost predicate IsNextRequest(l: Listed, requested: set<int>, lastChunk: int, peer: seq<ChunkRange>, r: int) {
    if l.cp >= 0 then
      if r == -1 then forall x | l.cp < x <= lastChunk :: !Wanted(l.ranges, requested, peer, x)
      else
        && l.cp < r <= lastChunk && Wanted(l.ranges, requested, peer, r)
        && forall x | l.cp < x < r :: !Wanted(l.ranges, requested, peer, x)
    else
      if r == -1 then forall x: int :: !Wanted(l.ranges, requested, peer, x)
      else
        && !Taken(l.ranges, requested, r)
        && exists i :: 0 <= i < |peer| && In(peer[i], r)
                       && (forall x | peer[i].start <= x < r :: Taken(l.ranges, requested, x))
                       && forall k, x | 0 <= k < i && In(peer[k], x) :: Taken(l.ranges, requested, x)
  }

  /** Chunks 0..last are all listed. */
  predicate Complete(rs: seq<ChunkRange>, last: int) {
    last >= 0 && forall x | 0 <= x <= last :: Has(rs, x)
  }

  /** The file after writing data at an offset; a gap is filled with zeros. */
  function WriteAt(file: bytes, offset: nat, data: bytes): bytes {
    if data == [] then file
    else
      var padded := if |file| < offset then file + Zeros(offset - |file|) else file;
      padded[..offset] + data + (if offset + |data| < |padded| then padded[offset + |data|..] else [])
  }

  /** What SetData and SetLastChunk work on besides the list and the outstanding chunks. */
  datatype Saving = Saving(lastChunk: int, lastChunkSize: nat, logPrintSize: int, file: bytes)

  /** The number of bytes SetData writes. */
  function DataSize(s: Saving, start: nat, end: nat, size: nat): (bytes: nat)
    requires start <= end
    ensures start == end ==> bytes == if end == s.lastChunk then s.lastChunkSize else size
  {
    var count := end - start;
    assert size * (count + 1) == size * count + size && size * count >= 0;
    if end == s.lastChunk then size * (count + 1) - (size - s.lastChunkSize) else size * (count + 1)
  }

  /** SetData; `memory` holds the packet's bytes and whatever lies behind them. */
  function Save(s: Saving, start: nat, end: nat, size: nat, memory: bytes): Saving
    requires start <= end && DataSize(s, start, end, size) <= |memory|
  {
    Saving(s.lastChunk,
           if s.logPrintSize < end && s.logPrintSize == s.lastChunk then 0 else s.lastChunkSize,
           end,
           WriteAt(s.file, start * size, memory[..DataSize(s, start, end, size)]))
  }

  class Binmap {
    var chunkRangeList: seq<ChunkRange>
    var cp: int
    var requestedMap: set<int>
    var lastChunk: int
    var lastChunkSize: nat
    var logPrintSize: int
    var file: bytes

    function List(): Listed
      reads this
    {
      Listed(chunkRangeList, cp)
    }

    function View(): Saving
      reads this
    {
      Saving(lastChunk, lastChunkSize, logPrintSize, file)
    }

    /** logPrintSize is left unset by the constructor of the original. */
    constructor (anyLogPrintSize: int)
      ensures chunkRangeList == [] && cp == -1 && requestedMap == {} && lastChunk == -1 && lastChunkSize == 0 && file == []
    {
      chunkRangeList, cp, requestedMap := [], -1, {};
      lastChunk, lastChunkSize, logPrintSize, file := -1, 0, anyLogPrintSize, [];
    }

    method SetLastChunk(last: int, size: nat)
      modifies this`lastChunk, this`lastChunkSize
      ensures View() == old(View()).(lastChunk := last, lastChunkSize := size)
    {
      lastChunk, lastChunkSize := last, size;
    }

    // ------------------------------------------------------------------------------ SetHave

    method SetHave(start: nat, end: nat)
      modifies this`chunkRangeList, this`cp
      ensures List() == Insert(old(List()), start, end)
    {
      var changed := FindAndGrow(start, end);
      if changed == None {
        return;
      }
      var changeit := changed.value;
      if changeit < |chunkRangeList| && |chunkRangeList| > 1 {
        JoinOther(changeit);
      } else if changeit == |chunkRangeList| {
        chunkRangeList := chunkRangeList + [ChunkRange(start, end)];
      }
    }

    /** The first loop: None when the range is covered already, else the place of the changed range
        or the end of the list. */
    method FindAndGrow(start: nat, end: nat) returns (changed: Option<nat>)
      modifies this`chunkRangeList, this`cp
      ensures var rs, j := old(chunkRangeList), FirstStop(old(chunkRangeList), start, end);
              if j < |rs| && Covers(rs[j], start, end) then changed == None && List() == old(List())
              else
                && changed == Some(j)
                && if j == |rs| then List() == old(List())
                   else var h := Grown(rs[j], start, end);
                        List() == Listed(rs[j := h], if h.start == 0 then h.end else old(cp))
    {
      var it := 0;
      while it < |chunkRangeList|
        invariant 0 <= it <= |chunkRangeList|
        invariant List() == old(List())
        invariant forall i | 0 <= i < it :: !Stops(chunkRangeList[i], start, end)
      {
        var r := chunkRangeList[it];
        if r.start <= start && r.end >= end {
          FirstStopIs(chunkRangeList, start, end, it);
          return None;
        } else if r.start <= start && r.end + 1 >= start && r.end < end {
          FirstStopIs(chunkRangeList, start, end, it);
          chunkRangeList := chunkRangeList[it := r.(end := end)];
          if r.start == 0 {
            cp := end;
          }
          return Some(it);
        } else if r.start > start && r.end >= end && r.start - 1 <= end {
          FirstStopIs(chunkRangeList, start, end, it);
          chunkRangeList := chunkRangeList[it := r.(start := start)];
          if start == 0 {
            cp := r.end;
          }
          return Some(it);
        } else if r.start > start && r.end < end {
          FirstStopIs(chunkRangeList, start, end, it);
          chunkRangeList := chunkRangeList[it := ChunkRange(start, end)];
          if start == 0 {
            cp := end;
          }
          return Some(it);
        }
        it := it + 1;
      }
      FirstStopIs(chunkRangeList, start, end, it);
      return Some(|chunkRangeList|);
    }

    /** The second loop: joins the first range that touches the changed one and erases the latter. */
    method JoinOther(changeit: nat)
      requires changeit < |chunkRangeList|
      modifies this`chunkRangeList, this`cp
      ensures var rs, h := old(chunkRangeList), old(chunkRangeList)[changeit];
              var k := FirstJoin(rs, h);
              if k == |rs| then List() == old(List())
              else
                var r := rs[k];
                var r1 := if JoinsLeft(r, h) then r.(end := h.end) else r;
                var cp1 := if JoinsLeft(r, h) then Raise(old(cp), r1) else old(cp);
                List() == Listed(Without(rs[k := Joined(r, h)], changeit),
                                 if JoinsRight(r1, h) then Raise(cp1, Joined(r, h)) else cp1)
    {
      var it := 0;
      var h := chunkRangeList[changeit];
      while it < |chunkRangeList|
        invariant 0 <= it <= |chunkRangeList|
        invariant List() == old(List())
        invariant forall i | 0 <= i < it :: !Joins(chunkRangeList[i], h)
      {
        var r, set_ := chunkRangeList[it], false;
        if r.end + 1 >= h.start && r.end < h.end {
          r := r.(end := h.end);
          if r.start == 0 && cp < r.end {
            cp := r.end;
          }
          set_ := true;
        }
        if r.start - 1 <= h.end && r.start > h.end {
          r := r.(start := h.start);
          if r.start == 0 && cp < r.end {
            cp := r.end;
          }
          set_ := true;
        }
        if set_ {
          FirstJoinIs(chunkRangeList, h, it);
          chunkRangeList := chunkRangeList[it := r];
          chunkRangeList := chunkRangeList[..changeit] + chunkRangeList[changeit + 1..];
          return;
        }
        it := it + 1;
      }
      FirstJoinIs(chunkRangeList, h, it);
    }

    // ---------------------------------------------------------------------------- scheduling

    method IsHaveData(index: int) returns (have: bool)
      ensures have <==> Taken(chunkRangeList, requestedMap, index)
    {
      var it := 0;
      while it < |chunkRangeList|
        invariant 0 <= it <= |chunkRangeList|
        invariant !Taken(chunkRangeList[..it], requestedMap, index)
      {
        TakenSoFar(chunkRangeList, requestedMap, index, it);
        if (chunkRangeList[it].start <= index && chunkRangeList[it].end >= index) || index in requestedMap {
          return true;
        }
        it := it + 1;
      }
      assert chunkRangeList[..it] == chunkRangeList;
      return false;
    }

    method SetRequested(index: int) returns (added: bool)
      modifies this`requestedMap
      ensures requestedMap == old(requestedMap) + {index} && (added <==> index !in old(requestedMap))
    {
      if index in requestedMap {
        return false;
      }
      requestedMap := requestedMap + {index};
      return true;
    }

    method ReleaseRequested(index: int)
      modifies this`requestedMap
      ensures requestedMap == if index < 0 then old(requestedMap) else old(requestedMap) - {index}
    {
      if index < 0 {
        return;
      }
      requestedMap := requestedMap - {index};
    }

    method GetRequestData(peer: Binmap) returns (index: int)
      requires peer != this
      modifies this`requestedMap
      ensures IsNextRequest(List(), old(requestedMap), lastChunk, peer.chunkRangeList, index)
      ensures index >= -1
      ensures requestedMap == if index >= 0 then old(requestedMap) + {index} else old(requestedMap)
    {
      if cp >= 0 {
        if cp == lastChunk {
          return -1;
        }
        index := AfterPrefix(peer);
      } else {
        index := InPeerOrder(peer);
      }
    }

    method AfterPrefix(peer: Binmap) returns (index: int)
      requires peer != this && cp >= 0
      modifies this`requestedMap
      ensures IsNextRequest(List(), old(requestedMap), lastChunk, peer.chunkRangeList, index)
      ensures index >= -1
      ensures requestedMap == if index >= 0 then old(requestedMap) + {index} else old(requestedMap)
    {
      var idx := cp + 1;
      while idx <= lastChunk
        invariant cp < idx
        invariant requestedMap == old(requestedMap)
        invariant forall x | cp < x < idx :: !Wanted(chunkRangeList, requestedMap, peer.chunkRangeList, x)
        decreases lastChunk - idx
      {
        var have := IsHaveData(idx);
        if !have {
          var found := peer.Lists(idx);
          if found {
            var added := SetRequested(idx);
            return idx;
          }
        }
        idx := idx + 1;
      }
      return -1;
    }

    /** The scan of a peer's list for one chunk. */
    method Lists(idx: int) returns (found: bool)
      ensures found <==> Has(chunkRangeList, idx)
    {
      var it := 0;
      while it < |chunkRangeList|
        invariant 0 <= it <= |chunkRangeList|
        invariant forall i | 0 <= i < it :: !In(chunkRangeList[i], idx)
      {
        if chunkRangeList[it].start <= idx && chunkRangeList[it].end >= idx {
          return true;
        }
        it := it + 1;
      }
      return false;
    }

    method InPeerOrder(peer: Binmap) returns (index: int)
      requires peer != this && cp < 0
      modifies this`requestedMap
      ensures IsNextRequest(List(), old(requestedMap), lastChunk, peer.chunkRangeList, index)
      ensures index >= -1
      ensures requestedMap == if index >= 0 then old(requestedMap) + {index} else old(requestedMap)
    {
      var it := 0;
      while it < |peer.chunkRangeList|
        invariant 0 <= it <= |peer.chunkRangeList|
        invariant requestedMap == old(requestedMap)
        invariant forall k, x | 0 <= k < it && In(peer.chunkRangeList[k], x) :: Taken(chunkRangeList, requestedMap, x)
      {
        var r := peer.chunkRangeList[it];
        var i := r.start;
        while i <= r.end
          invariant r.start <= i
          invariant requestedMap == old(requestedMap)
          invariant forall x | r.start <= x < i :: Taken(chunkRangeList, requestedMap, x)
          decreases r.end - i
        {
          var have := IsHaveData(i);
          if !have {
            var added := SetRequested(i);
            assert In(peer.chunkRangeList[it], i);
            return i;
          }
          i := i + 1;
        }
        it := it + 1;
      }
      return -1;
    }

    // ------------------------------------------------------------------------------- finish

    /** Merges ranges into [start, end] until a pass changes nothing. */
    method CheckFinish() returns (finished: bool)
      ensures WellFormed(chunkRangeList) && Within(chunkRangeList, lastChunk) ==>
                (finished <==> Complete(chunkRangeList, lastChunk))
    {
      var start, end, tmp := -1, -1, chunkRangeList;
      ghost var ok := WellFormed(chunkRangeList) && Within(chunkRangeList, lastChunk);
      while true
        invariant ok ==> Merging(chunkRangeList, tmp, start, end)
        invariant start < 0 ==> tmp == chunkRangeList
        decreases |tmp|
      {
        var bfcnt := |tmp|;
        start, end, tmp := MergePass(start, end, tmp, chunkRangeList);
        if |tmp| <= 0 {
          break;
        }
        if bfcnt == |tmp| {
          break;
        }
      }
      finished := start == 0 && end == lastChunk;
      if ok {
        MergedIsComplete(chunkRangeList, tmp, start, end, lastChunk);
      }
    }

    // ------------------------------------------------------------------------------ SetData

    /** Records and writes verified data; the file is open. The original does not know where the
        packet's bytes end: it reads as many bytes as it takes the data to have. */
    method SetData(start: nat, end: nat, size: nat, memory: bytes) returns (ret: int)
      requires start <= end && DataSize(View(), start, end, size) <= |memory|
      modifies this
      ensures List() == Insert(old(List()), start, end)
      ensures forall x: int :: x in requestedMap <==> x in old(requestedMap) && !(start <= x <= end)
      ensures ret == DataSize(old(View()), start, end, size)
      ensures View() == Save(old(View()), start, end, size, memory)
      ensures end <= lastChunk ==> lastChunkSize == old(lastChunkSize)
    {
      SetHave(start, end);
      var i := start;
      while i <= end
        invariant start <= i <= end + 1
        invariant View() == old(View())
        invariant forall x: int :: x in requestedMap <==> x in old(requestedMap) && !(start <= x < i)
        modifies this`requestedMap
        decreases end - i
      {
        ReleaseRequested(i);
        i := i + 1;
      }
      var datasize := size * (end - start + 1);
      if end == lastChunk {
        datasize := datasize - (size - lastChunkSize);
      }
      file := WriteAt(file, start * size, memory[..datasize]);
      ret := datasize;
      if logPrintSize < end {
        if logPrintSize == lastChunk {
          lastChunkSize := 0;
        }
      }
      logPrintSize := end;
    }
  }

  predicate Within(rs: seq<ChunkRange>, last: int) {
    forall i | 0 <= i < |rs| :: rs[i].end <= last
  }

  /** The three cases in which a range is merged into [start, end]. */
  predicate Extends(r: ChunkRange, start: int, end: int) {
    || (r.start < start && r.end <= end && r.end >= start - 1)
    || (r.start >= start && r.end > end && r.start <= end + 1)
    || (r.start <= start && r.end >= end)
  }

  /** Everything listed is in [start, end] or still to do, and [start, end] is listed. */
  ghost predicate Merging(rs: seq<ChunkRange>, tmp: seq<ChunkRange>, start: int, end: int) {
    && WellFormed(tmp)
    && (forall x: int | Has(tmp, x) :: Has(rs, x))
    && (start >= 0 ==> start <= end && forall x: int | start <= x <= end :: Has(rs, x))
    && (forall x: int | Has(rs, x) :: Has(tmp, x) || (start >= 0 && start <= x <= end))
  }

  /** One pass over the temporary list. */
  method MergePass(start0: int, end0: int, tmp0: seq<ChunkRange>, ghost rs: seq<ChunkRange>)
    returns (start: int, end: int, tmp: seq<ChunkRange>)
    ensures Merging(rs, tmp0, start0, end0) ==> Merging(rs, tmp, start, end)
    ensures |tmp| <= |tmp0| && (start < 0 ==> start0 < 0 && tmp == tmp0 == [])
    ensures |tmp| == |tmp0| ==> forall i | 0 <= i < |tmp| :: !Extends(tmp[i], start, end)
  {
    start, end, tmp := start0, end0, tmp0;
    ghost var ok := Merging(rs, tmp0, start0, end0);
    var it := 0;
    while it < |tmp|
      invariant 0 <= it <= |tmp| <= |tmp0|
      invariant start < 0 ==> start0 < 0 && tmp == tmp0 && it == 0
      invariant ok ==> Merging(rs, tmp, start, end)
      invariant |tmp| == |tmp0| ==> forall i | 0 <= i < it :: !Extends(tmp[i], start, end)
      decreases |tmp| - it
    {
      var r := tmp[it];
      if start < 0 {
        if ok { MergeStep(rs, tmp, it, start, end, r.start, r.end); }
        start, end := r.start, r.end;
        tmp := tmp[..it] + tmp[it + 1..];
        continue;
      } else {
        if r.start < start && r.end <= end && r.end >= start - 1 {
          if ok { MergeStep(rs, tmp, it, start, end, r.start, end); }
          start := r.start;
          tmp := tmp[..it] + tmp[it + 1..];
          continue;
        }
        if r.start >= start && r.end > end && r.start <= end + 1 {
          if ok { MergeStep(rs, tmp, it, start, end, start, r.end); }
          end := r.end;
          tmp := tmp[..it] + tmp[it + 1..];
          continue;
        }
        if r.start <= start && r.end >= end {
          if ok { MergeStep(rs, tmp, it, start, end, r.start, r.end); }
          start, end := r.start, r.end;
          tmp := tmp[..it] + tmp[it + 1..];
          continue;
        }
      }
      it := it + 1;
    }
  }

  /** Taking a range out of the list and spanning both keeps the merging invariant. */
  lemma MergeStep(rs: seq<ChunkRange>, tmp: seq<ChunkRange>, i: nat, start: int, end: int, start': int, end': int)
    requires i < |tmp| && Merging(rs, tmp, start, end)
    requires start' >= 0 && start' <= end'
    requires forall x: int | start' <= x <= end' :: In(tmp[i], x) || (start >= 0 && start <= x <= end)
    requires forall x: int | In(tmp[i], x) || (start >= 0 && start <= x <= end) :: start' <= x <= end'
    ensures Merging(rs, tmp[..i] + tmp[i + 1..], start', end')
  {
    hide Has;
    var w := tmp[..i] + tmp[i + 1..];
    assert w == Without(tmp, i);
    forall x: int
      ensures Has(w, x) ==> Has(tmp, x)
      ensures Has(tmp, x) ==> Has(w, x) || In(tmp[i], x)
      ensures In(tmp[i], x) ==> Has(tmp, x)
    {
      HasWithout(tmp, i, x);
    }
    forall k | 0 <= k < |w| ensures w[k].start <= w[k].end {
      assert w[k] == tmp[if k < i then k else k + 1];
    }
  }

  /** When no range can be merged any more, the span is complete exactly if the list is. */
  lemma MergedIsComplete(rs: seq<ChunkRange>, tmp: seq<ChunkRange>, start: int, end: int, last: int)
    requires Merging(rs, tmp, start, end) && Within(rs, last)
    requires start < 0 ==> rs == []
    requires forall i | 0 <= i < |tmp| :: !Extends(tmp[i], start, end)
    ensures start == 0 && end == last <==> Complete(rs, last)
  {
    if Complete(rs, last) {
      assert Has(rs, 0) && Has(rs, last);
      if start >= 0 {
        assert Has(rs, end);
        assert end <= last by {
          var i :| 0 <= i < |rs| && In(rs[i], end);
        }
        assert Has(rs, if start > 0 then start - 1 else 0);
        assert Has(rs, if end < last then end + 1 else last);
      }
    }
  }

  lemma FirstStopIs(rs: seq<ChunkRange>, a: nat, b: nat, j: nat)
    requires j <= |rs| && (j < |rs| ==> Stops(rs[j], a, b))
    requires forall i | 0 <= i < j :: !Stops(rs[i], a, b)
    ensures FirstStop(rs, a, b) == j
  {
  }

  lemma FirstJoinIs(rs: seq<ChunkRange>, h: ChunkRange, j: nat)
    requires j <= |rs| && (j < |rs| ==> Joins(rs[j], h))
    requires forall i | 0 <= i < j :: !Joins(rs[i], h)
    ensures FirstJoin(rs, h) == j
  {
  }
}
