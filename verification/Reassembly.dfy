/** The file that comes out of a download: runs of SetLastChunk and SetData on verified chunks, and the
    calls that ReceiveData makes. */
module Reassembly {
  import opened Bytes
  import opened Dyadic
  import opened Merkle
  import opened Verification
  import opened Sender
  import opened Completeness
  import opened FirstData
  import opened FirstContact
  import opened Binmaps
  import opened Sizes

  // ------------------------------------------------------------------------------ runs of calls

  /** SetLastChunk, or SetData for chunk k; `beyond` is what follows the chunk's bytes in memory. */
  datatype Call =
    | SetLast(last: int, len: nat)
    | Store(chunk: nat, beyond: bytes)

  /** The calls are made with the right last chunk and with chunks of the content. The memory behind a
      short chunk is there to be read. */
  predicate Right(content: bytes, size: nat, e: Call)
    requires size > 0 && content != []
  {
    var chunks := Split(content, size);
    match e
    case SetLast(last, len) => last == |chunks| - 1 && last >= 0 && len == |chunks[last]|
    case Store(k, beyond) => k < |chunks| && |beyond| >= size
  }

  predicate AllRight(content: bytes, size: nat, es: seq<Call>)
    requires size > 0 && content != []
  {
    forall i | 0 <= i < |es| :: Right(content, size, es[i])
  }

  /** One call; what the original does when memory ends too early is undefined, and left out. */
  function Apply(s: Saving, content: bytes, size: nat, e: Call): Saving
    requires size > 0
  {
    var chunks := Split(content, size);
    match e
    case SetLast(last, len) => s.(lastChunk := last, lastChunkSize := len)
    case Store(k, beyond) =>
      if k < |chunks| && DataSize(s, k, k, size) <= |chunks[k] + beyond| then Save(s, k, k, size, chunks[k] + beyond)
      else s
  }

  /** A new Binmap; its logPrintSize is not initialised. */
  function NewSaving(anyLog: int): Saving {
    Saving(-1, 0, anyLog, [])
  }

  function ApplyAll(anyLog: int, content: bytes, size: nat, es: seq<Call>): Saving
    requires size > 0
  {
    if es == [] then NewSaving(anyLog)
    else Apply(ApplyAll(anyLog, content, size, es[..|es| - 1]), content, size, es[|es| - 1])
  }

  /** The last chunk is known after these calls. */
  predicate LastKnown(es: seq<Call>) {
    exists i :: 0 <= i < |es| && es[i].SetLast?
  }

  /** Chunk k has been stored by these calls. */
  predicate StoredIn(es: seq<Call>, k: nat) {
    exists i :: 0 <= i < |es| && es[i].Store? && es[i].chunk == k
  }

  /** The last chunk is stored before it is known to be the last one. */
  predicate TooEarly(es: seq<Call>, last: nat) {
    exists i :: 0 <= i < |es| && es[i].Store? && es[i].chunk == last && !LastKnown(es[..i])
  }

  lemma OneMoreCall(es: seq<Call>, last: nat)
    requires es != []
    ensures var init, e := es[..|es| - 1], es[|es| - 1];
            && (LastKnown(es) <==> LastKnown(init) || e.SetLast?)
            && (forall k: nat :: StoredIn(es, k) <==> StoredIn(init, k) || (e.Store? && e.chunk == k))
            && (TooEarly(es, last) <==> TooEarly(init, last) || (e.Store? && e.chunk == last && !LastKnown(init)))
  {
    var init, e := es[..|es| - 1], es[|es| - 1];
    forall i | 0 <= i < |init| ensures es[i] == init[i] && es[..i] == init[..i] {
    }
    if i :| 0 <= i < |init| && init[i].SetLast? { assert es[i].SetLast?; }
    if e.SetLast? { assert es[|es| - 1].SetLast?; }
    forall k: nat ensures StoredIn(es, k) <==> StoredIn(init, k) || (e.Store? && e.chunk == k) {
      if i :| 0 <= i < |init| && init[i].Store? && init[i].chunk == k { assert es[i].chunk == k; }
      if e.Store? && e.chunk == k { assert es[|es| - 1].chunk == k; }
    }
    if i :| 0 <= i < |init| && init[i].Store? && init[i].chunk == last && !LastKnown(init[..i]) {
      assert es[i].chunk == last;
    }
    if e.Store? && e.chunk == last && !LastKnown(init) { assert es[|es| - 1].chunk == last; }
  }

  /** The last chunk and its size are either both unknown or both right. */
  lemma {:induction false} LastIsRight(anyLog: int, content: bytes, size: nat, es: seq<Call>)
    requires size > 0 && content != [] && AllRight(content, size, es)
    ensures var s, chunks := ApplyAll(anyLog, content, size, es), Split(content, size);
            && |chunks| >= 1
            && s.lastChunk == (if LastKnown(es) then |chunks| - 1 else -1)
            && s.lastChunkSize == (if LastKnown(es) then |chunks[|chunks| - 1]| else 0)
    decreases |es|
  {
    hide Split, WriteAt, LastKnown, StoredIn, TooEarly;
    SplitLength(content, size);
    if es != [] {
      OneMoreCall(es, 0);
      assert Right(content, size, es[|es| - 1]);
      LastIsRight(anyLog, content, size, es[..|es| - 1]);
    } else {
      assert !LastKnown(es) by { NoCall(); }
    }
  }

  lemma NoCall()
    ensures !LastKnown([]) && forall last: nat :: !TooEarly([], last) && !StoredIn([], last)
  {
  }

  predicate RightAt(file: bytes, content: bytes, p: nat) {
    p < |file| && p < |content| && file[p] == content[p]
  }

  /** A genuine slice written at its place, perhaps with more behind the end of the content, makes its
      bytes right and no right byte wrong. */
  lemma WriteKeeps(file: bytes, content: bytes, offset: nat, data: bytes, p: nat)
    requires forall q | offset <= q < offset + |data| && q < |content| :: data[q - offset] == content[q]
    ensures |WriteAt(file, offset, data)|
         == if data == [] || offset + |data| <= |file| then |file| else offset + |data|
    ensures RightAt(file, content, p) ==> RightAt(WriteAt(file, offset, data), content, p)
    ensures offset <= p < offset + |data| && p < |content| ==> RightAt(WriteAt(file, offset, data), content, p)
  {
  }

  /** Each byte of a file after a write: the data, what was there before, or zero in a gap. */
  lemma WriteAtBytes(file: bytes, offset: nat, data: bytes, p: nat)
    ensures var w := WriteAt(file, offset, data);
            && |w| == (if data == [] || |file| > offset + |data| then |file| else offset + |data|)
            && (p < |w| ==> w[p] == if offset <= p < offset + |data| then data[p - offset]
                                    else if p < |file| then file[p] else 0)
  {
  }

  /** With the last chunk known, a range of chunks is taken to have its length in the content. */
  lemma RangeLength(content: bytes, size: nat, s: Saving, start: nat, end: nat)
    requires size > 0 && content != [] && start <= end < |Split(content, size)|
    requires var chunks := Split(content, size); s.lastChunk == |chunks| - 1 && s.lastChunkSize == |chunks[|chunks| - 1]|
    ensures start * size + DataSize(s, start, end, size)
         == if end == |Split(content, size)| - 1 then |content| else (end + 1) * size
  {
    hide Split;
    SplitLength(content, size);
    var count := end - start;
    assert (start + count + 1) * size == start * size + count * size + size by { Distribute(size, start, count); }
    Swap(size, count);
    Swap(size, count + 1);
    Swap(size, end);
    Distribute(size, 0, count);
    OneMoreChunk(size, end);
  }

  lemma Distribute(size: nat, a: nat, b: nat)
    ensures (a + b + 1) * size == a * size + b * size + size
    ensures (a + b) * size == a * size + b * size
  {
  }

  /** Two calls of SetData, one after the other: the size of the last chunk is forgotten by the second
      exactly if the first ended with the last chunk and the second ends behind it; from then on a call
      for the last chunk writes nothing. */
  lemma LastForgotten(s: Saving, a: nat, b: nat, c: nat, d: nat, size: nat, memory: bytes, memory': bytes)
    requires a <= b && DataSize(s, a, b, size) <= |memory|
    requires c <= d && DataSize(Save(s, a, b, size, memory), c, d, size) <= |memory'|
    ensures var t := Save(s, a, b, size, memory);
            var u := Save(t, c, d, size, memory');
            && u.lastChunk == s.lastChunk
            && u.lastChunkSize == (if b == s.lastChunk && b < d then 0 else t.lastChunkSize)
            && (b == s.lastChunk && b < d ==> DataSize(u, b, b, size) == 0)
  {
    hide WriteAt;
  }

  /** What one call of SetData writes. */
  function Piece(s: Saving, content: bytes, size: nat, k: nat, beyond: bytes): bytes
    requires size > 0 && k < |Split(content, size)| && DataSize(s, k, k, size) <= |Split(content, size)[k] + beyond|
  {
    (Split(content, size)[k] + beyond)[..DataSize(s, k, k, size)]
  }

  /** SetData writes the chunk and nothing more, unless the last chunk is short and not known yet. */
  lemma PieceFacts(content: bytes, size: nat, s: Saving, k: nat, beyond: bytes)
    requires size > 0 && content != [] && k < |Split(content, size)| && |beyond| >= size
    requires var chunks := Split(content, size);
             || (s.lastChunk == -1 && s.lastChunkSize == 0)
             || (s.lastChunk == |chunks| - 1 && s.lastChunkSize == |chunks[|chunks| - 1]|)
    ensures var chunks := Split(content, size);
            && DataSize(s, k, k, size) <= |chunks[k] + beyond|
            && var piece := Piece(s, content, size, k, beyond);
               && piece != [] && |piece| >= |chunks[k]|
               && (piece == chunks[k] <==> k < |chunks| - 1 || s.lastChunk >= 0 || |chunks[k]| == size)
               && k * size + |chunks[k]| <= |content|
               && (k == |chunks| - 1 ==> k * size + |chunks[k]| == |content|)
               && (k == |chunks| - 1 && s.lastChunk < 0 ==> |piece| == size)
               && forall q | k * size <= q < k * size + |piece| && q < |content| :: piece[q - k * size] == content[q]
  {
    hide Split;
    var chunks := Split(content, size);
    SplitLength(content, size);
    SplitSlice(content, size, k);
    Swap(size, k);
    var chunk, d, end := chunks[k], DataSize(s, k, k, size), k * size;
    var piece := Piece(s, content, size, k, beyond);
    assert piece == chunk + beyond[..d - |chunk|];
    forall q | end <= q < end + |piece| && q < |content| ensures piece[q - end] == content[q] {
      assert q < end + |chunk|;
      assert piece[q - end] == chunk[q - end] == content[end..end + |chunk|][q - end];
    }
  }

  lemma Swap(a: nat, b: nat)
    ensures a * b == b * a
  {
  }

  /** The bytes of stored chunks are right; the file is too long exactly if a short last chunk was
      stored too early. */
  lemma {:induction false} StoredIsRight(anyLog: int, content: bytes, size: nat, es: seq<Call>, k: nat, p: nat)
    requires size > 0 && content != [] && AllRight(content, size, es)
    requires k < |Split(content, size)| && k * size <= p < k * size + |Split(content, size)[k]|
    ensures StoredIn(es, k) ==> RightAt(ApplyAll(anyLog, content, size, es).file, content, p)
    ensures var last, file := |Split(content, size)| - 1, ApplyAll(anyLog, content, size, es).file;
            if TooEarly(es, last) then |file| == last * size + size else |file| <= |content|
    decreases |es|
  {
    hide Split, WriteAt, LastKnown, StoredIn, TooEarly, RightAt, DataSize;
    var chunks := Split(content, size);
    SplitLength(content, size);
    NoCall();
    Swap(size, |chunks| - 1);
    if es != [] {
      var init, e := es[..|es| - 1], es[|es| - 1];
      assert Right(content, size, e);
      OneMoreCall(es, |chunks| - 1);
      LastIsRight(anyLog, content, size, init);
      StoredIsRight(anyLog, content, size, init, k, p);
      if e.Store? {
        StoreStep(content, size, ApplyAll(anyLog, content, size, init), e, p);
      }
    }
  }

  /** One call of SetData: right bytes stay right, those of the chunk become right, and the file gets too
      long only if this is the last chunk and not known to be. */
  lemma StoreStep(content: bytes, size: nat, s: Saving, e: Call, p: nat)
    requires size > 0 && content != [] && e.Store? && Right(content, size, e)
    requires var chunks := Split(content, size);
             || (s.lastChunk == -1 && s.lastChunkSize == 0)
             || (s.lastChunk == |chunks| - 1 && s.lastChunkSize == |chunks[|chunks| - 1]|)
    requires |s.file| <= |content| || |s.file| == (|Split(content, size)| - 1) * size + size
    ensures var file, k := Apply(s, content, size, e).file, e.chunk;
            && (RightAt(s.file, content, p) ==> RightAt(file, content, p))
            && (k * size <= p < k * size + |Split(content, size)[k]| ==> RightAt(file, content, p))
    ensures var file, last := Apply(s, content, size, e).file, |Split(content, size)| - 1;
            var full := last * size + size;
            if (e.chunk == last && s.lastChunk < 0) || |s.file| == full then |file| == full else |file| <= |content|
  {
    hide Split, WriteAt, RightAt, DataSize;
    var k, last := e.chunk, |Split(content, size)| - 1;
    SplitLength(content, size);
    Swap(size, last);
    PieceFacts(content, size, s, k, e.beyond);
    WriteKeeps(s.file, content, k * size, Piece(s, content, size, k, e.beyond), p);
    InOrder(size, k, last);
  }

  lemma Regroup(size: nat, k: nat, more: nat)
    ensures (k + 1 + more) * size == k * size + size + more * size
    ensures more * size >= 0
  {
  }

  lemma InOrder(size: nat, k: nat, last: nat)
    ensures k < last ==> k * size + size <= last * size
  {
    if k < last {
      Regroup(size, k, last - k - 1);
    }
  }

  /** Every byte belongs to a chunk. */
  lemma {:induction false} ChunkOfByte(content: bytes, size: nat, p: nat) returns (k: nat)
    requires size > 0 && p < |content|
    ensures k < |Split(content, size)| && k * size <= p < k * size + |Split(content, size)[k]|
    decreases |content|
  {
    if |content| <= size || p < size {
      k := 0;
    } else {
      var tail := content[size..];
      var j := ChunkOfByte(tail, size, p - size);
      k := j + 1;
      assert Split(content, size)[k] == Split(tail, size)[j];
      assert k * size == j * size + size;
    }
  }

  /** Reassembly. Once every chunk has been stored, in any order and with any repetitions, the file
      begins with the content. It is the content exactly if the last chunk is full or was known before it
      was first stored; otherwise bytes from behind the packet follow it. */
  lemma FileIsContent(anyLog: int, content: bytes, size: nat, es: seq<Call>)
    requires size > 0 && content != [] && AllRight(content, size, es)
    requires forall k: nat | k < |Split(content, size)| :: StoredIn(es, k)
    ensures var chunks, file := Split(content, size), ApplyAll(anyLog, content, size, es).file;
            && |chunks| >= 1 && |content| <= |file| && file[..|content|] == content
            && (file == content <==> |chunks[|chunks| - 1]| == size || !TooEarly(es, |chunks| - 1))
            && (file != content ==> |file| == size * |chunks|)
  {
    hide ApplyAll, Split, AllRight, RightAt, StoredIn, TooEarly;
    var chunks, file := Split(content, size), ApplyAll(anyLog, content, size, es).file;
    SplitLength(content, size);
    forall p: nat | p < |content| ensures RightAt(file, content, p) {
      var k := ChunkOfByte(content, size, p);
      StoredIsRight(anyLog, content, size, es, k, p);
    }
    var k := ChunkOfByte(content, size, 0);
    StoredIsRight(anyLog, content, size, es, k, 0);
    Swap(size, |chunks| - 1);
    OneMoreChunk(size, |chunks| - 1);
    RightEverywhere(file, content);
  }

  lemma RightEverywhere(file: bytes, content: bytes)
    requires content != [] && forall p: nat | p < |content| :: RightAt(file, content, p)
    ensures |content| <= |file| && file[..|content|] == content
    ensures |file| == |content| ==> file == content
  {
    assert RightAt(file, content, |content| - 1);
    forall p: nat | p < |content| ensures file[p] == content[p] {
      assert RightAt(file, content, p);
    }
    if |file| == |content| {
      assert file[..|content|] == file;
    }
  }

  lemma SplitOfThree()
    ensures Split([1, 2, 3], 2) == [[1, 2], [3]]
  {
    var content: bytes := [1, 2, 3];
    assert content[..2] == [1, 2] && content[2..] == [3];
    assert Split(content[2..], 2) == [[3]];
  }

  /** Three bytes in chunks of two: the short last chunk is stored first, and again when it is known. */
  lemma ShortLastChunkFirst(anyLog: int)
    ensures var calls := [Store(1, [9, 9]), SetLast(1, 1), Store(1, [9, 9]), Store(0, [9, 9])];
            && AllRight([1, 2, 3], 2, calls)
            && ApplyAll(anyLog, [1, 2, 3], 2, calls).file == [1, 2, 3, 9]
  {
    hide Split;
    var content: bytes := [1, 2, 3];
    SplitOfThree();
    var a, b, c, d := Store(1, [9, 9]), SetLast(1, 1), Store(1, [9, 9]), Store(0, [9, 9]);
    var s1 := Apply(NewSaving(anyLog), content, 2, a);
    assert ([3] + [9, 9])[..2] == [3, 9];
    assert s1.file == [0, 0, 3, 9];
    var s2 := Apply(s1, content, 2, b);
    var s3 := Apply(s2, content, 2, c);
    assert ([3] + [9, 9])[..1] == [3];
    assert s3.file == [0, 0, 3, 9];
    assert ([1, 2] + [9, 9])[..2] == [1, 2];
    assert Apply(s3, content, 2, d).file == [1, 2, 3, 9];
    FourCalls(anyLog, content, 2, a, b, c, d);
  }

  lemma FourCalls(anyLog: int, content: bytes, size: nat, a: Call, b: Call, c: Call, d: Call)
    requires size > 0
    ensures ApplyAll(anyLog, content, size, [a, b, c, d])
         == Apply(Apply(Apply(Apply(NewSaving(anyLog), content, size, a), content, size, b), content, size, c),
                  content, size, d)
  {
    hide Apply;
    assert [a, b, c, d][..3] == [a, b, c] && [a, b, c][..2] == [a, b] && [a, b][..1] == [a] && [a][..0] == [];
    assert ApplyAll(anyLog, content, size, [a]) == Apply(NewSaving(anyLog), content, size, a);
    assert ApplyAll(anyLog, content, size, [a, b])
        == Apply(Apply(NewSaving(anyLog), content, size, a), content, size, b);
    assert ApplyAll(anyLog, content, size, [a, b, c])
        == Apply(ApplyAll(anyLog, content, size, [a, b]), content, size, c);
  }

  // ----------------------------------------------------------------- the calls of ReceiveData

  /** The session, and the calls ReceiveData has made on the Binmap. */
  datatype Progress = Progress(s: Session, calls: seq<Call>)

  /** An event, and what lies behind the packet in memory if it is one. */
  datatype Arrival = Arrival(event: Event, beyond: bytes)

  ghost predicate Accepted(hs: Hasher, size: nat, chunks: seq<bytes>, s: Session, e: Event)
    requires |chunks| >= 1
  {
    e.Packet? && CheckData(hs, size, RootDigest(hs, chunks), s.v, e.channel, e.data).0
  }

  /** A packet that passes the check is stored. The last chunk is announced first, once the tree knows the
      content size and the Binmap does not. */
  ghost function Receive(hs: Hasher, anyLog: int, content: bytes, size: nat, t: Progress, a: Arrival): Progress
    requires size > 0 && |Split(content, size)| >= 1
  {
    var chunks := Split(content, size);
    var after := Step(hs, size, chunks, t.s, a.event);
    if Accepted(hs, size, chunks, t.s, a.event) then
      Progress(after,
               t.calls
               + (if after.v.contentSize > 0 && ApplyAll(anyLog, content, size, t.calls).lastChunkSize <= 0
                  then [SetLast(after.v.chunkRange, after.v.lastChunkSize)] else [])
               + [Store(a.event.data.startChunk, a.beyond)])
    else Progress(after, t.calls)
  }

  ghost function ReceiveAll(hs: Hasher, anyLog: int, content: bytes, size: nat, t: Progress, arrivals: seq<Arrival>): Progress
    requires size > 0 && |Split(content, size)| >= 1
  {
    if arrivals == [] then t
    else
      Receive(hs, anyLog, content, size, ReceiveAll(hs, anyLog, content, size, t, arrivals[..|arrivals| - 1]),
              arrivals[|arrivals| - 1])
  }

  /** The packet carries a chunk of the source. */
  predicate Sourced(content: bytes, size: nat, a: Arrival)
    requires size > 0
  {
    var chunks := Split(content, size);
    && |a.beyond| >= size
    && (a.event.Packet? ==> a.event.data.startChunk < |chunks| && a.event.data.buffer == Some(chunks[a.event.data.startChunk]))
  }

  /** Every packet that passes the check carries a chunk of the source. */
  ghost predicate AllSourced(hs: Hasher, anyLog: int, content: bytes, size: nat, t: Progress, arrivals: seq<Arrival>)
    requires size > 0 && |Split(content, size)| >= 1
  {
    forall i | 0 <= i < |arrivals| ::
      Accepted(hs, size, Split(content, size), ReceiveAll(hs, anyLog, content, size, t, arrivals[..i]).s, arrivals[i].event)
      ==> Sourced(content, size, arrivals[i])
  }

  /** What every arrival keeps. */
  ghost predicate Consistent(hs: Hasher, content: bytes, size: nat, t: Progress, first: nat)
    requires size > 0 && content != [] && |Split(content, size)| >= 2
  {
    var chunks := Split(content, size);
    var last := |chunks| - 1;
    && Honest(hs, chunks, t.s) && AllRight(content, size, t.calls)
    && (LastKnown(t.calls) <==> t.s.v.contentSize > 0)
    && t.s.v.lastChunkSize == (if t.s.v.contentSize > 0 then |chunks[last]| else 0)
    && (TooEarly(t.calls, last) <==> first == last)
  }

  lemma OtherEvents(hs: Hasher, size: nat, chunks: seq<bytes>, s: Session, e: Event)
    requires |chunks| >= 2 && Honest(hs, chunks, s) && !Accepted(hs, size, chunks, s, e)
    ensures var v := Step(hs, size, chunks, s, e).v;
            v.contentSize == s.v.contentSize && v.lastChunkSize == s.v.lastChunkSize
  {
    hide ClimbKnown, UsedKnown, MadeTree, RootDigest, Genuine, Sending;
  }

  lemma AcceptedSizes(hs: Hasher, size: nat, chunks: seq<bytes>, s: Session, e: Event)
    requires |chunks| >= 2 && Honest(hs, chunks, s) && Accepted(hs, size, chunks, s, e) && e.data.buffer.Some?
    ensures var v, i, len := Step(hs, size, chunks, s, e).v, e.data.startChunk, |e.data.buffer.value|;
            if s.v.contentSize <= 0 && s.v.lastChunkSize <= 0 && i == |chunks| - 1
            then v.contentSize == size * (|chunks| - 1) + len && v.lastChunkSize == len
            else v.contentSize == s.v.contentSize && v.lastChunkSize == s.v.lastChunkSize
  {
    hide ClimbKnown, UsedKnown, RootDigest, Genuine;
  }

  lemma AppendCall(content: bytes, size: nat, calls: seq<Call>, e: Call, last: nat)
    requires size > 0 && content != [] && AllRight(content, size, calls) && Right(content, size, e)
    ensures AllRight(content, size, calls + [e])
    ensures LastKnown(calls + [e]) <==> LastKnown(calls) || e.SetLast?
    ensures TooEarly(calls + [e], last) <==> TooEarly(calls, last) || (e.Store? && e.chunk == last && !LastKnown(calls))
    ensures forall k: nat :: StoredIn(calls + [e], k) <==> StoredIn(calls, k) || (e.Store? && e.chunk == k)
  {
    hide Right, LastKnown, TooEarly, StoredIn;
    assert (calls + [e])[..|calls|] == calls;
    OneMoreCall(calls + [e], last);
  }

  lemma ReceiveKeeps(hs: Hasher, anyLog: int, content: bytes, size: nat, t: Progress, first: nat, a: Arrival)
    requires size > 0 && content != [] && |Split(content, size)| >= 2
    requires Consistent(hs, content, size, t, first)
    requires Accepted(hs, size, Split(content, size), t.s, a.event) ==> Sourced(content, size, a)
    ensures Consistent(hs, content, size, Receive(hs, anyLog, content, size, t, a), first)
  {
    hide Split, Honest, Step, Accepted, AllRight, LastKnown, TooEarly, StoredIn;
    var chunks := Split(content, size);
    var last := |chunks| - 1;
    SplitLength(content, size);
    StepKeeps(hs, size, chunks, t.s, a.event);
    var after := Step(hs, size, chunks, t.s, a.event);
    assert after.v.chunkRange == last by { SizesOfHonest(hs, chunks, after); }
    if Accepted(hs, size, chunks, t.s, a.event) {
      PacketOf(hs, size, chunks, t.s, a.event);
      AcceptedSizes(hs, size, chunks, t.s, a.event);
      LastIsRight(anyLog, content, size, t.calls);
      var store := Store(a.event.data.startChunk, a.beyond);
      AppendCall(content, size, t.calls, store, last);
      if after.v.contentSize > 0 {
        var set_ := SetLast(last, after.v.lastChunkSize);
        AppendCall(content, size, t.calls, set_, last);
        AppendCall(content, size, t.calls + [set_], store, last);
      }
      assert t.calls + [] == t.calls;
    } else {
      OtherEvents(hs, size, chunks, t.s, a.event);
    }
  }

  lemma PacketOf(hs: Hasher, size: nat, chunks: seq<bytes>, s: Session, e: Event)
    requires |chunks| >= 1 && Accepted(hs, size, chunks, s, e)
    ensures e.Packet? && e.data.buffer.Some?
  {
  }

  lemma SizesOfHonest(hs: Hasher, chunks: seq<bytes>, s: Session)
    requires |chunks| >= 1 && Honest(hs, chunks, s)
    ensures s.v.chunkRange == |chunks| - 1
  {
  }

  lemma {:induction false} ReceiveAllKeeps(hs: Hasher, anyLog: int, content: bytes, size: nat, t: Progress, first: nat,
                                           arrivals: seq<Arrival>)
    requires size > 0 && content != [] && |Split(content, size)| >= 2
    requires Consistent(hs, content, size, t, first) && AllSourced(hs, anyLog, content, size, t, arrivals)
    ensures Consistent(hs, content, size, ReceiveAll(hs, anyLog, content, size, t, arrivals), first)
    decreases |arrivals|
  {
    hide Split, Consistent, Accepted, Sourced, Receive;
    if arrivals != [] {
      var init := arrivals[..|arrivals| - 1];
      assert AllSourced(hs, anyLog, content, size, t, init) by {
        forall i | 0 <= i < |init| ensures init[..i] == arrivals[..i] && init[i] == arrivals[i] {
        }
      }
      ReceiveAllKeeps(hs, anyLog, content, size, t, first, init);
      ReceiveKeeps(hs, anyLog, content, size, ReceiveAll(hs, anyLog, content, size, t, init), first,
                   arrivals[|arrivals| - 1]);
    }
  }

  /** A whole download. After a first contact that worked with chunk `first`, let anything happen, as long
      as the packets accepted carry chunks of the source, until every chunk has been stored. Then the
      file begins with the content, and it is the content if and only if the first chunk was not the
      last one of the content, or that one is full. */
  lemma DownloadedFile(hs: Hasher, anyLog: int, content: bytes, size: nat, c: int, first: nat, beyond: bytes,
                       v: Verifier, arrivals: seq<Arrival>)
    requires size > 0 && content != [] && |Split(content, size)| >= 2
    requires first < |Split(content, size)| && |beyond| >= size
    requires SizeLearnt(hs, Split(content, size), c, first, v)
    requires var t := AfterFirst(hs, content, size, c, first, beyond, v);
             && AllSourced(hs, anyLog, content, size, t, arrivals)
             && forall k: nat | k < |Split(content, size)| ::
                  StoredIn(ReceiveAll(hs, anyLog, content, size, t, arrivals).calls, k)
    ensures var t := AfterFirst(hs, content, size, c, first, beyond, v);
            var file := ApplyAll(anyLog, content, size, ReceiveAll(hs, anyLog, content, size, t, arrivals).calls).file;
            var last := |Split(content, size)| - 1;
            && |content| <= |file| && file[..|content|] == content
            && (file == content <==> first != last || |Split(content, size)[last]| == size)
  {
    hide Split, ReceiveAll, ApplyAll, AllSourced, StoredIn, TooEarly, AllRight, Honest, LastKnown;
    var t := AfterFirst(hs, content, size, c, first, beyond, v);
    FirstConsistent(hs, content, size, c, first, beyond, v);
    ReceiveAllKeeps(hs, anyLog, content, size, t, first, arrivals);
    FileIsContent(anyLog, content, size, ReceiveAll(hs, anyLog, content, size, t, arrivals).calls);
  }

  /** After the first packet: the content size is not known yet, so that SetLastChunk is not called. */
  function AfterFirst(hs: Hasher, content: bytes, size: nat, c: int, first: nat, beyond: bytes, v: Verifier): Progress
    requires size > 0 && |Split(content, size)| >= 1
  {
    var sent := map[c := Needed(hs, Split(content, size), first)];
    Progress(Session(sent, sent, v), [Store(first, beyond)])
  }

  lemma FirstConsistent(hs: Hasher, content: bytes, size: nat, c: int, first: nat, beyond: bytes, v: Verifier)
    requires size > 0 && content != [] && |Split(content, size)| >= 2
    requires first < |Split(content, size)| && |beyond| >= size
    requires SizeLearnt(hs, Split(content, size), c, first, v)
    ensures Consistent(hs, content, size, AfterFirst(hs, content, size, c, first, beyond, v), first)
  {
    hide Split, Honest, LastKnown, TooEarly, StoredIn;
    NoCall();
    AppendCall(content, size, [], Store(first, beyond), |Split(content, size)| - 1);
    assert [] + [Store(first, beyond)] == [Store(first, beyond)];
  }
}
