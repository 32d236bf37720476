/** What the chunks say about the length of the content, on both sides. */
module Sizes {
  import opened Bytes
  import opened Dyadic
  import opened Merkle
  import opened Verification
  import opened Completeness

  lemma SplitShape(content: bytes, chunkSize: nat)
    requires chunkSize > 0 && content != []
    ensures Split(content, chunkSize)
         == if |content| <= chunkSize then [content] else [content[..chunkSize]] + Split(content[chunkSize..], chunkSize)
  {
  }

  /** All chunks but the last are full, and the last is not empty. */
  lemma {:induction false} SplitLength(content: bytes, chunkSize: nat)
    requires chunkSize > 0 && content != []
    ensures var chunks := Split(content, chunkSize);
            && |chunks| >= 1
            && |content| == chunkSize * (|chunks| - 1) + |chunks[|chunks| - 1]|
            && 0 < |chunks[|chunks| - 1]| <= chunkSize
            && forall k | 0 <= k < |chunks| - 1 :: |chunks[k]| == chunkSize
    decreases |content|
  {
    hide Split;
    SplitShape(content, chunkSize);
    if |content| > chunkSize {
      var rest := Split(content[chunkSize..], chunkSize);
      SplitLength(content[chunkSize..], chunkSize);
      var chunks := Split(content, chunkSize);
      assert chunks == [content[..chunkSize]] + rest;
      OneMoreChunk(chunkSize, |rest| - 1);
      assert |chunks| == |rest| + 1 && chunks[|chunks| - 1] == rest[|rest| - 1];
      assert forall k | 0 < k < |chunks| :: chunks[k] == rest[k - 1];
    }
  }

  lemma OneMoreChunk(size: nat, n: int)
    ensures size * (n + 1) == size * n + size
  {
  }

  /** Chunk k is the k-th slice of the content. */
  lemma {:induction false} SplitSlice(content: bytes, chunkSize: nat, k: nat)
    requires chunkSize > 0 && k < |Split(content, chunkSize)|
    ensures chunkSize * k + |Split(content, chunkSize)[k]| <= |content|
    ensures Split(content, chunkSize)[k] == content[chunkSize * k..chunkSize * k + |Split(content, chunkSize)[k]|]
    decreases |content|
  {
    hide Split;
    SplitAt(content, chunkSize, k);
    if |content| > chunkSize && k > 0 {
      var tail := content[chunkSize..];
      SplitSlice(tail, chunkSize, k - 1);
      OneMoreChunk(chunkSize, k - 1);
      SliceOfTail(content, chunkSize, chunkSize * (k - 1), |Split(tail, chunkSize)[k - 1]|);
    }
  }

  lemma SplitAt(content: bytes, chunkSize: nat, k: nat)
    requires chunkSize > 0 && k < |Split(content, chunkSize)|
    ensures content != []
    ensures |content| <= chunkSize ==> k == 0 && Split(content, chunkSize)[k] == content
    ensures |content| > chunkSize && k == 0 ==> Split(content, chunkSize)[k] == content[..chunkSize]
    ensures |content| > chunkSize && k > 0 ==>
              && k - 1 < |Split(content[chunkSize..], chunkSize)|
              && Split(content, chunkSize)[k] == Split(content[chunkSize..], chunkSize)[k - 1]
  {
  }

  lemma SliceOfTail(s: bytes, a: nat, b: nat, len: nat)
    requires a + b + len <= |s|
    ensures s[a..][b..b + len] == s[a + b..a + b + len]
  {
  }

  lemma {:induction false} LastReadOf(content: bytes, chunkSize: nat)
    requires chunkSize > 0 && content != []
    ensures var chunks := Split(content, chunkSize);
            LastRead(|content|, chunkSize) == if |chunks[|chunks| - 1]| == chunkSize then 0 else |chunks[|chunks| - 1]|
    decreases |content|
  {
    if |content| > chunkSize {
      LastReadOf(content[chunkSize..], chunkSize);
    }
  }

  /** The seeder's size after Make (the postcondition of Make gives both values): right exactly when
      the last chunk is a short one; when the file is a multiple of the chunk size, the last read
      returns nothing and the recorded size is one chunk short. */
  lemma MakeSize(content: bytes, chunkSize: nat)
    requires chunkSize > 0 && content != []
    ensures var recorded := chunkSize * (|Split(content, chunkSize)| - 1) + LastRead(|content|, chunkSize);
            && (recorded == |content| <==> |content| % chunkSize != 0)
            && (recorded != |content| ==> recorded == |content| - chunkSize)
  {
    hide Split, LastRead;
    SplitLength(content, chunkSize);
    LastReadOf(content, chunkSize);
    var chunks := Split(content, chunkSize);
    OneMoreChunk(chunkSize, |chunks| - 1);
    Remainder(|content|, chunkSize, |chunks| - 1, |chunks[|chunks| - 1]|);
  }

  lemma Remainder(total: nat, size: nat, n: nat, len: nat)
    requires 0 < len <= size && total == size * n + len
    ensures total % size == if len == size then 0 else len
  {
    if len == size {
      OneMoreChunk(size, n);
      RemainderUnique(total, size, n + 1, 0);
    } else {
      RemainderUnique(total, size, n, len);
    }
  }

  /** A peer that accepts the genuine last chunk while the size is unknown records the true size. */
  lemma PeerSize(hs: Hasher, content: bytes, chunkSize: nat, v: Verifier, c: int)
    requires chunkSize > 0 && content != []
    requires var chunks := Split(content, chunkSize);
             && v.chunkRange == |chunks| - 1 && v.contentSize <= 0 && v.lastChunkSize == 0
             && |chunks| >= 1
             && CheckKnown(hs, chunkSize, RootDigest(hs, chunks), v, c, |chunks| - 1, chunks[|chunks| - 1]).0
    ensures var chunks := Split(content, chunkSize);
            var after := CheckKnown(hs, chunkSize, RootDigest(hs, chunks), v, c, |chunks| - 1, chunks[|chunks| - 1]).1;
            after.contentSize == |content| && after.lastChunkSize == |chunks[|chunks| - 1]|
  {
    hide ClimbKnown, UsedKnown, RootDigest;
    SplitLength(content, chunkSize);
  }
}
