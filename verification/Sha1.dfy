/** sha1.cpp: the block function with its 16-word rolling schedule and renamed registers, the
    streaming context and the padding arithmetic. */
module Sha1 {
  import opened Bytes
  import opened Merkle
  import opened Sha1Spec

  // ----------------------------------------------------------------- the rewritten functions

  function Ror(x: word, n: nat): word
    requires 0 < n < 32
  {
    (x >> n) | (x << (32 - n))
  }

  /** The round functions as the macros T_0_15 ... T_60_79 write them. */
  function Fn(t: nat, b: word, c: word, d: word): word {
    if t < 20 then ((c ^ d) & b) ^ d
    else if t < 40 then b ^ c ^ d
    else if t < 60 then (b & c) + (d & (b ^ c))
    else b ^ c ^ d
  }

  lemma ChRewritten(b: word, c: word, d: word)
    ensures ((c ^ d) & b) ^ d == Ch(b, c, d)
  {
  }

  /** The two terms of Maj have no bit in common, so that + and | agree. */
  lemma MajRewritten(b: word, c: word, d: word)
    ensures (b & c) + (d & (b ^ c)) == Maj(b, c, d)
  {
  }

  lemma OrCommutes(a: word, b: word)
    ensures a | b == b | a
  {
  }

  lemma RotateRight(x: word)
    ensures Ror(x, 2) == Rotl(x, 30)
  {
    OrCommutes(x >> 2, x << 30);
  }

  lemma FnIsF(t: nat, b: word, c: word, d: word)
    ensures Fn(t, b, c, d) == F(t, b, c, d)
  {
    ChRewritten(b, c, d);
    MajRewritten(b, c, d);
  }

  // ------------------------------------------------------------------------------- one block

  /** The macro W(x): place of a schedule word in the 16-word array. */
  function Slot(x: nat): (s: nat)
    ensures s < 16
  {
    x % 16
  }

  lemma SlotApart(j: nat, t: nat)
    ensures j < t < j + 16 ==> Slot(j) != Slot(t)
    ensures Slot(t + 16) == Slot(t)
  {
  }

  /** The rolling window holds the last 16 words of the schedule. */
  ghost predicate Window(a: seq<word>, block: bytes, t: nat)
    requires |a| == 16 && |block| == 64
  {
    forall j: nat | j < t && t <= j + 16 :: a[Slot(j)] == Schedule(block, j)
  }

  lemma WindowStep(a: seq<word>, block: bytes, t: nat, w: word)
    requires |a| == 16 && |block| == 64 && Window(a, block, t) && w == Schedule(block, t)
    ensures Window(a[Slot(t) := w], block, t + 1)
  {
    hide Schedule, Slot;
    var a' := a[Slot(t) := w];
    forall j: nat | j < t + 1 && t + 1 <= j + 16 ensures a'[Slot(j)] == Schedule(block, j) {
      SlotApart(j, t);
    }
  }

  /** SHA_MIX: the words 3, 8, 14 and 16 rounds back, read out of the window. */
  lemma MixIsSchedule(a: seq<word>, block: bytes, t: nat)
    requires |a| == 16 && |block| == 64 && Window(a, block, t) && t >= 16
    ensures Rotl(a[Slot(t + 13)] ^ a[Slot(t + 8)] ^ a[Slot(t + 2)] ^ a[Slot(t)], 1) == Schedule(block, t)
  {
    hide Slot, Rotl, Schedule;
    SlotApart(0, t - 3);
    SlotApart(0, t - 8);
    SlotApart(0, t - 14);
    SlotApart(0, t - 16);
    ScheduleStep(block, t);
    assert Slot(t - 3 + 16) == Slot(t + 13) && Slot(t - 8 + 16) == Slot(t + 8) && Slot(t - 14 + 16) == Slot(t + 2);
    assert a[Slot(t - 3)] == Schedule(block, t - 3);
    assert a[Slot(t - 8)] == Schedule(block, t - 8);
    assert a[Slot(t - 14)] == Schedule(block, t - 14);
    assert a[Slot(t - 16)] == Schedule(block, t - 16);
  }

  lemma ScheduleStep(block: bytes, t: nat)
    requires |block| == 64 && t >= 16
    ensures Schedule(block, t)
         == Rotl(Schedule(block, t - 3) ^ Schedule(block, t - 8) ^ Schedule(block, t - 14) ^ Schedule(block, t - 16), 1)
  {
  }

  /** SHA_ROUND: updates E and B in place; the caller renames the registers. */
  method ShaRound(t: nat, array_: array<word>, data: bytes, A: word, B: word, C: word, D: word, E: word)
    returns (B': word, E': word)
    requires array_.Length == 16 && |data| == 64 && t < 80 && Window(array_[..], data, t)
    modifies array_
    ensures Window(array_[..], data, t + 1)
    ensures Round(Regs(A, B, C, D, E), t, Schedule(data, t)) == Regs(E', A, B', C, D)
  {
    hide Schedule, Window, Rotl, Ror, Fn, F, Slot, Word, K, Round, Added;
    var temp: word;
    if t < 16 {
      temp := Word(data[4 * t..4 * t + 4]);
      SourceWord(data, t);
    } else {
      temp := Rotl(array_[Slot(t + 13)] ^ array_[Slot(t + 8)] ^ array_[Slot(t + 2)] ^ array_[Slot(t)], 1);
      MixIsSchedule(array_[..], data, t);
    }
    WindowStep(array_[..], data, t, temp);
    ghost var before := array_[..];
    array_[Slot(t)] := temp;
    assert array_[..] == before[Slot(t) := temp];
    E' := Added(E, temp, Rotl(A, 5), Fn(t, B, C, D), K(t));
    B' := Ror(B, 2);
    RoundInPlace(Regs(A, B, C, D, E), t, temp);
  }

  /** The assignment `E += TEMP + ROL(A,5) + fn + constant`. */
  function Added(e: word, w: word, a: word, f: word, k: word): word {
    e + (w + a + f + k)
  }

  /** The update in place computes the new a and the rotated b; the other registers only change
      names. */
  lemma RoundInPlace(r: Regs, t: nat, w: word)
    ensures Round(r, t, w) == Regs(Added(r.e, w, Rotl(r.a, 5), Fn(t, r.b, r.c, r.d), K(t)), r.a, Ror(r.b, 2), r.c, r.d)
  {
    hide Rotl, Ror, Fn, F, K, Sum, Added;
    FnIsF(t, r.b, r.c, r.d);
    RotateRight(r.b);
    SumOrder(Rotl(r.a, 5), F(t, r.b, r.c, r.d), r.e, K(t), w);
  }

  lemma SourceWord(data: bytes, t: nat)
    requires |data| == 64 && t < 16
    ensures Word(data[4 * t..4 * t + 4]) == Schedule(data, t)
  {
  }

  lemma SumOrder(a: word, f: word, e: word, k: word, w: word)
    ensures Added(e, w, a, f, k) == Sum(a, f, e, k, w)
  {
  }

  lemma RoundsStep(h: Regs, block: bytes, t: nat)
    requires |block| == 64
    ensures Rounds(h, block, t + 1) == Round(Rounds(h, block, t), t, Schedule(block, t))
    ensures Rounds(h, block, 0) == h
  {
  }

  /** Five rounds bring the register names back to where they were. */
  method FiveRounds(t: nat, array_: array<word>, data: bytes, A0: word, B0: word, C0: word, D0: word, E0: word, ghost h: Regs)
    returns (A: word, B: word, C: word, D: word, E: word)
    requires array_.Length == 16 && |data| == 64 && t + 5 <= 80 && Window(array_[..], data, t)
    requires Regs(A0, B0, C0, D0, E0) == Rounds(h, data, t)
    modifies array_
    ensures Window(array_[..], data, t + 5)
    ensures Regs(A, B, C, D, E) == Rounds(h, data, t + 5)
  {
    hide Window, Round, Rounds, Schedule;
    A, B, C, D, E := A0, B0, C0, D0, E0;
    B, E := ShaRound(t, array_, data, A, B, C, D, E);
    RoundsStep(h, data, t);
    A, D := ShaRound(t + 1, array_, data, E, A, B, C, D);
    RoundsStep(h, data, t + 1);
    E, C := ShaRound(t + 2, array_, data, D, E, A, B, C);
    RoundsStep(h, data, t + 2);
    D, B := ShaRound(t + 3, array_, data, C, D, E, A, B);
    RoundsStep(h, data, t + 3);
    C, A := ShaRound(t + 4, array_, data, B, C, D, E, A);
    RoundsStep(h, data, t + 4);
  }

  method EightyRounds(A0: word, B0: word, C0: word, D0: word, E0: word, data: bytes)
    returns (A: word, B: word, C: word, D: word, E: word)
    requires |data| == 64
    ensures Regs(A, B, C, D, E) == Rounds(Regs(A0, B0, C0, D0, E0), data, 80)
  {
    hide Window, Rounds, Slot;
    ghost var h := Regs(A0, B0, C0, D0, E0);
    A, B, C, D, E := A0, B0, C0, D0, E0;
    var array_ := new word[16](_ => 0);
    NoWindow(array_[..], data);
    RoundsStep(h, data, 0);
    var t := 0;
    while t < 80
      invariant 0 <= t <= 80 && t % 5 == 0
      invariant Window(array_[..], data, t)
      invariant Regs(A, B, C, D, E) == Rounds(h, data, t)
    {
      A, B, C, D, E := FiveRounds(t, array_, data, A, B, C, D, E, h);
      t := t + 5;
    }
  }

  // ------------------------------------------------------------------------ streaming context

  /** blk_SHA_CTX. `Message` is everything hashed so far. */
  class Context {
    var size: nat
    const H: array<word>
    const W: array<byte>
    ghost var Message: bytes

    function Chaining(): Regs
      requires H.Length == 5
      reads H
    {
      Regs(H[0], H[1], H[2], H[3], H[4])
    }

    /** The size is kept in 64 bits; H covers the complete blocks; W holds the bytes after them. */
    ghost predicate Valid()
      reads this, H, W
    {
      && H.Length == 5 && W.Length == 64 && H != W as object
      && size == |Message| % 0x1_0000_0000_0000_0000
      && Chaining() == Chain(INITIAL, Message)
      && W[..|Message| % 64] == Tail(Message)
    }

    /** blk_SHA1_Init. */
    constructor ()
      ensures Valid() && fresh(H) && fresh(W) && Message == []
    {
      size := 0;
      H := new word[5];
      W := new byte[64](_ => 0);
      Message := [];
      new;
      H[0], H[1], H[2], H[3], H[4] := 0x67452301, 0xefcdab89, 0x98badcfe, 0x10325476, 0xc3d2e1f0;
    }

    /** blk_SHA1_Block. */
    method Block(data: bytes)
      requires H.Length == 5 && |data| == 64
      modifies H
      ensures Chaining() == Compress(old(Chaining()), data)
    {
      hide Rounds, Add;
      var A, B, C, D, E := EightyRounds(H[0], H[1], H[2], H[3], H[4], data);
      H[0], H[1], H[2], H[3], H[4] := Add(H[0], A), Add(H[1], B), Add(H[2], C), Add(H[3], D), Add(H[4], E);
    }

    /** memcpy into the block buffer. */
    method CopyIn(at: nat, src: bytes)
      requires W.Length == 64 && at + |src| <= 64
      modifies W
      ensures W[..] == old(W[..at]) + src + old(W[at + |src|..])
    {
      var i := 0;
      while i < |src|
        invariant 0 <= i <= |src|
        invariant forall k | 0 <= k < i :: W[at + k] == src[k]
        invariant forall k | 0 <= k < 64 && !(at <= k < at + i) :: W[k] == old(W[k])
      {
        W[at + i] := src[i];
        i := i + 1;
      }
    }

    /** Hashes the complete blocks of `data0` and keeps the rest in the buffer. */
    method FullBlocks(data0: bytes, ghost done0: bytes)
      requires H.Length == 5 && W.Length == 64 && H != W as object
      requires |done0| % 64 == 0 && Chaining() == Chain(INITIAL, done0)
      modifies H, W
      ensures Chaining() == Chain(INITIAL, done0 + data0)
      ensures W[..|done0 + data0| % 64] == Tail(done0 + data0)
    {
      hide Chain, Compress;
      var data := data0;
      ghost var done := done0;
      while |data| >= 64
        invariant |done| % 64 == 0 && done + data == done0 + data0
        invariant Chaining() == Chain(INITIAL, done)
      {
        Block(data[..64]);
        ChainOneMore(INITIAL, done, data[..64]);
        done := done + data[..64];
        data := data[64..];
      }
      if |data| > 0 {
        CopyIn(0, data);
      }
      ChainTail(INITIAL, done, data);
      assert |done + data| % 64 == |data|;
    }

    /** Fills up a started block; hashes it once it is full. */
    method TopUp(data: bytes, lenW0: nat, ghost before: bytes) returns (lenW: nat, left: nat)
      requires H.Length == 5 && W.Length == 64 && H != W as object
      requires lenW0 == |before| % 64 && lenW0 != 0
      requires Chaining() == Chain(INITIAL, before) && W[..lenW0] == Tail(before)
      modifies H, W
      ensures left <= |data| && lenW == |before + data[..left]| % 64
      ensures lenW != 0 ==> left == |data|
      ensures Chaining() == Chain(INITIAL, before + data[..left])
      ensures W[..lenW] == Tail(before + data[..left])
    {
      hide Chain, Compress, Tail;
      left := if |data| < 64 - lenW0 then |data| else 64 - lenW0;
      CopyIn(lenW0, data[..left]);
      ghost var m := before + data[..left];
      TailGrows(before, data[..left]);
      assert W[..lenW0 + left] == Tail(before) + data[..left];
      lenW := (lenW0 + left) % 64;
      if lenW == 0 {
        assert W[..] == W[..64];
        Block(W[..]);
        assert W[..0] == Tail(m);
        ChainFilled(INITIAL, before, m);
      } else {
        ChainSame(INITIAL, before, data[..left]);
      }
    }

    /** blk_SHA1_Update. */
    method Update(data: bytes)
      requires Valid()
      modifies this`size, this`Message, H, W
      ensures Valid() && Message == old(Message) + data
    {
      hide Chain;
      SizeModulo(|Message|);
      SizeGrows(|Message|, |data|);
      var lenW := size % 64;
      size := (size + |data|) % 0x1_0000_0000_0000_0000;
      ghost var before := Message;
      Message := before + data;
      if lenW != 0 {
        var left;
        lenW, left := TopUp(data, lenW, before);
        assert before + data[..left] + data[left..] == Message;
        if lenW != 0 {
          assert before + data[..left] == Message;
          return;
        }
        FullBlocks(data[left..], before + data[..left]);
      } else {
        FullBlocks(data, before);
      }
    }

    /** blk_SHA1_Final: the digest of everything hashed so far. */
    method Final() returns (hashout: bytes)
      requires Valid() && |Message| < 0x2000_0000_0000_0000
      modifies this`size, this`Message, H, W
      ensures hashout == Sha1(old(Message))
    {
      hide Chain, Tail;
      ghost var m := Message;
      var pad := [0x80] + Zeros(63);
      var padlen := BigEndian32(size / 0x2000_0000 % 0x1_0000_0000) + BigEndian32(size * 8 % 0x1_0000_0000);
      LengthField(|m|);
      var i := size % 64;
      PaddingBytes(|m|);
      Update(pad[..1 + (55 - i) % 64]);
      Update(padlen);
      assert Message == Pad(m);
      hashout := BigEndian32(H[0] as nat) + BigEndian32(H[1] as nat) + BigEndian32(H[2] as nat)
                 + BigEndian32(H[3] as nat) + BigEndian32(H[4] as nat);
    }
  }

  lemma Remainders(a: nat, b: nat)
    requires b <= 64
    ensures (a % 64 + b) % 64 == (a + b) % 64
  {
  }

  lemma NoWindow(a: seq<word>, block: bytes)
    requires |a| == 16 && |block| == 64
    ensures Window(a, block, 0)
  {
  }

  /** The bytes after the last complete block. */
  function Tail(m: bytes): (r: bytes)
    ensures |r| == |m| % 64
  {
    m[|m| - |m| % 64..]
  }

  lemma TailGrows(m: bytes, more: bytes)
    requires |m| % 64 + |more| <= 64
    ensures |m| % 64 + |more| < 64 ==> |m + more| % 64 == |m| % 64 + |more| && Tail(m + more) == Tail(m) + more
    ensures |m| % 64 + |more| == 64 ==> |m + more| % 64 == 0 && (m + more)[|m + more| - 64..] == Tail(m) + more
  {
    Remainders(|m|, |more|);
  }

  // --------------------------------------------------------------- facts about the chaining

  /** Whole blocks first, then the rest. */
  lemma {:induction false} ChainJoin(h: Regs, a: bytes, b: bytes)
    requires |a| % 64 == 0
    ensures Chain(h, a + b) == Chain(Chain(h, a), b)
    decreases |a|
  {
    hide Compress;
    if |a| == 0 {
      assert a + b == b;
    } else {
      assert (a + b)[..64] == a[..64] && (a + b)[64..] == a[64..] + b;
      ChainJoin(Compress(h, a[..64]), a[64..], b);
    }
  }

  lemma ChainOneMore(h: Regs, a: bytes, block: bytes)
    requires |a| % 64 == 0 && |block| == 64
    ensures Chain(h, a + block) == Compress(Chain(h, a), block)
  {
    hide Compress;
    ChainJoin(h, a, block);
    assert block[..64] == block && block[64..] == [];
  }

  lemma ChainTail(h: Regs, a: bytes, tail: bytes)
    requires |a| % 64 == 0 && |tail| < 64
    ensures Chain(h, a + tail) == Chain(h, a)
  {
    hide Compress;
    ChainJoin(h, a, tail);
  }

  /** Bytes that do not complete the block do not change the chaining value. */
  lemma ChainSame(h: Regs, m: bytes, more: bytes)
    requires |m| % 64 + |more| < 64
    ensures Chain(h, m + more) == Chain(h, m)
  {
    var k := |m| - |m| % 64;
    assert m == m[..k] + m[k..] && m + more == m[..k] + (m[k..] + more);
    ChainTail(h, m[..k], m[k..]);
    ChainTail(h, m[..k], m[k..] + more);
  }

  /** Bytes that complete the block add the block of the last 64 bytes. */
  lemma ChainFilled(h: Regs, m: bytes, filled: bytes)
    requires m <= filled && |filled| % 64 == 0 && 0 < |filled| - |m| < 64
    ensures Chain(h, filled) == Compress(Chain(h, m), filled[|filled| - 64..])
  {
    hide Compress, Chain;
    var k := |filled| - 64;
    assert m == filled[..k] + m[k..];
    assert filled == filled[..k] + filled[k..];
    ChainTail(h, filled[..k], m[k..]);
    ChainOneMore(h, filled[..k], filled[k..]);
  }

  lemma SizeModulo(n: nat)
    ensures n % 0x1_0000_0000_0000_0000 % 64 == n % 64
  {
  }

  lemma SizeGrows(n: nat, m: nat)
    ensures (n % 0x1_0000_0000_0000_0000 + m) % 0x1_0000_0000_0000_0000 == (n + m) % 0x1_0000_0000_0000_0000
  {
  }

  // -------------------------------------------------------------------------- the interface

  /** The two length words are the 64-bit bit count. */
  lemma LengthField(size: nat)
    requires size < 0x2000_0000_0000_0000
    ensures size % 0x1_0000_0000_0000_0000 == size
    ensures BigEndian32(size / 0x2000_0000 % 0x1_0000_0000) + BigEndian32(size * 8 % 0x1_0000_0000) == BigEndian64(8 * size)
  {
    hide BigEndian32;
    var q, r := size / 0x2000_0000, size % 0x2000_0000;
    assert 8 * size == 0x1_0000_0000 * q + 8 * r;
    assert 8 * size / 0x1_0000_0000 == q;
  }

  /** `1 + (63 & (55 - i))` bytes of the constant pad are the one-bit and the zeros. */
  lemma PaddingBytes(size: nat)
    ensures (55 - size % 64) % 64 == ZeroCount(size)
    ensures ([0x80] + Zeros(63))[..1 + ZeroCount(size)] == [0x80] + Zeros(ZeroCount(size))
  {
  }

  /** SHA1_Encrypt. */
  method Encrypt(message: bytes) returns (digest: bytes)
    requires |message| < 0x1_0000_0000
    ensures digest == Sha1(message) == SHA1.sum(message)
  {
    var ctx := new Context();
    ctx.Update(message);
    assert [] + message == message;
    digest := ctx.Final();
  }

  /** SHA1_EncryptLR: two updates hash like the concatenation. */
  method EncryptLR(left: bytes, right: bytes) returns (digest: bytes)
    requires |left| == 20 && |right| == 20
    ensures digest == Sha1(left + right) == SHA1.sum(left + right)
  {
    var ctx := new Context();
    ctx.Update(left);
    ctx.Update(right);
    assert [] + left + right == left + right;
    digest := ctx.Final();
  }

  /** Streaming equals one-shot: the state depends on the bytes hashed so far only, not on how they
      were cut into updates. */
  lemma StateOfMessage(c: Context, d: Context)
    requires c.Valid() && d.Valid() && c.Message == d.Message
    ensures c.size == d.size && c.Chaining() == d.Chaining()
    ensures c.W[..|c.Message| % 64] == d.W[..|d.Message| % 64]
  {
  }

  /** SHA-1 as the hash function of a tree; strings beyond the length limit do not occur. */
  const SHA1: Hasher := Hasher(b => if |b| < 0x2000_0000_0000_0000 then Sha1(b) else Zeros(20), 20)

  lemma Sha1IsHasher()
    ensures SHA1.Valid()
  {
    hide Sha1;
  }
}
