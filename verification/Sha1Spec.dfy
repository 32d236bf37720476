/** SHA-1 as sections 4, 5 and 6.1.2 of FIPS 180-4 define it. */
module Sha1Spec {
  import opened Bytes

  type word = bv32

  function Rotl(x: word, n: nat): word
    requires 0 < n < 32
  {
    (x << n) | (x >> (32 - n))
  }

  function Ch(x: word, y: word, z: word): word { (x & y) ^ ((!x) & z) }
  function Parity(x: word, y: word, z: word): word { x ^ y ^ z }
  function Maj(x: word, y: word, z: word): word { (x & y) ^ (x & z) ^ (y & z) }

  /** Section 4.1.1. */
  function F(t: nat, x: word, y: word, z: word): word {
    if t < 20 then Ch(x, y, z)
    else if t < 40 then Parity(x, y, z)
    else if t < 60 then Maj(x, y, z)
    else Parity(x, y, z)
  }

  /** Section 4.2.1. */
  function K(t: nat): word {
    if t < 20 then 0x5a827999
    else if t < 40 then 0x6ed9eba1
    else if t < 60 then 0x8f1bbcdc
    else 0xca62c1d6
  }

  /** The big-endian word made of four bytes. */
  function Word(b: bytes): word
    requires |b| == 4
  {
    (b[0] as int * 0x100_0000 + b[1] as int * 0x1_0000 + b[2] as int * 0x100 + b[3] as int) as bv32
  }

  /** The big-endian bytes of a number below 2^32. */
  function BigEndian32(v: nat): (b: bytes)
    requires v < 0x1_0000_0000
    ensures |b| == 4
  {
    [v / 0x100_0000, v / 0x1_0000 % 0x100, v / 0x100 % 0x100, v % 0x100]
  }

  function BigEndian64(v: nat): (b: bytes)
    requires v < 0x1_0000_0000_0000_0000
    ensures |b| == 8
  {
    BigEndian32(v / 0x1_0000_0000) + BigEndian32(v % 0x1_0000_0000)
  }

  /** The t-th word of the message schedule of a block (section 6.1.2, step 1). */
  function Schedule(block: bytes, t: nat): word
    requires |block| == 64
  {
    if t < 16 then Word(block[4 * t..4 * t + 4])
    else Rotl(Schedule(block, t - 3) ^ Schedule(block, t - 8) ^ Schedule(block, t - 14) ^ Schedule(block, t - 16), 1)
  }

  datatype Regs = Regs(a: word, b: word, c: word, d: word, e: word)

  function Sum(a: word, f: word, e: word, k: word, w: word): word {
    a + f + e + k + w
  }

  /** One round (step 3): the registers shift, and the new value enters at a. */
  function Round(r: Regs, t: nat, w: word): Regs {
    Regs(Sum(Rotl(r.a, 5), F(t, r.b, r.c, r.d), r.e, K(t), w), r.a, Rotl(r.b, 30), r.c, r.d)
  }

  function Rounds(r: Regs, block: bytes, t: nat): Regs
    requires |block| == 64
  {
    if t == 0 then r else Round(Rounds(r, block, t - 1), t - 1, Schedule(block, t - 1))
  }

  function Add(x: word, y: word): word { x + y }

  function Compress(h: Regs, block: bytes): Regs
    requires |block| == 64
  {
    var r := Rounds(h, block, 80);
    Regs(Add(h.a, r.a), Add(h.b, r.b), Add(h.c, r.c), Add(h.d, r.d), Add(h.e, r.e))
  }

  /** Section 5.3.1. */
  const INITIAL: Regs := Regs(0x67452301, 0xefcdab89, 0x98badcfe, 0x10325476, 0xc3d2e1f0)

  /** The chaining value after all complete blocks of a byte string; an incomplete tail is ignored. */
  function Chain(h: Regs, data: bytes): Regs
    decreases |data|
  {
    if |data| < 64 then h else Chain(Compress(h, data[..64]), data[64..])
  }

  /** The number of zero bytes between the one-bit and the length field (section 5.1.1). */
  function ZeroCount(len: nat): nat {
    (55 - len) % 64
  }

  function Pad(message: bytes): bytes
    requires |message| < 0x2000_0000_0000_0000
  {
    message + [0x80] + Zeros(ZeroCount(|message|)) + BigEndian64(8 * |message|)
  }

  function DigestOf(h: Regs): (d: bytes)
    ensures |d| == 20
  {
    BigEndian32(h.a as nat) + BigEndian32(h.b as nat) + BigEndian32(h.c as nat)
    + BigEndian32(h.d as nat) + BigEndian32(h.e as nat)
  }

  function Sha1(message: bytes): (d: bytes)
    requires |message| < 0x2000_0000_0000_0000
    ensures |d| == 20
  {
    DigestOf(Chain(INITIAL, Pad(message)))
  }

  /** The padded message is a whole number of blocks, with as little padding as possible. */
  lemma PadFillsBlocks(message: bytes)
    requires |message| < 0x2000_0000_0000_0000
    ensures |Pad(message)| % 64 == 0
    ensures |message| + 9 <= |Pad(message)| < |message| + 9 + 64
  {
    hide BigEndian64, ZeroCount;
    PaddedLength(|message|, 0);
    assert |Pad(message)| == |message| + 9 + ZeroCount(|message|);
  }

  /** The zero count is the only one below 64 that fills up the block. */
  lemma PaddedLength(n: nat, k: nat)
    ensures (n + 9 + ZeroCount(n)) % 64 == 0 && ZeroCount(n) < 64
    ensures k < 64 && (n + 9 + k) % 64 == 0 ==> k == ZeroCount(n)
  {
    var q := (55 - n) / 64;
    assert 55 - n == 64 * q + ZeroCount(n);
    assert n + 9 + ZeroCount(n) == 64 * (1 - q);
  }
}
