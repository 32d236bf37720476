/** Big-endian integers on the wire, and a moving write position in a buffer. */
module Wire {
  import opened Bytes

  type int32 = x: int | -0x8000_0000 <= x < 0x8000_0000
  type int16 = x: int | -0x8000 <= x < 0x8000

  /** The four bytes of an int in network order, in two's complement. */
  function Print32(v: int32): (b: bytes)
    ensures |b| == 4
  {
    var u := v % 0x1_0000_0000;
    [u / 0x100_0000, u / 0x1_0000 % 0x100, u / 0x100 % 0x100, u % 0x100]
  }

  function Parse32(b: bytes): int32
    requires |b| >= 4
  {
    var u := b[0] as int * 0x100_0000 + b[1] as int * 0x1_0000 + b[2] as int * 0x100 + b[3] as int;
    if u < 0x8000_0000 then u else u - 0x1_0000_0000
  }

  function Print16(v: int16): (b: bytes)
    ensures |b| == 2
  {
    var u := v % 0x1_0000;
    [u / 0x100, u % 0x100]
  }

  function Parse16(b: bytes): int16
    requires |b| >= 2
  {
    var u := b[0] as int * 0x100 + b[1] as int;
    if u < 0x8000 then u else u - 0x1_0000
  }

  /** The base-256 digits of a number. */
  lemma Digits(u: nat)
    requires u < 0x1_0000_0000
    ensures u / 0x100_0000 * 0x100_0000 + u / 0x1_0000 % 0x100 * 0x1_0000 + u / 0x100 % 0x100 * 0x100 + u % 0x100 == u
  {
    var q := u / 0x100;
    var r := q / 0x100;
    assert u / 0x1_0000 == r && u / 0x100_0000 == r / 0x100;
    assert u == 0x100 * q + u % 0x100 && q == 0x100 * r + q % 0x100 && r == 0x100 * (r / 0x100) + r % 0x100;
  }

  lemma RoundTrip32(v: int32, rest: bytes)
    ensures Parse32(Print32(v) + rest) == v
  {
    var u := v % 0x1_0000_0000;
    Digits(u);
    var b := Print32(v) + rest;
    assert b[0] == u / 0x100_0000 && b[1] == u / 0x1_0000 % 0x100 && b[2] == u / 0x100 % 0x100 && b[3] == u % 0x100;
  }

  lemma RoundTrip16(v: int16, rest: bytes)
    ensures Parse16(Print16(v) + rest) == v
  {
  }

  /** The number that big-endian bytes stand for. */
  function Value(b: bytes): nat {
    if b == [] then 0 else 256 * Value(b[..|b| - 1]) + b[|b| - 1]
  }

  lemma Value2(p: byte, q: byte)
    ensures Value([p, q]) == 256 * p + q
  {
    assert [p, q][..1] == [p] && [p][..0] == [];
    assert Value([p]) == 256 * Value([]) + p;
  }

  lemma Value4(p: byte, q: byte, r: byte, s: byte)
    ensures Value([p, q, r, s]) == 256 * (256 * (256 * p + q) + r) + s
  {
    assert [p, q, r, s][..3] == [p, q, r] && [p, q, r][..2] == [p, q];
    Value2(p, q);
    assert Value([p, q, r]) == 256 * Value([p, q]) + r;
  }

  /** Integers go out with the most significant byte first, negative ones in two's complement. */
  lemma NetworkOrder32(v: int32)
    ensures Value(Print32(v)) == if v >= 0 then v else v + 0x1_0000_0000
  {
    var b := Print32(v);
    Value4(b[0], b[1], b[2], b[3]);
    assert b == [b[0], b[1], b[2], b[3]];
    Digits(v % 0x1_0000_0000);
  }

  lemma NetworkOrder16(v: int16)
    ensures Value(Print16(v)) == if v >= 0 then v else v + 0x1_0000
  {
    var b := Print16(v);
    Value2(b[0], b[1]);
    assert b == [b[0], b[1]];
  }

  /** memcpy to the write position. */
  method Put(buf: array<byte>, idx0: nat, src: bytes) returns (idx: nat)
    requires idx0 + |src| <= buf.Length
    modifies buf
    ensures idx == idx0 + |src| && buf[..idx] == old(buf[..idx0]) + src
  {
    var i := 0;
    while i < |src|
      invariant 0 <= i <= |src|
      invariant buf[..idx0 + i] == old(buf[..idx0]) + src[..i]
    {
      buf[idx0 + i] := src[i];
      i := i + 1;
    }
    idx := idx0 + |src|;
  }
}
