/** Have.cpp: the HAVE message, alone or appended to a handshake in the same datagram. */
module Haves {
  import opened Bytes
  import opened Wire
  import opened HandShakes

  const HAVE: byte := 3

  datatype HaveFields = HaveFields(destination: int32, startChunk: int32, endChunk: int32)

  /** Without its own channel identifier when it rides on a handshake. */
  function PrintHave(f: HaveFields, onHandshake: bool): (b: bytes)
    ensures |b| == if onHandshake then 9 else 13
  {
    (if onHandshake then [] else Print32(f.destination)) + [HAVE] + Print32(f.startChunk) + Print32(f.endChunk)
  }

  function ParseHave(s: bytes, f: HaveFields, onHandshake: bool): (HaveFields, nat)
    requires |s| >= if onHandshake then 9 else 13
  {
    var g := if onHandshake then f else f.(destination := Parse32(s));
    var at := if onHandshake then 1 else 5;
    (g.(startChunk := Parse32(s[at..]), endChunk := Parse32(s[at + 4..])), at + 8)
  }

  /** Both forms read back, whatever follows. */
  lemma HaveRoundTrip(f: HaveFields, h: HaveFields, onHandshake: bool, rest: bytes)
    ensures ParseHave(PrintHave(h, onHandshake) + rest, f, onHandshake)
         == (if onHandshake then h.(destination := f.destination) else h, |PrintHave(h, onHandshake)|)
  {
    hide Parse32, Print32;
    var s := PrintHave(h, onHandshake) + rest;
    if !onHandshake {
      assert s == Print32(h.destination) + ([HAVE] + Print32(h.startChunk) + Print32(h.endChunk) + rest);
      RoundTrip32(h.destination, [HAVE] + Print32(h.startChunk) + Print32(h.endChunk) + rest);
    }
    var at := if onHandshake then 1 else 5;
    assert s[at..] == Print32(h.startChunk) + (Print32(h.endChunk) + rest);
    RoundTrip32(h.startChunk, Print32(h.endChunk) + rest);
    assert s[at + 4..] == Print32(h.endChunk) + rest;
    RoundTrip32(h.endChunk, rest);
  }

  /** The datagram of a handshake with a HAVE behind it: the handshake parser stops at the HAVE, whose
      type byte says so, and the HAVE parses back from there. */
  lemma DatagramRoundTrip(f: Fields, h: Fields, g: HaveFields, v: HaveFields)
    requires |h.swarmIdentifier| < 0x8000
    requires h.bitmap.Some? ==> |h.bitmap.value| >= h.bitmapLength && h.bitmapLength < 128
    ensures var datagram := Print(h) + PrintHave(v, true);
            && Parse(datagram, f) == Some(Parsed(Received(f, h), datagram[|Print(h)|..]))
            && datagram[|Print(h)|] == HAVE
            && ParseHave(datagram[|Print(h)|..], g, true)
               == (v.(destination := g.destination), |datagram| - |Print(h)|)
  {
    hide Parse, Print, Received, ParseHave, PrintHave;
    var datagram := Print(h) + PrintHave(v, true);
    RoundTrip(f, h, PrintHave(v, true));
    assert datagram[|Print(h)|..] == PrintHave(v, true);
    assert PrintHave(v, true) + [] == PrintHave(v, true);
    HaveRoundTrip(g, v, true, []);
    TypeByte(v);
  }

  lemma TypeByte(v: HaveFields)
    ensures PrintHave(v, true)[0] == HAVE
  {
  }

  class Have {
    var destinationChannelID: int32
    var startChunk: int32
    var endChunk: int32

    function View(): HaveFields
      reads this
    {
      HaveFields(destinationChannelID, startChunk, endChunk)
    }

    method Create(data: bytes, isHandshakeHave: bool) returns (idx: nat)
      requires |data| >= if isHandshakeHave then 9 else 13
      modifies this
      ensures (View(), idx) == ParseHave(data, old(View()), isHandshakeHave)
    {
      idx := 0;
      if !isHandshakeHave {
        destinationChannelID := Parse32(data);
        idx := idx + 4;
      }
      idx := idx + 1;
      startChunk := Parse32(data[idx..]);
      idx := idx + 4;
      endChunk := Parse32(data[idx..]);
      idx := idx + 4;
    }

    method GetBuffer(isHandshakeHave: bool) returns (buffer: array<byte>)
      ensures fresh(buffer) && buffer[..] == PrintHave(View(), isHandshakeHave)
    {
      hide Print32;
      var len := 4 + 1 + 4 + 4;
      if isHandshakeHave {
        len := len - 4;
      }
      buffer := new byte[len](_ => 0);
      var idx := 0;
      if !isHandshakeHave {
        idx := Put(buffer, 0, Print32(destinationChannelID));
      }
      idx := Put(buffer, idx, [HAVE]);
      idx := Put(buffer, idx, Print32(startChunk));
      idx := Put(buffer, idx, Print32(endChunk));
      assert buffer[..idx] == buffer[..];
    }
  }
}
