/** HandShake.cpp: the HANDSHAKE message, printed as a list of options and parsed by a loop over
    them (sections 7 and 8.4 of RFC 7574). */
module HandShakes {
  import opened Bytes
  import opened Wire

  const VERSION: byte := 0
  const MINIMUM_VERSION: byte := 1
  const SWARM_IDENTIFIER: byte := 2
  const CONTENT_INTEGRITY: byte := 3
  const MERKLE_HASH_FUNCTION: byte := 4
  const LIVE_SIGNATURE: byte := 5
  const CHUNK_ADDRESSING: byte := 6
  const LIVE_DISCARD_WINDOW: byte := 7
  const SUPPORTED_MESSAGES: byte := 8
  const CHUNK_SIZE: byte := 9
  const PEER_LISTENING_PORT: byte := 10
  const END_OPTION: byte := 255

  const MAX_LENGTH := 1024

  /** The fields of a HandShake object. The Have... flags are the option codes in `seen`; the swarm
      identifier is kept as bytes and is absent when empty. */
  datatype Fields = Fields(
    destination: int32,
    source: int32,
    version: byte,
    minVersion: byte,
    swarmIdentifier: bytes,
    contentIntegrity: byte,
    merkleHashFunction: byte,
    liveSignature: byte,
    chunkAddressing: byte,
    liveDiscardWindow: bytes,
    bitmap: Option<bytes>,
    bitmapLength: byte,
    chunkSize: int32,
    port: int16,
    seen: set<byte>)

  // -------------------------------------------------------------------------------- printing

  function PrintSwarm(f: Fields): bytes
    requires |f.swarmIdentifier| < 0x8000
  {
    if f.swarmIdentifier != [] then [SWARM_IDENTIFIER] + Print16(|f.swarmIdentifier|) + f.swarmIdentifier else []
  }

  function PrintBitmap(f: Fields): bytes
    requires f.bitmap.Some? ==> |f.bitmap.value| >= f.bitmapLength
  {
    if f.bitmap.Some? then [SUPPORTED_MESSAGES, f.bitmapLength] + f.bitmap.value[..f.bitmapLength] else []
  }

  function PrintChunkSize(f: Fields): bytes {
    if f.chunkSize > 0 then [CHUNK_SIZE] + Print32(f.chunkSize) else []
  }

  function PrintPort(f: Fields): bytes {
    if f.port > 0 then [PEER_LISTENING_PORT] + Print16(f.port) else []
  }

  predicate Printable(f: Fields) {
    && |f.swarmIdentifier| < 0x8000
    && (f.bitmap.Some? ==> |f.bitmap.value| >= f.bitmapLength)
    && |Print(f)| <= MAX_LENGTH
  }

  /** The message: channel identifiers, the options in a fixed order, the end marker. */
  function Print(f: Fields): bytes
    requires |f.swarmIdentifier| < 0x8000
    requires f.bitmap.Some? ==> |f.bitmap.value| >= f.bitmapLength
  {
    Print32(f.destination) + [0] + Print32(f.source) + PrintOptions(f)
  }

  function PrintOptions(f: Fields): bytes
    requires |f.swarmIdentifier| < 0x8000
    requires f.bitmap.Some? ==> |f.bitmap.value| >= f.bitmapLength
  {
    [VERSION, f.version, MINIMUM_VERSION, f.minVersion]
    + (PrintSwarm(f)
       + ([CONTENT_INTEGRITY, f.contentIntegrity, MERKLE_HASH_FUNCTION, f.merkleHashFunction,
           CHUNK_ADDRESSING, f.chunkAddressing]
          + (PrintBitmap(f) + (PrintChunkSize(f) + (PrintPort(f) + [END_OPTION])))))
  }

  // --------------------------------------------------------------------------------- parsing

  /** What one turn of the parser loop does: reads past the data, stops at an unknown code, or goes
      on with the bytes `left`. */
  datatype Turn = Overrun | Unknown | Next(f: Fields, left: bytes)

  function SwarmOption(s: bytes, f: Fields): Turn
    requires s != []
  {
    if |s| < 3 then Overrun
    else
      var len := Parse16(s[1..]);
      if len <= 0 then Next(f, s[3..])
      else if |s| < 3 + len then Overrun
      else Next(f.(swarmIdentifier := s[3..3 + len]), s[3 + len..])
  }

  function WindowOption(s: bytes, f: Fields): Turn
    requires s != []
  {
    var width := if f.chunkAddressing == 0 || f.chunkAddressing == 2 then 4
                 else if f.chunkAddressing == 1 || f.chunkAddressing == 3 || f.chunkAddressing == 4 then 8
                 else 0;
    if |s| < 1 + width then Overrun
    else if width == 0 then Next(f, s[1..])
    else Next(f.(liveDiscardWindow := s[1..1 + width]), s[1 + width..])
  }

  /** The length byte is read as a signed char: from 128 on it counts as negative. */
  function BitmapOption(s: bytes, f: Fields): Turn
    requires s != []
  {
    if |s| < 2 then Overrun
    else
      var len := if s[1] < 128 then s[1] as int else s[1] as int - 256;
      if len <= 0 then Next(f, s[2..])
      else if |s| < 2 + len then Overrun
      else Next(f.(bitmap := Some(s[2..2 + len]), bitmapLength := s[1]), s[2 + len..])
  }

  function ParseOption(s: bytes, f0: Fields): Turn
    requires s != []
  {
    var code := s[0];
    var f := if code < PEER_LISTENING_PORT then f0.(seen := f0.seen + {code}) else f0;
    if code == VERSION then
      if |s| < 2 then Overrun else Next(f.(version := s[1]), s[2..])
    else if code == MINIMUM_VERSION then
      if |s| < 2 then Overrun else Next(f.(minVersion := s[1]), s[2..])
    else if code == SWARM_IDENTIFIER then SwarmOption(s, f)
    else if code == CONTENT_INTEGRITY then
      if |s| < 2 then Overrun else Next(f.(contentIntegrity := s[1]), s[2..])
    else if code == MERKLE_HASH_FUNCTION then
      if |s| < 2 then Overrun else Next(f.(merkleHashFunction := s[1]), s[2..])
    else if code == LIVE_SIGNATURE then
      if |s| < 2 then Overrun else Next(f.(liveSignature := s[1]), s[2..])
    else if code == CHUNK_ADDRESSING then
      if |s| < 2 then Overrun else Next(f.(chunkAddressing := s[1]), s[2..])
    else if code == LIVE_DISCARD_WINDOW then WindowOption(s, f)
    else if code == SUPPORTED_MESSAGES then BitmapOption(s, f)
    else if code == CHUNK_SIZE then
      if |s| < 5 then Overrun else Next(f.(chunkSize := Parse32(s[1..])), s[5..])
    else if code == PEER_LISTENING_PORT then
      if |s| < 3 then Overrun else Next(f.(port := Parse16(s[1..])), s[3..])
    else Unknown
  }

  datatype Parsed = Parsed(f: Fields, left: bytes)

  lemma TurnConsumes(s: bytes, f: Fields)
    requires s != []
    ensures var t := ParseOption(s, f); t.Next? ==> |t.left| < |s| && t.left == s[|s| - |t.left|..]
  {
    hide Parse16, Parse32;
  }

  /** The parser loop; None if it runs past the end of the data. */
  function ParseOptions(s: bytes, f: Fields): Option<Parsed>
    decreases |s|
  {
    if s == [] then None
    else if s[0] == END_OPTION then Some(Parsed(f, s[1..]))
    else
      TurnConsumes(s, f);
      match ParseOption(s, f)
      case Overrun => None
      case Unknown => Some(Parsed(f, s[1..]))
      case Next(g, left) => ParseOptions(left, g)
  }

  /** Create: the channel identifiers, the message type, the options. */
  function Parse(s: bytes, f: Fields): Option<Parsed> {
    if |s| < 9 then None
    else ParseOptions(s[9..], f.(destination := Parse32(s), source := Parse32(s[5..])))
  }

  // ------------------------------------------------------------------------------ round trip

  function See(f: Fields, code: byte): Fields {
    f.(seen := f.seen + {code})
  }

  function TakeSwarm(f: Fields, h: Fields): Fields {
    if h.swarmIdentifier != [] then See(f, SWARM_IDENTIFIER).(swarmIdentifier := h.swarmIdentifier) else f
  }

  function TakeBitmap(f: Fields, h: Fields): Fields
    requires h.bitmap.Some? ==> |h.bitmap.value| >= h.bitmapLength
  {
    if h.bitmap.None? then f
    else if h.bitmapLength == 0 then See(f, SUPPORTED_MESSAGES)
    else See(f, SUPPORTED_MESSAGES).(bitmap := Some(h.bitmap.value[..h.bitmapLength]), bitmapLength := h.bitmapLength)
  }

  function TakeChunkSize(f: Fields, h: Fields): Fields {
    if h.chunkSize > 0 then See(f, CHUNK_SIZE).(chunkSize := h.chunkSize) else f
  }

  function TakePort(f: Fields, h: Fields): Fields {
    if h.port > 0 then f.(port := h.port) else f
  }

  /** The receiver's fields after parsing the message of h: every printed option replaces its field,
      the others keep what they had. */
  function Received(f: Fields, h: Fields): Fields
    requires h.bitmap.Some? ==> |h.bitmap.value| >= h.bitmapLength
  {
    var f1 := f.(destination := h.destination, source := h.source, version := h.version, minVersion := h.minVersion,
                 seen := f.seen + {VERSION, MINIMUM_VERSION});
    var f2 := TakeSwarm(f1, h);
    var f3 := f2.(contentIntegrity := h.contentIntegrity, merkleHashFunction := h.merkleHashFunction,
                  chunkAddressing := h.chunkAddressing,
                  seen := f2.seen + {CONTENT_INTEGRITY, MERKLE_HASH_FUNCTION, CHUNK_ADDRESSING});
    TakePort(TakeChunkSize(TakeBitmap(f3, h), h), h)
  }

  /** One option of a code byte and a value byte. */
  lemma ParseByte(f: Fields, code: byte, v: byte, t: bytes)
    requires code in {VERSION, MINIMUM_VERSION, CONTENT_INTEGRITY, MERKLE_HASH_FUNCTION, CHUNK_ADDRESSING}
    ensures var g := See(f, code);
            var g' := if code == VERSION then g.(version := v)
                      else if code == MINIMUM_VERSION then g.(minVersion := v)
                      else if code == CONTENT_INTEGRITY then g.(contentIntegrity := v)
                      else if code == MERKLE_HASH_FUNCTION then g.(merkleHashFunction := v)
                      else g.(chunkAddressing := v);
            ParseOptions([code, v] + t, f) == ParseOptions(t, g')
  {
    var s := [code, v] + t;
    assert s[2..] == t;
  }

  lemma ParseSwarm(f: Fields, h: Fields, t: bytes)
    requires |h.swarmIdentifier| < 0x8000
    ensures ParseOptions(PrintSwarm(h) + t, f) == ParseOptions(t, TakeSwarm(f, h))
  {
    var id := h.swarmIdentifier;
    if id == [] {
      assert PrintSwarm(h) + t == t;
    } else {
      var s := PrintSwarm(h) + t;
      assert s[1..] == Print16(|id|) + (id + t);
      RoundTrip16(|id|, id + t);
      assert s[3..3 + |id|] == id && s[3 + |id|..] == t;
    }
  }

  lemma ParseBitmap(f: Fields, h: Fields, t: bytes)
    requires h.bitmap.Some? ==> |h.bitmap.value| >= h.bitmapLength && h.bitmapLength < 128
    ensures ParseOptions(PrintBitmap(h) + t, f) == ParseOptions(t, TakeBitmap(f, h))
  {
    if h.bitmap.None? {
      assert PrintBitmap(h) + t == t;
    } else {
      var s, n := PrintBitmap(h) + t, h.bitmapLength;
      assert s[1] == n && s[2..2 + n] == h.bitmap.value[..n] && s[2 + n..] == t;
    }
  }

  lemma ParseChunkSize(f: Fields, h: Fields, t: bytes)
    ensures ParseOptions(PrintChunkSize(h) + t, f) == ParseOptions(t, TakeChunkSize(f, h))
  {
    if h.chunkSize <= 0 {
      assert PrintChunkSize(h) + t == t;
    } else {
      var s := PrintChunkSize(h) + t;
      assert s[1..] == Print32(h.chunkSize) + t && s[5..] == t;
      RoundTrip32(h.chunkSize, t);
    }
  }

  lemma ParsePort(f: Fields, h: Fields, t: bytes)
    ensures ParseOptions(PrintPort(h) + t, f) == ParseOptions(t, TakePort(f, h))
  {
    if h.port <= 0 {
      assert PrintPort(h) + t == t;
    } else {
      var s := PrintPort(h) + t;
      assert s[1..] == Print16(h.port) + t && s[3..] == t;
      RoundTrip16(h.port, t);
    }
  }

  /** The options from the bitmap on. */
  lemma ParseTail(f: Fields, h: Fields, rest: bytes)
    requires |h.swarmIdentifier| < 0x8000
    requires h.bitmap.Some? ==> |h.bitmap.value| >= h.bitmapLength && h.bitmapLength < 128
    ensures ParseOptions(PrintBitmap(h) + (PrintChunkSize(h) + (PrintPort(h) + [END_OPTION])) + rest, f)
         == Some(Parsed(TakePort(TakeChunkSize(TakeBitmap(f, h), h), h), rest))
  {
    hide ParseOptions, PrintBitmap, PrintChunkSize, PrintPort, TakePort, TakeChunkSize, TakeBitmap;
    var b, c, p := PrintBitmap(h), PrintChunkSize(h), PrintPort(h);
    assert b + (c + (p + [END_OPTION])) + rest == b + (c + (p + ([END_OPTION] + rest)));
    ParseBitmap(f, h, c + (p + ([END_OPTION] + rest)));
    ParseChunkSize(TakeBitmap(f, h), h, p + ([END_OPTION] + rest));
    ParsePort(TakeChunkSize(TakeBitmap(f, h), h), h, [END_OPTION] + rest);
    ParseEnd(TakePort(TakeChunkSize(TakeBitmap(f, h), h), h), rest);
  }

  lemma ParseEnd(f: Fields, rest: bytes)
    ensures ParseOptions([END_OPTION] + rest, f) == Some(Parsed(f, rest))
  {
    assert ([END_OPTION] + rest)[1..] == rest;
  }

  /** Round trip of the options, whatever follows the message and whatever the receiver had. */
  lemma ParseAll(f: Fields, h: Fields, rest: bytes)
    requires |h.swarmIdentifier| < 0x8000
    requires h.bitmap.Some? ==> |h.bitmap.value| >= h.bitmapLength && h.bitmapLength < 128
    ensures ParseOptions(PrintOptions(h) + rest, f.(destination := h.destination, source := h.source))
         == Some(Parsed(Received(f, h), rest))
  {
    hide ParseOptions, PrintBitmap, PrintChunkSize, PrintPort, PrintSwarm, TakePort, TakeChunkSize, TakeBitmap, TakeSwarm;
    var tail := PrintBitmap(h) + (PrintChunkSize(h) + (PrintPort(h) + [END_OPTION]));
    var middle := [CONTENT_INTEGRITY, h.contentIntegrity] + ([MERKLE_HASH_FUNCTION, h.merkleHashFunction]
                  + ([CHUNK_ADDRESSING, h.chunkAddressing] + (tail + rest)));
    assert PrintOptions(h) + rest
        == [VERSION, h.version] + ([MINIMUM_VERSION, h.minVersion] + (PrintSwarm(h) + middle));
    var f0 := f.(destination := h.destination, source := h.source);
    ParseByte(f0, VERSION, h.version, [MINIMUM_VERSION, h.minVersion] + (PrintSwarm(h) + middle));
    var f1 := See(f0, VERSION).(version := h.version);
    ParseByte(f1, MINIMUM_VERSION, h.minVersion, PrintSwarm(h) + middle);
    var f2 := See(f1, MINIMUM_VERSION).(minVersion := h.minVersion);
    ParseSwarm(f2, h, middle);
    ParseMiddle(TakeSwarm(f2, h), h, tail + rest);
    var f3 := TakeSwarm(f2, h);
    var f4 := f3.(contentIntegrity := h.contentIntegrity, merkleHashFunction := h.merkleHashFunction,
                  chunkAddressing := h.chunkAddressing,
                  seen := f3.seen + {CONTENT_INTEGRITY, MERKLE_HASH_FUNCTION, CHUNK_ADDRESSING});
    ParseTail(f4, h, rest);
    assert f2.seen == f.seen + {VERSION, MINIMUM_VERSION};
  }

  lemma ParseMiddle(f: Fields, h: Fields, t: bytes)
    ensures ParseOptions([CONTENT_INTEGRITY, h.contentIntegrity] + ([MERKLE_HASH_FUNCTION, h.merkleHashFunction]
                         + ([CHUNK_ADDRESSING, h.chunkAddressing] + t)), f)
         == ParseOptions(t, f.(contentIntegrity := h.contentIntegrity, merkleHashFunction := h.merkleHashFunction,
                               chunkAddressing := h.chunkAddressing,
                               seen := f.seen + {CONTENT_INTEGRITY, MERKLE_HASH_FUNCTION, CHUNK_ADDRESSING}))
  {
    hide ParseOptions;
    var f1 := See(f, CONTENT_INTEGRITY).(contentIntegrity := h.contentIntegrity);
    var f2 := See(f1, MERKLE_HASH_FUNCTION).(merkleHashFunction := h.merkleHashFunction);
    ParseByte(f, CONTENT_INTEGRITY, h.contentIntegrity,
              [MERKLE_HASH_FUNCTION, h.merkleHashFunction] + ([CHUNK_ADDRESSING, h.chunkAddressing] + t));
    ParseByte(f1, MERKLE_HASH_FUNCTION, h.merkleHashFunction, [CHUNK_ADDRESSING, h.chunkAddressing] + t);
    ParseByte(f2, CHUNK_ADDRESSING, h.chunkAddressing, t);
    assert See(f2, CHUNK_ADDRESSING).seen == f.seen + {CONTENT_INTEGRITY, MERKLE_HASH_FUNCTION, CHUNK_ADDRESSING};
  }

  /** Handshake round trip: parsing a printed message, followed by anything, recovers every printed
      option and stops exactly at the end of the message. */
  lemma RoundTrip(f: Fields, h: Fields, rest: bytes)
    requires |h.swarmIdentifier| < 0x8000
    requires h.bitmap.Some? ==> |h.bitmap.value| >= h.bitmapLength && h.bitmapLength < 128
    ensures Parse(Print(h) + rest, f) == Some(Parsed(Received(f, h), rest))
  {
    hide ParseOptions, PrintOptions, Received;
    var s, opts := Print(h) + rest, PrintOptions(h);
    assert s == Print32(h.destination) + ([0] + Print32(h.source) + opts + rest);
    RoundTrip32(h.destination, [0] + Print32(h.source) + opts + rest);
    assert s[5..] == Print32(h.source) + (opts + rest);
    RoundTrip32(h.source, opts + rest);
    assert s[9..] == opts + rest;
    ParseAll(f, h, rest);
  }

  // ------------------------------------------------------------------------- long bitmaps

  /** The signed length byte bounds every bitmap that is read. */
  lemma {:induction false} ReadBitmapsAreShort(s: bytes, f: Fields)
    requires f.bitmap.Some? ==> |f.bitmap.value| < 128
    ensures var p := ParseOptions(s, f); p.Some? && p.value.f.bitmap.Some? ==> |p.value.f.bitmap.value| < 128
    decreases |s|
  {
    if s != [] && s[0] != END_OPTION {
      TurnConsumes(s, f);
      var t := ParseOption(s, f);
      if t.Next? {
        TurnKeepsShort(s, f);
        ReadBitmapsAreShort(t.left, t.f);
      }
    }
  }

  lemma TurnKeepsShort(s: bytes, f: Fields)
    requires s != [] && (f.bitmap.Some? ==> |f.bitmap.value| < 128)
    ensures var t := ParseOption(s, f); t.Next? && t.f.bitmap.Some? ==> |t.f.bitmap.value| < 128
  {
  }

  /** A receiver without a bitmap recovers the sender's if and only if it is not empty and its length
      is below 128. */
  lemma BitmapRecoveredIff(f: Fields, h: Fields, rest: bytes)
    requires |h.swarmIdentifier| < 0x8000
    requires h.bitmap.Some? && |h.bitmap.value| == h.bitmapLength && f.bitmap == None
    ensures (Parse(Print(h) + rest, f).Some? && Parse(Print(h) + rest, f).value.f.bitmap == h.bitmap)
       <==> 0 < h.bitmapLength < 128
  {
    if h.bitmapLength < 128 {
      RoundTrip(f, h, rest);
      assert h.bitmap.value[..h.bitmapLength] == h.bitmap.value;
    } else {
      var s := Print(h) + rest;
      ReadBitmapsAreShort(s[9..], f.(destination := Parse32(s), source := Parse32(s[5..])));
    }
  }

  // -------------------------------------------------------------------------------- the class

  class HandShake {
    var destinationChannelID: int32
    var sourceChannelID: int32
    var version: byte
    var minVersion: byte
    var swarmIdentifier: bytes
    var contentIntegrityProtectionMethod: byte
    var merkleHashTreeFunction: byte
    var liveSignatureAlgorithm: byte
    var chunkAddressingMethod: byte
    var liveDiscardWindow: bytes
    var supportedMessagesBitmap: Option<bytes>
    var supportedMessagesBitmapLength: byte
    var chunkSize: int32
    var peerListeningPort: int16
    var seen: set<byte>

    function View(): Fields
      reads this
    {
      Fields(destinationChannelID, sourceChannelID, version, minVersion, swarmIdentifier,
             contentIntegrityProtectionMethod, merkleHashTreeFunction, liveSignatureAlgorithm, chunkAddressingMethod,
             liveDiscardWindow, supportedMessagesBitmap, supportedMessagesBitmapLength, chunkSize, peerListeningPort, seen)
    }

    constructor ()
      ensures View() == Fields(0, 0, 1, 1, [], 1, 0, 13, 2, [], None, 0, 0, 0, {})
    {
      destinationChannelID, sourceChannelID, version, minVersion, swarmIdentifier := 0, 0, 1, 1, [];
      contentIntegrityProtectionMethod, merkleHashTreeFunction, liveSignatureAlgorithm := 1, 0, 13;
      chunkAddressingMethod, liveDiscardWindow := 2, [];
      supportedMessagesBitmap, supportedMessagesBitmapLength := None, 0;
      chunkSize, peerListeningPort, seen := 0, 0, {};
    }

    /** Parses a message; the data must not end before the parser stops, since nothing tells the
        parser where the datagram ends. */
    method Create(data: bytes) returns (idx: nat)
      requires Parse(data, View()).Some?
      modifies this
      ensures var p := Parse(data, old(View())).value;
              View() == p.f && idx <= |data| && data[idx..] == p.left
    {
      hide ParseOption;
      ghost var result := Parse(data, View());
      destinationChannelID := Parse32(data);
      sourceChannelID := Parse32(data[5..]);
      idx := 9;
      while data[idx] != END_OPTION
        invariant 9 <= idx <= |data|
        invariant ParseOptions(data[idx..], View()) == result
        decreases |data| - idx
      {
        TurnConsumes(data[idx..], View());
        ghost var turn := ParseOption(data[idx..], View());
        var unknown, next := ParseTurn(data, idx);
        if unknown {
          assert data[idx..][1..] == data[idx + 1..];
          idx := idx + 1;
          return;
        }
        assert turn.left == data[next..];
        idx := next;
      }
      assert data[idx..][1..] == data[idx + 1..];
      idx := idx + 1;
    }

    /** The switch over the option code. */
    method ParseTurn(data: bytes, idx0: nat) returns (unknown: bool, idx: nat)
      requires idx0 < |data| && data[idx0] != END_OPTION && !ParseOption(data[idx0..], View()).Overrun?
      modifies this
      ensures var t := ParseOption(data[idx0..], old(View()));
              && (unknown <==> t.Unknown?)
              && (unknown ==> View() == old(View()))
              && (t.Next? ==> View() == t.f && idx0 < idx <= |data| && data[idx..] == t.left)
    {
      idx, unknown := idx0, false;
      ghost var s := data[idx0..];
      assert forall i | 0 <= i <= |s| :: s[i..] == data[idx0 + i..];
      if data[idx] < PEER_LISTENING_PORT {
        seen := seen + {data[idx]};
      }
      match data[idx]
      case 0 =>
        version := data[idx + 1];
        idx := idx + 2;
      case 1 =>
        minVersion := data[idx + 1];
        idx := idx + 2;
      case 2 =>
        idx := ParseSwarmAt(data, idx);
      case 3 =>
        contentIntegrityProtectionMethod := data[idx + 1];
        idx := idx + 2;
      case 4 =>
        merkleHashTreeFunction := data[idx + 1];
        idx := idx + 2;
      case 5 =>
        liveSignatureAlgorithm := data[idx + 1];
        idx := idx + 2;
      case 6 =>
        chunkAddressingMethod := data[idx + 1];
        idx := idx + 2;
      case 7 =>
        idx := ParseWindowAt(data, idx);
      case 8 =>
        idx := ParseBitmapAt(data, idx);
      case 9 =>
        chunkSize := Parse32(data[idx + 1..]);
        idx := idx + 5;
      case 10 =>
        peerListeningPort := Parse16(data[idx + 1..]);
        idx := idx + 3;
      case _ =>
        unknown := true;
    }

    method ParseSwarmAt(data: bytes, idx0: nat) returns (idx: nat)
      requires idx0 < |data| && SwarmOption(data[idx0..], View()).Next?
      modifies this`swarmIdentifier
      ensures var t := SwarmOption(data[idx0..], old(View()));
              View() == t.f && idx0 < idx <= |data| && data[idx..] == t.left
    {
      idx := idx0 + 1;
      var len := Parse16(data[idx..]);
      assert data[idx0..][1..] == data[idx..];
      idx := idx + 2;
      if len > 0 {
        assert data[idx0..][3..3 + len] == data[idx..idx + len];
        swarmIdentifier := data[idx..idx + len];
        idx := idx + len;
      }
    }

    method ParseWindowAt(data: bytes, idx0: nat) returns (idx: nat)
      requires idx0 < |data| && WindowOption(data[idx0..], View()).Next?
      modifies this`liveDiscardWindow
      ensures var t := WindowOption(data[idx0..], old(View()));
              View() == t.f && idx0 < idx <= |data| && data[idx..] == t.left
    {
      idx := idx0 + 1;
      if chunkAddressingMethod == 0 || chunkAddressingMethod == 2 {
        liveDiscardWindow := data[idx..idx + 4];
        assert data[idx0..][1..5] == data[idx..idx + 4];
        idx := idx + 4;
      } else if chunkAddressingMethod == 3 || chunkAddressingMethod == 4 || chunkAddressingMethod == 1 {
        liveDiscardWindow := data[idx..idx + 8];
        assert data[idx0..][1..9] == data[idx..idx + 8];
        idx := idx + 8;
      }
    }

    method ParseBitmapAt(data: bytes, idx0: nat) returns (idx: nat)
      requires idx0 < |data| && BitmapOption(data[idx0..], View()).Next?
      modifies this`supportedMessagesBitmap, this`supportedMessagesBitmapLength
      ensures var t := BitmapOption(data[idx0..], old(View()));
              View() == t.f && idx0 < idx <= |data| && data[idx..] == t.left
    {
      idx := idx0 + 1;
      var len := if data[idx] < 128 then data[idx] as int else data[idx] as int - 256;
      idx := idx + 1;
      if len > 0 {
        supportedMessagesBitmapLength := data[idx - 1];
        supportedMessagesBitmap := Some(data[idx..idx + len]);
        assert data[idx0..][2..2 + len] == data[idx..idx + len];
        idx := idx + len;
      }
    }

    /** Prints the message through a fixed buffer. */
    method GetBuffer() returns (buffer: array<byte>)
      requires Printable(View())
      ensures fresh(buffer) && buffer[..] == Print(View())
    {
      hide Print32, PrintSwarm, PrintBitmap, PrintChunkSize, PrintPort, Print, Printable;
      var buf := new byte[MAX_LENGTH](_ => 0);
      ghost var f := View();
      PrintParts(f);
      var idx := PutHeader(buf);
      idx := PutSwarm(buf, idx);
      idx := PutMethods(buf, idx);
      idx := PutTail(buf, idx);
      assert idx <= buf.Length;
      buffer := new byte[idx](i requires 0 <= i < idx && idx <= buf.Length reads buf => buf[i]);
      assert buffer[..] == buf[..idx];
    }

    method PutHeader(buf: array<byte>) returns (idx: nat)
      requires buf.Length >= 13
      modifies buf
      ensures idx == 13 && buf[..idx] == PrintHeader(View())
    {
      hide Print32;
      idx := Put(buf, 0, Print32(destinationChannelID));
      idx := Put(buf, idx, [0]);
      idx := Put(buf, idx, Print32(sourceChannelID));
      idx := Put(buf, idx, [VERSION]);
      idx := Put(buf, idx, [version]);
      idx := Put(buf, idx, [MINIMUM_VERSION]);
      idx := Put(buf, idx, [minVersion]);
    }

    method PutSwarm(buf: array<byte>, idx0: nat) returns (idx: nat)
      requires |swarmIdentifier| < 0x8000 && idx0 + |PrintSwarm(View())| <= buf.Length
      modifies buf
      ensures idx == idx0 + |PrintSwarm(View())| && buf[..idx] == old(buf[..idx0]) + PrintSwarm(View())
    {
      hide Print16;
      idx := idx0;
      if |swarmIdentifier| > 0 {
        idx := Put(buf, idx, [SWARM_IDENTIFIER]);
        idx := Put(buf, idx, Print16(|swarmIdentifier|));
        idx := Put(buf, idx, swarmIdentifier);
      }
    }

    method PutMethods(buf: array<byte>, idx0: nat) returns (idx: nat)
      requires idx0 + 6 <= buf.Length
      modifies buf
      ensures idx == idx0 + 6
      ensures buf[..idx] == old(buf[..idx0])
              + [CONTENT_INTEGRITY, contentIntegrityProtectionMethod, MERKLE_HASH_FUNCTION, merkleHashTreeFunction,
                 CHUNK_ADDRESSING, chunkAddressingMethod]
    {
      idx := Put(buf, idx0, [CONTENT_INTEGRITY]);
      idx := Put(buf, idx, [contentIntegrityProtectionMethod]);
      idx := Put(buf, idx, [MERKLE_HASH_FUNCTION]);
      idx := Put(buf, idx, [merkleHashTreeFunction]);
      idx := Put(buf, idx, [CHUNK_ADDRESSING]);
      idx := Put(buf, idx, [chunkAddressingMethod]);
    }

    method PutTail(buf: array<byte>, idx0: nat) returns (idx: nat)
      requires supportedMessagesBitmap.Some? ==> |supportedMessagesBitmap.value| >= supportedMessagesBitmapLength
      requires idx0 + |PrintBitmap(View())| + |PrintChunkSize(View())| + |PrintPort(View())| + 1 <= buf.Length
      modifies buf
      ensures idx == idx0 + |PrintBitmap(View())| + |PrintChunkSize(View())| + |PrintPort(View())| + 1
      ensures buf[..idx] == old(buf[..idx0])
                            + (PrintBitmap(View()) + (PrintChunkSize(View()) + (PrintPort(View()) + [END_OPTION])))
    {
      hide PrintBitmap, PrintChunkSize, PrintPort;
      idx := PutBitmap(buf, idx0);
      idx := PutChunkSize(buf, idx);
      idx := PutPort(buf, idx);
      idx := Put(buf, idx, [END_OPTION]);
    }

    method PutBitmap(buf: array<byte>, idx0: nat) returns (idx: nat)
      requires supportedMessagesBitmap.Some? ==> |supportedMessagesBitmap.value| >= supportedMessagesBitmapLength
      requires idx0 + |PrintBitmap(View())| <= buf.Length
      modifies buf
      ensures idx == idx0 + |PrintBitmap(View())| && buf[..idx] == old(buf[..idx0]) + PrintBitmap(View())
    {
      idx := idx0;
      if supportedMessagesBitmap != None {
        idx := Put(buf, idx, [SUPPORTED_MESSAGES]);
        idx := Put(buf, idx, [supportedMessagesBitmapLength]);
        assert buf[..idx] == old(buf[..idx0]) + [SUPPORTED_MESSAGES, supportedMessagesBitmapLength];
        var bitmap := supportedMessagesBitmap.value[..supportedMessagesBitmapLength];
        idx := Put(buf, idx, bitmap);
        assert PrintBitmap(View()) == [SUPPORTED_MESSAGES, supportedMessagesBitmapLength] + bitmap;
      }
    }

    method PutChunkSize(buf: array<byte>, idx0: nat) returns (idx: nat)
      requires idx0 + |PrintChunkSize(View())| <= buf.Length
      modifies buf
      ensures idx == idx0 + |PrintChunkSize(View())| && buf[..idx] == old(buf[..idx0]) + PrintChunkSize(View())
    {
      hide Print32;
      idx := idx0;
      if chunkSize > 0 {
        idx := Put(buf, idx, [CHUNK_SIZE]);
        idx := Put(buf, idx, Print32(chunkSize));
      }
    }

    method PutPort(buf: array<byte>, idx0: nat) returns (idx: nat)
      requires idx0 + |PrintPort(View())| <= buf.Length
      modifies buf
      ensures idx == idx0 + |PrintPort(View())| && buf[..idx] == old(buf[..idx0]) + PrintPort(View())
    {
      hide Print16;
      idx := idx0;
      if peerListeningPort > 0 {
        idx := Put(buf, idx, [PEER_LISTENING_PORT]);
        idx := Put(buf, idx, Print16(peerListeningPort));
      }
    }
  }

  function PrintHeader(f: Fields): bytes {
    Print32(f.destination) + [0] + Print32(f.source) + [VERSION, f.version, MINIMUM_VERSION, f.minVersion]
  }

  /** The message as the pieces the printer writes one after the other. */
  lemma PrintParts(f: Fields)
    requires Printable(f)
    ensures |f.swarmIdentifier| < 0x8000 && (f.bitmap.Some? ==> |f.bitmap.value| >= f.bitmapLength)
    ensures 20 + |PrintSwarm(f)| + |PrintBitmap(f)| + |PrintChunkSize(f)| + |PrintPort(f)| <= MAX_LENGTH
    ensures Print(f) == PrintHeader(f) + PrintSwarm(f)
                        + [CONTENT_INTEGRITY, f.contentIntegrity, MERKLE_HASH_FUNCTION, f.merkleHashFunction,
                           CHUNK_ADDRESSING, f.chunkAddressing]
                        + (PrintBitmap(f) + (PrintChunkSize(f) + (PrintPort(f) + [END_OPTION])))
  {
    hide Print32, PrintSwarm, PrintBitmap, PrintChunkSize, PrintPort;
  }
}
