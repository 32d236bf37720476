/** The bytes of HANDSHAKE and HAVE on the wire, by value (sections 7 and 8.4 of RFC 7574), and what the
    parser makes of options that the printer never writes. */
module WireFormat {
  import opened Bytes
  import opened Wire
  import opened HandShakes
  import opened Haves

  // ------------------------------------------------------------------------------ HANDSHAKE

  /** The fixed part: destination, message type 0, source, and the two versions under their codes. */
  lemma HandShakeStart(h: Fields)
    requires |h.swarmIdentifier| < 0x8000
    requires h.bitmap.Some? ==> |h.bitmap.value| >= h.bitmapLength
    ensures var b := Print(h);
            && |b| >= 20 && b[..4] == Print32(h.destination) && b[4] == 0 && b[5..9] == Print32(h.source)
            && b[9..13] == [0, h.version, 1, h.minVersion]
            && b[|b| - 1] == 255
  {
    hide Print32, PrintSwarm, PrintBitmap, PrintChunkSize, PrintPort;
    var tail := PrintBitmap(h) + (PrintChunkSize(h) + (PrintPort(h) + [END_OPTION]));
    var rest := PrintSwarm(h) + ([CONTENT_INTEGRITY, h.contentIntegrity, MERKLE_HASH_FUNCTION, h.merkleHashFunction,
                                  CHUNK_ADDRESSING, h.chunkAddressing] + tail);
    assert Print(h) == Print32(h.destination) + [0] + Print32(h.source) + ([0, h.version, 1, h.minVersion] + rest);
  }

  /** Every option by the values of its bytes, in the order of the message. */
  lemma HandShakeBytes(h: Fields)
    requires |h.swarmIdentifier| < 0x8000
    requires h.bitmap.Some? ==> |h.bitmap.value| >= h.bitmapLength
    ensures Print(h)[9..]
         == [0, h.version, 1, h.minVersion]
            + (if h.swarmIdentifier == [] then []
               else [2, |h.swarmIdentifier| / 256, |h.swarmIdentifier| % 256] + h.swarmIdentifier)
            + [3, h.contentIntegrity, 4, h.merkleHashFunction, 6, h.chunkAddressing]
            + (if h.bitmap.None? then [] else [8, h.bitmapLength] + h.bitmap.value[..h.bitmapLength])
            + (if h.chunkSize <= 0 then [] else [9] + Print32(h.chunkSize))
            + (if h.port <= 0 then [] else [10, h.port / 256, h.port % 256])
            + [255]
  {
    hide Print32, Print16, PrintSwarm, PrintBitmap, PrintChunkSize, PrintPort, PrintOptions;
    var head := Print32(h.destination) + [0] + Print32(h.source);
    assert Print(h) == head + PrintOptions(h);
    assert Print(h)[9..] == PrintOptions(h);
    OptionBytes(h);
    OptionOrder(h);
  }

  lemma OptionBytes(h: Fields)
    requires |h.swarmIdentifier| < 0x8000
    requires h.bitmap.Some? ==> |h.bitmap.value| >= h.bitmapLength
    ensures PrintSwarm(h) == if h.swarmIdentifier == [] then []
                             else [2, |h.swarmIdentifier| / 256, |h.swarmIdentifier| % 256] + h.swarmIdentifier
    ensures PrintBitmap(h) == if h.bitmap.None? then [] else [8, h.bitmapLength] + h.bitmap.value[..h.bitmapLength]
    ensures PrintChunkSize(h) == if h.chunkSize <= 0 then [] else [9] + Print32(h.chunkSize)
    ensures PrintPort(h) == if h.port <= 0 then [] else [10, h.port / 256, h.port % 256]
  {
    hide Print32, Print16;
    Print16Bytes(h.port);
    Print16Bytes(|h.swarmIdentifier|);
  }

  lemma Print16Bytes(v: int16)
    ensures v >= 0 ==> Print16(v) == [v / 256, v % 256]
  {
  }

  lemma OptionOrder(h: Fields)
    requires |h.swarmIdentifier| < 0x8000
    requires h.bitmap.Some? ==> |h.bitmap.value| >= h.bitmapLength
    ensures PrintOptions(h)
         == [0, h.version, 1, h.minVersion] + PrintSwarm(h)
            + [3, h.contentIntegrity, 4, h.merkleHashFunction, 6, h.chunkAddressing]
            + PrintBitmap(h) + PrintChunkSize(h) + PrintPort(h) + [255]
  {
    hide PrintSwarm, PrintBitmap, PrintChunkSize, PrintPort;
  }

  // ------------------------------------------------------------------------------------ HAVE

  /** HAVE has message type 3, alone behind its channel, on a handshake at once. */
  lemma HaveBytes(h: HaveFields, onHandshake: bool)
    ensures PrintHave(h, onHandshake)
         == (if onHandshake then [] else Print32(h.destination)) + [3] + (Print32(h.startChunk) + Print32(h.endChunk))
  {
    hide Print32;
  }

  // --------------------------------------------------------------------- the other direction

  /** What each code does to the fields, for any options in any order. Codes 0, 1, 3, 4, 5 and 6 read
      one byte; codes 0 to 9 are remembered as seen. */
  lemma ByteOptions(f: Fields, v: byte, t: bytes)
    ensures ParseOptions([0, v] + t, f) == ParseOptions(t, f.(version := v, seen := f.seen + {0}))
    ensures ParseOptions([1, v] + t, f) == ParseOptions(t, f.(minVersion := v, seen := f.seen + {1}))
    ensures ParseOptions([3, v] + t, f) == ParseOptions(t, f.(contentIntegrity := v, seen := f.seen + {3}))
    ensures ParseOptions([4, v] + t, f) == ParseOptions(t, f.(merkleHashFunction := v, seen := f.seen + {4}))
    ensures ParseOptions([5, v] + t, f) == ParseOptions(t, f.(liveSignature := v, seen := f.seen + {5}))
    ensures ParseOptions([6, v] + t, f) == ParseOptions(t, f.(chunkAddressing := v, seen := f.seen + {6}))
  {
    hide ParseOption, ParseOptions;
    OneTurn([0, v] + t, f); ByteTurn(f, 0, v, t);
    OneTurn([1, v] + t, f); ByteTurn(f, 1, v, t);
    OneTurn([3, v] + t, f); ByteTurn(f, 3, v, t);
    OneTurn([4, v] + t, f); ByteTurn(f, 4, v, t);
    OneTurn([5, v] + t, f); ByteTurn(f, 5, v, t);
    OneTurn([6, v] + t, f); ByteTurn(f, 6, v, t);
  }

  lemma ByteTurn(f: Fields, code: byte, v: byte, t: bytes)
    requires code in {0, 1, 3, 4, 5, 6}
    ensures var g := f.(seen := f.seen + {code});
            var h := if code == 0 then g.(version := v) else if code == 1 then g.(minVersion := v)
                     else if code == 3 then g.(contentIntegrity := v) else if code == 4 then g.(merkleHashFunction := v)
                     else if code == 5 then g.(liveSignature := v) else g.(chunkAddressing := v);
            ParseOption([code, v] + t, f) == Next(h, t)
  {
    assert ([code, v] + t)[2..] == t;
  }

  /** Code 9 reads four bytes, code 10 two; the port is not remembered as seen. */
  lemma NumberOptions(f: Fields, n: int32, p: int16, t: bytes)
    ensures ParseOptions([9] + Print32(n) + t, f) == ParseOptions(t, f.(chunkSize := n, seen := f.seen + {9}))
    ensures ParseOptions([10] + Print16(p) + t, f) == ParseOptions(t, f.(port := p))
  {
    hide Print32, Print16, Parse32, Parse16, ParseOptions;
    var s := [9] + Print32(n) + t;
    OneTurn(s, f);
    assert s[1..] == Print32(n) + t && s[5..] == t;
    RoundTrip32(n, t);
    var u := [10] + Print16(p) + t;
    OneTurn(u, f);
    assert u[1..] == Print16(p) + t && u[3..] == t;
    RoundTrip16(p, t);
  }

  lemma OneTurn(s: bytes, f: Fields)
    requires s != [] && s[0] != 255
    ensures ParseOption(s, f).Next? ==> ParseOptions(s, f) == ParseOptions(ParseOption(s, f).left, ParseOption(s, f).f)
    ensures ParseOption(s, f).Unknown? ==> ParseOptions(s, f) == Some(Parsed(f, s[1..]))
    ensures ParseOption(s, f).Overrun? ==> ParseOptions(s, f) == None
  {
    hide ParseOption;
  }

  /** The live discard window is four bytes for 32-bit chunk addressing (methods 0 and 2), eight for
      64-bit (1, 3 and 4), and nothing for any other method. */
  lemma WindowWidth(f: Fields, w: bytes, t: bytes)
    requires |w| == if f.chunkAddressing in {0, 2} then 4 else if f.chunkAddressing in {1, 3, 4} then 8 else 0
    ensures var g := f.(seen := f.seen + {7});
            ParseOptions([7] + w + t, f) == ParseOptions(t, if w == [] then g else g.(liveDiscardWindow := w))
  {
    var s := [7] + w + t;
    OneTurn(s, f);
    assert s[1..1 + |w|] == w && s[1 + |w|..] == t;
  }

  /** Codes 11 to 254 end the parse behind the code byte and change nothing. */
  lemma UnknownCode(f: Fields, code: byte, t: bytes)
    requires 11 <= code <= 254
    ensures ParseOptions([code] + t, f) == Some(Parsed(f, t))
  {
    OneTurn([code] + t, f);
    assert ([code] + t)[1..] == t;
  }

  /** A swarm identifier or bitmap of length zero, or of a length that reads as negative, leaves its field
      alone and ends with its length. */
  lemma EmptyVariable(f: Fields, len: int16, n: byte, t: bytes)
    ensures len <= 0 ==> ParseOptions([2] + Print16(len) + t, f) == ParseOptions(t, f.(seen := f.seen + {2}))
    ensures n == 0 || n >= 128 ==> ParseOptions([8, n] + t, f) == ParseOptions(t, f.(seen := f.seen + {8}))
  {
    hide Print16, Parse16;
    var s, u := [2] + Print16(len) + t, [8, n] + t;
    OneTurn(s, f);
    OneTurn(u, f);
    assert s[1..] == Print16(len) + t && s[3..] == t && u[2..] == t;
    RoundTrip16(len, t);
  }
}
