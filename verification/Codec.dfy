/** Encoding and decoding of frames (src/codec.cpp). */
module Codec {
  import opened Frames
  import opened Words
  import opened Crc

  // ---------- Big-endian fields ----------

  function AppendU16(output: Bytes, value: bv16): Bytes {
    output + [High16(value), Low16(value)]
  }

  function AppendU32(output: Bytes, value: bv32): Bytes {
    output + [First32(value), Second32(value), Third32(value), Fourth32(value)]
  }

  function ReadU16(bytes: Bytes, offset: nat): bv16
    requires offset + 2 <= |bytes|
  {
    Join16(bytes[offset], bytes[offset + 1])
  }

  function ReadU32(bytes: Bytes, offset: nat): bv32
    requires offset + 4 <= |bytes|
  {
    Join32(bytes[offset], bytes[offset + 1], bytes[offset + 2], bytes[offset + 3])
  }

  // ---------- The codec ----------

  function Header(frame: Frame): (r: Bytes)
    requires |frame.payload| <= MAXIMUM_PAYLOAD_SIZE
    ensures |r| == HEADER_SIZE
  {
    var id, address, length := frame.requestId, frame.address, Word16(|frame.payload|);
    [0x49, 0x4D, frame.version, frame.opcode, frame.flags, 0,
     First32(id), Second32(id), Third32(id), Fourth32(id),
     First32(address), Second32(address), Third32(address), Fourth32(address),
     High16(length), Low16(length),
     High16(frame.status), Low16(frame.status)]
  }

  /** Everything the checksum covers. */
  function Covered(frame: Frame): (r: Bytes)
    requires |frame.payload| <= MAXIMUM_PAYLOAD_SIZE
    ensures |r| == HEADER_SIZE + |frame.payload|
    ensures r[HEADER_SIZE..] == frame.payload
  {
    Header(frame) + frame.payload
  }

  function Encode(frame: Frame): EncodeResult {
    if frame.version != PROTOCOL_VERSION then NotEncoded(UnsupportedVersion)
    else if !IsSupportedOpcode(frame.opcode) then NotEncoded(UnsupportedOpcode)
    else if |frame.payload| > MAXIMUM_PAYLOAD_SIZE then NotEncoded(PayloadTooLarge)
    else if !HasValidSemantics(frame) then NotEncoded(InvalidSemantics)
    else Encoded(AppendU32(Covered(frame), Crc32(Covered(frame))))
  }

  /** The checks on the first six octets, in order. */
  function PrologueError(bytes: Bytes): Option<CodecError>
    requires |bytes| >= HEADER_SIZE
  {
    if !(bytes[0] == 0x49 && bytes[1] == 0x4D) then Some(BadMagic)
    else if bytes[2] != PROTOCOL_VERSION then Some(UnsupportedVersion)
    else if !IsSupportedOpcode(bytes[3]) then Some(UnsupportedOpcode)
    else if bytes[4] & !RESPONSE_FLAG != 0 then Some(UnsupportedFlags)
    else if bytes[5] != 0 then Some(NonzeroReserved)
    else None
  }

  function ReadFrame(bytes: Bytes): Frame
    requires |bytes| >= HEADER_SIZE + CHECKSUM_SIZE
  {
    Frame(PROTOCOL_VERSION, bytes[3], bytes[4], ReadU32(bytes, 6), ReadU32(bytes, 10), ReadU16(bytes, 16),
          bytes[HEADER_SIZE..|bytes| - CHECKSUM_SIZE])
  }

  function Decode(bytes: Bytes): DecodeResult {
    if |bytes| < HEADER_SIZE then Rejected(Truncated, 0)
    else if PrologueError(bytes).Some? then Rejected(PrologueError(bytes).value, 0)
    else
      var payloadSize := Value16(ReadU16(bytes, 14));
      var expectedSize := HEADER_SIZE + payloadSize + CHECKSUM_SIZE;
      if payloadSize > MAXIMUM_PAYLOAD_SIZE then Rejected(PayloadTooLarge, 0)
      else if |bytes| < expectedSize then Rejected(Truncated, 0)
      else if |bytes| != expectedSize then Rejected(LengthMismatch, expectedSize)
      else if Crc32(bytes[..|bytes| - CHECKSUM_SIZE]) != ReadU32(bytes, |bytes| - CHECKSUM_SIZE) then
        Rejected(ChecksumMismatch, expectedSize)
      else if !HasValidSemantics(ReadFrame(bytes)) then Rejected(InvalidSemantics, expectedSize)
      else Decoded(ReadFrame(bytes), expectedSize)
  }

  lemma HeaderByAppending(frame: Frame)
    requires |frame.payload| <= MAXIMUM_PAYLOAD_SIZE
    ensures var fixed := [0x49, 0x4D, frame.version, frame.opcode, frame.flags, 0];
            var words := AppendU32(AppendU32(fixed, frame.requestId), frame.address);
            AppendU16(AppendU16(words, Word16(|frame.payload|)), frame.status) == Header(frame)
  {
    hide First32, Second32, Third32, Fourth32, High16, Low16, Word16;
    var id, address, length := frame.requestId, frame.address, Word16(|frame.payload|);
    Flatten(0x49, 0x4D, frame.version, frame.opcode, frame.flags, 0,
            First32(id), Second32(id), Third32(id), Fourth32(id),
            First32(address), Second32(address), Third32(address), Fourth32(address),
            High16(length), Low16(length), High16(frame.status), Low16(frame.status));
  }

  lemma Flatten<T>(a: T, b: T, c: T, d: T, e: T, f: T, g: T, h: T, i: T,
                   j: T, k: T, l: T, m: T, n: T, o: T, p: T, q: T, r: T)
    ensures [a, b, c, d, e, f] + [g, h, i, j] + [k, l, m, n] + [o, p] + [q, r] ==
            [a, b, c, d, e, f, g, h, i, j, k, l, m, n, o, p, q, r]
  {
  }

  lemma LastFour<T>(s: seq<T>)
    requires |s| >= 4
    ensures var n := |s| - 4; s == s[..n] + [s[n], s[n + 1], s[n + 2], s[n + 3]]
  {
  }

  lemma FirstEighteen<T>(s: seq<T>)
    requires |s| >= 18
    ensures s[..18] == [s[0], s[1], s[2], s[3], s[4], s[5], s[6], s[7], s[8], s[9], s[10], s[11], s[12], s[13],
                        s[14], s[15], s[16], s[17]]
  {
  }

  /** The growing output buffer of encode. */
  method EncodeFrame(frame: Frame) returns (result: EncodeResult)
    ensures result == Encode(frame)
  {
    hide Crc32, AppendU16, AppendU32, Header, Word16, HasValidSemantics, IsSupportedOpcode;
    if frame.version != PROTOCOL_VERSION { return NotEncoded(UnsupportedVersion); }
    if !IsSupportedOpcode(frame.opcode) { return NotEncoded(UnsupportedOpcode); }
    if |frame.payload| > MAXIMUM_PAYLOAD_SIZE { return NotEncoded(PayloadTooLarge); }
    if !HasValidSemantics(frame) { return NotEncoded(InvalidSemantics); }
    var output: Bytes := [0x49, 0x4D];
    output := output + [frame.version];
    output := output + [frame.opcode];
    output := output + [frame.flags];
    output := output + [0];
    assert output == [0x49, 0x4D, frame.version, frame.opcode, frame.flags, 0];
    output := AppendU32(output, frame.requestId);
    output := AppendU32(output, frame.address);
    output := AppendU16(output, Word16(|frame.payload|));
    output := AppendU16(output, frame.status);
    HeaderByAppending(frame);
    output := output + frame.payload;
    var checksum := ComputeCrc32(output);
    output := AppendU32(output, checksum);
    return Encoded(output);
  }

  // ---------- Canonical wire form ----------

  predicate Encodable(frame: Frame) {
    Encode(frame).Encoded?
  }

  function Wire(frame: Frame): Bytes
    requires Encodable(frame)
  {
    Encode(frame).bytes
  }

  lemma ReadIs32(bytes: Bytes, offset: nat, value: bv32)
    requires offset + 4 <= |bytes|
    ensures ReadU32(bytes, offset) == value <==>
            bytes[offset] == First32(value) && bytes[offset + 1] == Second32(value) &&
            bytes[offset + 2] == Third32(value) && bytes[offset + 3] == Fourth32(value)
  {
    hide Join32, First32, Second32, Third32, Fourth32;
    JoinSplit32(value);
    SplitJoined32(bytes[offset], bytes[offset + 1], bytes[offset + 2], bytes[offset + 3]);
  }

  /** Where every field of a frame lies in the octets its checksum covers. */
  lemma Layout(frame: Frame)
    requires |frame.payload| <= MAXIMUM_PAYLOAD_SIZE
    ensures var c := Covered(frame);
            && c[..6] == [0x49, 0x4D, frame.version, frame.opcode, frame.flags, 0]
            && ReadU32(c, 6) == frame.requestId
            && ReadU32(c, 10) == frame.address
            && Value16(ReadU16(c, 14)) == |frame.payload|
            && ReadU16(c, 16) == frame.status
  {
    hide First32, Second32, Third32, Fourth32, Join32, High16, Low16, Join16, Value16, Word16;
    JoinSplit32(frame.requestId);
    JoinSplit32(frame.address);
    JoinSplit16(Word16(|frame.payload|));
    JoinSplit16(frame.status);
    ValueOfWord16(|frame.payload|);
  }

  lemma SemanticsFlags(frame: Frame)
    requires HasValidSemantics(frame)
    ensures frame.flags & !RESPONSE_FLAG == 0
  {
  }

  lemma ReadPrefix(c: Bytes, bytes: Bytes)
    requires HEADER_SIZE <= |c| <= |bytes| && bytes[..|c|] == c
    ensures bytes[..6] == c[..6]
    ensures ReadU32(bytes, 6) == ReadU32(c, 6) && ReadU32(bytes, 10) == ReadU32(c, 10)
    ensures ReadU16(bytes, 14) == ReadU16(c, 14) && ReadU16(bytes, 16) == ReadU16(c, 16)
  {
    hide Join32, Join16;
    assert forall i :: 0 <= i < |c| ==> bytes[i] == bytes[..|c|][i];
  }

  lemma DecodeWire(frame: Frame)
    requires Encodable(frame)
    ensures Decode(Wire(frame)) == Decoded(frame, |Wire(frame)|)
  {
    hide Crc32, Covered, HasValidSemantics, IsSupportedOpcode;
    hide First32, Second32, Third32, Fourth32, Join32, Join16, Value16;
    var covered, bytes := Covered(frame), Wire(frame);
    var n := |covered|;
    assert bytes[..n] == covered;
    Layout(frame);
    ReadPrefix(covered, bytes);
    SemanticsFlags(frame);
    assert bytes[..6] == [0x49, 0x4D, frame.version, frame.opcode, frame.flags, 0];
    assert bytes[0] == bytes[..6][0] && bytes[1] == bytes[..6][1] && bytes[2] == bytes[..6][2] &&
           bytes[3] == bytes[..6][3] && bytes[4] == bytes[..6][4] && bytes[5] == bytes[..6][5];
    ReadIs32(bytes, n, Crc32(covered));
    assert bytes[HEADER_SIZE..n] == covered[HEADER_SIZE..];
  }

  lemma CoveredOfRead(bytes: Bytes)
    requires |bytes| >= HEADER_SIZE + CHECKSUM_SIZE && PrologueError(bytes).None?
    requires Value16(ReadU16(bytes, 14)) == |bytes| - HEADER_SIZE - CHECKSUM_SIZE <= MAXIMUM_PAYLOAD_SIZE
    ensures Covered(ReadFrame(bytes)) == bytes[..|bytes| - CHECKSUM_SIZE]
  {
    hide First32, Second32, Third32, Fourth32, Join32, High16, Low16, Join16, Value16, Word16, IsSupportedOpcode;
    var frame := ReadFrame(bytes);
    SplitJoined32(bytes[6], bytes[7], bytes[8], bytes[9]);
    SplitJoined32(bytes[10], bytes[11], bytes[12], bytes[13]);
    WordOfValue16(ReadU16(bytes, 14));
    SplitJoined16(bytes[14], bytes[15]);
    SplitJoined16(bytes[16], bytes[17]);
    FirstEighteen(bytes);
    assert bytes[..HEADER_SIZE] + frame.payload == bytes[..|bytes| - CHECKSUM_SIZE];
  }

  lemma WireOfDecoded(bytes: Bytes)
    requires Decode(bytes).Decoded?
    ensures Encode(Decode(bytes).frame) == Encoded(bytes)
    ensures Decode(bytes).consumed == |bytes|
  {
    hide Crc32, Covered, HasValidSemantics;
    hide First32, Second32, Third32, Fourth32, Join32, Join16, Value16;
    var n := |bytes| - CHECKSUM_SIZE;
    CoveredOfRead(bytes);
    ReadIs32(bytes, n, Crc32(bytes[..n]));
    LastFour(bytes);
  }

  lemma EncodableFacts(frame: Frame)
    requires Encodable(frame)
    ensures HasValidSemantics(frame)
    ensures |frame.payload| <= MAXIMUM_PAYLOAD_SIZE
    ensures |Wire(frame)| == HEADER_SIZE + |frame.payload| + CHECKSUM_SIZE
  {
    hide HasValidSemantics, Header;
  }

  /** The decoder accepts exactly the image of the encoder, and gives back exactly what was encoded. */
  lemma Canonical(frame: Frame, bytes: Bytes, consumed: nat)
    ensures Decode(bytes) == Decoded(frame, consumed) <==> Encode(frame) == Encoded(bytes) && consumed == |bytes|
  {
    hide Encode, Decode;
    if Decode(bytes) == Decoded(frame, consumed) {
      WireOfDecoded(bytes);
    }
    if Encode(frame) == Encoded(bytes) {
      DecodeWire(frame);
    }
  }

  // ---------- Where the codec is wider than the protocol document ----------

  /** A read request encodes whatever its two length octets are, 0 and more than 256 included. */
  lemma AnyRequestedLength(frame: Frame)
    requires frame.version == PROTOCOL_VERSION && frame.opcode == READ_REQUEST && frame.flags == 0
    requires frame.status == OK
    ensures Encodable(frame) <==> |frame.payload| == 2
  {
    hide Crc32, Header;
  }

  /** Any status but ok, named or not, travels in an error response, and in no other frame. */
  lemma AnyErrorStatus(frame: Frame)
    requires frame.version == PROTOCOL_VERSION && |frame.payload| <= MAXIMUM_PAYLOAD_SIZE && frame.status != OK
    ensures Encodable(frame) <==> frame.opcode == ERROR_RESPONSE && frame.flags == RESPONSE_FLAG
  {
    hide Crc32, Header;
    OnlyResponseFlag(frame.flags);
  }

  lemma OnlyResponseFlag(flags: bv8)
    ensures flags & RESPONSE_FLAG != 0 && flags & !RESPONSE_FLAG == 0 <==> flags == RESPONSE_FLAG
  {
  }

  /** So a decoded frame carries a status other than ok exactly when it is an error response. */
  lemma DecodedStatus(bytes: Bytes)
    requires Decode(bytes).Decoded?
    ensures Decode(bytes).frame.status != OK <==> Decode(bytes).frame.opcode == ERROR_RESPONSE
  {
    WireOfDecoded(bytes);
    EncodableFacts(Decode(bytes).frame);
    hide Decode, Encode;
  }

  // ---------- Where one frame ends ----------

  /** A frame that is cut short is rejected as truncated, whatever is cut off. */
  lemma CutShort(frame: Frame, n: nat)
    requires Encodable(frame) && n < |Wire(frame)|
    ensures Decode(Wire(frame)[..n]) == Rejected(Truncated, 0)
  {
    hide Crc32, First32, Second32, Third32, Fourth32, Join32, High16, Low16, Join16, Value16, Word16;
    var bytes := Wire(frame);
    var cut := bytes[..n];
    DecodeWire(frame);
    if n >= HEADER_SIZE {
      assert ReadU16(cut, 14) == ReadU16(bytes, 14);
    }
  }

  /** Octets after a complete frame are rejected, and the size of the frame alone is reported. */
  lemma TrailingOctets(frame: Frame, extra: Bytes)
    requires Encodable(frame) && extra != []
    ensures Decode(Wire(frame) + extra) == Rejected(LengthMismatch, |Wire(frame)|)
  {
    hide Crc32, First32, Second32, Third32, Fourth32, Join32, High16, Low16, Join16, Value16, Word16;
    var bytes := Wire(frame);
    DecodeWire(frame);
    assert ReadU16(bytes + extra, 14) == ReadU16(bytes, 14);
  }

  lemma SamePrologue(bytes: Bytes, other: Bytes)
    requires |bytes| >= HEADER_SIZE && |other| >= HEADER_SIZE && bytes[..6] == other[..6]
    ensures PrologueError(bytes) == PrologueError(other)
  {
    hide IsSupportedOpcode;
    assert forall i :: 0 <= i < 6 ==> bytes[i] == bytes[..6][i] == other[..6][i] == other[i];
  }

  /** A complete frame whose checksum field alone was changed is rejected for its checksum. */
  lemma ChangedChecksum(frame: Frame, bytes: Bytes)
    requires Encodable(frame)
    requires |bytes| == |Wire(frame)| && bytes != Wire(frame)
    requires bytes[..|bytes| - CHECKSUM_SIZE] == Wire(frame)[..|bytes| - CHECKSUM_SIZE]
    ensures Decode(bytes) == Rejected(ChecksumMismatch, |bytes|)
  {
    hide Crc32, Encode, HasValidSemantics, IsSupportedOpcode;
    hide First32, Second32, Third32, Fourth32, Join32, High16, Low16, Join16, Value16, Word16;
    var wire, n := Wire(frame), |bytes| - CHECKSUM_SIZE;
    DecodeWire(frame);
    ReadPrefix(wire[..n], wire);
    ReadPrefix(wire[..n], bytes);
    SamePrologue(bytes, wire);
    ReadIs32(bytes, n, Crc32(bytes[..n]));
    ReadIs32(wire, n, Crc32(bytes[..n]));
    LastFour(bytes);
    LastFour(wire);
  }
}
